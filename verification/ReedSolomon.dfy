// What the erasure coder computes, column by column: x is the vector of the k
// data bytes found at one position of the k data units, and every unit, data or
// parity, holds at that position the product of its generator row with x.

module ReedSolomon {
  import opened Bytes
  import opened Gf256
  import opened Linear
  import opened GaussJordan
  import opened Cauchy

  // The byte unit r holds for the data column x.
  function UnitByte(k: nat, r: nat, x: Vec): Byte
    requires k <= 256 && r < 256 && |x| == k
  {
    Dot(GeneratorRow(k, r), x, k)
  }

  lemma DataUnitByte(k: nat, r: nat, x: Vec)
    requires r < k <= 256 && |x| == k
    ensures UnitByte(k, r, x) == x[r]
  {
    hide GfMul, Add;
    DotUnit(k, r, x, k);
  }

  // What unit r of a stretch holds, given the stretch's data columns.
  function UnitBytes(k: nat, r: nat, columns: seq<Vec>): (v: Vec)
    requires k <= 256 && r < 256 && forall t :: 0 <= t < |columns| ==> |columns[t]| == k
    ensures |v| == |columns|
  {
    seq(|columns|, t requires 0 <= t < |columns| => UnitByte(k, r, columns[t]))
  }

  predicate Indexes(s: seq<nat>) {
    forall i :: 0 <= i < |s| ==> s[i] < 256
  }

  function Codeword(k: nat, units: seq<nat>, x: Vec): (y: Vec)
    requires k <= 256 && Indexes(units) && |x| == k
    ensures |y| == |units|
  {
    seq(|units|, i requires 0 <= i < |units| => UnitByte(k, units[i], x))
  }

  // ----- the decode matrix, as generateDecodeMatrix fills it

  function CountData(k: nat, erased: seq<nat>): (c: nat)
    ensures c <= |erased|
  {
    if erased == [] then 0
    else CountData(k, erased[..|erased| - 1]) + if erased[|erased| - 1] < k then 1 else 0
  }

  // The inverse of the generator rows of the first k valid units.
  function InverseFor(k: nat, valid: seq<nat>): (inv: Matrix)
    requires k <= 256 && |valid| == k && Indexes(valid) && Distinct(valid)
    ensures Shape(inv, k, k)
  {
    AnyRowsInvertible(k, valid);
    Invert(Select(k, valid), k).inverse
  }

  // Row i of the decode matrix. Only the first CountData entries of erased are
  // looked up as data units; a parity index found among them reads a row below
  // the inverse, where the buffer still holds zeros.
  function DecodeRow(k: nat, inv: Matrix, erased: seq<nat>, i: nat): (row: Vec)
    requires k <= 256 && Shape(inv, k, k) && Indexes(erased) && i < |erased|
    ensures |row| == k
  {
    if i < CountData(k, erased) then
      if erased[i] < k then inv[erased[i]] else Zeros(k)
    else
      seq(k, c requires 0 <= c < k => Dot(Column(inv, c), GeneratorRow(k, erased[i]), k))
  }

  // Data units come before parity units.
  predicate DataFirst(k: nat, erased: seq<nat>) {
    forall i :: 0 <= i < CountData(k, erased) ==> erased[i] < k
  }

  lemma {:induction false} DotComm(u: Vec, v: Vec, n: nat)
    requires n <= |u| && n <= |v|
    ensures Dot(u, v, n) == Dot(v, u, n)
  {
    hide GfMul, Add;
    if n != 0 {
      DotComm(u, v, n - 1);
      MulComm(u[n - 1], v[n - 1]);
    }
  }

  lemma CodewordIsImage(k: nat, valid: seq<nat>, x: Vec)
    requires k <= 256 && Indexes(valid) && |x| == k
    ensures Codeword(k, valid, x) == MatVec(Select(k, valid), x)
  {
    hide Dot, GeneratorRow;
  }

  // A correct row turns the k surviving bytes into the erased unit's byte.
  lemma DecodeRowCorrect(k: nat, valid: seq<nat>, erased: seq<nat>, i: nat, x: Vec)
    requires k <= 256 && |valid| == k && Indexes(valid) && Distinct(valid) && Indexes(erased)
    requires i < |erased| && |x| == k
    requires i < CountData(k, erased) ==> erased[i] < k
    ensures Dot(DecodeRow(k, InverseFor(k, valid), erased, i), Codeword(k, valid, x), k) ==
            UnitByte(k, erased[i], x)
  {
    hide GfMul, Add, Dot, GeneratorRow, Select, Invert, CountData;
    var inv, y := InverseFor(k, valid), Codeword(k, valid, x);
    AnyRowsInvertible(k, valid);
    CodewordIsImage(k, valid, x);
    LeftInverseRecovers(inv, Select(k, valid), k, x);
    assert MatVec(inv, y) == x;
    if i < CountData(k, erased) {
      DataUnitByte(k, erased[i], x);
      assert MatVec(inv, y)[erased[i]] == x[erased[i]];
    } else {
      var g := GeneratorRow(k, erased[i]);
      VecMatAssoc(g, inv, y, k);
      forall c | 0 <= c < k ensures Dot(Column(inv, c), g, k) == Dot(g, Column(inv, c), k) {
        DotComm(Column(inv, c), g, k);
      }
      assert DecodeRow(k, inv, erased, i) == VecMat(g, inv, k, k);
    }
  }

  // Decoding undoes encoding: for every data column and every list of erased
  // units, data before parity, the decode matrix applied to any k surviving
  // units gives back the erased units.
  lemma DecodeUndoesEncode(k: nat, valid: seq<nat>, erased: seq<nat>, x: Vec)
    requires k <= 256 && |valid| == k && Indexes(valid) && Distinct(valid) && Indexes(erased)
    requires |x| == k && DataFirst(k, erased)
    ensures forall i :: 0 <= i < |erased| ==>
              Dot(DecodeRow(k, InverseFor(k, valid), erased, i), Codeword(k, valid, x), k) ==
              UnitByte(k, erased[i], x)
  {
    hide DecodeRow, InverseFor, Codeword, UnitByte, Dot;
    forall i | 0 <= i < |erased|
      ensures Dot(DecodeRow(k, InverseFor(k, valid), erased, i), Codeword(k, valid, x), k) ==
              UnitByte(k, erased[i], x)
    {
      DecodeRowCorrect(k, valid, erased, i, x);
    }
  }

  // Every erased byte is recovered, whatever the data.
  ghost predicate Recovers(k: nat, valid: seq<nat>, erased: seq<nat>)
    requires 0 < k <= 256 && |valid| == k && Indexes(valid) && Distinct(valid) && Indexes(erased)
  {
    forall i, x: Vec :: 0 <= i < |erased| && |x| == k ==>
      Dot(DecodeRow(k, InverseFor(k, valid), erased, i), Codeword(k, valid, x), k) ==
      UnitByte(k, erased[i], x)
  }

  // The order of the erased list matters, and this is exactly how.
  lemma RecoversIffDataFirst(k: nat, valid: seq<nat>, erased: seq<nat>)
    requires 0 < k <= 256 && |valid| == k && Indexes(valid) && Distinct(valid) && Indexes(erased)
    ensures Recovers(k, valid, erased) <==> DataFirst(k, erased)
  {
    hide DecodeRow, InverseFor, Codeword, UnitByte, Dot, CountData;
    if DataFirst(k, erased) {
      forall i, x: Vec | 0 <= i < |erased| && |x| == k
        ensures Dot(DecodeRow(k, InverseFor(k, valid), erased, i), Codeword(k, valid, x), k) ==
                UnitByte(k, erased[i], x)
      {
        DecodeRowCorrect(k, valid, erased, i, x);
      }
    } else {
      var i :| 0 <= i < CountData(k, erased) && erased[i] >= k;
      MisplacedParityLost(k, valid, erased, i);
    }
  }

  lemma MisplacedParityLost(k: nat, valid: seq<nat>, erased: seq<nat>, i: nat)
    requires 0 < k <= 256 && |valid| == k && Indexes(valid) && Distinct(valid) && Indexes(erased)
    requires i < CountData(k, erased) && erased[i] >= k
    ensures Dot(DecodeRow(k, InverseFor(k, valid), erased, i), Codeword(k, valid, UnitVec(k, 0)), k) == 0
    ensures UnitByte(k, erased[i], UnitVec(k, 0)) != 0
  {
    hide GfMul, Add, GfInv, Dot, InverseFor, CountData, Point, Codeword;
    var x := UnitVec(k, 0);
    DotZero(Codeword(k, valid, x), k);
    var g := GeneratorRow(k, erased[i]);
    DotComm(g, x, k);
    DotUnit(k, 0, g, k);
    PointInjective(erased[i], 0);
    MulInv(Add(Point(erased[i]), Point(0)));
  }
}
