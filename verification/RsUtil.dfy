// RSUtil and GF256::gfVectMulInit: filling the coding matrix and its tables, and
// the loop that multiplies and accumulates whole buffers, eight bytes at a time.

module RsUtil {
  import opened Bytes
  import opened GfTables
  import opened Gf256
  import opened Linear
  import opened Cauchy
  import opened MatrixCode

  // ----- gfVectMulInit

  // The nibbles 0x00 .. 0x0f and 0x00 .. 0xf0 a multiplication table is indexed by.
  function Nibbles(): (v: Vec)
    ensures |v| == 32
  {
    [0x00, 0x01, 0x02, 0x03, 0x04, 0x05, 0x06, 0x07, 0x08, 0x09, 0x0a, 0x0b, 0x0c, 0x0d, 0x0e, 0x0f,
     0x00, 0x10, 0x20, 0x30, 0x40, 0x50, 0x60, 0x70, 0x80, 0x90, 0xa0, 0xb0, 0xc0, 0xd0, 0xe0, 0xf0]
  }

  // c times each of them.
  function ProductTable(c: Byte): (t: Vec)
    ensures |t| == 32
  {
    seq(32, i requires 0 <= i < 32 => GfMul(c, Nibbles()[i]))
  }

  // 0, g, .. 15g as the code builds them: 4g is added to the first four
  // multiples, and 8g to the first eight.
  function Raise(low: Vec, h: Byte): (v: Vec)
    ensures |v| == |low|
  {
    seq(|low|, i requires 0 <= i < |low| => if i == 0 then h else Add(h, low[i]))
  }

  function Four(g: Byte): (v: Vec)
    ensures |v| == 4
  {
    [0, g, Xtime(g), Add(Xtime(g), g)]
  }

  function Eight(g: Byte): (v: Vec)
    ensures |v| == 8
  {
    Four(g) + Raise(Four(g), Xtime(Xtime(g)))
  }

  function Sixteen(g: Byte): (v: Vec)
    ensures |v| == 16
  {
    Eight(g) + Raise(Eight(g), Xtime(Xtime(Xtime(g))))
  }

  // v is c times w, entry by entry.
  ghost predicate Scaled(v: Vec, c: Byte, w: Vec) {
    |v| == |w| && forall i :: 0 <= i < |v| ==> v[i] == GfMul(c, w[i])
  }

  lemma RaiseScales(c: Byte, v: Vec, w: Vec, h: Byte)
    requires Scaled(v, c, w) && |w| > 0
    ensures Scaled(v + Raise(v, GfMul(c, h)), c, w + Raise(w, h))
  {
    hide GfMul, Add;
    forall i | 0 <= i < |w| ensures Raise(v, GfMul(c, h))[i] == GfMul(c, Raise(w, h)[i]) {
      MulDistrib(c, h, w[i]);
    }
  }

  lemma SixteenScales(c: Byte, u: Byte)
    ensures Scaled(Sixteen(GfMul(c, u)), c, Sixteen(u))
  {
    hide GfMul, Xtime, Add, Raise;
    MulZero(c);
    MulXtime(c, u); MulXtime(c, Xtime(u)); MulXtime(c, Xtime(Xtime(u)));
    MulDistrib(c, Xtime(u), u);
    assert Scaled(Four(GfMul(c, u)), c, Four(u));
    hide Four, Scaled;
    RaiseScales(c, Four(GfMul(c, u)), Four(u), Xtime(Xtime(u)));
    RaiseScales(c, Eight(GfMul(c, u)), Eight(u), Xtime(Xtime(Xtime(u))));
  }

  lemma LowNibbles()
    ensures Sixteen(0x01) == Nibbles()[..16]
  {}

  lemma HighNibbles()
    ensures Sixteen(0x10) == Nibbles()[16..]
  {}

  lemma TableBySums(c: Byte)
    ensures Sixteen(c) + Sixteen(TimesX(4, c)) == ProductTable(c)
  {
    hide GfMul, TimesX, Add, Sixteen, Nibbles;
    MonomialIsPower(4);
    MulOne(c);
    MulMonomial(c, 4);
    SixteenScales(c, 0x01);
    SixteenScales(c, 0x10);
    LowNibbles();
    HighNibbles();
    assert Nibbles() == Nibbles()[..16] + Nibbles()[16..];
  }

  // A table of products for the single coefficient c, at tbl[offset..offset + 32].
  method GfVectMulInit(c: Byte, tbl: array<Byte>, offset: nat)
    requires offset + 32 <= tbl.Length
    modifies tbl
    ensures tbl[..] == Splice(old(tbl[..]), offset, ProductTable(c))
  {
    hide TimesX, Sixteen, ProductTable;
    var c17 := TimesX(4, c);
    var products := Sixteen(c) + Sixteen(c17);
    TableBySums(c);
    ghost var s := tbl[..];
    for i := 0 to 32
      invariant forall q :: offset <= q < offset + i ==> tbl[q] == products[q - offset]
      invariant forall q :: 0 <= q < tbl.Length && !(offset <= q < offset + i) ==> tbl[q] == s[q]
    {
      tbl[offset + i] := products[i];
    }
    SpliceFrom(tbl[..], s, offset, ProductTable(c));
  }

  // ----- initTables

  function TableAt(tables: Vec, u: nat): (t: Vec)
    requires 32 * u + 32 <= |tables|
  {
    tables[32 * u..32 * u + 32]
  }

  ghost predicate TablesTo(tables: Vec, codingMatrix: Vec, matrixOffset: nat, n: nat)
    requires 32 * n <= |tables| && matrixOffset + n <= |codingMatrix|
  {
    forall u :: 0 <= u < n ==> TableAt(tables, u) == ProductTable(codingMatrix[matrixOffset + u])
  }

  // One product table per coefficient of a rows-by-k matrix, in matrix order.
  method InitTables(k: nat, rows: nat, codingMatrix: Vec, matrixOffset: nat, gfTables: array<Byte>)
    requires matrixOffset + rows * k <= |codingMatrix| && 32 * (rows * k) <= gfTables.Length
    modifies gfTables
    ensures TablesTo(gfTables[..], codingMatrix, matrixOffset, rows * k)
    ensures gfTables[32 * (rows * k)..] == old(gfTables[32 * (rows * k)..])
  {
    hide TablesTo;
    var offset, idx := 0, matrixOffset;
    TablesNone(gfTables[..], codingMatrix, matrixOffset);
    ghost var n := rows * k;
    for i := 0 to rows
      invariant i * k <= n && idx == matrixOffset + i * k && offset == 32 * (i * k)
      invariant TablesTo(gfTables[..], codingMatrix, matrixOffset, i * k)
      invariant gfTables[32 * n..] == old(gfTables[32 * n..])
    {
      RowFits(i, rows, k);
      ghost var row := i * k;
      for j := 0 to k
        invariant row == i * k && idx == matrixOffset + row + j && offset == 32 * (row + j)
        invariant TablesTo(gfTables[..], codingMatrix, matrixOffset, row + j)
        invariant gfTables[32 * n..] == old(gfTables[32 * n..])
      {
        InitOne(gfTables, offset, codingMatrix, matrixOffset, idx, row + j, n);
        idx := idx + 1;
        offset := offset + 32;
      }
      assert (i + 1) * k == row + k;
    }
  }

  lemma TablesNone(tables: Vec, codingMatrix: Vec, matrixOffset: nat)
    requires matrixOffset <= |codingMatrix|
    ensures TablesTo(tables, codingMatrix, matrixOffset, 0)
  {}

  method InitOne(gfTables: array<Byte>, offset: nat, codingMatrix: Vec, matrixOffset: nat, idx: nat,
                 ghost u: nat, ghost n: nat)
    requires u < n && 32 * n <= gfTables.Length && matrixOffset + n <= |codingMatrix|
    requires offset == 32 * u && idx == matrixOffset + u
    requires TablesTo(gfTables[..], codingMatrix, matrixOffset, u)
    modifies gfTables
    ensures TablesTo(gfTables[..], codingMatrix, matrixOffset, u + 1)
    ensures gfTables[32 * n..] == old(gfTables[32 * n..])
  {
    hide ProductTable;
    ghost var s := gfTables[..];
    GfVectMulInit(codingMatrix[idx], gfTables, offset);
    ghost var t := gfTables[..];
    assert t == Splice(s, 32 * u, ProductTable(codingMatrix[idx]));
    forall v | 0 <= v < u ensures TableAt(t, v) == TableAt(s, v) {}
    assert gfTables[32 * n..] == t[32 * n..] == s[32 * n..];
  }

  // ----- genCauchyMatrix

  // Identity on top, 1 / (i ^ j) below, in a matrix that starts out zero.
  method GenCauchyMatrix(a: array<Byte>, m: nat, k: nat)
    requires k <= m <= 256 && m * k <= a.Length
    requires forall q :: 0 <= q < m * k ==> a[q] == 0
    modifies a
    ensures RowsOf(a[..], k, m) == Generator(k, m)
  {
    hide GeneratorRow, RowsOf, Partial;
    RowsAreZero(a[..], k, m);
    for i := 0 to k
      invariant RowsOf(a[..], k, m) == Partial(k, m, i)
    {
      PutUnitRow(a, m, k, i);
    }
    var pos := k * k;
    for i := k to m
      invariant pos == i * k
      invariant RowsOf(a[..], k, m) == Partial(k, m, i)
    {
      pos := PutCauchyRow(a, m, k, i, pos);
    }
    PartialAll(k, m);
  }

  method PutUnitRow(a: array<Byte>, m: nat, k: nat, i: nat)
    requires i < k <= m <= 256 && m * k <= a.Length && RowsOf(a[..], k, m) == Partial(k, m, i)
    modifies a
    ensures RowsOf(a[..], k, m) == Partial(k, m, i + 1)
  {
    RowFits(i, m, k);
    ghost var s := a[..];
    assert RowsOf(s, k, m)[i] == Zeros(k);
    assert forall q :: i * k <= q < i * k + k ==> s[q] == RowsOf(s, k, m)[i][q - i * k];
    a[k * i + i] := 1;
    SpliceFrom(a[..], s, i * k, UnitVec(k, i));
    hide Splice, RowsOf, Partial;
    RowsSplice(s, k, m, i, UnitVec(k, i));
    PartialStep(k, m, i);
  }

  method PutCauchyRow(a: array<Byte>, m: nat, k: nat, i: nat, at: nat) returns (pos: nat)
    requires k <= i < m <= 256 && m * k <= a.Length && at == i * k
    requires RowsOf(a[..], k, m) == Partial(k, m, i)
    modifies a
    ensures RowsOf(a[..], k, m) == Partial(k, m, i + 1) && pos == (i + 1) * k
  {
    hide GfInv, Point, Add, Splice, RowsOf, Partial;
    RowFits(i, m, k);
    ghost var s := a[..];
    pos := at;
    for j := 0 to k
      invariant pos == at + j
      invariant forall q :: at <= q < at + j ==> a[q] == GeneratorRow(k, i)[q - at]
      invariant forall q :: 0 <= q < a.Length && !(at <= q < at + j) ==> a[q] == s[q]
    {
      a[pos] := GfInv(Add(Point(i), Point(j)));
      pos := pos + 1;
    }
    SpliceFrom(a[..], s, at, GeneratorRow(k, i));
    RowsSplice(s, k, m, i, GeneratorRow(k, i));
    PartialStep(k, m, i);
  }

  // The first n rows of the generator above zero rows.
  ghost function Partial(k: nat, m: nat, n: nat): (g: Matrix)
    requires k <= m <= 256 && n <= m
    ensures Shape(g, m, k)
  {
    seq(m, r requires 0 <= r < m => if r < n then GeneratorRow(k, r) else Zeros(k))
  }

  lemma PartialStep(k: nat, m: nat, n: nat)
    requires k <= m <= 256 && n < m
    ensures Partial(k, m, n + 1) == Partial(k, m, n)[n := GeneratorRow(k, n)]
  {
    hide GeneratorRow;
  }

  lemma PartialAll(k: nat, m: nat)
    requires k <= m <= 256
    ensures Partial(k, m, m) == Generator(k, m)
  {
    hide GeneratorRow;
  }

  lemma RowsAreZero(a: Vec, k: nat, m: nat)
    requires k <= m <= 256 && m * k <= |a|
    requires forall q :: 0 <= q < m * k ==> a[q] == 0
    ensures RowsOf(a, k, m) == Partial(k, m, 0)
  {
    hide GeneratorRow;
    forall r | 0 <= r < m ensures RowsOf(a, k, m)[r] == Zeros(k) {
      RowFits(r, m, k);
    }
  }
}
