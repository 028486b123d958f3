// RawErasureEncoder and RawErasureDecoder: the coders with their matrices, the
// decoder's cache, and the theorem that decoding undoes encoding.

module RawCoder {
  import opened Bytes
  import opened Gf256
  import opened Linear
  import opened GaussJordan
  import opened Cauchy
  import opened MatrixCode
  import opened RsUtil
  import opened EncodeLoop
  import opened ReedSolomon
  import opened Buffers

  const FIELD_SIZE: nat := 256

  // ----- tables and coefficients

  lemma TableCoefficient(c: Byte)
    ensures ProductTable(c)[1] == c
  {
    hide GfMul;
    MulOne(c);
  }

  // The tables of a matrix give the matrix back as coefficients.
  lemma TablesGiveRows(tables: Vec, m: Vec, matrixOffset: nat, rows: nat, k: nat)
    requires matrixOffset + rows * k <= |m| && 32 * (rows * k) <= |tables|
    requires TablesTo(tables, m, matrixOffset, rows * k)
    ensures CoefficientRows(tables, rows, k) == RowsOf(m[matrixOffset..], k, rows)
  {
    hide TablesTo, RowsOf, CoefficientRows;
    forall l | 0 <= l < rows
      ensures CoefficientRows(tables, rows, k)[l] == RowsOf(m[matrixOffset..], k, rows)[l]
    {
      RowGivenBack(tables, m, matrixOffset, rows, k, l);
    }
  }

  lemma RowGivenBack(tables: Vec, m: Vec, matrixOffset: nat, rows: nat, k: nat, l: nat)
    requires matrixOffset + rows * k <= |m| && 32 * (rows * k) <= |tables| && l < rows
    requires TablesTo(tables, m, matrixOffset, rows * k)
    ensures CoefficientRows(tables, rows, k)[l] == RowsOf(m[matrixOffset..], k, rows)[l]
  {
    hide TablesTo, RowsOf, Coefficients;
    RowIs(m[matrixOffset..], k, rows, l);
    SliceGivenBack(tables, m, matrixOffset, rows * k, l * k, k);
    CoefficientsAre(tables, rows, k, l, l * k);
  }

  lemma CoefficientsAre(tables: Vec, rows: nat, k: nat, l: nat, from: nat)
    requires 32 * (rows * k) <= |tables| && l < rows && from == l * k && 32 * (from + k) <= |tables|
    ensures Coefficients(tables, rows, k, l) == TableEntries(tables, from, k)
  {}

  // The coefficients of k tables, from one on.
  function TableEntries(tables: Vec, from: nat, k: nat): (row: Vec)
    requires 32 * (from + k) <= |tables|
    ensures |row| == k
  {
    seq(k, j requires 0 <= j < k => tables[32 * (from + j) + 1])
  }

  lemma SliceGivenBack(tables: Vec, m: Vec, matrixOffset: nat, n: nat, from: nat, k: nat)
    requires matrixOffset + n <= |m| && 32 * n <= |tables| && from + k <= n && TablesTo(tables, m, matrixOffset, n)
    ensures TableEntries(tables, from, k) == m[matrixOffset..][from..from + k]
  {
    hide TablesTo;
    forall j | 0 <= j < k ensures TableEntries(tables, from, k)[j] == m[matrixOffset..][from..from + k][j] {
      CoefficientBack(tables, m, matrixOffset, n, from + j);
    }
  }

  lemma CoefficientBack(tables: Vec, m: Vec, matrixOffset: nat, n: nat, u: nat)
    requires matrixOffset + n <= |m| && 32 * n <= |tables| && u < n && TablesTo(tables, m, matrixOffset, n)
    ensures tables[32 * u + 1] == m[matrixOffset + u]
  {
    hide ProductTable;
    assert TableAt(tables, u)[1] == tables[32 * u + 1];
    TableCoefficient(m[matrixOffset + u]);
  }

  // ----- zeroing outputs

  ghost predicate Zeroed(now: Vec, was: Vec, outs: seq<nat>, len: nat, n: nat)
    requires |now| == |was| && n <= |outs| && InMemory(outs, len, |was|)
  {
    && (forall l, t :: 0 <= l < n && outs[l] <= t < outs[l] + len ==> now[t] == 0)
    && (forall q :: 0 <= q < |was| && Outside(q, outs, len, n) ==> now[q] == was[q])
  }

  // resetOutputBuffers.
  method ResetOutputBuffers(mem: array<Byte>, outs: seq<nat>, len: nat)
    requires InMemory(outs, len, mem.Length)
    modifies mem
    ensures Zeroed(mem[..], old(mem[..]), outs, len, |outs|)
  {
    for l := 0 to |outs|
      invariant Zeroed(mem[..], old(mem[..]), outs, len, l)
    {
      ghost var before := mem[..];
      for t := 0 to len
        invariant forall q :: outs[l] <= q < outs[l] + t ==> mem[q] == 0
        invariant forall q :: 0 <= q < mem.Length && !(outs[l] <= q < outs[l] + t) ==> mem[q] == before[q]
      {
        mem[outs[l] + t] := 0;
      }
      ghost var now := mem[..];
      forall l', t | 0 <= l' < l && outs[l'] <= t < outs[l'] + len ensures now[t] == 0 {
        assert before[t] == 0;
      }
      forall q | 0 <= q < |now| && Outside(q, outs, len, l + 1) ensures now[q] == old(mem[..])[q] {
        assert Outside(q, outs, len, l);
      }
    }
  }

  // Zeroing then encoding leaves in every output the dot product of its row with
  // the input column, and the rest of memory as it was.
  ghost predicate Combines(now: Vec, was: Vec, rows: Matrix, ins: seq<nat>, outs: seq<nat>, len: nat)
    requires |now| == |was| && InMemory(ins, len, |was|) && InMemory(outs, len, |was|)
    requires Shape(rows, |outs|, |ins|)
  {
    && (forall l, t :: 0 <= l < |outs| && 0 <= t < len ==> ByteIs(now, outs[l], t, was, rows[l], ins))
    && (forall q :: 0 <= q < |was| && Outside(q, outs, len, |outs|) ==> now[q] == was[q])
  }

  // Byte t of the output at o is the row times the input column.
  ghost predicate ByteIs(now: Vec, o: nat, t: nat, was: Vec, row: Vec, ins: seq<nat>) {
    && o + t < |now| && InMemory(ins, t + 1, |was|) && |row| == |ins|
    && now[o + t] == Dot(row, ColumnAt(was, ins, t), |ins|)
  }

  method ZeroAndEncode(mem: array<Byte>, gfTables: Vec, ins: seq<nat>, outs: seq<nat>, len: nat)
    requires 32 * (|outs| * |ins|) <= |gfTables|
    requires InMemory(ins, len, mem.Length) && InMemory(outs, len, mem.Length) && AllApart(ins, outs, len)
    modifies mem
    ensures Combines(mem[..], old(mem[..]), CoefficientRows(gfTables, |outs|, |ins|), ins, outs, len)
  {
    hide Encoded, Zeroed, Combines, CoefficientRows, AllApart;
    ghost var was := mem[..];
    ResetOutputBuffers(mem, outs, len);
    ghost var zeroed := mem[..];
    EncodeData(mem, gfTables, ins, outs, len);
    ZeroedEncoded(mem[..], zeroed, was, CoefficientRows(gfTables, |outs|, |ins|), ins, outs, len);
  }

  lemma ZeroedEncoded(now: Vec, zeroed: Vec, was: Vec, rows: Matrix, ins: seq<nat>, outs: seq<nat>, len: nat)
    requires |now| == |was| == |zeroed| && InMemory(ins, len, |was|) && InMemory(outs, len, |was|)
    requires Shape(rows, |outs|, |ins|) && AllApart(ins, outs, len)
    requires Zeroed(zeroed, was, outs, len, |outs|)
    requires Encoded(now, zeroed, rows, ins, outs, len, |outs|)
    ensures Combines(now, was, rows, ins, outs, len)
  {
    hide Accumulated, Dot;
    forall l, t | 0 <= l < |outs| && 0 <= t < len
      ensures ByteIs(now, outs[l], t, was, rows[l], ins)
    {
      assert Stretch(now, outs[l], len)[t] == now[outs[l] + t];
      AccumulatedDot(zeroed, outs[l], rows[l], ins, len, |ins|, t);
      AddZero(Dot(rows[l], ColumnAt(zeroed, ins, t), |ins|));
      assert zeroed[outs[l] + t] == 0;
      SameColumn(zeroed, was, ins, outs, len, t);
    }
    forall q | 0 <= q < |was| && Outside(q, outs, len, |outs|) ensures now[q] == was[q] {
      assert now[q] == zeroed[q];
    }
  }

  lemma SameColumn(zeroed: Vec, was: Vec, ins: seq<nat>, outs: seq<nat>, len: nat, t: nat)
    requires |was| == |zeroed| && InMemory(ins, len, |was|) && InMemory(outs, len, |was|) && t < len
    requires AllApart(ins, outs, len) && Zeroed(zeroed, was, outs, len, |outs|)
    ensures InMemory(ins, t + 1, |was|) && ColumnAt(zeroed, ins, t) == ColumnAt(was, ins, t)
  {
    forall j | 0 <= j < |ins| ensures zeroed[ins[j] + t] == was[ins[j] + t] {
      assert Outside(ins[j] + t, outs, len, |outs|);
    }
  }

  // ----- the encoder

  // A new generator matrix.
  method NewGenerator(k: nat, m: nat) returns (v: Vec)
    requires k <= m <= 256
    ensures m * k <= |v| && RowsOf(v, k, m) == Generator(k, m)
  {
    hide RowsOf, Generator;
    var size := m * k;
    var matrix := new Byte[size](_ => 0);
    GenCauchyMatrix(matrix, m, k);
    v := matrix[..];
  }

  // The product tables of its parity rows.
  method ParityTables(matrix: Vec, k: nat, p: nat) returns (t: Vec)
    requires 0 < k && k + p <= 256 && (k + p) * k <= |matrix| && RowsOf(matrix, k, k + p) == Generator(k, k + p)
    ensures 32 * (p * k) <= |t| && CoefficientRows(t, p, k) == Generator(k, k + p)[k..]
  {
    hide RowsOf, Generator, CoefficientRows, TablesTo;
    var all, data, parity := (k + p) * k, k * k, p * k;
    RowsAdd(k, p, k);
    var tables := new Byte[all * 32](_ => 0);
    InitTables(k, p, matrix, data, tables);
    t := tables[..];
    TablesGiveRows(t, matrix, data, p, k);
    ParityRowsOf(matrix, k, p);
  }

  class RawErasureEncoder {
    const k: nat
    const p: nat
    var encodeMatrix: Vec
    var gfTables: Vec

    // The tables hold the parity rows of the generator.
    ghost predicate Valid()
      reads this
    {
      && 0 < k && k + p < FIELD_SIZE
      && 32 * (p * k) <= |gfTables|
      && CoefficientRows(gfTables, p, k) == Generator(k, k + p)[k..]
    }

    constructor (k: nat, p: nat)
      requires 0 < k && k + p < FIELD_SIZE
      ensures Valid() && this.k == k && this.p == p
    {
      hide RowsOf, Generator, CoefficientRows;
      this.k := k;
      this.p := p;
      var matrix := NewGenerator(k, k + p);
      var tables := ParityTables(matrix, k, p);
      encodeMatrix := matrix;
      gfTables := tables;
    }

    // None stands for the InvalidParameter exception.
    static method Create(k: nat, p: nat) returns (r: Option<RawErasureEncoder>)
      requires 0 < k
      ensures r.None? <==> k + p >= FIELD_SIZE
      ensures r.Some? ==> fresh(r.value) && r.value.Valid() && r.value.k == k && r.value.p == p
    {
      if k + p >= FIELD_SIZE {
        return None;
      }
      var e := new RawErasureEncoder(k, p);
      return Some(e);
    }

    // encode: fills every parity buffer with its unit's bytes and moves every
    // data buffer's position past the bytes it contributed.
    method Encode(mem: array<Byte>, inputs: seq<ByteBuffer>, outputs: seq<ByteBuffer>)
      requires Valid() && |inputs| == k && |outputs| == p
      requires InMemory(Starts(inputs), inputs[0].Remaining(), mem.Length)
      requires InMemory(Starts(outputs), inputs[0].Remaining(), mem.Length)
      requires AllApart(Starts(inputs), Starts(outputs), inputs[0].Remaining())
      modifies mem, inputs`position
      ensures EncodesParity(k, mem[..], old(mem[..]), old(Starts(inputs)), old(Starts(outputs)),
              old(inputs[0].Remaining()))
      ensures forall i :: 0 <= i < |inputs| ==>
                inputs[i].position == old(inputs[i].position) + old(inputs[0].Remaining())
    {
      hide Combines, EncodesParity, AllApart, CoefficientRows;
      var dataLen := inputs[0].Remaining();
      var ins, outs := Starts(inputs), Starts(outputs);
      if dataLen == 0 {
        EncodesNothing(k, mem[..], ins, outs);
        return;
      }
      ZeroAndEncode(mem, gfTables, ins, outs, dataLen);
      CombinesParity(k, p, mem[..], old(mem[..]), ins, outs, dataLen);
      AdvanceAll(inputs, dataLen);
    }
  }

  // Consume len bytes of every buffer.
  method AdvanceAll(inputs: seq<ByteBuffer>, len: nat)
    modifies inputs`position
    ensures forall i :: 0 <= i < |inputs| ==> inputs[i].position == old(inputs[i].position) + len
    ensures forall b :: b in inputs ==> b.position == old(b.position) + len
  {
    var positions := seq(|inputs|, i requires 0 <= i < |inputs| reads inputs => inputs[i].position);
    for i := 0 to |inputs|
      invariant forall j :: 0 <= j < i ==> inputs[j].position == positions[j] + len
    {
      inputs[i].position := positions[i] + len;
    }
  }

  // Each output holds its parity unit of the data column, position by position.
  ghost predicate EncodesParity(k: nat, now: Vec, was: Vec, ins: seq<nat>, outs: seq<nat>, len: nat) {
    && |now| == |was| && |ins| == k && k + |outs| <= FIELD_SIZE
    && InMemory(ins, len, |was|) && InMemory(outs, len, |was|)
    && (forall l, t :: 0 <= l < |outs| && 0 <= t < len ==> ByteIsParity(now, outs[l], t, k, l, was, ins))
    && (forall q :: 0 <= q < |was| && Outside(q, outs, len, |outs|) ==> now[q] == was[q])
  }

  // Byte t of the output at o is the byte of parity unit l for the data column
  // found t positions into the inputs.
  ghost predicate ByteIsParity(now: Vec, o: nat, t: nat, k: nat, l: nat, was: Vec, ins: seq<nat>) {
    && o + t < |now| && |ins| == k && k + l < 256 && InMemory(ins, t + 1, |was|)
    && now[o + t] == UnitByte(k, k + l, ColumnAt(was, ins, t))
  }

  lemma EncodesNothing(k: nat, m: Vec, ins: seq<nat>, outs: seq<nat>)
    requires |ins| == k && k + |outs| <= FIELD_SIZE && InMemory(ins, 0, |m|) && InMemory(outs, 0, |m|)
    ensures EncodesParity(k, m, m, ins, outs, 0)
  {}

  lemma CombinesParity(k: nat, p: nat, now: Vec, was: Vec, ins: seq<nat>, outs: seq<nat>, len: nat)
    requires |now| == |was| && |ins| == k && |outs| == p && k + p < FIELD_SIZE
    requires InMemory(ins, len, |was|) && InMemory(outs, len, |was|)
    requires Combines(now, was, Generator(k, k + p)[k..], ins, outs, len)
    ensures EncodesParity(k, now, was, ins, outs, len)
  {
    hide Dot, GeneratorRow;
    var rows := Generator(k, k + p)[k..];
    forall l, t | 0 <= l < |outs| && 0 <= t < len
      ensures ByteIsParity(now, outs[l], t, k, l, was, ins)
    {
      assert rows[l] == GeneratorRow(k, k + l);
      assert ByteIs(now, outs[l], t, was, rows[l], ins);
    }
  }

  // The rows of a generator stored after the identity.
  lemma ParityRowsOf(m: Vec, k: nat, p: nat)
    requires 0 < k && k + p <= 256 && (k + p) * k <= |m| && RowsOf(m, k, k + p) == Generator(k, k + p)
    ensures k * k + p * k <= |m| && RowsOf(m[k * k..], k, p) == Generator(k, k + p)[k..]
  {
    hide Generator, RowsOf;
    assert (k + p) * k == k * k + p * k;
    forall l | 0 <= l < p ensures RowsOf(m[k * k..], k, p)[l] == RowsOf(m, k, k + p)[k + l] {
      RowFurtherOn(m, k, k, p, l);
    }
  }

  // Row l of what follows the first n rows is row n + l.
  lemma RowFurtherOn(m: Vec, k: nat, n: nat, p: nat, l: nat)
    requires l < p && (n + p) * k <= |m| && n * k + p * k <= |m|
    ensures RowsOf(m[n * k..], k, p)[l] == RowsOf(m, k, n + p)[n + l]
  {
    hide RowsOf;
    RowIs(m, k, n + p, n + l);
    RowIs(m[n * k..], k, p, l);
    RowsAdd(n, l, k);
    var a, b := n * k, l * k;
    SliceOfSlice(m, a, |m|, b, k);
  }

  lemma RowsAdd(n: nat, l: nat, k: nat)
    ensures (n + l) * k == n * k + l * k
  {}

  // ----- the decoder

  // The coefficients for recovering the erased units from the first k valid ones.
  function DecodeRows(k: nat, valid: seq<nat>, erased: seq<nat>): (rows: Matrix)
    requires k <= 256 && k <= |valid| && Indexes(valid) && Distinct(valid) && Indexes(erased)
    ensures Shape(rows, |erased|, k)
  {
    seq(|erased|, i requires 0 <= i < |erased| => DecodeRow(k, InverseFor(k, valid[..k]), erased, i))
  }

  method CopyRow(dst: array<Byte>, i: nat, src: Vec, r: nat, k: nat, m: nat)
    requires i < m && r < m && m * k <= dst.Length && m * k <= |src|
    modifies dst
    ensures RowsOf(dst[..], k, m) == old(RowsOf(dst[..], k, m))[i := RowsOf(src, k, m)[r]]
  {
    hide RowsOf, Splice;
    RowIs(src, k, m, r);
    RowFits(i, m, k);
    ghost var s := dst[..];
    ghost var v := RowsOf(src, k, m)[r];
    CopyStretch(dst, k * i, src, k * r, k);
    RowsSplice(s, k, m, i, v);
  }

  method CopyStretch(dst: array<Byte>, o: nat, src: Vec, p: nat, n: nat)
    requires o + n <= dst.Length && p + n <= |src|
    modifies dst
    ensures dst[..] == Splice(old(dst[..]), o, src[p..p + n])
  {
    ghost var s := dst[..];
    for j := 0 to n
      invariant forall q :: o <= q < o + j ==> dst[q] == src[p..p + n][q - o]
      invariant forall q :: 0 <= q < dst.Length && !(o <= q < o + j) ==> dst[q] == s[q]
    {
      dst[o + j] := src[p + j];
    }
    SpliceFrom(dst[..], s, o, src[p..p + n]);
  }

  // decodeMatrix row p for a parity unit: the generator row times the inverse.
  method ParityDecodeRow(dst: array<Byte>, p: nat, inv: Vec, enc: Vec, e: nat, k: nat, m: nat)
    requires p < m && e < m && k <= m && m * k <= dst.Length && m * k <= |inv| && m * k <= |enc|
    modifies dst
    ensures RowsOf(dst[..], k, m) == old(RowsOf(dst[..], k, m))
              [p := InverseTimes(RowsOf(inv, k, m)[..k], RowsOf(enc, k, m)[e], k)]
  {
    hide Splice, Dot, RowsOf;
    RowFits(p, m, k);
    ghost var s := dst[..];
    ghost var v := InverseTimes(RowsOf(inv, k, m)[..k], RowsOf(enc, k, m)[e], k);
    var o := k * p;
    for i := 0 to k
      invariant forall q :: o <= q < o + i ==> dst[q] == v[q - o]
      invariant forall q :: 0 <= q < dst.Length && !(o <= q < o + i) ==> dst[q] == s[q]
    {
      var b := InverseDot(inv, enc, e, i, k, m);
      dst[o + i] := b;
    }
    SpliceFrom(dst[..], s, o, v);
    RowsSplice(s, k, m, p, v);
  }

  function InverseTimes(inv: Matrix, g: Vec, k: nat): (v: Vec)
    requires Shape(inv, k, k) && |g| == k
    ensures |v| == k
  {
    seq(k, c requires 0 <= c < k => Dot(Column(inv, c), g, k))
  }

  method InverseDot(inv: Vec, enc: Vec, e: nat, i: nat, k: nat, m: nat) returns (s: Byte)
    requires e < m && i < k <= m && m * k <= |inv| && m * k <= |enc|
    ensures s == Dot(Column(RowsOf(inv, k, m)[..k], i), RowsOf(enc, k, m)[e], k)
  {
    hide GfMul, Add, RowsOf;
    ghost var a, g := RowsOf(inv, k, m), RowsOf(enc, k, m)[e];
    ghost var u := Column(a[..k], i);
    s := 0;
    for j := 0 to k
      invariant s == Dot(u, g, j)
    {
      EntryIn(inv, k, m, j, i);
      EntryIn(enc, k, m, e, j);
      assert u[j] == a[j][i];
      s := Add(s, GfMul(inv[j * k + i], enc[e * k + j]));
    }
  }

  lemma EntryIn(a: Vec, k: nat, m: nat, r: nat, c: nat)
    requires m * k <= |a| && r < m && c < k
    ensures 0 <= r * k + c < m * k && a[r * k + c] == RowsOf(a, k, m)[r][c]
  {
    RowFits(r, m, k);
  }

  lemma FirstRows(a: Vec, k: nat, n: nat, m: nat)
    requires n <= m && m * k <= |a|
    ensures n * k <= m * k && RowsOf(a, k, m)[..n] == RowsOf(a, k, n)
  {
    hide RowsOf;
    assert m * k == n * k + (m - n) * k;
    forall r | 0 <= r < n ensures RowsOf(a, k, m)[r] == RowsOf(a, k, n)[r] {
      RowIs(a, k, m, r);
      RowIs(a, k, n, r);
    }
  }

  lemma ZeroRow(a: Vec, k: nat, m: nat, r: nat)
    requires k <= r < m && m * k <= |a|
    requires forall q :: k * k <= q < m * k ==> a[q] == 0
    ensures RowsOf(a, k, m)[r] == Zeros(k)
  {
    hide RowsOf;
    RowIs(a, k, m, r);
    RowBelow(k, r);
    RowFits(r, m, k);
    var from, limit, row := k * k, m * k, r * k;
    var v := a[row..row + k];
    forall c | 0 <= c < |v| ensures v[c] == 0 {
      assert from <= row + c < limit && v[c] == a[row + c];
    }
  }

  lemma RowBelow(k: nat, r: nat)
    requires k <= r
    ensures k * k <= r * k
  {
    assert r * k == k * k + (r - k) * k;
  }

  // The generator rows of the first k valid units, one below the other.
  method SelectRows(enc: Vec, valid: seq<nat>, k: nat, m: nat) returns (tmp: array<Byte>)
    requires 0 < k <= m < 256 && m * k <= |enc| && RowsOf(enc, k, m) == Generator(k, m)
    requires k <= |valid| && forall i :: 0 <= i < |valid| ==> valid[i] < m
    ensures fresh(tmp) && k * k <= m * k == tmp.Length && RowsOf(tmp[..], k, k) == Select(k, valid[..k])
  {
    hide GeneratorRow;
    tmp := new Byte[m * k](_ => 0);
    for i := 0 to k
      invariant forall r :: 0 <= r < i ==> RowsOf(tmp[..], k, m)[r] == GeneratorRow(k, valid[r])
    {
      CopyRow(tmp, i, enc, valid[i], k, m);
    }
    hide RowsOf;
    FirstRows(tmp[..], k, k, m);
  }

  // The inverse of those rows, in a buffer whose lower rows stay zero.
  method InvertSelected(enc: Vec, valid: seq<nat>, k: nat, m: nat) returns (inv: Vec)
    requires 0 < k <= m < 256 && m * k <= |enc| && RowsOf(enc, k, m) == Generator(k, m)
    requires k <= |valid| && Distinct(valid) && forall i :: 0 <= i < |valid| ==> valid[i] < m
    ensures k * k <= m * k == |inv|
    ensures Indexes(valid[..k]) && RowsOf(inv, k, m)[..k] == RowsOf(inv, k, k) == InverseFor(k, valid[..k])
    ensures forall r :: k <= r < m ==> RowsOf(inv, k, m)[r] == Zeros(k)
  {
    hide RowsOf, Select, Invert;
    var tmp := SelectRows(enc, valid, k, m);
    var a := new Byte[m * k](_ => 0);
    AnyRowsInvertible(k, valid[..k]);
    ghost var lower := a[k * k..];
    var ok := GfInvertMatrix(tmp, a, k);
    inv := a[..];
    assert forall q :: k * k <= q < m * k ==> inv[q] == lower[q - k * k];
    FirstRows(inv, k, k, m);
    forall r | k <= r < m ensures RowsOf(inv, k, m)[r] == Zeros(k) {
      ZeroRow(inv, k, m, r);
    }
  }

  // generateDecodeMatrix's two loops.
  method FillDecodeMatrix(enc: Vec, inv: Vec, erased: seq<nat>, numErasedDataUnits: nat, k: nat, m: nat,
                          ghost inverse: Matrix) returns (d: Vec)
    requires 0 < k <= m < 256 && m * k <= |enc| && RowsOf(enc, k, m) == Generator(k, m)
    requires |erased| <= m && (forall i :: 0 <= i < |erased| ==> erased[i] < m)
    requires numErasedDataUnits == CountData(k, erased)
    requires m * k <= |inv| && Shape(inverse, k, k) && RowsOf(inv, k, m)[..k] == inverse
    requires forall r :: k <= r < m ==> RowsOf(inv, k, m)[r] == Zeros(k)
    ensures |d| == m * k
    ensures forall i :: 0 <= i < |erased| ==> RowsOf(d, k, m)[i] == DecodeRow(k, inverse, erased, i)
  {
    hide GeneratorRow, RowsOf, Dot, CountData;
    var a := new Byte[m * k](_ => 0);
    for i := 0 to numErasedDataUnits
      invariant forall l :: 0 <= l < i ==> RowsOf(a[..], k, m)[l] == DecodeRow(k, inverse, erased, l)
    {
      CopyRow(a, i, inv, erased[i], k, m);
      assert RowsOf(inv, k, m)[erased[i]] == DecodeRow(k, inverse, erased, i);
    }
    for p := numErasedDataUnits to |erased|
      invariant forall l :: 0 <= l < p ==> RowsOf(a[..], k, m)[l] == DecodeRow(k, inverse, erased, l)
    {
      ParityDecodeRow(a, p, inv, enc, erased[p], k, m);
      assert InverseTimes(inverse, GeneratorRow(k, erased[p]), k) == DecodeRow(k, inverse, erased, p);
    }
    d := a[..];
  }

  // The data units among the erased ones.
  method CountErased(k: nat, erased: seq<nat>) returns (n: nat)
    ensures n == CountData(k, erased)
  {
    n := 0;
    for i := 0 to |erased|
      invariant n == CountData(k, erased[..i])
    {
      assert erased[..i + 1][..i] == erased[..i];
      if erased[i] < k {
        n := n + 1;
      }
    }
    assert erased[..|erased|] == erased;
  }

  // The tables of the first rows of a matrix, in a buffer for m rows.
  method MatrixTables(matrix: Vec, rows: nat, k: nat, m: nat) returns (tables: Vec)
    requires rows <= m && m * k <= |matrix|
    ensures rows * k <= m * k && 32 * (rows * k) <= |tables| &&
            CoefficientRows(tables, rows, k) == RowsOf(matrix, k, rows)
  {
    hide RowsOf, CoefficientRows;
    FewerRows(rows, m, k);
    var room, used := m * k, rows * k;
    var buffer := new Byte[room * 32](_ => 0);
    InitTables(k, rows, matrix, 0, buffer);
    tables := buffer[..];
    TablesGiveRows(tables, matrix, 0, rows, k);
    assert matrix[0..] == matrix;
  }

  lemma FewerRows(rows: nat, m: nat, k: nat)
    requires rows <= m
    ensures rows * k <= m * k
  {
    assert (m - rows) * k == m * k - rows * k;
  }

  class RawErasureDecoder {
    const k: nat
    const p: nat
    var encodeMatrix: Vec
    var decodeMatrix: Vec
    var invertMatrix: Vec
    var gfTables: Vec
    var cachedErasedIndexes: seq<nat>
    var validIndexes: seq<nat>
    var numErasedDataUnits: nat

    // The cache, once filled, holds what its two keys determine.
    ghost predicate Valid()
      reads this
    {
      && 0 < k && k + p < FIELD_SIZE
      && (k + p) * k <= |encodeMatrix| && RowsOf(encodeMatrix, k, k + p) == Generator(k, k + p)
      && (validIndexes != [] ==> Prepared(cachedErasedIndexes, validIndexes))
    }

    ghost predicate Prepared(erased: seq<nat>, valid: seq<nat>)
      reads this
      requires 0 < k && k + p < FIELD_SIZE
    {
      && Usable(erased, valid)
      && 32 * (|erased| * k) <= |gfTables| && |erased| * k <= |decodeMatrix| && k * k <= |invertMatrix|
      && RowsOf(invertMatrix, k, k) == InverseFor(k, valid[..k])
      && RowsOf(decodeMatrix, k, |erased|) == DecodeRows(k, valid, erased)
      && CoefficientRows(gfTables, |erased|, k) == DecodeRows(k, valid, erased)
      && numErasedDataUnits == CountData(k, erased)
    }

    // Unit numbers in range, and enough valid units to decode from.
    predicate Usable(erased: seq<nat>, valid: seq<nat>) {
      && k <= |valid| && Distinct(valid) && |erased| <= k + p
      && (forall i :: 0 <= i < |valid| ==> valid[i] < k + p < 256)
      && (forall i :: 0 <= i < |erased| ==> erased[i] < k + p < 256)
    }

    constructor (k: nat, p: nat)
      requires 0 < k && k + p < FIELD_SIZE
      ensures Valid() && this.k == k && this.p == p
    {
      hide RowsOf, Generator, RawErasureDecoder.Prepared;
      this.k := k;
      this.p := p;
      var matrix := NewGenerator(k, k + p);
      encodeMatrix := matrix;
      decodeMatrix, invertMatrix, gfTables := [], [], [];
      cachedErasedIndexes, validIndexes, numErasedDataUnits := [], [], 0;
    }

    // prepareDecoding: keep the tables when the keys have not changed.
    method PrepareDecoding(erased: seq<nat>, valid: seq<nat>)
      requires Valid() && Usable(erased, valid)
      modifies this
      ensures Valid() && Prepared(erased, valid)
      ensures cachedErasedIndexes == erased && validIndexes == valid
    {
      hide RowsOf, DecodeRows, CoefficientRows, InverseFor, Generator, CountData;
      if cachedErasedIndexes == erased && validIndexes == valid {
        return;
      }
      cachedErasedIndexes := erased;
      validIndexes := valid;
      ProcessErasures(erased);
    }

    method ProcessErasures(erased: seq<nat>)
      requires 0 < k && k + p < FIELD_SIZE
      requires (k + p) * k <= |encodeMatrix| && RowsOf(encodeMatrix, k, k + p) == Generator(k, k + p)
      requires Usable(erased, validIndexes)
      modifies this`decodeMatrix, this`invertMatrix, this`gfTables, this`numErasedDataUnits
      ensures Prepared(erased, validIndexes)
    {
      hide RowsOf, Generator, CoefficientRows, DecodeRows, InverseFor;
      numErasedDataUnits := CountErased(k, erased);
      GenerateDecodeMatrix(erased);
      gfTables := MatrixTables(decodeMatrix, |erased|, k, k + p);
    }

    // generateDecodeMatrix. Inversion cannot fail: any k generator rows are
    // independent.
    method GenerateDecodeMatrix(erased: seq<nat>)
      requires 0 < k && k + p < FIELD_SIZE
      requires (k + p) * k <= |encodeMatrix| && RowsOf(encodeMatrix, k, k + p) == Generator(k, k + p)
      requires Usable(erased, validIndexes) && numErasedDataUnits == CountData(k, erased)
      modifies this`decodeMatrix, this`invertMatrix
      ensures |decodeMatrix| == (k + p) * k && |erased| * k <= |decodeMatrix| && k * k <= |invertMatrix|
      ensures RowsOf(invertMatrix, k, k) == InverseFor(k, validIndexes[..k])
      ensures RowsOf(decodeMatrix, k, |erased|) == DecodeRows(k, validIndexes, erased)
    {
      hide RowsOf, InverseFor, DecodeRow, Generator;
      invertMatrix := InvertSelected(encodeMatrix, validIndexes, k, k + p);
      decodeMatrix := FillDecodeMatrix(encodeMatrix, invertMatrix, erased, numErasedDataUnits, k, k + p,
                                       InverseFor(k, validIndexes[..k]));
      FirstRows(decodeMatrix, k, |erased|, k + p);
    }

    // The decoding itself, on the buffers' addresses.
    method DecodeStarts(mem: array<Byte>, valid: seq<nat>, erased: seq<nat>, ins: seq<nat>, outs: seq<nat>, len: nat)
      requires Valid() && Usable(erased, valid) && |ins| == k && |outs| == |erased|
      requires InMemory(ins, len, mem.Length) && InMemory(outs, len, mem.Length) && AllApart(ins, outs, len)
      modifies this, mem
      ensures Valid() && Combines(mem[..], old(mem[..]), DecodeRows(k, valid, erased), ins, outs, len)
    {
      hide Combines, CoefficientRows, RowsOf, DecodeRows, AllApart, Generator;
      PrepareDecoding(erased, valid);
      ZeroAndEncode(mem, gfTables, ins, outs, len);
    }

    // decode. False stands for the exception thrown when no input is present; with
    // some inputs present there must be at least k. Each output receives its
    // row of the decode matrix applied to the first k inputs present.
    method Decode(mem: array<Byte>, inputs: seq<ByteBuffer?>, erased: seq<nat>, outputs: seq<ByteBuffer>)
      returns (ok: bool)
      requires Valid() && |inputs| <= k + p && |outputs| == |erased|
      requires var valid := ValidIndexes(inputs, |inputs|);
               valid != [] ==> Usable(erased, valid) && DecodeFits(k, mem, inputs, outputs)
      modifies this, mem, Present(inputs)`position
      ensures Valid() && ok == (ValidIndexes(inputs, |inputs|) != [])
      ensures !ok ==> mem[..] == old(mem[..])
      ensures ok ==>
                var valid := ValidIndexes(inputs, |inputs|);
                Combines(mem[..], old(mem[..]), DecodeRows(k, valid, erased),
                         old(Starts(Chosen(inputs, k))), old(Starts(outputs)), old(inputs[valid[0]].Remaining()))
      ensures ok ==> forall b :: b in Present(inputs) ==>
                b.position == old(b.position) + old(inputs[ValidIndexes(inputs, |inputs|)[0]].Remaining())
    {
      hide Combines, DecodeRows, AllApart, InMemory, ValidIndexes, Valid;
      var valid := GetValidIndexes(inputs);
      if valid == [] {
        return false;
      }
      ok := true;
      var dataLen := inputs[valid[0]].Remaining();
      var ins, outs := Starts(Chosen(inputs, k)), Starts(outputs);
      if dataLen == 0 {
        CombinesNothing(mem[..], DecodeRows(k, valid, erased), ins, outs);
        return;
      }
      DecodeStarts(mem, valid, erased, ins, outs, dataLen);
      PresentChosen(inputs);
      AdvanceAll(Chosen(inputs, |valid|), dataLen);
    }
  }

  // ----- the inputs present

  // The numbers below n of the inputs that are not null, ascending.
  function ValidIndexes(inputs: seq<ByteBuffer?>, n: nat): (v: seq<nat>)
    requires n <= |inputs|
    ensures forall i :: 0 <= i < |v| ==> v[i] < n && inputs[v[i]] != null
    ensures forall i, j :: 0 <= i < j < |v| ==> v[i] < v[j]
    ensures forall r :: 0 <= r < n && inputs[r] != null ==> r in v
  {
    if n == 0 then []
    else if inputs[n - 1] != null then ValidIndexes(inputs, n - 1) + [n - 1]
    else ValidIndexes(inputs, n - 1)
  }

  method GetValidIndexes(inputs: seq<ByteBuffer?>) returns (valid: seq<nat>)
    ensures valid == ValidIndexes(inputs, |inputs|)
  {
    valid := [];
    for i := 0 to |inputs|
      invariant valid == ValidIndexes(inputs, i)
    {
      if inputs[i] != null {
        valid := valid + [i];
      }
    }
  }

  function Present(inputs: seq<ByteBuffer?>): set<ByteBuffer> {
    set b: ByteBuffer | b in inputs
  }

  // Every input present is one of the valid ones.
  lemma PresentChosen(inputs: seq<ByteBuffer?>)
    ensures forall b :: b in Present(inputs) <==> b in Chosen(inputs, |ValidIndexes(inputs, |inputs|)|)
  {
    var valid := ValidIndexes(inputs, |inputs|);
    forall b | b in Present(inputs) ensures b in Chosen(inputs, |valid|) {
      var i :| 0 <= i < |inputs| && inputs[i] == b;
      var j :| 0 <= j < |valid| && valid[j] == i;
      assert Chosen(inputs, |valid|)[j] == b;
    }
  }

  // Room in memory for what decode reads and writes, with the outputs apart.
  ghost predicate DecodeFits(k: nat, mem: array<Byte>, inputs: seq<ByteBuffer?>, outputs: seq<ByteBuffer>)
    requires 0 < k <= |ValidIndexes(inputs, |inputs|)|
    reads Present(inputs), outputs
  {
    var len := inputs[ValidIndexes(inputs, |inputs|)[0]].Remaining();
    var ins, outs := Starts(Chosen(inputs, k)), Starts(outputs);
    InMemory(ins, len, mem.Length) && InMemory(outs, len, mem.Length) && AllApart(ins, outs, len)
  }

  lemma CombinesNothing(m: Vec, rows: Matrix, ins: seq<nat>, outs: seq<nat>)
    requires Shape(rows, |outs|, |ins|) && InMemory(ins, 0, |m|) && InMemory(outs, 0, |m|)
    ensures Combines(m, m, rows, ins, outs, 0)
  {}

  // The first k inputs present.
  function Chosen(inputs: seq<ByteBuffer?>, k: nat): (c: seq<ByteBuffer>)
    requires k <= |ValidIndexes(inputs, |inputs|)|
    ensures |c| == k
    ensures forall i :: 0 <= i < k ==> c[i] == inputs[ValidIndexes(inputs, |inputs|)[i]]
  {
    var v := ValidIndexes(inputs, |inputs|);
    seq(k, i requires 0 <= i < k => var b: ByteBuffer := inputs[v[i]]; b)
  }
}
