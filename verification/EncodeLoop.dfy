// RSUtil::encodeData over one memory: every buffer is a stretch of the same
// array, so that slices of one backing store may be inputs and outputs at once.

module EncodeLoop {
  import opened Bytes
  import opened Gf256
  import opened Linear
  import opened MatrixCode
  import opened Words

  predicate Apart(o: nat, p: nat, len: nat) {
    o + len <= p || p + len <= o
  }

  method StoreWord(mem: array<Byte>, o: nat, w: Word)
    requires o + 8 <= mem.Length
    modifies mem
    ensures forall q :: o <= q < o + 8 ==> mem[q] == Lane(w, q - o)
    ensures forall q :: 0 <= q < mem.Length && !(o <= q < o + 8) ==> mem[q] == old(mem[q])
  {
    hide Lane;
    for i := 0 to 8
      invariant forall q :: o <= q < o + i ==> mem[q] == Lane(w, q - o)
      invariant forall q :: 0 <= q < mem.Length && !(o <= q < o + i) ==> mem[q] == old(mem[q])
    {
      mem[o + i] := Lane(w, i);
    }
  }

  // n bytes of the stretch at dst have s times the stretch at src added to them.
  ghost predicate AddedTo(now: Vec, was: Vec, src: nat, dst: nat, s: Byte, n: nat)
    requires |now| == |was| && src + n <= |was| && dst + n <= |was|
  {
    && (forall q :: dst <= q < dst + n ==> now[q] == Add(was[q], GfMul(s, was[q - dst + src])))
    && (forall q :: 0 <= q < |was| && !(dst <= q < dst + n) ==> now[q] == was[q])
  }

  lemma AddedSplice(now: Vec, was: Vec, src: nat, dst: nat, s: Byte, n: nat)
    requires |now| == |was| && src + n <= |was| && dst + n <= |was|
    requires AddedTo(now, was, src, dst, s, n)
    ensures now == Splice(was, dst, AddMul(was[dst..dst + n], s, was[src..src + n]))
  {
    hide GfMul, Add, Splice;
    SpliceFrom(now, was, dst, AddMul(was[dst..dst + n], s, was[src..src + n]));
  }

  method AddWord(mem: array<Byte>, src: nat, dst: nat, s: Byte, n: nat, ghost was: Vec)
    requires |was| == mem.Length && src + n + 8 <= |was| && dst + n + 8 <= |was| && Apart(src, dst, n + 8)
    requires AddedTo(mem[..], was, src, dst, s, n)
    modifies mem
    ensures AddedTo(mem[..], was, src, dst, s, n + 8)
  {
    hide GfMul, Add, Lane, AddedTo;
    ghost var before := mem[..];
    var i, o := mem[src + n..src + n + 8], mem[dst + n..dst + n + 8];
    var t3 := MulAddWord(s, i, o);
    StoreWord(mem, dst + n, t3);
    WordAdded(mem[..], before, was, src, dst, s, n, t3);
  }

  // Eight more bytes, from a word whose lanes are the sums.
  lemma WordAdded(now: Vec, before: Vec, was: Vec, src: nat, dst: nat, s: Byte, n: nat, w: Word)
    requires |now| == |before| == |was| && src + n + 8 <= |was| && dst + n + 8 <= |was| && Apart(src, dst, n + 8)
    requires AddedTo(before, was, src, dst, s, n)
    requires forall i :: 0 <= i < 8 ==> Lane(w, i) == Add(before[dst + n + i], GfMul(s, before[src + n + i]))
    requires forall q :: dst + n <= q < dst + n + 8 ==> now[q] == Lane(w, q - (dst + n))
    requires forall q :: 0 <= q < |was| && !(dst + n <= q < dst + n + 8) ==> now[q] == before[q]
    ensures AddedTo(now, was, src, dst, s, n + 8)
  {
    hide GfMul, Add, Lane;
    forall q | dst <= q < dst + n + 8 ensures now[q] == Add(was[q], GfMul(s, was[q - dst + src])) {
      if q >= dst + n {
        var i := q - (dst + n);
        assert Lane(w, i) == Add(before[dst + n + i], GfMul(s, before[src + n + i]));
        assert before[q] == was[q] && before[src + n + i] == was[src + n + i];
      }
    }
  }

  method AddByte(mem: array<Byte>, src: nat, dst: nat, s: Byte, n: nat, ghost was: Vec)
    requires |was| == mem.Length && src + n < |was| && dst + n < |was| && Apart(src, dst, n + 1)
    requires AddedTo(mem[..], was, src, dst, s, n)
    modifies mem
    ensures AddedTo(mem[..], was, src, dst, s, n + 1)
  {
    hide GfMul, Add;
    mem[dst + n] := Add(mem[dst + n], GfMul(s, mem[src + n]));
  }

  // One input buffer multiplied by s and added into one output buffer: dataLen / 8
  // words, then the bytes left over.
  method MulAddRange(mem: array<Byte>, src: nat, dst: nat, dataLen: nat, s: Byte)
    requires src + dataLen <= mem.Length && dst + dataLen <= mem.Length && Apart(src, dst, dataLen)
    modifies mem
    ensures mem[..] == Splice(old(mem[..]), dst, AddMul(old(mem[dst..dst + dataLen]), s, old(mem[src..src + dataLen])))
  {
    hide AddedTo;
    ghost var was := mem[..];
    var times := dataLen / 8;
    var extra := dataLen - dataLen % 8;
    AddedNothing(was, src, dst, s);
    for i := 0 to times
      invariant AddedTo(mem[..], was, src, dst, s, 8 * i)
    {
      AddWord(mem, src, dst, s, 8 * i, was);
    }
    for i := extra to dataLen
      invariant AddedTo(mem[..], was, src, dst, s, i)
    {
      AddByte(mem, src, dst, s, i, was);
    }
    AddedSplice(mem[..], was, src, dst, s, dataLen);
  }

  lemma AddedNothing(was: Vec, src: nat, dst: nat, s: Byte)
    requires src <= |was| && dst <= |was|
    ensures AddedTo(was, was, src, dst, s, 0)
  {}

  // ----- all inputs into all outputs

  // The coefficients initTables stored for output l: entry 1 of each table.
  function Coefficients(tables: Vec, rows: nat, k: nat, l: nat): (row: Vec)
    requires l < rows && 32 * (rows * k) <= |tables|
    ensures |row| == k
  {
    RowFits(l, rows, k);
    seq(k, j requires 0 <= j < k => tables[32 * (l * k + j) + 1])
  }

  predicate InMemory(starts: seq<nat>, len: nat, size: nat) {
    forall i :: 0 <= i < |starts| ==> starts[i] + len <= size
  }

  // The bytes found t positions into each of the buffers.
  function ColumnAt(m: Vec, starts: seq<nat>, t: nat): (x: Vec)
    requires InMemory(starts, t + 1, |m|)
    ensures |x| == |starts|
  {
    seq(|starts|, j requires 0 <= j < |starts| => m[starts[j] + t])
  }

  // The stretch at dst with the first j inputs, scaled, added to it.
  function Accumulated(m: Vec, dst: nat, row: Vec, ins: seq<nat>, len: nat, j: nat): (v: Vec)
    requires dst + len <= |m| && InMemory(ins, len, |m|) && j <= |ins| && j <= |row|
    ensures |v| == len
  {
    if j == 0 then m[dst..dst + len]
    else AddMul(Accumulated(m, dst, row, ins, len, j - 1), row[j - 1], m[ins[j - 1]..ins[j - 1] + len])
  }

  lemma AddMulAt(v: Vec, s: Byte, w: Vec, t: nat)
    requires |v| == |w| && t < |v|
    ensures AddMul(v, s, w)[t] == Add(v[t], GfMul(s, w[t]))
  {
    hide GfMul, Add;
  }

  // Byte by byte, that is a dot product added to what was there.
  lemma {:induction false} AccumulatedDot(m: Vec, dst: nat, row: Vec, ins: seq<nat>, len: nat, j: nat, t: nat)
    requires dst + len <= |m| && InMemory(ins, len, |m|) && j <= |ins| && j <= |row| && t < len
    ensures InMemory(ins, t + 1, |m|)
    ensures Accumulated(m, dst, row, ins, len, j)[t] == Add(m[dst + t], Dot(row, ColumnAt(m, ins, t), j))
  {
    hide GfMul, Add, AddMul, Dot;
    var x := ColumnAt(m, ins, t);
    if j == 0 {
      AddZero(m[dst + t]);
      DotNone(row, x);
    } else {
      AccumulatedDot(m, dst, row, ins, len, j - 1, t);
      var v, w := Accumulated(m, dst, row, ins, len, j - 1), m[ins[j - 1]..ins[j - 1] + len];
      AddMulAt(v, row[j - 1], w, t);
      DotNext(row, x, j);
      AddAssoc(m[dst + t], Dot(row, x, j - 1), GfMul(row[j - 1], x[j - 1]));
    }
  }

  lemma DotNone(u: Vec, v: Vec)
    ensures Dot(u, v, 0) == 0
  {}

  lemma DotNext(u: Vec, v: Vec, j: nat)
    requires 0 < j <= |u| && j <= |v|
    ensures Dot(u, v, j) == Add(Dot(u, v, j - 1), GfMul(u[j - 1], v[j - 1]))
  {
    hide GfMul, Add;
  }

  // One more input, on top of what the output has accumulated.
  method AddInput(mem: array<Byte>, src: nat, dst: nat, dataLen: nat, s: Byte, ghost was: Vec, ghost v: Vec)
    requires |was| == mem.Length && |v| == dataLen && src + dataLen <= |was| && dst + dataLen <= |was| &&
             Apart(src, dst, dataLen)
    requires mem[..] == Splice(was, dst, v)
    modifies mem
    ensures mem[..] == Splice(was, dst, AddMul(v, s, was[src..src + dataLen]))
  {
    hide AddMul, Splice;
    SpliceReads(was, dst, v, src);
    assert mem[dst..dst + dataLen] == mem[..][dst..dst + dataLen];
    assert mem[src..src + dataLen] == mem[..][src..src + dataLen];
    MulAddRange(mem, src, dst, dataLen, s);
    SpliceTwice(was, dst, v, AddMul(v, s, was[src..src + dataLen]));
  }

  method EncodeOne(mem: array<Byte>, gfTables: Vec, ins: seq<nat>, rows: nat, l: nat, dst: nat, dataLen: nat)
    requires l < rows && 32 * (rows * |ins|) <= |gfTables|
    requires InMemory(ins, dataLen, mem.Length) && dst + dataLen <= mem.Length
    requires forall j :: 0 <= j < |ins| ==> Apart(ins[j], dst, dataLen)
    modifies mem
    ensures mem[..] == Splice(old(mem[..]), dst,
              Accumulated(old(mem[..]), dst, Coefficients(gfTables, rows, |ins|, l), ins, dataLen, |ins|))
  {
    hide AddMul, Splice;
    ghost var was := mem[..];
    ghost var row := Coefficients(gfTables, rows, |ins|, l);
    var first := l * |ins|;
    RowFits(l, rows, |ins|);
    SpliceSame(was, dst, dataLen);
    for j := 0 to |ins|
      invariant mem[..] == Splice(was, dst, Accumulated(was, dst, row, ins, dataLen, j))
    {
      ghost var v := Accumulated(was, dst, row, ins, dataLen, j);
      AddInput(mem, ins[j], dst, dataLen, gfTables[32 * (first + j) + 1], was, v);
    }
  }

  lemma SpliceSame(m: Vec, o: nat, n: nat)
    requires o + n <= |m|
    ensures Splice(m, o, m[o..o + n]) == m
  {}

  lemma SpliceReads(m: Vec, o: nat, v: Vec, p: nat)
    requires o + |v| <= |m| && p + |v| <= |m| && Apart(p, o, |v|)
    ensures Splice(m, o, v)[o..o + |v|] == v
    ensures Splice(m, o, v)[p..p + |v|] == m[p..p + |v|]
  {}

  lemma SpliceTwice(m: Vec, o: nat, v: Vec, w: Vec)
    requires o + |v| <= |m| && |v| == |w|
    ensures Splice(Splice(m, o, v), o, w) == Splice(m, o, w)
  {}

  function Stretch(m: Vec, o: nat, len: nat): (v: Vec)
    requires o + len <= |m|
    ensures |v| == len
  {
    m[o..o + len]
  }

  // The whole coefficient matrix the tables hold.
  function CoefficientRows(tables: Vec, rows: nat, k: nat): (m: Matrix)
    requires 32 * (rows * k) <= |tables|
    ensures Shape(m, rows, k)
  {
    seq(rows, l requires 0 <= l < rows => Coefficients(tables, rows, k, l))
  }

  // What encodeData leaves behind once the first n outputs are done: each holds
  // its old bytes plus the combination of the inputs, and nothing else changed.
  ghost predicate Encoded(now: Vec, was: Vec, rows: Matrix, ins: seq<nat>, outs: seq<nat>, len: nat, n: nat)
    requires |now| == |was| && n <= |outs| && InMemory(ins, len, |was|) && InMemory(outs, len, |was|)
    requires Shape(rows, |outs|, |ins|)
  {
    && (forall l :: 0 <= l < n ==>
          Stretch(now, outs[l], len) == Accumulated(was, outs[l], rows[l], ins, len, |ins|))
    && (forall q :: 0 <= q < |was| && Outside(q, outs, len, n) ==> now[q] == was[q])
  }

  predicate Outside(q: int, outs: seq<nat>, len: nat, n: nat)
    requires n <= |outs|
  {
    forall l :: 0 <= l < n ==> !(outs[l] <= q < outs[l] + len)
  }

  predicate AllApart(ins: seq<nat>, outs: seq<nat>, len: nat) {
    && (forall j, l :: 0 <= j < |ins| && 0 <= l < |outs| ==> Apart(ins[j], outs[l], len))
    && (forall l, l' :: 0 <= l < l' < |outs| ==> Apart(outs[l], outs[l'], len))
  }

  // encodeData: dataLen bytes of every input, combined into every output.
  method EncodeData(mem: array<Byte>, gfTables: Vec, ins: seq<nat>, outs: seq<nat>, dataLen: nat)
    requires 32 * (|outs| * |ins|) <= |gfTables|
    requires InMemory(ins, dataLen, mem.Length) && InMemory(outs, dataLen, mem.Length)
    requires AllApart(ins, outs, dataLen)
    modifies mem
    ensures Encoded(mem[..], old(mem[..]), CoefficientRows(gfTables, |outs|, |ins|), ins, outs, dataLen, |outs|)
  {
    hide Encoded, Accumulated, Coefficients, AllApart;
    ghost var was := mem[..];
    ghost var rows := CoefficientRows(gfTables, |outs|, |ins|);
    EncodedNone(was, rows, ins, outs, dataLen);
    for l := 0 to |outs|
      invariant Encoded(mem[..], was, rows, ins, outs, dataLen, l)
    {
      ApartFrom(ins, outs, dataLen, l);
      ghost var before := mem[..];
      EncodeOne(mem, gfTables, ins, |outs|, l, outs[l], dataLen);
      EncodedNext(before, mem[..], was, rows, ins, outs, dataLen, l);
    }
  }

  lemma ApartFrom(ins: seq<nat>, outs: seq<nat>, len: nat, l: nat)
    requires AllApart(ins, outs, len) && l < |outs|
    ensures forall j :: 0 <= j < |ins| ==> Apart(ins[j], outs[l], len)
    ensures forall l' :: 0 <= l' < l ==> Apart(outs[l'], outs[l], len)
  {}

  lemma EncodedNone(was: Vec, rows: Matrix, ins: seq<nat>, outs: seq<nat>, len: nat)
    requires InMemory(ins, len, |was|) && InMemory(outs, len, |was|) && Shape(rows, |outs|, |ins|)
    ensures Encoded(was, was, rows, ins, outs, len, 0)
  {}

  lemma EncodedNext(before: Vec, now: Vec, was: Vec, rows: Matrix, ins: seq<nat>, outs: seq<nat>, len: nat, l: nat)
    requires |before| == |was| && l < |outs| && InMemory(ins, len, |was|) && InMemory(outs, len, |was|)
    requires Shape(rows, |outs|, |ins|) && AllApart(ins, outs, len)
    requires Encoded(before, was, rows, ins, outs, len, l)
    requires now == Splice(before, outs[l], Accumulated(before, outs[l], rows[l], ins, len, |ins|))
    ensures Encoded(now, was, rows, ins, outs, len, l + 1)
  {
    hide Accumulated, Splice, AllApart, Stretch, Outside;
    Untouched(before, was, rows, ins, outs, len, l);
    AccumulatedFrame(before, was, outs[l], rows[l], ins, len, |ins|);
    var v := Accumulated(was, outs[l], rows[l], ins, len, |ins|);
    StretchesNext(before, ins, outs, len, l, v);
    OutsideNext(before, was, outs, len, l, v);
  }

  lemma StretchesNext(before: Vec, ins: seq<nat>, outs: seq<nat>, len: nat, l: nat, v: Vec)
    requires l < |outs| && |v| == len && InMemory(outs, len, |before|) && AllApart(ins, outs, len)
    ensures Stretch(Splice(before, outs[l], v), outs[l], len) == v
    ensures forall m :: 0 <= m < l ==>
              Stretch(Splice(before, outs[l], v), outs[m], len) == Stretch(before, outs[m], len)
  {
    hide Splice, AllApart, Stretch;
    SpliceReadsBack(before, outs[l], v);
    ApartFrom(ins, outs, len, l);
    forall m | 0 <= m < l ensures Stretch(Splice(before, outs[l], v), outs[m], len) == Stretch(before, outs[m], len) {
      SpliceReadsApart(before, outs[l], v, outs[m]);
    }
  }

  lemma OutsideNext(before: Vec, was: Vec, outs: seq<nat>, len: nat, l: nat, v: Vec)
    requires |before| == |was| && l < |outs| && |v| == len && outs[l] + len <= |was|
    requires forall q :: 0 <= q < |was| && Outside(q, outs, len, l) ==> before[q] == was[q]
    ensures forall q :: 0 <= q < |was| && Outside(q, outs, len, l + 1) ==> Splice(before, outs[l], v)[q] == was[q]
  {
    hide Splice;
    forall q | 0 <= q < |was| && Outside(q, outs, len, l + 1) ensures Splice(before, outs[l], v)[q] == was[q] {
      assert Outside(q, outs, len, l);
      SpliceElsewhere(before, outs[l], v, q);
    }
  }

  lemma Untouched(before: Vec, was: Vec, rows: Matrix, ins: seq<nat>, outs: seq<nat>, len: nat, l: nat)
    requires |before| == |was| && l < |outs| && InMemory(ins, len, |was|) && InMemory(outs, len, |was|)
    requires Shape(rows, |outs|, |ins|) && AllApart(ins, outs, len)
    requires Encoded(before, was, rows, ins, outs, len, l)
    ensures forall q :: outs[l] <= q < outs[l] + len ==> before[q] == was[q]
    ensures forall j, q :: 0 <= j < |ins| && ins[j] <= q < ins[j] + len ==> before[q] == was[q]
  {
    hide Accumulated;
    forall q | outs[l] <= q < outs[l] + len ensures before[q] == was[q] {
      assert Outside(q, outs, len, l);
    }
    forall j, q | 0 <= j < |ins| && ins[j] <= q < ins[j] + len ensures before[q] == was[q] {
      assert Outside(q, outs, len, l);
    }
  }

  lemma SpliceReadsBack(m: Vec, o: nat, v: Vec)
    requires o + |v| <= |m|
    ensures Stretch(Splice(m, o, v), o, |v|) == v
  {}

  lemma SpliceReadsApart(m: Vec, o: nat, v: Vec, p: nat)
    requires o + |v| <= |m| && p + |v| <= |m| && Apart(p, o, |v|)
    ensures Stretch(Splice(m, o, v), p, |v|) == Stretch(m, p, |v|)
  {}

  lemma SpliceElsewhere(m: Vec, o: nat, v: Vec, q: nat)
    requires o + |v| <= |m| && q < |m| && !(o <= q < o + |v|)
    ensures Splice(m, o, v)[q] == m[q]
  {}

  lemma {:induction false} AccumulatedFrame(m: Vec, m': Vec, dst: nat, row: Vec, ins: seq<nat>, len: nat, j: nat)
    requires |m| == |m'| && dst + len <= |m| && InMemory(ins, len, |m|) && j <= |ins| && j <= |row|
    requires forall q :: dst <= q < dst + len ==> m[q] == m'[q]
    requires forall i, q :: 0 <= i < |ins| && ins[i] <= q < ins[i] + len ==> m[q] == m'[q]
    ensures Accumulated(m, dst, row, ins, len, j) == Accumulated(m', dst, row, ins, len, j)
  {
    hide AddMul;
    if j == 0 {
      assert m[dst..dst + len] == m'[dst..dst + len];
    } else {
      AccumulatedFrame(m, m', dst, row, ins, len, j - 1);
      assert m[ins[j - 1]..ins[j - 1] + len] == m'[ins[j - 1]..ins[j - 1] + len];
    }
  }
}
