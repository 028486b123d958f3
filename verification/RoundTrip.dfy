// The coder's purpose: whatever units are lost, up to the number of parity
// units, decoding the survivors restores every lost byte.

module RoundTrip {
  import opened Bytes
  import opened Linear
  import opened EncodeLoop
  import opened ReedSolomon
  import opened RawCoder

  // After encoding, unit r of every column is its generator row times the data.
  lemma UnitsAfterEncode(k: nat, p: nat, now: Vec, was: Vec, ins: seq<nat>, outs: seq<nat>, len: nat, r: nat, t: nat)
    requires |outs| == p && k + p < FIELD_SIZE && AllApart(ins, outs, len)
    requires EncodesParity(k, now, was, ins, outs, len) && r < k + p && t < len
    ensures InMemory(ins, t + 1, |was|) && (ins + outs)[r] + t < |now|
    ensures now[(ins + outs)[r] + t] == UnitByte(k, r, ColumnAt(was, ins, t))
  {
    hide UnitByte;
    if r < k {
      assert Outside(ins[r] + t, outs, len, |outs|);
      DataUnitByte(k, r, ColumnAt(was, ins, t));
    } else {
      assert ByteIsParity(now, outs[r - k], t, k, r - k, was, ins);
    }
  }

  // encoded: memory after encode; held: memory when decode starts, with surviving
  // unit valid[i] at srcs[i]; decoded: memory after decode, into dsts. Every lost
  // byte is back, for every geometry with k + p < 256, every content, every
  // choice of survivors and every list of lost units in data-first order.
  lemma DecodeUndoesEncodeInMemory(k: nat, p: nat, data: Vec, encoded: Vec, held: Vec, decoded: Vec,
                                   ins: seq<nat>, outs: seq<nat>, valid: seq<nat>, erased: seq<nat>,
                                   srcs: seq<nat>, dsts: seq<nat>, len: nat, l: nat, t: nat)
    requires 0 < k && |outs| == p && k + p < FIELD_SIZE && AllApart(ins, outs, len)
    requires EncodesParity(k, encoded, data, ins, outs, len)
    requires k <= |valid| && Distinct(valid) && (forall i :: 0 <= i < |valid| ==> valid[i] < k + p)
    requires |dsts| == |erased| && (forall i :: 0 <= i < |erased| ==> erased[i] < k + p) && DataFirst(k, erased)
    requires |srcs| == k && |held| == |decoded| && InMemory(srcs, len, |held|) && InMemory(dsts, len, |held|)
    requires forall i :: 0 <= i < k ==>
               Stretch(held, srcs[i], len) == Stretch(encoded, (ins + outs)[valid[i]], len)
    requires Combines(decoded, held, DecodeRows(k, valid, erased), srcs, dsts, len)
    requires l < |erased| && t < len
    ensures decoded[dsts[l] + t] == encoded[(ins + outs)[erased[l]] + t]
  {
    hide UnitByte, Dot, DecodeRow, InverseFor, AllApart, Stretch;
    UnitsAfterEncode(k, p, encoded, data, ins, outs, len, erased[l], t);
    var x := ColumnAt(data, ins, t);
    assert ByteIs(decoded, dsts[l], t, held, DecodeRows(k, valid, erased)[l], srcs);
    forall i | 0 <= i < k ensures held[srcs[i] + t] == UnitByte(k, valid[i], x) {
      UnitsAfterEncode(k, p, encoded, data, ins, outs, len, valid[i], t);
      SameByte(held, srcs[i], encoded, (ins + outs)[valid[i]], len, t);
    }
    assert ColumnAt(held, srcs, t) == Codeword(k, valid[..k], x);
    DecodeRowCorrect(k, valid[..k], erased, l, x);
  }

  lemma SameByte(a: Vec, o: nat, b: Vec, p: nat, len: nat, t: nat)
    requires o + len <= |a| && p + len <= |b| && Stretch(a, o, len) == Stretch(b, p, len) && t < len
    ensures a[o + t] == b[p + t]
  {
    assert Stretch(a, o, len)[t] == Stretch(b, p, len)[t];
  }

  // One lost unit: from k units holding their bytes, decoding writes its bytes.
  lemma DecodedUnit(k: nat, valid: seq<nat>, erased: seq<nat>, srcs: seq<nat>, dsts: seq<nat>,
                    held: Vec, now: Vec, columns: seq<Vec>, l: nat)
    requires 0 < k <= 256 && |valid| == k && Indexes(valid) && Distinct(valid) && Indexes(erased)
    requires |srcs| == k && |dsts| == |erased| && |held| == |now| && DataFirst(k, erased)
    requires forall t :: 0 <= t < |columns| ==> |columns[t]| == k
    requires InMemory(srcs, |columns|, |held|) && InMemory(dsts, |columns|, |held|)
    requires forall i :: 0 <= i < k ==> Stretch(held, srcs[i], |columns|) == UnitBytes(k, valid[i], columns)
    requires Combines(now, held, DecodeRows(k, valid, erased), srcs, dsts, |columns|)
    requires l < |erased|
    ensures Stretch(now, dsts[l], |columns|) == UnitBytes(k, erased[l], columns)
  {
    hide UnitByte, Dot, DecodeRow, InverseFor, Stretch;
    assert valid[..k] == valid;
    forall t | 0 <= t < |columns|
      ensures Stretch(now, dsts[l], |columns|)[t] == UnitBytes(k, erased[l], columns)[t]
    {
      assert ByteIs(now, dsts[l], t, held, DecodeRows(k, valid, erased)[l], srcs);
      ColumnHeld(k, valid, srcs, held, columns, t);
      DecodeRowCorrect(k, valid, erased, l, columns[t]);
      StretchAt(now, dsts[l], |columns|, t);
    }
  }

  lemma StretchAt(m: Vec, o: nat, len: nat, t: nat)
    requires o + len <= |m| && t < len
    ensures Stretch(m, o, len)[t] == m[o + t]
  {}

  // The bytes the survivors have at position t are the column's codeword.
  lemma ColumnHeld(k: nat, valid: seq<nat>, srcs: seq<nat>, held: Vec, columns: seq<Vec>, t: nat)
    requires k <= 256 && |valid| == |srcs| == k && Indexes(valid) && t < |columns|
    requires forall t :: 0 <= t < |columns| ==> |columns[t]| == k
    requires InMemory(srcs, |columns|, |held|)
    requires forall i :: 0 <= i < k ==> Stretch(held, srcs[i], |columns|) == UnitBytes(k, valid[i], columns)
    ensures InMemory(srcs, t + 1, |held|) && ColumnAt(held, srcs, t) == Codeword(k, valid, columns[t])
  {
    hide UnitByte, Stretch;
    forall i | 0 <= i < k ensures ColumnAt(held, srcs, t)[i] == Codeword(k, valid, columns[t])[i] {
      StretchAt(held, srcs[i], |columns|, t);
      assert UnitBytes(k, valid[i], columns)[t] == UnitByte(k, valid[i], columns[t]);
    }
  }

  lemma UntouchedByte(now: Vec, was: Vec, rows: Matrix, ins: seq<nat>, outs: seq<nat>, len: nat, q: nat)
    requires |now| == |was| && InMemory(ins, len, |was|) && InMemory(outs, len, |was|)
    requires Shape(rows, |outs|, |ins|) && Combines(now, was, rows, ins, outs, len)
    requires q < |was| && Outside(q, outs, len, |outs|)
    ensures now[q] == was[q]
  {}

  lemma SameStretch(now: Vec, was: Vec, rows: Matrix, ins: seq<nat>, outs: seq<nat>, len: nat, o: nat)
    requires |now| == |was| && InMemory(ins, len, |was|) && InMemory(outs, len, |was|)
    requires Shape(rows, |outs|, |ins|) && Combines(now, was, rows, ins, outs, len)
    requires o + len <= |was| && forall l :: 0 <= l < |outs| ==> Apart(o, outs[l], len)
    ensures Stretch(now, o, len) == Stretch(was, o, len)
  {
    hide Combines;
    forall q | o <= q < o + len ensures now[q] == was[q] {
      assert Outside(q, outs, len, |outs|);
      UntouchedByte(now, was, rows, ins, outs, len, q);
    }
  }
}
