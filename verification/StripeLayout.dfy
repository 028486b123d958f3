// What dividing a request guarantees the reader: bands are whole in every
// block, every requested byte has exactly one slot, and the slots are where the
// decoder takes its inputs.

module StripeLayout {
  import opened Geometry
  import opened DivideStripe

  // ----- bands and block ends

  // A band never straddles the end of an internal data block.
  lemma NoStraddle(g: Group, start: nat, end: nat, r: Request, stripes: seq<AlignedStripe>, n: nat, i: nat)
    requires g.Valid() && Spans(g, start, end, r) && end < g.bytes && Divided(g, r, stripes)
    requires n < |stripes| && i < g.k
    ensures var len := BlockLength(g.bytes, g.cellSize, g.k, i);
            len <= stripes[n].offset || stripes[n].offset + stripes[n].span <= len
  {
    var off, stop := stripes[n].offset, stripes[n].offset + stripes[n].span;
    BandInRow(g, r, stripes, n);
    assert NotCut(stripes, LastCellEnd(g));
    assert LastCellEnd(g) <= off || stop <= LastCellEnd(g);
    hide Aligned, Finished, LastCellEnd;
    BlockEnds(g, start, end, r, i);
  }

  lemma BandInRow(g: Group, r: Request, stripes: seq<AlignedStripe>, n: nat)
    requires 0 < g.cellSize && 0 < g.k && r.In(g) && Aligned(g, r, stripes) && n < |stripes|
    ensures r.Top(g) <= r.First(g) <= stripes[n].offset
    ensures stripes[n].offset + stripes[n].span <= r.Last(g) <= r.Top(g) + g.cellSize
  {
    StartsAbove(stripes, r.First(g), r.Last(g), n);
    EndsBelow(stripes, r.First(g), r.Last(g), n);
  }

  // Seen from the request's row, a block ends at or before the row, at or after
  // its end, or where the group's last cell ends.
  lemma BlockEnds(g: Group, start: nat, end: nat, r: Request, i: nat)
    requires g.Valid() && Spans(g, start, end, r) && end < g.bytes && i < g.k
    ensures var len := BlockLength(g.bytes, g.cellSize, g.k, i);
            len <= r.Top(g) || r.Top(g) + g.cellSize <= len || len == LastCellEnd(g)
  {
    hide BlockLength, LastCellEnd, Spans, Rest, Rows;
    var row, c, off := Split(g.bytes, g.cellSize, g.k);
    LastCellAt(g, row, c, off);
    LengthAt(g, row, c, off, i);
    RowBefore(g, start, end, r, row, c, off);
    if r.row < row { RowsApart(r.row, row, g.cellSize); }
  }

  lemma RowsApart(a: int, b: int, cellSize: nat)
    requires a < b
    ensures a * cellSize + cellSize <= b * cellSize
  {
    MulAtLeast(b - a, cellSize);
    assert (b - a) * cellSize == b * cellSize - a * cellSize;
  }

  lemma LastCellAt(g: Group, row: int, c: int, off: int)
    requires Layout(g.cellSize, g.k) && 0 <= row && 0 <= c < g.k && 0 <= off < g.cellSize
    requires g.bytes == row * (g.cellSize * g.k) + c * g.cellSize + off
    ensures LastCellEnd(g) == row * g.cellSize + off
  {
    Regroup(row, c, g.cellSize, g.k);
    DivModUnique(g.bytes, g.cellSize, row * g.k + c, off);
    DivModUnique(row * g.k + c, g.k, row, c);
  }

  lemma LengthAt(g: Group, row: int, c: int, off: int, i: nat)
    requires Layout(g.cellSize, g.k) && 0 <= row && 0 <= c < g.k && 0 <= off < g.cellSize && i < g.k
    requires g.bytes == row * (g.cellSize * g.k) + c * g.cellSize + off
    ensures BlockLength(g.bytes, g.cellSize, g.k, i) ==
            row * g.cellSize + if i < c then g.cellSize else if i == c then off else 0
  {
    hide LastCellSize;
    CellsFit(c, off, g.cellSize, g.k);
    DivModUnique(g.bytes, g.cellSize * g.k, row, c * g.cellSize + off);
    LastCellForms(c, off, i, g.cellSize, g.k);
  }

  // A request inside the group starts in a row the group reaches.
  lemma RowBefore(g: Group, start: nat, end: nat, r: Request, row: int, c: int, off: int)
    requires Layout(g.cellSize, g.k) && Spans(g, start, end, r) && end < g.bytes
    requires 0 <= c < g.k && 0 <= off < g.cellSize && g.bytes == row * (g.cellSize * g.k) + c * g.cellSize + off
    ensures r.row <= row
  {
    CellsFit(c, off, g.cellSize, g.k);
    CellsFit(r.i1, r.o1, g.cellSize, g.k);
    MixedRadix(r.row, r.i1 * g.cellSize + r.o1, row, c * g.cellSize + off, g.cellSize * g.k);
  }

  lemma LastCellForms(c: int, off: int, i: nat, cellSize: int, k: int)
    requires Layout(cellSize, k) && 0 <= c < k && 0 <= off < cellSize && i < k
    ensures LastCellSize(c * cellSize + off, cellSize, k, i) ==
            if i < c then cellSize else if i == c then off else 0
  {
    var d := c - i;
    assert d * cellSize == c * cellSize - i * cellSize;
    if d >= 1 { MulAtLeast(d, cellSize); }
    if d <= -1 { MulAtLeast(-d, cellSize); assert (-d) * cellSize == -(d * cellSize); }
  }

  // So the bytes a band has in block i are all there, or the band is past the
  // block's end and the chunk is known to be zero.
  lemma ChunkWholeOrZero(g: Group, start: nat, end: nat, r: Request, stripes: seq<AlignedStripe>, n: nat, i: nat)
    requires g.Valid() && Spans(g, start, end, r) && end < g.bytes && Divided(g, r, stripes)
    requires n < |stripes| && i < g.k
    ensures stripes[n].chunks[i] == AllZero <==> BlockLength(g.bytes, g.cellSize, g.k, i) <= stripes[n].offset
    ensures stripes[n].chunks[i] != AllZero <==>
            stripes[n].offset + stripes[n].span <= BlockLength(g.bytes, g.cellSize, g.k, i)
  {
    hide BlockLength, Aligned;
    AlignedPositive(g, r, stripes);
    NoStraddle(g, start, end, r, stripes, n, i);
  }

  // A parity block reaches to the end of every band it may have to replace.
  lemma ParityReaches(g: Group, start: nat, end: nat, r: Request, stripes: seq<AlignedStripe>, n: nat, i: nat,
                      parity: nat)
    requires g.Valid() && Spans(g, start, end, r) && end < g.bytes && Divided(g, r, stripes)
    requires n < |stripes| && i < g.k <= parity && stripes[n].chunks[i].Requested?
    ensures stripes[n].offset + stripes[n].span <= BlockLength(g.bytes, g.cellSize, g.k, parity)
  {
    hide BlockLength, Divided;
    ChunkWholeOrZero(g, start, end, r, stripes, n, i);
    LengthsOrdered(g.bytes, g.cellSize, g.k, 0, i, parity);
  }

  // A parity block reaches to the end of every band, requested bytes or not.
  lemma ParityCovers(g: Group, start: nat, end: nat, r: Request, stripes: seq<AlignedStripe>, n: nat, parity: nat)
    requires g.Valid() && Spans(g, start, end, r) && end < g.bytes && Divided(g, r, stripes)
    requires n < |stripes| && g.k <= parity
    ensures stripes[n].offset + stripes[n].span <= BlockLength(g.bytes, g.cellSize, g.k, parity)
  {
    hide BlockLength, Finished, Aligned;
    BandInRow(g, r, stripes, n);
    RangeInBlock(g, start, end, r, r.i0);
    LengthsOrdered(g.bytes, g.cellSize, g.k, 0, r.i0, parity);
  }

  // ----- every requested byte has one slot

  // Group byte x lies in band n, and its slot there is x modulo the stripe.
  ghost predicate Slotted(g: Group, stripes: seq<AlignedStripe>, n: nat, x: nat)
    requires Layout(g.cellSize, g.k) && n < |stripes| && |stripes[n].chunks| == g.k + g.p
  {
    var i, o := CellOf(x, g.cellSize, g.k), OffsetOf(x, g.cellSize, g.k);
    var s := stripes[n];
    && 0 <= i < g.k && s.offset <= o < s.offset + s.span
    && s.chunks[i].Requested? && s.chunks[i].len == s.span
    && s.chunks[i].pos + (o - s.offset) == x % (g.cellSize * g.k)
  }

  lemma EveryByteSlotted(g: Group, start: nat, end: nat, r: Request, stripes: seq<AlignedStripe>, x: nat)
    returns (n: nat)
    requires g.Valid() && Spans(g, start, end, r) && end < g.bytes && Divided(g, r, stripes)
    requires start <= x <= end
    ensures n < |stripes| && Slotted(g, stripes, n, x)
  {
    var i, off := WhereInRow(g, start, end, r, x);
    var o := r.Top(g) + off;
    n := BandAt(stripes, r.First(g), r.Last(g), o);
    var s := stripes[n];
    assert Finished(g, r, s);
    assert NotCut(stripes, r.Top(g) + r.Lo(i)) && NotCut(stripes, r.Top(g) + r.Hi(g, i));
    RangeInBlock(g, start, end, r, i);
    hide BlockLength;
    assert s.chunks[i] == ChunkFor(g, r, s.offset, s.span, i) == SliceFor(g, r, s.offset, s.span, i);
  }

  // A requested byte's place in the request's row.
  lemma WhereInRow(g: Group, start: nat, end: nat, r: Request, x: nat) returns (i: int, off: int)
    requires g.Valid() && Spans(g, start, end, r) && start <= x <= end
    ensures r.i0 <= i <= r.i1 && r.Lo(i) <= off < r.Hi(g, i)
    ensures CellOf(x, g.cellSize, g.k) == i && OffsetOf(x, g.cellSize, g.k) == r.Top(g) + off
    ensures x % (g.cellSize * g.k) == i * g.cellSize + off
    ensures r.First(g) <= r.Top(g) + off < r.Last(g)
  {
    var row, c, o := Split(x, g.cellSize, g.k);
    i, off := c, o;
    var s := g.cellSize * g.k;
    CellsFit(c, o, g.cellSize, g.k);
    CellsFit(r.i0, r.o0, g.cellSize, g.k);
    CellsFit(r.i1, r.o1, g.cellSize, g.k);
    DivModUnique(x, s, row, c * g.cellSize + o);
    MixedRadix(row, c * g.cellSize + o, r.row, r.i0 * g.cellSize + r.o0, s);
    MixedRadix(r.row, r.i1 * g.cellSize + r.o1, row, c * g.cellSize + o, s);
    MixedRadix(c, o, r.i0, r.o0, g.cellSize);
    MixedRadix(r.i1, r.o1, c, o, g.cellSize);
  }

  lemma BandAt(stripes: seq<AlignedStripe>, lo: int, hi: int, o: int) returns (n: nat)
    requires Tiling(stripes, lo, hi) && lo <= o < hi
    ensures n < |stripes| && stripes[n].offset <= o < stripes[n].offset + stripes[n].span
  {
    n := 0;
    while stripes[n].offset + stripes[n].span <= o
      invariant n < |stripes| && stripes[n].offset <= o
      decreases |stripes| - n
    {
      n := n + 1;
    }
  }

  // Bands do not overlap, so no byte has two slots.
  lemma {:induction false} BandsDisjoint(stripes: seq<AlignedStripe>, lo: int, hi: int, n: nat, m: nat)
    requires Tiling(stripes, lo, hi) && n < m < |stripes|
    ensures stripes[n].offset + stripes[n].span <= stripes[m].offset
  {
    if n + 1 < m { BandsDisjoint(stripes, lo, hi, n, m - 1); }
  }

  lemma OneSlotOnly(g: Group, r: Request, stripes: seq<AlignedStripe>, n: nat, m: nat, x: nat)
    requires Layout(g.cellSize, g.k) && Divided(g, r, stripes) && n < |stripes| && m < |stripes|
    requires Slotted(g, stripes, n, x) && Slotted(g, stripes, m, x)
    ensures n == m
  {
    hide Finished, NotCut;
    if n < m { BandsDisjoint(stripes, r.First(g), r.Last(g), n, m); }
    if m < n { BandsDisjoint(stripes, r.First(g), r.Last(g), m, n); }
  }

  // Conversely every byte of every slice is a requested byte's slot.
  lemma SlicesHoldRequest(g: Group, start: nat, end: nat, r: Request, stripes: seq<AlignedStripe>, n: nat, i: nat,
                          t: nat)
    requires g.Valid() && Spans(g, start, end, r) && end < g.bytes && Divided(g, r, stripes)
    requires n < |stripes| && i < g.k && stripes[n].chunks[i].Requested? && t < stripes[n].span
    ensures var x := OffsetInGroup(g.cellSize, g.k, stripes[n].offset + t, i);
            start <= x <= end && Slotted(g, stripes, n, x)
  {
    var s := stripes[n];
    assert Finished(g, r, s);
    hide BlockLength, Aligned, Spans, CellOf, OffsetOf, OffsetInGroup;
    assert s.chunks[i] == SliceFor(g, r, s.offset, s.span, i);
    RowMember(g, start, end, r, i, s.offset + t - r.Top(g));
  }

  lemma RowMember(g: Group, start: nat, end: nat, r: Request, i: nat, off: int)
    requires g.Valid() && Spans(g, start, end, r) && r.i0 <= i <= r.i1 && r.Lo(i) <= off < r.Hi(g, i)
    ensures var x := OffsetInGroup(g.cellSize, g.k, r.Top(g) + off, i);
            && start <= x <= end && CellOf(x, g.cellSize, g.k) == i && OffsetOf(x, g.cellSize, g.k) == r.Top(g) + off
            && x % (g.cellSize * g.k) == i * g.cellSize + off
  {
    hide CellOf, OffsetOf, OffsetInGroup, BlockLength;
    MemberAt(r.row, i, off, g.cellSize, g.k);
    MixedRadix(i, off, r.i0, r.o0, g.cellSize);
    MixedRadix(r.i1, r.o1, i, off, g.cellSize);
  }

  lemma MemberAt(row: int, i: int, off: int, cellSize: int, k: int)
    requires Layout(cellSize, k) && 0 <= row && 0 <= i < k && 0 <= off < cellSize
    ensures 0 <= row * cellSize + off
    ensures var x := OffsetInGroup(cellSize, k, row * cellSize + off, i);
            && 0 <= x == row * (cellSize * k) + i * cellSize + off && x % (cellSize * k) == i * cellSize + off
            && CellOf(x, cellSize, k) == i && OffsetOf(x, cellSize, k) == row * cellSize + off
  {
    hide CellOf, OffsetOf, OffsetInGroup;
    MulNonneg(row, cellSize);
    var o := row * cellSize + off;
    DivModUnique(o, cellSize, row, off);
    GroupForm(o, row, off, i, cellSize, k);
    OffsetToGroupAndBack(o, i, cellSize, k);
    CellsFit(i, off, cellSize, k);
    var x, part, stripe := OffsetInGroup(cellSize, k, o, i), i * cellSize + off, cellSize * k;
    DivModUnique(x, stripe, row, part);
  }

  lemma MulNonneg(a: int, b: int)
    requires 0 <= a && 0 <= b
    ensures 0 <= a * b
  {}

  // ----- the slots are the decoder's input positions

  // prepareDecodeInputs takes input i at bufOff % cellSize + cellSize * i, for
  // span bytes: exactly the slice the request was given.
  lemma SliceIsDecodeInput(g: Group, r: Request, stripes: seq<AlignedStripe>, n: nat, i: nat)
    requires g.Valid() && r.In(g) && Divided(g, r, stripes)
    requires n < |stripes| && i < g.k && stripes[n].chunks[i].Requested?
    ensures stripes[n].chunks[i] == Requested(stripes[n].offset % g.cellSize + g.cellSize * i, stripes[n].span)
    ensures stripes[n].chunks[i].pos + stripes[n].span <= g.cellSize * (i + 1) <= g.cellSize * g.k
  {
    var s := stripes[n];
    assert Finished(g, r, s);
    BandInRow(g, r, stripes, n);
    AlignedPositive(g, r, stripes);
    hide BlockLength, Aligned, Request.Top;
    assert s.chunks[i] == SliceFor(g, r, s.offset, s.span, i);
    SliceInCell(g, r, s.offset, s.span, i);
  }

  // The code takes the remainder of the band's offset cut to 32 bits, and its
  // remainder has the sign of the dividend.
  function DecodeInputPos(offset: nat, cellSize: int, i: nat): int
    requires 0 < cellSize
  {
    var bufOff := Int32(offset);
    (if bufOff >= 0 then bufOff % cellSize else -(-bufOff % cellSize)) + cellSize * i
  }

  lemma DecodeInputExact(offset: nat, cellSize: int, i: nat)
    requires 0 < cellSize
    ensures DecodeInputPos(offset, cellSize, i) == offset % cellSize + cellSize * i <==>
            (offset - Int32(offset)) % cellSize == 0 && (Int32(offset) >= 0 || offset % cellSize == 0)
  {
    var bufOff := Int32(offset);
    hide Int32;
    SameRemainder(offset, bufOff, cellSize);
    if bufOff < 0 { Negated(bufOff, cellSize); }
  }

  lemma SameRemainder(a: int, b: int, d: int)
    requires 0 < d
    ensures (a - b) % d == 0 <==> a % d == b % d
  {
    var q, q' := a / d, b / d;
    if a % d == b % d {
      assert a - b == (q - q') * d;
      DivModUnique(a - b, d, q - q', 0);
    } else if (a - b) % d == 0 {
      var n := (a - b) / d;
      assert a == (n + q') * d + b % d;
      DivModUnique(a, d, n + q', b % d);
      assert false;
    }
  }

  lemma Negated(b: int, d: int)
    requires 0 < d
    ensures -b % d == 0 <==> b % d == 0
  {
    if b % d == 0 { DivModUnique(-b, d, -(b / d), 0); }
    if -b % d == 0 { DivModUnique(b, d, -(-b / d), 0); }
  }

  // 2^31 + 1 bytes into a block of 1 MiB cells, the first input is taken one
  // megabyte less a byte before the buffer.
  lemma FarBandMisplaced()
    ensures DecodeInputPos(0x8000_0001, 0x10_0000, 0) == -0xf_ffff
    ensures 0x8000_0001 % 0x10_0000 + 0x10_0000 * 0 == 1
  {
  }

  lemma SliceInCell(g: Group, r: Request, off: int, span: int, i: nat)
    requires 0 < g.cellSize && i < g.k && SliceFor(g, r, off, span, i).Requested? && 0 < span
    requires r.Top(g) <= off && off + span <= r.Top(g) + g.cellSize
    ensures SliceFor(g, r, off, span, i) == Requested(off % g.cellSize + g.cellSize * i, span)
    ensures off % g.cellSize + g.cellSize * i + span <= g.cellSize * (i + 1) <= g.cellSize * g.k
  {
    DivModUnique(off, g.cellSize, r.row, off - r.Top(g));
    CellsEnd(i, g.cellSize, g.k);
  }

  lemma CellsEnd(i: nat, cellSize: nat, k: nat)
    requires i < k
    ensures i * cellSize == cellSize * i && cellSize * i + cellSize == cellSize * (i + 1) <= cellSize * k
  {
    MulAtLeast(k - i, cellSize);
    assert (k - i) * cellSize == cellSize * k - i * cellSize;
  }
}
