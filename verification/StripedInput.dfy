// StripedInputStreamImpl: a cursor over a striped file, reading stripe by stripe
// into a buffer, through whatever failures the datanodes produce.

module StripedInput {
  import opened Bytes
  import opened Geometry
  import opened DivideStripe
  import opened StripeReaders
  import opened GroupContent
  import opened StripeContent
  import StripeLayout
  import opened RawCoder

  datatype LocatedBlock = LocatedBlock(offset: nat, numBytes: nat) {
    predicate Has(pos: int) {
      offset <= pos < offset + numBytes
    }
  }

  // Blocks that follow one another and make up the whole file.
  ghost predicate Cover(lbs: seq<LocatedBlock>, fileLength: nat) {
    && (lbs == [] ==> fileLength == 0)
    && (lbs != [] ==> lbs[0].offset == 0 && lbs[|lbs| - 1].offset + lbs[|lbs| - 1].numBytes == fileLength)
    && (forall b :: 0 <= b < |lbs| ==> 0 < lbs[b].numBytes)
    && (forall b {:trigger lbs[b]} :: 0 < b < |lbs| ==> lbs[b - 1].offset + lbs[b - 1].numBytes == lbs[b].offset)
  }

  // Blocks in order, possibly with gaps between them.
  ghost predicate Ordered(lbs: seq<LocatedBlock>) {
    forall b, c :: 0 <= b < c < |lbs| ==>
      lbs[b].offset < lbs[c].offset && lbs[b].offset + lbs[b].numBytes <= lbs[c].offset
  }

  // Where findBlock finds a position: in no block, in one, or past the length, in the
  // last block.
  datatype Found = Nowhere | At(block: nat) | InLastBlock

  // findBlock. The block that has the position is found if there is one.
  method FindBlock(lbs: seq<LocatedBlock>, fileLength: nat, position: nat) returns (f: Found)
    requires Ordered(lbs)
    ensures f == InLastBlock <==> position >= fileLength
    ensures f.At? ==> f.block < |lbs| && lbs[f.block].Has(position)
    ensures f == Nowhere ==> forall b :: 0 <= b < |lbs| ==> !lbs[b].Has(position)
  {
    if position >= fileLength {
      return InLastBlock;
    }
    if lbs == [] || position < lbs[0].offset {
      return Nowhere;
    }
    var bound := LowerBound(lbs, position);
    var b := bound;
    if bound == |lbs| {
      b := |lbs| - 1;
    } else if lbs[bound].offset > position {
      b := bound - 1;
    }
    if position < lbs[b].offset || position >= lbs[b].offset + lbs[b].numBytes {
      return Nowhere;
    }
    return At(b);
  }

  // std::lower_bound: the first block that starts at or after the position.
  method LowerBound(lbs: seq<LocatedBlock>, position: nat) returns (bound: nat)
    requires Ordered(lbs)
    ensures bound <= |lbs|
    ensures forall b :: 0 <= b < bound ==> lbs[b].offset < position
    ensures forall b :: bound <= b < |lbs| ==> position <= lbs[b].offset
  {
    bound := 0;
    var high := |lbs|;
    while bound < high
      invariant bound <= high <= |lbs|
      invariant forall b :: 0 <= b < bound ==> lbs[b].offset < position
      invariant forall b :: high <= b < |lbs| ==> position <= lbs[b].offset
    {
      var mid := bound + (high - bound) / 2;
      if lbs[mid].offset < position {
        bound := mid + 1;
      } else {
        high := mid;
      }
    }
  }

  // A list that covers the file is ordered, and has every position of the file.
  lemma CoverFinds(lbs: seq<LocatedBlock>, fileLength: nat, pos: nat) returns (b: nat)
    requires Cover(lbs, fileLength) && pos < fileLength
    ensures Ordered(lbs) && b < |lbs| && lbs[b].Has(pos)
  {
    forall b, c | 0 <= b < c < |lbs|
      ensures lbs[b].offset < lbs[c].offset && lbs[b].offset + lbs[b].numBytes <= lbs[c].offset
    {
      EndsBefore(lbs, fileLength, b, c);
    }
    b := 0;
    while lbs[b].offset + lbs[b].numBytes <= pos
      invariant b < |lbs| && lbs[b].offset <= pos
      decreases |lbs| - b
    {
      b := b + 1;
    }
  }

  lemma Int32AtMost(x: nat)
    ensures Int32(x) <= x
  {}

  // Blocks do not overlap.
  lemma OneBlockOnly(lbs: seq<LocatedBlock>, fileLength: nat, b: nat, pos: int)
    requires Cover(lbs, fileLength) && b < |lbs| && lbs[b].Has(pos)
    ensures forall c :: 0 <= c < |lbs| && lbs[c].Has(pos) ==> c == b
  {
    forall c | 0 <= c < |lbs| && lbs[c].Has(pos) ensures c == b {
      if b < c { EndsBefore(lbs, fileLength, b, c); }
      if c < b { EndsBefore(lbs, fileLength, c, b); }
    }
  }

  lemma {:induction false} EndsBefore(lbs: seq<LocatedBlock>, fileLength: nat, b: nat, c: nat)
    requires Cover(lbs, fileLength) && b < c < |lbs|
    ensures lbs[b].offset + lbs[b].numBytes <= lbs[c].offset
  {
    if b + 1 < c { EndsBefore(lbs, fileLength, b, c - 1); }
  }

  // What the datanodes answer to the nth band read, chunk by chunk.
  type Answers = (nat, nat) -> Outcome

  function AnswersAt(answers: Answers, clock: nat, width: nat): (o: seq<Outcome>)
    ensures |o| == width
  {
    seq(width, i requires 0 <= i < width => answers(clock, i))
  }

  // Band read number c loses no more chunks than there is parity for.
  ghost predicate Survivable(answers: Answers, c: nat, k: nat, p: nat) {
    NumBad(AnswersAt(answers, c, k + p), k + p) <= p
  }

  ghost predicate Tolerable(answers: Answers, from: nat, until: nat, k: nat, p: nat) {
    forall c: nat :: from <= c < until ==> Survivable(answers, c, k, p)
  }

  lemma NotTolerable(answers: Answers, from: nat, mid: nat, until: nat, k: nat, p: nat)
    requires from <= mid <= until && Tolerable(answers, from, until, k, p)
    ensures Tolerable(answers, mid, until, k, p)
  {}

  method ReadBands(g: Group, units: seq<Vec>, mem: array<Byte>, decoder: RawErasureDecoder, answers: Answers,
                   clock: nat, stripes: seq<AlignedStripe>, readers: seq<int>, ghost data: Vec, ghost start: nat,
                   ghost end: nat, ghost r: Request)
    returns (ok: bool, now: nat, after: seq<int>)
    requires Readable(g) && |data| == g.bytes && Complete(g, data, units) && mem.Length == BufferSize(g)
    requires Spans(g, start, end, r) && end < g.bytes && Divided(g, r, stripes)
    requires decoder.Valid() && decoder.k == g.k && decoder.p == g.p
    requires |readers| == g.k + g.p && NotBeyond(readers, r.First(g))
    modifies mem, decoder
    ensures decoder.Valid() && clock <= now
    ensures ok ==> LoadedBelow(mem[..], g, data, start, end, r.Last(g))
    ensures ok ==> |after| == g.k + g.p && NotBeyond(after, r.Last(g))
    ensures ok <== Tolerable(answers, clock, now, g.k, g.p)
  {
    hide LoadedBelow, Divided, Spans, BlockLength, BufferSize, Survivable, RawErasureDecoder.Valid, Complete;
    now, after := clock, readers;
    var n := 0;
    NothingAbove(g, data, start, end, r, mem[..]);
    NextBand(g, start, end, r, stripes);
    while n < |stripes|
      invariant n <= |stripes| && decoder.Valid() && now == clock + n
      invariant LoadedBelow(mem[..], g, data, start, end, if n < |stripes| then stripes[n].offset else r.Last(g))
      invariant |after| == g.k + g.p && NotBeyond(after, if n < |stripes| then stripes[n].offset else r.Last(g))
    {
      ok, after := ReadNextBand(g, units, mem, decoder, answers, now, stripes, n, after, data, start, end, r);
      now := now + 1;
      if !ok {
        assert !Survivable(answers, now - 1, g.k, g.p);
        return;
      }
      n := n + 1;
    }
    ok := true;
  }

  method ReadNextBand(g: Group, units: seq<Vec>, mem: array<Byte>, decoder: RawErasureDecoder, answers: Answers,
                      clock: nat,
                      stripes: seq<AlignedStripe>, n: nat, readers: seq<int>,
                      ghost data: Vec, ghost start: nat, ghost end: nat, ghost r: Request)
    returns (ok: bool, after: seq<int>)
    requires Readable(g) && |data| == g.bytes && Complete(g, data, units) && mem.Length == BufferSize(g)
    requires Spans(g, start, end, r) && end < g.bytes && Divided(g, r, stripes) && n < |stripes|
    requires decoder.Valid() && decoder.k == g.k && decoder.p == g.p
    requires LoadedBelow(mem[..], g, data, start, end, stripes[n].offset)
    requires |readers| == g.k + g.p && NotBeyond(readers, stripes[n].offset)
    modifies mem, decoder
    ensures decoder.Valid()
    ensures ok ==> LoadedBelow(mem[..], g, data, start, end, stripes[n].offset + stripes[n].span)
    ensures ok <== Survivable(answers, clock, g.k, g.p)
    ensures ok ==> |after| == g.k + g.p && NotBeyond(after, stripes[n].offset + stripes[n].span)
  {
    hide LoadedBelow, Divided, BlockLength, BufferSize, BandPlacement, Placement.Clear, ChunkLoaded, NumBad, Complete;
    ghost var before := mem[..];
    ok, after := ReadBand(g, units, mem, decoder, AnswersAt(answers, clock, g.k + g.p), stripes, n, readers, data,
        start, end, r);
    if ok {
      BandAdds(g, data, start, end, r, stripes, n, before, mem[..]);
    }
  }

  lemma NextBand(g: Group, start: nat, end: nat, r: Request, stripes: seq<AlignedStripe>)
    requires g.Valid() && Spans(g, start, end, r) && Divided(g, r, stripes)
    ensures stripes != [] && stripes[0].offset == r.First(g)
    ensures forall n :: 0 <= n < |stripes| ==>
              stripes[n].offset + stripes[n].span == if n + 1 < |stripes| then stripes[n + 1].offset else r.Last(g)
  {
    hide Finished, NotCut, BlockLength;
    assert r.First(g) < r.Last(g);
  }

  lemma NothingAbove(g: Group, data: Vec, start: nat, end: nat, r: Request, m: Vec)
    requires g.Valid() && Spans(g, start, end, r) 
    ensures LoadedBelow(m, g, data, start, end, r.First(g))
    ensures forall x: nat :: start <= x <= end ==> OffsetOf(x, g.cellSize, g.k) < r.Last(g)
  {
    hide OffsetOf, CellOf;
    forall x: nat | start <= x <= end ensures r.First(g) <= OffsetOf(x, g.cellSize, g.k) < r.Last(g) {
      var i, off := StripeLayout.WhereInRow(g, start, end, r, x);
    }
  }

  // ----- the stripe a position lies in

  // What is left of the position's stripe in a group of the given size.
  function StripeRangeLen(g: Group, x: nat): int
    requires 0 < g.Stripe()
  {
    Min(g.Stripe(), g.bytes - x / g.Stripe() * g.Stripe()) - x % g.Stripe()
  }

  lemma StripeRange(g: Group, x: nat)
    requires Readable(g) && x < g.bytes
    ensures 0 < g.Stripe() && 0 < StripeRangeLen(g, x) && x + StripeRangeLen(g, x) <= g.bytes
    ensures x % g.Stripe() + StripeRangeLen(g, x) <= g.Stripe()
    ensures (x + StripeRangeLen(g, x) - 1) / g.Stripe() == x / g.Stripe()
    ensures Int32(x / g.Stripe()) == x / g.Stripe() && Int32(x % g.Stripe()) == x % g.Stripe()
    ensures var lim := Min(g.Stripe(), g.bytes - x / g.Stripe() * g.Stripe()); Int32(lim) == lim
  {
    hide BlockLength;
    var S, q, r := g.Stripe(), x / g.Stripe(), x % g.Stripe();
    StripeCount(x, g.bytes, g.cellSize, g.k, q);
    var lim := Min(S, g.bytes - q * S);
    DivModUnique(x + (lim - r) - 1, S, q, lim - 1);
    Int32Exact(q); Int32Exact(r); Int32Exact(lim);
  }

  lemma StripeCount(x: nat, bytes: nat, cellSize: nat, k: nat, q: nat)
    requires Layout(cellSize, k) && x < bytes && bytes / cellSize < 0x8000_0000 && q == x / (cellSize * k)
    ensures q < 0x8000_0000
  {
    assert q * (cellSize * k) <= x;
    assert q * (cellSize * k) == (q * k) * cellSize;
    if q >= 0x8000_0000 {
      MulAtLeast(k, q);
      assert q * k >= q;
      QuotientAtLeast(bytes, cellSize, q * k);
    }
  }

  lemma QuotientAtLeast(x: nat, d: nat, n: nat)
    requires 0 < d && n * d <= x
    ensures n <= x / d
  {
    MixedRadix(x / d, x % d, n, 0, d);
  }

  // ----- the stream

  datatype ReadResult = Bytes(v: Vec) | Failed

  datatype SeekResult = Moved | OverEOF | NegativeOffset | Dead

  // How much one read returns with this much left in the block: the number left
  // is cut to 32 bits.
  function ReadLength(size: int, remaining: nat): nat {
    var realLen := Min(size, Int32(remaining));
    if realLen > 0 then realLen else 0
  }

  // Before the end of the block a read returns something exactly when the number of
  // bytes left, taken modulo 2^32, is positive as a signed 32-bit number.
  lemma ProgressIff(size: int, remaining: nat)
    requires 0 < size && 0 < remaining
    ensures ReadLength(size, remaining) > 0 <==> 0 < remaining % 0x1_0000_0000 < 0x8000_0000
  {
    var q, r := remaining / 0x1_0000_0000, remaining % 0x1_0000_0000;
    if r < 0x8000_0000 {
      DivModUnique(remaining + 0x8000_0000, 0x1_0000_0000, q, r + 0x8000_0000);
    } else {
      DivModUnique(remaining + 0x8000_0000, 0x1_0000_0000, q + 1, r - 0x8000_0000);
    }
  }

  // With 2^31 bytes left in the block, a read returns nothing.
  lemma StalledRead()
    ensures ReadLength(4096, 0x8000_0000) == 0
  {
    ProgressIff(4096, 0x8000_0000);
  }

  class StripedInputStream {
    const k: nat
    const p: nat
    const cellSize: nat
    const fileLength: nat
    const lbs: seq<LocatedBlock>
    const stored: seq<seq<Vec>>        // the internal blocks of every group
    ghost const file: Vec              // what the groups stand for
    const mem: array<Byte>             // curStripeBuf, then parityBuf
    const decoder: RawErasureDecoder
    const answers: Answers
    var cursor: nat
    var endOfCurBlock: int
    var curBlock: nat
    var rangeOffset: nat               // curStripeRange
    var rangeLength: nat
    var position: nat                  // curStripeBuf's cursors
    var limit: nat
    var readers: seq<int>              // where the blockReaders stand
    var clock: nat
    var failed: bool                   // lastError is set

    function GroupOf(b: nat): Group
      requires b < |lbs|
    {
      Group(k, p, cellSize, lbs[b].numBytes)
    }

    ghost function Content(b: nat): (v: Vec)
      requires b < |lbs| && lbs[b].offset + lbs[b].numBytes <= |file|
      ensures |v| == lbs[b].numBytes
    {
      file[lbs[b].offset..lbs[b].offset + lbs[b].numBytes]
    }

    lemma ContentSlice(b: nat, x: nat, n: nat)
      requires b < |lbs| && lbs[b].offset + lbs[b].numBytes <= |file| && x + n <= lbs[b].numBytes
      ensures Content(b)[x..x + n] == file[lbs[b].offset + x..lbs[b].offset + x + n]
    {
      SliceOfSlice(file, lbs[b].offset, lbs[b].offset + lbs[b].numBytes, x, n);
    }

    // A complete file, every block group addressable.
    ghost predicate Opened() {
      && Cover(lbs, |file|) && |stored| == |lbs| && fileLength == |file|
      && (forall b :: 0 <= b < |lbs| ==> Readable(GroupOf(b)) && lbs[b].offset + lbs[b].numBytes <= |file|)
      && 0 < cellSize * k && mem.Length == cellSize * k + cellSize * p
      && decoder.k == k && decoder.p == p
    }

    // Every unit of every group is stored.
    ghost predicate AllStored()
      requires Opened()
    {
      forall b :: 0 <= b < |lbs| ==> UnitsStored(GroupOf(b), lbs[b].offset, file, stored[b])
    }

    ghost predicate Valid()
      reads this, mem, decoder
    {
      && Opened() && AllStored() && decoder.Valid() && cursor <= |file|
      && (!failed ==> endOfCurBlock == -1 || InBlock())
    }

    // The cursor is in the current block or just past it, and what the stripe
    // range covers is in the buffer.
    ghost predicate InBlock()
      requires Opened()
      reads this, mem
    {
      && curBlock < |lbs| && endOfCurBlock == lbs[curBlock].offset + lbs[curBlock].numBytes - 1
      && lbs[curBlock].offset <= cursor <= endOfCurBlock + 1
      && (rangeLength > 0 ==> Buffered() && lbs[curBlock].offset + rangeOffset <= cursor)
      && Behind()
    }

    // No block reader is past the row of cells that the stripe range is in.
    ghost predicate Behind()
      requires Opened() && curBlock < |lbs|
      reads `curBlock, `rangeOffset, `rangeLength, `readers
    {
      && |readers| == k + p
      && (if rangeLength == 0 then NotBeyond(readers, -1)
          else Layout(cellSize, k) && NotBeyond(readers, RowTop(GroupOf(curBlock), rangeOffset) + cellSize))
    }

    ghost predicate Buffered()
      requires Opened() && curBlock < |lbs|
      reads `curBlock, `rangeOffset, `rangeLength, `limit, mem
    {
      var g := GroupOf(curBlock);
      && rangeOffset + rangeLength <= g.bytes && 0 < g.Stripe()
      && limit == rangeOffset % g.Stripe() + rangeLength <= g.Stripe()
      && (limit < g.Stripe() ==> rangeOffset + rangeLength == g.bytes)
      && LoadedRange(mem[..], g, Content(curBlock), rangeOffset, rangeLength)
    }

    predicate Includes(pos: int)
      reads this
    {
      rangeOffset <= pos < rangeOffset + rangeLength
    }

    constructor (k: nat, p: nat, cellSize: nat, fileLength: nat, lbs: seq<LocatedBlock>, stored: seq<seq<Vec>>,
                 answers: Answers, ghost file: Vec)
      requires 0 < k && k + p < FIELD_SIZE && 0 < cellSize && Cover(lbs, |file|) && |stored| == |lbs| &&
               fileLength == |file|
      requires forall b :: 0 <= b < |lbs| ==>
               UnitsStored(Group(k, p, cellSize, lbs[b].numBytes), lbs[b].offset, file, stored[b])
      ensures Valid() && fresh(mem) && fresh(decoder) && !failed && cursor == 0
      ensures this.k == k && this.p == p && this.cellSize == cellSize && this.file == file
      ensures this.lbs == lbs && this.answers == answers && this.stored == stored
    {
      hide Readable, Cover, RawErasureDecoder.Valid, Complete;
      this.k, this.p, this.cellSize, this.file, this.lbs, this.answers := k, p, cellSize, file, lbs, answers;
      this.fileLength, this.stored := fileLength, stored;
      decoder := new RawErasureDecoder(k, p);
      mem := new Byte[cellSize * k + cellSize * p](_ => 0);
      cursor, endOfCurBlock, curBlock, clock, failed := 0, -1, 0, 0, false;
      rangeOffset, rangeLength, position, limit := 0, 0, 0, 0;
      readers := NoReaders(k + p);
    }

    // seek: a target in the buffered range keeps the buffer, any other drops the
    // current block.
    method Seek(targetPos: int) returns (res: SeekResult)
      requires Valid()
      modifies this`cursor, this`endOfCurBlock, this`position
      ensures Valid()
      ensures res == if failed then Dead else if targetPos > |file| then OverEOF
                     else if targetPos < 0 then NegativeOffset else Moved
      ensures cursor == if res == Moved then targetPos else old(cursor)
    {
      hide LoadedRange, Readable, Cover, Group.Stripe, RawErasureDecoder.Valid, StripedInputStream.AllStored;
      if failed {
        return Dead;
      }
      if targetPos > fileLength {
        return OverEOF;
      }
      if targetPos < 0 {
        return NegativeOffset;
      }
      if targetPos <= endOfCurBlock {
        var target := targetPos - lbs[curBlock].offset;
        if Includes(target) {
          position := StripedBufOffset(target);
          cursor := targetPos;
          return Moved;
        }
      }
      cursor := targetPos;
      endOfCurBlock := -1;
      return Moved;
    }

    // readOneStripe: fill the buffer from the cursor to the end of its stripe.
    method ReadOneStripe() returns (ok: bool)
      requires Valid() && !failed && endOfCurBlock != -1 && cursor <= endOfCurBlock
      requires !Includes(cursor - lbs[curBlock].offset)
      modifies this`rangeOffset, this`rangeLength, this`position, this`limit, this`clock, this`readers, mem, decoder
      ensures decoder.Valid() && old(clock) <= clock
      ensures ok ==> Valid() && Includes(cursor - lbs[curBlock].offset)
      ensures ok <== Tolerable(answers, old(clock), clock, k, p)
    {
      hide Loaded, LoadedRange, Tolerable, Readable, Group.Stripe, RawErasureDecoder.Valid, Cover, NotBeyond, RowTop,
           Complete, StripedInputStream.AllStored, StripedInputStream.InBlock;
      Here();
      StoredHere(curBlock);
      var g := GroupOf(curBlock);
      var offsetInBlockGroup := cursor - lbs[curBlock].offset;
      ReadersBehind(offsetInBlockGroup);
      rangeOffset, rangeLength := 0, 0;
      var stripeBufOffset, stripeLimit := StripeBounds(g, offsetInBlockGroup);
      var stripeRangeLen := stripeLimit - stripeBufOffset;
      ok, clock, readers := ReadRange(g, stored[curBlock], mem, decoder, answers, clock, offsetInBlockGroup,
                                      offsetInBlockGroup + stripeRangeLen - 1, readers, Content(curBlock));
      if ok {
        position, limit := stripeBufOffset, stripeLimit;
        rangeOffset, rangeLength := offsetInBlockGroup, stripeRangeLen;
        NowBuffered();
      }
    }

    lemma Here()
      requires Opened() && InBlock()
      ensures curBlock < |lbs| && endOfCurBlock == lbs[curBlock].offset + lbs[curBlock].numBytes - 1
      ensures lbs[curBlock].offset <= cursor <= endOfCurBlock + 1
    {}

    // The stripe range begins at the cursor.
    lemma NowBuffered()
      requires Opened() && curBlock < |lbs| && endOfCurBlock == lbs[curBlock].offset + lbs[curBlock].numBytes - 1
      requires lbs[curBlock].offset + rangeOffset == cursor <= endOfCurBlock && 0 < rangeLength && Buffered()
      requires |readers| == k + p && Layout(cellSize, k)
      requires NotBeyond(readers, RowTop(GroupOf(curBlock), rangeOffset) + cellSize)
      ensures InBlock()
    {
      hide Buffered, NotBeyond, RowTop, Readable, Cover;
    }

    lemma StoredHere(b: nat)
      requires Opened() && AllStored() && b < |lbs|
      ensures Readable(GroupOf(b)) && Complete(GroupOf(b), Content(b), stored[b])
    {
      hide Readable, Complete, Cover;
      assert UnitsStored(GroupOf(b), lbs[b].offset, file, stored[b]);
    }

    // Before a stripe is read, no reader stands past its row.
    lemma ReadersBehind(x: nat)
      requires Opened() && InBlock() && x == cursor - lbs[curBlock].offset < lbs[curBlock].numBytes
      requires !Includes(x)
      ensures Layout(cellSize, k) && |readers| == k + p && NotBeyond(readers, RowTop(GroupOf(curBlock), x))
    {
      StripeFits(curBlock);
      hide Readable, Cover, LoadedRange, NotBeyond, Rows;
      if rangeLength > 0 {
        LaterRow(GroupOf(curBlock), rangeOffset, rangeLength, x);
        FurtherOn(readers, RowTop(GroupOf(curBlock), rangeOffset) + cellSize, RowTop(GroupOf(curBlock), x));
      } else {
        TopNonneg(GroupOf(curBlock), x);
        FurtherOn(readers, -1, RowTop(GroupOf(curBlock), x));
      }
    }

    // copyToTarget: the buffered bytes from the cursor on, at most length of them.
    method CopyToTarget(length: nat) returns (v: Vec)
      requires Valid() && !failed && endOfCurBlock != -1 && cursor <= endOfCurBlock && 0 < length
      requires Includes(cursor - lbs[curBlock].offset)
      modifies this`position
      ensures Valid() && 0 < |v| <= length && cursor + |v| <= endOfCurBlock + 1
      ensures v == file[cursor..cursor + |v|]
    {
      hide Readable, Cover, RawErasureDecoder.Valid, LoadedRange, Group.Stripe, StripedInputStream.AllStored;
      position := StripedBufOffset(cursor - lbs[curBlock].offset);
      StripeFits(curBlock);
      v := CopyBuffered(mem, GroupOf(curBlock), Content(curBlock), position, limit, length,
                        rangeOffset, rangeLength, cursor - lbs[curBlock].offset);
      ContentSlice(curBlock, cursor - lbs[curBlock].offset, |v|);
    }

    lemma StripeFits(b: nat)
      requires Opened() && b < |lbs|
      ensures Layout(cellSize, k) && GroupOf(b).Stripe() == cellSize * k <= mem.Length
    {
      hide BlockLength, Rest, Cover;
      assert Readable(GroupOf(b));
      CellBound(cellSize, 0, p + 1);
    }

    // getStripedBufOffset.
    function StripedBufOffset(offsetInBlockGroup: nat): nat
      requires Opened()
    {
      offsetInBlockGroup % (cellSize * k)
    }

    // The part of read that leaves an old block: closeCurrentBlockReaders, then
    // setCurBlock and seekToBlock.
    method SetCurBlock()
      requires Valid() && !failed && cursor < |file|
      modifies this`endOfCurBlock, this`curBlock, this`rangeOffset, this`rangeLength, this`position, this`limit,
               this`readers
      ensures Valid() && endOfCurBlock != -1 && cursor <= endOfCurBlock
    {
      hide Readable, RawErasureDecoder.Valid, Buffered, Cover, NotBeyond, RowTop, StripedInputStream.AllStored;
      position, limit := 0, mem.Length;
      rangeOffset, rangeLength := 0, 0;
      readers := NoReaders(k + p);
      ghost var there := CoverFinds(lbs, |file|, cursor);
      var found := FindBlock(lbs, fileLength, cursor);
      assert found.At?;
      curBlock := found.block;
      endOfCurBlock := lbs[curBlock].offset + lbs[curBlock].numBytes - 1;
    }

    method ReadLoop(realLen: int) returns (res: ReadResult)
      requires Valid() && !failed && endOfCurBlock != -1 && cursor <= endOfCurBlock
      requires realLen <= endOfCurBlock + 1 - cursor
      modifies this, mem, decoder
      ensures Valid() && old(clock) <= clock
      ensures res == Failed <==> failed
      ensures res.Bytes? ==> cursor == old(cursor) + |res.v| <= |file| && res.v == file[old(cursor)..cursor]
      ensures res.Bytes? ==> |res.v| == if realLen > 0 then realLen else 0
      ensures res.Bytes? <== Tolerable(answers, old(clock), clock, k, p)
    {
      hide Opened, Buffered, Behind, RawErasureDecoder.Valid, Tolerable, StripedInputStream.AllStored;
      var v: Vec := [];
      while |v| < realLen
        invariant Valid() && !failed && endOfCurBlock != -1 && old(clock) <= clock
        invariant endOfCurBlock == old(endOfCurBlock) && realLen <= endOfCurBlock + 1 - old(cursor)
        invariant |v| <= realLen || v == []
        invariant cursor == old(cursor) + |v| <= |file| && v == file[old(cursor)..cursor]
      {
        ghost var before := clock;
        var ok, w := ReadPart(realLen - |v|);
        if !ok {
          if Tolerable(answers, old(clock), clock, k, p) { NotTolerable(answers, old(clock), before, clock, k, p); }
          failed := true;
          return Failed;
        }
        SlicesJoin(file, old(cursor), cursor, cursor + |w|);
        v := v + w;
        cursor := cursor + |w|;
      }
      return Bytes(v);
    }

    // One turn: a stripe is read if the cursor is outside the one in the buffer, and
    // bytes are copied out.
    method ReadPart(length: nat) returns (ok: bool, w: Vec)
      requires Valid() && !failed && endOfCurBlock != -1 && cursor <= endOfCurBlock && 0 < length
      modifies this`rangeOffset, this`rangeLength, this`position, this`limit, this`clock, this`readers, mem, decoder
      ensures Opened() && AllStored() && decoder.Valid() && old(clock) <= clock
      ensures ok ==> Valid() && 0 < |w| <= length && cursor + |w| <= endOfCurBlock + 1 && cursor + |w| <= |file|
      ensures ok ==> w == file[cursor..cursor + |w|]
      ensures ok <== Tolerable(answers, old(clock), clock, k, p)
    {
      hide Readable, RawErasureDecoder.Valid, Buffered, Behind, Tolerable, Cover, StripedInputStream.AllStored;
      w := [];
      ok := true;
      if !Includes(cursor - lbs[curBlock].offset) {
        ok := ReadOneStripe();
      }
      if ok {
        w := CopyToTarget(length);
      }
    }

    // read. On success it returns the file's bytes at the cursor and moves past
    // them; the only failure is more chunks lost in a band than can be made up.
    method Read(size: int) returns (res: ReadResult)
      requires Valid()
      modifies this, mem, decoder
      ensures Valid()
      ensures res == Failed <==> failed
      ensures res.Bytes? ==> cursor == old(cursor) + |res.v| <= |file| && res.v == file[old(cursor)..cursor]
      ensures res.Bytes? && old(cursor) == |file| ==> res.v == []
      ensures res.Bytes? ==> forall b :: 0 <= b < |lbs| && lbs[b].Has(old(cursor)) ==>
                |res.v| == ReadLength(size, lbs[b].offset + lbs[b].numBytes - old(cursor))
      ensures res.Bytes? <== !old(failed) && Tolerable(answers, old(clock), clock, k, p)
    {
      hide Readable, RawErasureDecoder.Valid, Buffered, Tolerable, ReadLength, Cover, StripedInputStream.AllStored;
      if failed {
        return Failed;
      }
      if cursor >= fileLength {
        return Bytes([]);
      }
      if cursor > endOfCurBlock {
        SetCurBlock();
      }
      OneBlockOnly(lbs, |file|, curBlock, cursor);
      res := ReadCurrent(size);
    }

    method ReadCurrent(size: int) returns (res: ReadResult)
      requires Valid() && !failed && endOfCurBlock != -1 && cursor <= endOfCurBlock
      modifies this, mem, decoder
      ensures Valid() && old(clock) <= clock
      ensures res == Failed <==> failed
      ensures res.Bytes? ==> cursor == old(cursor) + |res.v| <= |file| && res.v == file[old(cursor)..cursor]
      ensures res.Bytes? ==> |res.v| == ReadLength(size, old(endOfCurBlock) + 1 - old(cursor))
      ensures res.Bytes? <== Tolerable(answers, old(clock), clock, k, p)
    {
      hide Readable, RawErasureDecoder.Valid, Buffered, Tolerable, Int32, Cover, StripedInputStream.AllStored;
      var realLen := Min(size, Int32(endOfCurBlock - cursor + 1));
      Int32AtMost(endOfCurBlock - cursor + 1);
      realLen := Min(realLen, fileLength - cursor);
      res := ReadLoop(realLen);
    }
  }

  // The part of the file from offset on, as long as the group, is what the units
  // stand for.
  ghost predicate UnitsStored(g: Group, offset: nat, file: Vec, units: seq<Vec>) {
    && Readable(g) && offset + g.bytes <= |file|
    && Complete(g, file[offset..offset + g.bytes], units)
  }

  // Where a position's stripe puts it in the buffer and where the stripe ends
  // there, in the code's 32-bit arithmetic.
  method StripeBounds(g: Group, x: nat) returns (bufOffset: nat, limit: nat)
    requires Readable(g) && x < g.bytes
    ensures 0 < g.Stripe() && bufOffset == x % g.Stripe() < limit <= g.Stripe()
    ensures x + (limit - bufOffset) <= g.bytes
    ensures limit < g.Stripe() ==> x + (limit - bufOffset) == g.bytes
    ensures (x + (limit - bufOffset) - 1) / g.Stripe() == x / g.Stripe()
  {
    hide Readable, Int32;
    StripeRange(g, x);
    var stripeLen := g.Stripe();
    var stripeIndex := Int32(x / stripeLen);
    bufOffset := Int32(x % stripeLen);
    limit := Int32(Min(stripeLen, g.bytes - stripeIndex * stripeLen));
    assert limit == bufOffset + StripeRangeLen(g, x);
  }

  // Where the row of cells of group byte x begins in every internal block.
  function RowTop(g: Group, x: nat): int
    requires Layout(g.cellSize, g.k)
  {
    Rows(x, g.cellSize, g.k) * g.cellSize
  }

  lemma RowOfRequest(g: Group, start: nat, end: nat, r: Request)
    requires g.Valid() && Spans(g, start, end, r)
    ensures RowTop(g, start) <= r.First(g) && r.Last(g) <= RowTop(g, start) + g.cellSize
  {
    CellsFit(r.i0, r.o0, g.cellSize, g.k);
    DivModUnique(start, g.cellSize * g.k, r.row, r.i0 * g.cellSize + r.o0);
  }

  function NoReaders(n: nat): (r: seq<int>)
    ensures |r| == n && NotBeyond(r, -1)
  {
    seq(n, _ => -1)
  }

  lemma TopNonneg(g: Group, x: nat)
    requires Layout(g.cellSize, g.k)
    ensures 0 <= RowTop(g, x)
  {}

  lemma FurtherOn(readers: seq<int>, a: int, b: int)
    requires NotBeyond(readers, a) && a <= b
    ensures NotBeyond(readers, b)
  {}

  // A position past the end of a stripe is in a later row.
  lemma LaterRow(g: Group, from: nat, len: nat, x: nat)
    requires Layout(g.cellSize, g.k) && from % g.Stripe() + len == g.Stripe() && from + len <= x
    ensures RowTop(g, from) + g.cellSize <= RowTop(g, x)
  {
    var s := g.Stripe();
    var q, p := from / s, x / s;
    MixedRadix(p, x % s, q + 1, 0, s);
    assert (q + 1) * s == q * s + s;
    MulAtLeast(p - q, g.cellSize);
    assert (p - q) * g.cellSize == p * g.cellSize - q * g.cellSize;
  }

  // divideOneStripe and the reads of its aligned stripes.
  method ReadRange(g: Group, units: seq<Vec>, mem: array<Byte>, decoder: RawErasureDecoder, answers: Answers,
                   clock: nat,
                   start: nat, end: nat, readers: seq<int>, ghost data: Vec)
    returns (ok: bool, now: nat, after: seq<int>)
    requires Readable(g) && |data| == g.bytes && Complete(g, data, units) && mem.Length == BufferSize(g)
    requires start <= end < g.bytes && start / g.Stripe() == end / g.Stripe()
    requires decoder.Valid() && decoder.k == g.k && decoder.p == g.p
    requires |readers| == g.k + g.p && NotBeyond(readers, RowTop(g, start))
    modifies mem, decoder
    ensures decoder.Valid() && clock <= now
    ensures ok ==> LoadedRange(mem[..], g, data, start, end - start + 1)
    ensures ok ==> |after| == g.k + g.p && NotBeyond(after, RowTop(g, start) + g.cellSize)
    ensures ok <== Tolerable(answers, clock, now, g.k, g.p)
  {
    hide BlockLength, Loaded, Divided, Spans, Tolerable, BufferSize, RawErasureDecoder.Valid, Complete;
    var res, r := DivideOneStripe(g, start, end);
    RowOfRequest(g, start, end, r);
    ok, now, after := ReadBands(g, units, mem, decoder, answers, clock, res.value, readers, data, start, end, r);
    NothingAbove(g, data, start, end, r, mem[..]);
  }

  ghost predicate LoadedRange(m: Vec, g: Group, data: Vec, from: nat, len: nat)
    requires Layout(g.cellSize, g.k)
  {
    forall x: nat :: from <= x < from + len ==> Loaded(m, g, data, x)
  }

  // Consecutive positions of the range are consecutive in the buffer.
  lemma SlotsFollow(g: Group, from: nat, len: nat, x: nat)
    requires 0 < g.Stripe() && from % g.Stripe() + len <= g.Stripe() && from <= x < from + len
    ensures x % g.Stripe() == from % g.Stripe() + (x - from)
  {
    var S := g.Stripe();
    DivModUnique(x, S, from / S, from % S + (x - from));
  }

  method CopyBuffered(mem: array<Byte>, ghost g: Group, ghost data: Vec, position: nat, limit: nat, length: nat,
                      ghost from: nat, ghost len: nat, ghost x: nat) returns (v: Vec)
    requires Layout(g.cellSize, g.k) && 0 < g.Stripe() <= mem.Length && from + len <= |data|
    requires limit == from % g.Stripe() + len <= g.Stripe() && from <= x < from + len && 0 < length
    requires LoadedRange(mem[..], g, data, from, len) && position == x % g.Stripe()
    ensures 0 < |v| <= length && x + |v| <= |data| && v == data[x..x + |v|]
  {
    hide LoadedRange, Group.Stripe;
    SlotsFollow(g, from, len, x);
    var result := Min(length, limit - position);
    v := mem[position..position + result];
    CopiedIs(mem[..], g, data, from, len, x, v);
  }

  lemma CopiedIs(m: Vec, g: Group, data: Vec, from: nat, len: nat, x: nat, v: Vec)
    requires Layout(g.cellSize, g.k) && from + len <= |data| && from % g.Stripe() + len <= g.Stripe()
    requires LoadedRange(m, g, data, from, len) && from <= x && x + |v| <= from + len
    requires x % g.Stripe() + |v| <= |m| && v == m[x % g.Stripe()..x % g.Stripe() + |v|] && |v| > 0
    ensures v == data[x..x + |v|]
  {
    forall t | 0 <= t < |v| ensures v[t] == data[x + t] {
      SlotsFollow(g, from, len, x);
      SlotsFollow(g, from, len, x + t);
      assert Loaded(m, g, data, x + t);
    }
  }
}
