// What reading the aligned stripes of a request leaves in the stripe buffer.

module StripeContent {
  import opened Bytes
  import opened EncodeLoop
  import opened ReedSolomon
  import opened RawCoder
  import opened ChunkStates
  import opened Geometry
  import opened DivideStripe
  import opened StripeLayout
  import opened StripeReaders
  import opened GroupContent

  // ----- chunks as the reader starts with them

  function StateOf(c: Chunk): ChunkState {
    match c
    case Absent => Null
    case Requested(_, _) => REQUESTED
    case AllZero => ALLZERO
  }

  function StatesOf(chunks: seq<Chunk>): (s: seq<ChunkState>)
    ensures |s| == |chunks|
  {
    seq(|chunks|, i requires 0 <= i < |chunks| => StateOf(chunks[i]))
  }

  // Parity chunks start out absent.
  lemma StatesFresh(g: Group, r: Request, s: AlignedStripe)
    requires Layout(g.cellSize, g.k) && r.In(g) && Finished(g, r, s)
    ensures Fresh(StatesOf(s.chunks), g.k)
  {
    hide BlockLength;
    forall i | g.k <= i < |s.chunks| ensures s.chunks[i] == Absent {
      assert s.chunks[i] == ChunkFor(g, r, s.offset, s.span, i);
    }
    forall i | g.k <= i < |s.chunks| ensures StatesOf(s.chunks)[i] == Null {}
  }

  // A chunk past the end of its block is zero.
  lemma ZeroPastEnd(g: Group, data: Vec, off: nat, span: nat, i: nat)
    requires Layout(g.cellSize, g.k) && g.k <= 256 && i < g.k && |data| == g.bytes
    requires BlockLength(g.bytes, g.cellSize, g.k, i) <= off
    ensures UnitBytes(g.k, i, BandColumns(g, data, off, span)) == Zeros(span)
  {
    hide UnitBytes, BandColumns, BlockLength;
    forall t | 0 <= t < span
      ensures UnitBytes(g.k, i, BandColumns(g, data, off, span))[t] == 0
    {
      DataUnitBytes(g, data, off, span, i, t);
      LengthMeansInGroup(g.bytes, off + t, i, g.cellSize, g.k);
    }
  }

  // ----- reading one band

  // A group the 32-bit casts of the read path can address.
  ghost predicate Readable(g: Group) {
    && g.Valid() && g.k + g.p < FIELD_SIZE
    && BlockLength(g.bytes, g.cellSize, g.k, 0) < 0x8000_0000
  }

  // The stripe buffer and, behind it, the parity buffer.
  function BufferSize(g: Group): nat {
    g.cellSize * g.k + g.cellSize * g.p
  }

  function BandPlacement(g: Group, s: AlignedStripe): Placement
    requires 0 < g.cellSize && 0 <= s.span
  {
    Placement(g.k, g.p, g.cellSize, s.offset % g.cellSize, s.span, 0, g.cellSize * g.k)
  }

  lemma BandFits(g: Group, r: Request, stripes: seq<AlignedStripe>, n: nat)
    requires g.Valid() && g.k + g.p < FIELD_SIZE && r.In(g) && Divided(g, r, stripes) && n < |stripes|
    ensures 0 < stripes[n].span && 0 <= stripes[n].offset
    ensures stripes[n].offset % g.cellSize == stripes[n].offset - r.Top(g)
    ensures BandPlacement(g, stripes[n]).Fits(BufferSize(g))
  {
    hide Aligned, Finished, BandPlacement, BufferSize, Request.Top, BlockLength;
    BandPositive(g, r, stripes, n);
    PlacementFits(g, r, stripes[n]);
  }

  lemma BandPositive(g: Group, r: Request, stripes: seq<AlignedStripe>, n: nat)
    requires 0 < g.cellSize && 0 < g.k && r.In(g) && Aligned(g, r, stripes) && n < |stripes|
    ensures 0 < stripes[n].span && r.Top(g) <= stripes[n].offset
    ensures stripes[n].offset + stripes[n].span <= r.Top(g) + g.cellSize
  {
    BandInRow(g, r, stripes, n);
    AlignedPositive(g, r, stripes);
  }

  lemma PlacementFits(g: Group, r: Request, s: AlignedStripe)
    requires 0 < g.cellSize && 0 < g.k && g.k + g.p < FIELD_SIZE && 0 <= r.row
    requires 0 < s.span && r.Top(g) <= s.offset && s.offset + s.span <= r.Top(g) + g.cellSize
    ensures 0 <= s.offset && s.offset % g.cellSize == s.offset - r.Top(g)
    ensures BandPlacement(g, s).Fits(BufferSize(g))
  {
    assert 0 <= r.row * g.cellSize;
    DivModUnique(s.offset, g.cellSize, r.row, s.offset - r.Top(g));
  }

  // Block i's part of the band is in its slot of the stripe buffer.
  ghost predicate ChunkLoaded(m: Vec, g: Group, data: Vec, s: AlignedStripe, i: nat)
    requires 0 < g.cellSize && i < |s.chunks| && s.chunks[i].Requested? && 0 <= s.offset
  {
    forall o: nat :: s.offset <= o < s.offset + s.span ==> SlotHolds(m, g, data, s, i, o)
  }

  ghost predicate SlotHolds(m: Vec, g: Group, data: Vec, s: AlignedStripe, i: nat, o: nat)
    requires 0 < g.cellSize && i < |s.chunks| && s.chunks[i].Requested?
  {
    var q := s.chunks[i].pos + (o - s.offset);
    0 <= q < |m| && m[q] == DataByte(g, data, o, i)
  }

  // Reading a band: false when more chunks were lost than there is parity for.
  method ReadBand(g: Group, units: seq<Vec>, mem: array<Byte>, decoder: RawErasureDecoder, outcomes: seq<Outcome>,
                  stripes: seq<AlignedStripe>, n: nat, readers: seq<int>,
                  ghost data: Vec, ghost start: nat, ghost end: nat, ghost r: Request)
    returns (ok: bool, after: seq<int>)
    requires Readable(g) && |data| == g.bytes && Complete(g, data, units) && mem.Length == BufferSize(g)
    requires Spans(g, start, end, r) && end < g.bytes && Divided(g, r, stripes) && n < |stripes|
    requires |outcomes| == |readers| == g.k + g.p && NotBeyond(readers, stripes[n].offset)
    requires decoder.Valid() && decoder.k == g.k && decoder.p == g.p
    modifies mem, decoder
    ensures decoder.Valid() && 0 <= stripes[n].span && 0 <= stripes[n].offset
    ensures ok ==> forall i :: 0 <= i < g.k && stripes[n].chunks[i].Requested? ==>
                     ChunkLoaded(mem[..], g, data, stripes[n], i)
    ensures forall q :: 0 <= q < mem.Length && BandPlacement(g, stripes[n]).Clear(q) ==> mem[q] == old(mem[q])
    ensures ok <== NumBad(outcomes, |outcomes|) <= g.p
    ensures ok ==> |after| == g.k + g.p && NotBeyond(after, stripes[n].offset + stripes[n].span)
  {
    hide Readable, Divided, Spans, Complete, BandColumns, BandBlocks, BandPlacement, Placement.Clear, NumBad,
         RawErasureDecoder.Valid, StripeReader.Stored, StripeReader.ZerosStored, StripeReader.Valid, Fresh,
         ChunkLoaded;
    var s := stripes[n];
    BandShape(g, start, end, r, stripes, n);
    ghost var columns := BandColumns(g, data, s.offset, s.span);
    var reader := new StripeReader(BandPlacement(g, s), mem, units, BandBlocks(g, columns), decoder, outcomes,
                                   StatesOf(s.chunks), s.offset, readers);
    ReaderReady(g, data, units, start, end, r, stripes, n, reader);
    ok := reader.ReadStripe(columns);
    after := reader.readers;
    if ok { AllLoaded(g, data, r, stripes, n, reader, mem[..]); }
  }

  lemma BandShape(g: Group, start: nat, end: nat, r: Request, stripes: seq<AlignedStripe>, n: nat)
    requires Readable(g) && Spans(g, start, end, r) && Divided(g, r, stripes) && n < |stripes|
    ensures g.k <= g.k + g.p < FIELD_SIZE && 0 < g.cellSize && Layout(g.cellSize, g.k)
    ensures 0 < stripes[n].span && 0 <= stripes[n].offset && |stripes[n].chunks| == g.k + g.p && r.In(g)
    ensures BandPlacement(g, stripes[n]).k == g.k && BandPlacement(g, stripes[n]).p == g.p
    ensures BandPlacement(g, stripes[n]).span == stripes[n].span && BandPlacement(g, stripes[n]).Fits(BufferSize(g))
    ensures Fresh(StatesOf(stripes[n].chunks), g.k) && Finished(g, r, stripes[n])
  {
    hide BlockLength, Aligned, Fresh, Placement.Fits;
    BandFits(g, r, stripes, n);
    assert Finished(g, r, stripes[n]);
    StatesFresh(g, r, stripes[n]);
  }

  // What the reader needs: its units stored, and its zero chunks zero.
  lemma ReaderReady(g: Group, data: Vec, units: seq<Vec>, start: nat, end: nat, r: Request,
                    stripes: seq<AlignedStripe>, n: nat,
                    reader: StripeReader)
    requires Readable(g) && |data| == g.bytes && Complete(g, data, units)
    requires Spans(g, start, end, r) && end < g.bytes && Divided(g, r, stripes) && n < |stripes|
    requires 0 <= stripes[n].offset && 0 <= stripes[n].span && |stripes[n].chunks| == g.k + g.p
    requires reader.k == g.k && reader.p == g.p && reader.at == BandPlacement(g, stripes[n]) &&
             |reader.outcomes| == g.k + g.p
    requires reader.units == units && reader.target == stripes[n].offset && reader.mem.Length == BufferSize(g)
    requires reader.blocks == BandBlocks(g, BandColumns(g, data, stripes[n].offset, stripes[n].span))
    requires forall i: nat :: i in reader.zero <==>
             i < |StatesOf(stripes[n].chunks)| && StatesOf(stripes[n].chunks)[i] == ALLZERO
    ensures reader.Stored(BandColumns(g, data, stripes[n].offset, stripes[n].span))
    ensures reader.ZerosStored(StatesOf(stripes[n].chunks))
  {
    hide Readable, Divided, Spans, Complete, UnitBytes, BandColumns, BandPlacement, Placement.Fits, Fresh, Finished,
         BufferSize;
    BandShape(g, start, end, r, stripes, n);
    ZeroChunksStored(g, data, r, stripes[n], reader);
    UnitCount(g, data, units);
    forall q: nat | q < g.k + g.p && q !in reader.zero ensures reader.Available(q) {
      BandAvailable(g, data, units, start, end, r, stripes, n, q);
    }
  }

  lemma UnitCount(g: Group, data: Vec, units: seq<Vec>)
    requires Layout(g.cellSize, g.k) && g.k + g.p < FIELD_SIZE && Complete(g, data, units)
    ensures |units| == g.k + g.p
  {
    hide UnitComplete;
  }

  lemma AllLoaded(g: Group, data: Vec, r: Request, stripes: seq<AlignedStripe>, n: nat, reader: StripeReader, m: Vec)
    requires Readable(g) && |data| == g.bytes && r.In(g) && Divided(g, r, stripes) && n < |stripes|
    requires 0 <= stripes[n].span && 0 <= stripes[n].offset && |stripes[n].chunks| == g.k + g.p
    requires reader.at == BandPlacement(g, stripes[n])
    requires reader.blocks == BandBlocks(g, BandColumns(g, data, stripes[n].offset, stripes[n].span))
    requires forall i :: 0 <= i < g.k && StatesOf(stripes[n].chunks)[i] == REQUESTED ==> reader.Holds(m, i)
    ensures forall i :: 0 <= i < g.k && stripes[n].chunks[i].Requested? ==> ChunkLoaded(m, g, data, stripes[n], i)
  {
    hide Divided, UnitBytes, BandColumns, Placement.Addr, ChunkLoaded, BlockLength;
    forall i | 0 <= i < g.k && stripes[n].chunks[i].Requested? ensures ChunkLoaded(m, g, data, stripes[n], i) {
      assert StatesOf(stripes[n].chunks)[i] == REQUESTED;
      assert reader.Holds(m, i);
      HeldIsLoaded(g, data, r, stripes, n, i, m);
    }
  }

  // Unless the chunk is known to be zero, the stored block has the band and the
  // unit's bytes there.
  lemma BandAvailable(g: Group, data: Vec, units: seq<Vec>, start: nat, end: nat, r: Request,
                      stripes: seq<AlignedStripe>,
                      n: nat, q: nat)
    requires Readable(g) && |data| == g.bytes && Complete(g, data, units)
    requires Spans(g, start, end, r) && end < g.bytes && Divided(g, r, stripes) && n < |stripes|
    requires q < g.k + g.p && stripes[n].chunks[q] != AllZero && 0 <= stripes[n].offset && 0 <= stripes[n].span
    ensures var s := stripes[n];
            && s.offset + s.span <= |units[q]|
            && units[q][s.offset..s.offset + s.span] == BandBlocks(g, BandColumns(g, data, s.offset, s.span))[q]
  {
    hide BlockLength, Aligned, Finished, UnitBytes, BandColumns, BandBlocks, Complete;
    if q < g.k {
      ChunkWholeOrZero(g, start, end, r, stripes, n, q);
    } else {
      ParityCovers(g, start, end, r, stripes, n, q);
    }
    WriterMeetsReader(g, data, units, q, stripes[n].offset, stripes[n].span);
  }

  lemma ZeroChunksStored(g: Group, data: Vec, r: Request, s: AlignedStripe, reader: StripeReader)
    requires Readable(g) && |data| == g.bytes && Finished(g, r, s) && 0 <= s.offset && 0 <= s.span && r.In(g)
    requires reader.at == BandPlacement(g, s)
    requires reader.blocks == BandBlocks(g, BandColumns(g, data, s.offset, s.span))
    ensures reader.ZerosStored(StatesOf(s.chunks))
  {
    hide BlockLength, UnitBytes, BandColumns;
    forall i | 0 <= i < |s.chunks| && StatesOf(s.chunks)[i] == ALLZERO
      ensures reader.blocks[i] == Zeros(s.span)
    {
      assert s.chunks[i] == ChunkFor(g, r, s.offset, s.span, i);
      ZeroPastEnd(g, data, s.offset, s.span, i);
    }
  }

  lemma HeldIsLoaded(g: Group, data: Vec, r: Request, stripes: seq<AlignedStripe>, n: nat, i: nat, m: Vec)
    requires Readable(g) && |data| == g.bytes && r.In(g) && Divided(g, r, stripes)
    requires n < |stripes| && i < g.k && stripes[n].chunks[i].Requested? && 0 <= stripes[n].span &&
             0 <= stripes[n].offset
    requires var s, at := stripes[n], BandPlacement(g, stripes[n]);
             at.Addr(i) + s.span <= |m| &&
             Stretch(m, at.Addr(i), s.span) == UnitBytes(g.k, i, BandColumns(g, data, s.offset, s.span))
    ensures ChunkLoaded(m, g, data, stripes[n], i)
  {
    SliceIsDecodeInput(g, r, stripes, n, i);
    hide *;
    StretchLoaded(g, data, stripes[n], i, m);
  }

  lemma StretchLoaded(g: Group, data: Vec, s: AlignedStripe, i: nat, m: Vec)
    requires 0 < g.cellSize && i < g.k <= 256 && 0 <= s.span && 0 <= s.offset && i < |s.chunks|
    requires s.chunks[i] == Requested(s.offset % g.cellSize + g.cellSize * i, s.span)
    requires var at := BandPlacement(g, s);
             at.Addr(i) + s.span <= |m| &&
             Stretch(m, at.Addr(i), s.span) == UnitBytes(g.k, i, BandColumns(g, data, s.offset, s.span))
    ensures ChunkLoaded(m, g, data, s, i)
  {
    hide UnitBytes, BandColumns, DataByte;
    var a := BandPlacement(g, s).Addr(i);
    assert s.chunks[i].pos == a;
    forall o: nat | s.offset <= o < s.offset + s.span ensures SlotHolds(m, g, data, s, i, o) {
      DataUnitBytes(g, data, s.offset, s.span, i, o - s.offset);
      assert Stretch(m, a, s.span)[o - s.offset] == m[a + (o - s.offset)];
    }
  }

  // ----- reading one stripe

  // Group byte x is in its place in the stripe buffer.
  ghost predicate Loaded(m: Vec, g: Group, data: Vec, x: nat)
    requires Layout(g.cellSize, g.k)
  {
    x < |data| && x % g.Stripe() < |m| && m[x % g.Stripe()] == data[x]
  }

  // So are the requested bytes that lie above block offset o.
  ghost predicate LoadedBelow(m: Vec, g: Group, data: Vec, start: nat, end: nat, o: int)
    requires Layout(g.cellSize, g.k)
  {
    forall x: nat :: start <= x <= end && OffsetOf(x, g.cellSize, g.k) < o ==> Loaded(m, g, data, x)
  }

  // Byte x of the band just read.
  lemma SlotLoaded(g: Group, data: Vec, stripes: seq<AlignedStripe>, n: nat, x: nat, m: Vec)
    requires Layout(g.cellSize, g.k) && n < |stripes| && |stripes[n].chunks| == g.k + g.p && x < |data|
    requires 0 <= stripes[n].offset && Slotted(g, stripes, n, x)
    requires ChunkLoaded(m, g, data, stripes[n], CellOf(x, g.cellSize, g.k))
    ensures Loaded(m, g, data, x)
  {
    GroupToOffsetAndBack(x, g.cellSize, g.k);
    var i, o := CellOf(x, g.cellSize, g.k), OffsetOf(x, g.cellSize, g.k);
    hide CellOf, OffsetOf, OffsetInGroup;
    assert SlotHolds(m, g, data, stripes[n], i, o);
  }

  // A slot whose row in the cell is outside the band is not one of its buffers.
  lemma OtherRowClear(at: Placement, size: nat, i: nat, c: nat)
    requires at.Fits(size) && i < at.k && c < at.cellSize && at.stripeBase == 0 && at.cellSize * at.k <= at.parityBase
    requires !(at.inCell <= c < at.inCell + at.span)
    ensures at.Clear(at.cellSize * i + c)
  {
    forall j: nat | j < at.k + at.p
      ensures !(at.Addr(j) <= at.cellSize * i + c < at.Addr(j) + at.span)
    {
      if j < at.k {
        CellsOrdered(at.cellSize, i, j);
        RowsDiffer(at.cellSize, at.inCell, at.span, c, at.cellSize * i, at.cellSize * j, i, j);
      } else {
        CellBound(at.cellSize, i, at.k);
        CellBound(at.cellSize, j - at.k, j - at.k + 1);
      }
    }
  }

  lemma CellsOrdered(cs: nat, i: nat, j: nat)
    ensures i < j ==> cs * i + cs <= cs * j
    ensures j < i ==> cs * j + cs <= cs * i
  {
    if i < j { CellBound(cs, i, j); }
    if j < i { CellBound(cs, j, i); }
  }

  lemma RowsDiffer(cs: nat, inCell: nat, span: nat, c: nat, mine: int, its: int, i: nat, j: nat)
    requires inCell + span <= cs && c < cs && !(inCell <= c < inCell + span)
    requires (i < j ==> mine + cs <= its) && (j < i ==> its + cs <= mine) && (i == j ==> mine == its)
    ensures !(inCell + its <= mine + c < inCell + its + span)
  {}

  // One more band has been read.
  lemma BandAdds(g: Group, data: Vec, start: nat, end: nat, r: Request, stripes: seq<AlignedStripe>, n: nat,
                 before: Vec, now: Vec)
    requires Readable(g) && |data| == g.bytes && |before| == |now| == BufferSize(g)
    requires Spans(g, start, end, r) && end < g.bytes && Divided(g, r, stripes) && n < |stripes|
    requires 0 <= stripes[n].span && 0 <= stripes[n].offset
    requires LoadedBelow(before, g, data, start, end, stripes[n].offset)
    requires forall i :: 0 <= i < g.k && stripes[n].chunks[i].Requested? ==> ChunkLoaded(now, g, data, stripes[n], i)
    requires forall q :: 0 <= q < |before| && BandPlacement(g, stripes[n]).Clear(q) ==> now[q] == before[q]
    ensures LoadedBelow(now, g, data, start, end, stripes[n].offset + stripes[n].span)
  {
    hide ChunkLoaded, Loaded, Placement.Clear, OffsetOf, CellOf, BlockLength, Divided, Slotted, BandPlacement,
         BufferSize;
    forall x: nat | start <= x <= end && OffsetOf(x, g.cellSize, g.k) < stripes[n].offset + stripes[n].span
      ensures Loaded(now, g, data, x)
    {
      if OffsetOf(x, g.cellSize, g.k) < stripes[n].offset {
        StillLoaded(g, data, start, end, r, stripes, n, before, now, x);
      } else {
        var m := EveryByteSlotted(g, start, end, r, stripes, x);
        SameBand(g, r, stripes, m, n, x);
        SlotLoaded(g, data, stripes, n, x, now);
      }
    }
  }

  lemma SameBand(g: Group, r: Request, stripes: seq<AlignedStripe>, m: nat, n: nat, x: nat)
    requires Layout(g.cellSize, g.k) && Divided(g, r, stripes) && n < |stripes| && m < |stripes|
    requires Slotted(g, stripes, m, x)
    requires stripes[n].offset <= OffsetOf(x, g.cellSize, g.k) < stripes[n].offset + stripes[n].span
    ensures n == m && |stripes[n].chunks| == g.k + g.p && 0 <= CellOf(x, g.cellSize, g.k) < g.k
    ensures stripes[n].chunks[CellOf(x, g.cellSize, g.k)].Requested?
  {
    hide NotCut, OffsetOf, CellOf;
    assert Finished(g, r, stripes[n]);
    if n < m { BandsDisjoint(stripes, r.First(g), r.Last(g), n, m); }
    if m < n { BandsDisjoint(stripes, r.First(g), r.Last(g), m, n); }
  }

  lemma StillLoaded(g: Group, data: Vec, start: nat, end: nat, r: Request, stripes: seq<AlignedStripe>, n: nat,
                    before: Vec, now: Vec, x: nat)
    requires Readable(g) && |data| == g.bytes && |before| == |now| == BufferSize(g)
    requires Spans(g, start, end, r) && Divided(g, r, stripes) && n < |stripes|
    requires 0 <= stripes[n].span && start <= x <= end
    requires OffsetOf(x, g.cellSize, g.k) < stripes[n].offset && Loaded(before, g, data, x)
    requires forall q :: 0 <= q < |before| && BandPlacement(g, stripes[n]).Clear(q) ==> now[q] == before[q]
    ensures Loaded(now, g, data, x)
  {
    hide Placement.Clear, OffsetOf, CellOf, BlockLength, Divided, Placement.Fits, BufferSize, Group.Stripe;
    var i, off := WhereInRow(g, start, end, r, x);
    SlotIs(g, x, i, off);
    BandFits(g, r, stripes, n);
    OtherRowClear(BandPlacement(g, stripes[n]), BufferSize(g), i, off);
  }

  lemma SlotIs(g: Group, x: nat, i: int, off: int)
    requires Layout(g.cellSize, g.k) && x % (g.cellSize * g.k) == i * g.cellSize + off
    ensures x % g.Stripe() == g.cellSize * i + off
  {}
}
