// StripedBlockUtil::divideOneStripe: a byte range inside one stripe is cut into
// aligned stripes, each a horizontal band that every internal block either has
// in full or not at all, and every requested byte is given its buffer slot.

module DivideStripe {
  import opened Geometry

  const LLONG_MAX: int := 0x7fff_ffff_ffff_ffff

  // A striped block group: data and parity units, cell size, data bytes.
  datatype Group = Group(k: nat, p: nat, cellSize: nat, bytes: nat) {
    // The 32-bit quantities of the code hold what they are meant to.
    ghost predicate Valid() {
      && Layout(cellSize, k) && bytes / cellSize < 0x8000_0000
      && (Rest(bytes, cellSize, k) == 0 || BlockLength(bytes, cellSize, k, 0) < 0x8000_0000)
    }

    function Stripe(): nat {
      cellSize * k
    }
  }

  datatype StripingCell = StripingCell(idxInInternalBlk: int, idxInStripe: int, offset: int, size: int)

  datatype VerticalRange = VerticalRange(offsetInBlock: int, spanInBlock: int)

  // A chunk is absent, a slice of the stripe buffer to be read, or known zero.
  datatype Chunk = Absent | Requested(pos: int, len: int) | AllZero

  datatype AlignedStripe = AlignedStripe(offset: int, span: int, chunks: seq<Chunk>)

  // A range within one stripe, from byte o0 of cell i0 to byte o1 of cell i1.
  datatype Request = Request(row: int, i0: int, o0: int, i1: int, o1: int) {
    ghost predicate In(g: Group) {
      && 0 <= row && 0 <= i0 <= i1 < g.k && 0 <= o0 < g.cellSize && 0 <= o1 < g.cellSize
      && (i0 == i1 ==> o0 <= o1)
    }

    // The part of cell i the range covers, as offsets in the cell.
    function Lo(i: int): int {
      if i == i0 then o0 else 0
    }

    function Hi(g: Group, i: int): int {
      if i == i1 then o1 + 1 else g.cellSize
    }

    // Where the request's row of cells begins in every internal block.
    function Top(g: Group): int {
      row * g.cellSize
    }

    function First(g: Group): int {
      Top(g) + if i0 == i1 then o0 else 0
    }

    function Last(g: Group): int {
      Top(g) + if i0 == i1 then o1 + 1 else g.cellSize
    }
  }

  ghost predicate Spans(g: Group, start: int, end: int, r: Request) {
    && r.In(g)
    && start == r.row * (g.cellSize * g.k) + r.i0 * g.cellSize + r.o0
    && end == r.row * (g.cellSize * g.k) + r.i1 * g.cellSize + r.o1
  }

  // Every range within one stripe is such a request.
  lemma RequestOf(g: Group, start: nat, end: nat) returns (r: Request)
    requires g.Valid() && start <= end < g.bytes
    requires start / (g.cellSize * g.k) == end / (g.cellSize * g.k)
    ensures Spans(g, start, end, r)
    ensures start / g.cellSize == RowBase(g, r) + r.i0 && start % g.cellSize == r.o0
    ensures end / g.cellSize == RowBase(g, r) + r.i1 && end % g.cellSize == r.o1
  {
    var row, i0, o0 := Split(start, g.cellSize, g.k);
    var row', i1, o1 := Split(end, g.cellSize, g.k);
    r := Request(row, i0, o0, i1, o1);
    MixedRadix(i1, o1, i0, o0, g.cellSize);
    Regroup(row, i0, g.cellSize, g.k);
    Regroup(row, i1, g.cellSize, g.k);
    DivModUnique(start, g.cellSize, row * g.k + i0, o0);
    DivModUnique(end, g.cellSize, row * g.k + i1, o1);
  }

  // ----- step 1: cells

  // The part of cell i that the request covers.
  function CellFor(g: Group, r: Request, i: int): StripingCell {
    StripingCell(r.row, i, r.Lo(i), r.Hi(g, i) - r.Lo(i))
  }

  function InitCell(k: int, size: int, idxInBlkGroup: int, cellOffset: int): StripingCell
    requires 0 < k
  {
    StripingCell(idxInBlkGroup / k, idxInBlkGroup - idxInBlkGroup / k * k, cellOffset, size)
  }

  // The group-wide number of the request row's first cell.
  function RowBase(g: Group, r: Request): int {
    r.row * g.k
  }

  lemma InitCellIs(g: Group, r: Request, i: int, size: int, off: int)
    requires r.In(g) && 0 <= i < g.k
    ensures InitCell(g.k, size, RowBase(g, r) + i, off) == StripingCell(r.row, i, off, size)
  {
    DivModUnique(r.row * g.k + i, g.k, r.row, i);
  }

  // getStripingCellsOfByteRange.
  method GetStripingCells(g: Group, start: nat, end: nat, ghost r: Request) returns (cells: seq<StripingCell>)
    requires g.Valid() && start <= end < g.bytes && Spans(g, start, end, r)
    requires start / g.cellSize == RowBase(g, r) + r.i0 && start % g.cellSize == r.o0
    requires end / g.cellSize == RowBase(g, r) + r.i1 && end % g.cellSize == r.o1
    ensures |cells| == r.i1 - r.i0 + 1
    ensures forall j :: 0 <= j < |cells| ==> cells[j] == CellFor(g, r, r.i0 + j)
  {
    CellSpanLength(g, start, end, r);
    hide RowBase;
    var len := end - start + 1;
    var firstCellIdxInBG := start / g.cellSize;
    var lastCellIdxInBG := end / g.cellSize;
    var firstCellOffset := start % g.cellSize;
    var firstCellSize := if g.cellSize - firstCellOffset < len then g.cellSize - firstCellOffset else len;
    cells := BuildCells(g, firstCellIdxInBG, lastCellIdxInBG, firstCellOffset, firstCellSize,
                        end % g.cellSize + 1, r);
  }

  method BuildCells(g: Group, first: int, last: int, firstOffset: int, firstSize: int, lastSize: int, ghost r: Request)
    returns (cells: seq<StripingCell>)
    requires r.In(g) && first == RowBase(g, r) + r.i0 && last == RowBase(g, r) + r.i1
    requires firstOffset == r.o0 && firstSize == r.Hi(g, r.i0) - r.o0 && lastSize == r.o1 + 1
    ensures |cells| == r.i1 - r.i0 + 1
    ensures forall j :: 0 <= j < |cells| ==> cells[j] == CellFor(g, r, r.i0 + j)
  {
    hide RowBase, InitCell;
    var numCells := last - first + 1;
    InitCellIs(g, r, r.i0, firstSize, firstOffset);
    cells := [InitCell(g.k, firstSize, first, firstOffset)];
    var i := 1;
    while i < numCells - 1
      invariant 1 <= i == |cells| && i <= numCells && (i < numCells || numCells == 1)
      invariant forall j :: 0 <= j < |cells| ==> cells[j] == CellFor(g, r, r.i0 + j)
    {
      InitCellIs(g, r, r.i0 + i, g.cellSize, 0);
      cells := cells + [InitCell(g.k, g.cellSize, i + first, 0)];
      i := i + 1;
    }
    if last != first {
      InitCellIs(g, r, r.i1, lastSize, 0);
      cells := cells + [InitCell(g.k, lastSize, last, 0)];
    }
  }

  lemma CellSpanLength(g: Group, start: int, end: int, r: Request)
    requires Spans(g, start, end, r)
    ensures r.i0 == r.i1 ==> end - start == r.o1 - r.o0
    ensures r.i0 < r.i1 ==> end - start + 1 >= g.cellSize - r.o0
  {
    if r.i0 < r.i1 {
      MulAtLeast(r.i1 - r.i0, g.cellSize);
      assert (r.i1 - r.i0) * g.cellSize == r.i1 * g.cellSize - r.i0 * g.cellSize;
    }
  }

  // ----- step 2: the range each internal block is read over

  // Data block i over its part of the request, parity blocks over all of it.
  function RangeFor(g: Group, r: Request, i: int): VerticalRange {
    if r.i0 <= i <= r.i1 then VerticalRange(r.Top(g) + r.Lo(i), r.Hi(g, i) - r.Lo(i))
    else if i < g.k then VerticalRange(0, 0)
    else VerticalRange(r.First(g), r.Last(g) - r.First(g))
  }

  lemma TopIs(g: Group, r: Request)
    ensures r.Top(g) == r.row * g.cellSize
  {}

  // getRangesForInternalBlocks. LLONG_MAX stands for "no start seen yet".
  method GetRanges(g: Group, cells: seq<StripingCell>, ghost r: Request) returns (ranges: seq<VerticalRange>)
    requires r.In(g) && |cells| == r.i1 - r.i0 + 1 && r.Top(g) + g.cellSize < LLONG_MAX
    requires forall j :: 0 <= j < |cells| ==> cells[j] == CellFor(g, r, r.i0 + j)
    ensures |ranges| == g.k + g.p
    ensures forall i :: 0 <= i < |ranges| ==> ranges[i] == RangeFor(g, r, i)
  {
    hide Request.Top;
    ghost var top := r.Top(g);
    TopIs(g, r);
    ranges := seq(g.k + g.p, _ => VerticalRange(0, 0));
    var earliestStart, latestEnd := LLONG_MAX, -1;
    for j := 0 to |cells|
      invariant |ranges| == g.k + g.p
      invariant forall i :: r.i0 <= i < r.i0 + j ==> ranges[i] == RangeFor(g, r, i)
      invariant forall i :: 0 <= i < |ranges| && !(r.i0 <= i < r.i0 + j) ==> ranges[i] == VerticalRange(0, 0)
      invariant j == 0 ==> earliestStart == LLONG_MAX && latestEnd == -1
      invariant j == 1 ==> earliestStart == top + r.o0 && latestEnd == top + r.Hi(g, r.i0) - 1
      invariant j >= 2 ==> earliestStart == top && latestEnd == top + g.cellSize - 1
    {
      var cell := cells[j];
      var i := cell.idxInStripe;
      var blockStart := cell.idxInInternalBlk * g.cellSize;
      assert blockStart == top;
      if ranges[i].spanInBlock == 0 {
        ranges := ranges[i := VerticalRange(blockStart + cell.offset, cell.size)];
      } else {
        // a second cell of the same block, which only a longer range can have
        assert false;
      }
      if ranges[i].offsetInBlock < earliestStart {
        earliestStart := ranges[i].offsetInBlock;
      }
      if ranges[i].offsetInBlock + ranges[i].spanInBlock - 1 > latestEnd {
        latestEnd := ranges[i].offsetInBlock + ranges[i].spanInBlock - 1;
      }
    }
    for i := g.k to g.k + g.p
      invariant |ranges| == g.k + g.p
      invariant forall n :: 0 <= n < i ==> ranges[n] == RangeFor(g, r, n)
    {
      ranges := ranges[i := VerticalRange(earliestStart, latestEnd - earliestStart + 1)];
    }
  }

  // ----- step 3: merge into aligned stripes

  // Bands that follow one another from lo to hi without gap.
  ghost predicate Tiling(stripes: seq<AlignedStripe>, lo: int, hi: int) {
    && (stripes == [] ==> lo == hi)
    && (stripes != [] ==> stripes[0].offset == lo && stripes[|stripes| - 1].offset + stripes[|stripes| - 1].span == hi)
    && (forall n :: 0 <= n < |stripes| ==> 0 < stripes[n].span)
    && (forall n {:trigger stripes[n]} :: 0 < n < |stripes| ==>
          stripes[n - 1].offset + stripes[n - 1].span == stripes[n].offset)
  }

  // No band has x strictly inside it.
  ghost predicate NotCut(stripes: seq<AlignedStripe>, x: int) {
    forall n :: 0 <= n < |stripes| ==> x <= stripes[n].offset || stripes[n].offset + stripes[n].span <= x
  }

  ghost predicate Bare(stripes: seq<AlignedStripe>, width: nat) {
    forall n :: 0 <= n < |stripes| ==> |stripes[n].chunks| == width && forall i :: 0 <= i < width ==>
        stripes[n].chunks[i] == Absent
  }

  lemma AnyOf<T>(s: set<T>) returns (m: T)
    requires s != {}
    ensures m in s
  {
    var x :| x in s;
    m := x;
  }

  lemma MinOf(points: set<int>) returns (m: int)
    requires points != {}
    ensures m in points && forall x :: x in points ==> m <= x
    decreases |points|
  {
    var y := AnyOf(points);
    var rest := points - {y};
    if rest == {} {
      m := y;
    } else {
      m := MinOf(rest);
      if y < m { m := y; }
    }
    assert points == rest + {y};
  }

  lemma Extend(stripes: seq<AlignedStripe>, lo: int, prev: int, point: int, width: nat, points: set<int>)
    requires Tiling(stripes, lo, prev) && prev < point && Bare(stripes, width)
    requires forall x :: x in points ==> NotCut(stripes, x) && (x <= prev || point <= x)
    ensures var s := stripes + [AlignedStripe(prev, point - prev, seq(width, _ => Absent))];
            Tiling(s, lo, point) && Bare(s, width) && forall x :: x in points ==> NotCut(s, x)
  {
    hide Tiling, Bare, NotCut;
    ExtendTiling(stripes, lo, prev, point, width);
    forall x | x in points ensures NotCut(stripes + [AlignedStripe(prev, point - prev, seq(width, _ => Absent))], x) {
      ExtendUncut(stripes, prev, point, width, x);
    }
  }

  lemma ExtendTiling(stripes: seq<AlignedStripe>, lo: int, prev: int, point: int, width: nat)
    requires Tiling(stripes, lo, prev) && prev < point && Bare(stripes, width)
    ensures var s := stripes + [AlignedStripe(prev, point - prev, seq(width, _ => Absent))];
            Tiling(s, lo, point) && Bare(s, width)
  {
    hide Tiling, Bare;
    var band := AlignedStripe(prev, point - prev, seq(width, _ => Absent));
    TilingNext(stripes, lo, prev, band);
    BareNext(stripes, band, width);
  }

  lemma TilingNext(stripes: seq<AlignedStripe>, lo: int, hi: int, band: AlignedStripe)
    requires Tiling(stripes, lo, hi) && band.offset == hi && 0 < band.span
    ensures Tiling(stripes + [band], lo, hi + band.span)
  {}

  lemma BareNext(stripes: seq<AlignedStripe>, band: AlignedStripe, width: nat)
    requires Bare(stripes, width) && |band.chunks| == width && forall i :: 0 <= i < width ==> band.chunks[i] == Absent
    ensures Bare(stripes + [band], width)
  {}

  lemma ExtendUncut(stripes: seq<AlignedStripe>, prev: int, point: int, width: nat, x: int)
    requires NotCut(stripes, x) && (x <= prev || point <= x)
    ensures NotCut(stripes + [AlignedStripe(prev, point - prev, seq(width, _ => Absent))], x)
  {}

  // The iteration over the sorted set of points.
  method BandsBetween(points: set<int>, width: nat) returns (stripes: seq<AlignedStripe>, ghost lo: int, ghost hi: int)
    requires points != {} && forall x :: x in points ==> 0 <= x
    ensures lo in points && hi in points && (forall x :: x in points ==> lo <= x <= hi)
    ensures Tiling(stripes, lo, hi) && Bare(stripes, width)
    ensures forall x :: x in points ==> NotCut(stripes, x)
  {
    hide Tiling, NotCut, Bare;
    lo := MinOf(points);
    var prev :| prev in points && forall x :: x in points ==> prev <= x;
    stripes := [];
    NoBands(lo, width, points);
    var rest := points - {prev};
    while rest != {}
      invariant rest <= points && prev in points && prev !in rest && lo <= prev
      invariant forall x :: x in rest ==> prev < x
      invariant forall x :: x in points && x !in rest ==> x <= prev
      invariant Tiling(stripes, lo, prev) && Bare(stripes, width)
      invariant forall x :: x in points ==> NotCut(stripes, x)
      decreases |rest|
    {
      ghost var least := MinOf(rest);
      var point :| point in rest && forall x :: x in rest ==> point <= x;
      Extend(stripes, lo, prev, point, width, points);
      stripes := stripes + [AlignedStripe(prev, point - prev, seq(width, _ => Absent))];
      prev := point;
      rest := rest - {point};
    }
    hi := prev;
  }

  lemma NoBands(lo: int, width: nat, points: set<int>)
    ensures Tiling([], lo, lo) && Bare([], width) && forall x :: x in points ==> NotCut([], x)
  {}

  // The end of the last, possibly partial, cell of the group in its block.
  function LastCellEnd(g: Group): int
    requires 0 < g.cellSize && 0 < g.k
  {
    g.bytes / g.cellSize / g.k * g.cellSize + g.bytes % g.cellSize
  }

  function PointsUpTo(ranges: seq<VerticalRange>, n: nat): set<int>
    requires n <= |ranges|
  {
    if n == 0 then {}
    else if ranges[n - 1].spanInBlock == 0 then PointsUpTo(ranges, n - 1)
    else PointsUpTo(ranges, n - 1) +
         {ranges[n - 1].offsetInBlock, ranges[n - 1].offsetInBlock + ranges[n - 1].spanInBlock}
  }

  // What the bands promise: they tile the request's vertical extent, and no end
  // of a requested range, nor the end of the last cell, falls inside one.
  ghost predicate Aligned(g: Group, r: Request, stripes: seq<AlignedStripe>)
    requires 0 < g.cellSize && 0 < g.k
  {
    && Tiling(stripes, r.First(g), r.Last(g))
    && (forall i :: r.i0 <= i <= r.i1 ==> NotCut(stripes, r.Top(g) + r.Lo(i)) && NotCut(stripes, r.Top(g) + r.Hi(g, i)))
    && NotCut(stripes, LastCellEnd(g))
  }

  // mergeRangesForInternalBlocks.
  method MergeRanges(g: Group, ranges: seq<VerticalRange>, ghost r: Request) returns (stripes: seq<AlignedStripe>)
    requires 0 < g.cellSize && 0 < g.k && r.In(g) && |ranges| == g.k + g.p
    requires forall i :: 0 <= i < |ranges| ==> ranges[i] == RangeFor(g, r, i)
    ensures Aligned(g, r, stripes) && Bare(stripes, g.k + g.p)
  {
    hide RangeFor, Tiling, NotCut, Bare, LastCellEnd;
    var points: set<int> := {};
    for i := 0 to |ranges|
      invariant points == PointsUpTo(ranges, i)
    {
      if ranges[i].spanInBlock != 0 {
        points := points + {ranges[i].offsetInBlock};
        points := points + {ranges[i].offsetInBlock + ranges[i].spanInBlock};
      }
    }
    PointsAre(g, ranges, r, |ranges|);
    PointsReach(g, ranges, r);
    stripes := CutAndBand(g, points, r);
  }

  method LastCellEndOffset(g: Group) returns (end: int)
    requires 0 < g.cellSize && 0 < g.k
    ensures end == LastCellEnd(g)
  {
    var lastCellIdxInBG := g.bytes / g.cellSize;
    var idxInInternalBlk := lastCellIdxInBG / g.k;
    end := idxInInternalBlk * g.cellSize + g.bytes % g.cellSize;
  }

  // The rest of it: the point for the end of the last cell, then the bands.
  method CutAndBand(g: Group, sides: set<int>, ghost r: Request) returns (stripes: seq<AlignedStripe>)
    requires 0 < g.cellSize && 0 < g.k && r.In(g) && 0 <= r.First(g)
    requires r.First(g) in sides && r.Last(g) in sides && (forall x :: x in sides ==> r.First(g) <= x <= r.Last(g))
    requires forall i :: r.i0 <= i <= r.i1 ==> r.Top(g) + r.Lo(i) in sides && r.Top(g) + r.Hi(g, i) in sides
    ensures Aligned(g, r, stripes) && Bare(stripes, g.k + g.p)
  {
    hide Tiling, NotCut, Bare, LastCellEnd, Request.Top, Request.Lo, Request.Hi, Request.First, Request.Last;
    var points := sides;
    var lastCellEndOffset := LastCellEndOffset(g);
    var least :| least in points && forall x :: x in points ==> least <= x;
    var greatest :| greatest in points && forall x :: x in points ==> x <= greatest;
    if least < lastCellEndOffset < greatest {
      points := points + {lastCellEndOffset};
    }
    ghost var lo, hi;
    stripes, lo, hi := BandsBetween(points, g.k + g.p);
    assert lo == r.First(g) && hi == r.Last(g);
    OutsideNotCut(stripes, lo, hi, lastCellEndOffset);
  }

  lemma RangeBounds(g: Group, r: Request, i: int)
    requires 0 < g.cellSize && r.In(g) && 0 <= i
    ensures var v := RangeFor(g, r, i);
            && 0 <= r.First(g)
            && (v.spanInBlock != 0 ==> r.First(g) <= v.offsetInBlock && v.offsetInBlock + v.spanInBlock <= r.Last(g))
            && (v.spanInBlock != 0 ==> 0 < v.spanInBlock)
            && (r.i0 <= i <= r.i1 ==> v.spanInBlock != 0 && v.offsetInBlock == r.Top(g) + r.Lo(i)
                                      && v.offsetInBlock + v.spanInBlock == r.Top(g) + r.Hi(g, i))
  {
    assert 0 <= r.row * g.cellSize;
  }

  lemma {:induction false} PointsAre(g: Group, ranges: seq<VerticalRange>, r: Request, n: nat)
    requires 0 < g.cellSize && r.In(g) && |ranges| == g.k + g.p && n <= |ranges|
    requires forall i :: 0 <= i < |ranges| ==> ranges[i] == RangeFor(g, r, i)
    ensures forall x :: x in PointsUpTo(ranges, n) ==> r.First(g) <= x <= r.Last(g)
    ensures forall i :: r.i0 <= i <= r.i1 && i < n ==>
              r.Top(g) + r.Lo(i) in PointsUpTo(ranges, n) && r.Top(g) + r.Hi(g, i) in PointsUpTo(ranges, n)
  {
    hide RangeFor;
    if n != 0 {
      PointsAre(g, ranges, r, n - 1);
      RangeBounds(g, r, n - 1);
    }
  }

  // The first and last offsets of the request are points.
  lemma PointsReach(g: Group, ranges: seq<VerticalRange>, r: Request)
    requires 0 < g.cellSize && r.In(g) && |ranges| == g.k + g.p
    requires forall i :: r.i0 <= i <= r.i1 ==>
               r.Top(g) + r.Lo(i) in PointsUpTo(ranges, |ranges|) &&
                   r.Top(g) + r.Hi(g, i) in PointsUpTo(ranges, |ranges|)
    ensures 0 <= r.First(g) && r.First(g) in PointsUpTo(ranges, |ranges|) && r.Last(g) in PointsUpTo(ranges, |ranges|)
  {
    assert 0 <= r.row * g.cellSize;
    assert r.First(g) == r.Top(g) + r.Lo(r.i1);
    assert r.Last(g) == r.Top(g) + r.Hi(g, r.i0);
  }

  lemma OutsideNotCut(stripes: seq<AlignedStripe>, lo: int, hi: int, x: int)
    requires Tiling(stripes, lo, hi)
    ensures x <= lo || hi <= x ==> NotCut(stripes, x)
  {
    forall n | 0 <= n < |stripes| ensures lo <= stripes[n].offset && stripes[n].offset + stripes[n].span <= hi {
      StartsAbove(stripes, lo, hi, n);
      EndsBelow(stripes, lo, hi, n);
    }
  }

  lemma {:induction false} StartsAbove(stripes: seq<AlignedStripe>, lo: int, hi: int, n: nat)
    requires Tiling(stripes, lo, hi) && n < |stripes|
    ensures lo <= stripes[n].offset
  {
    if n > 0 { StartsAbove(stripes, lo, hi, n - 1); }
  }

  lemma {:induction false} EndsBelow(stripes: seq<AlignedStripe>, lo: int, hi: int, n: nat)
    requires Tiling(stripes, lo, hi) && n < |stripes|
    ensures stripes[n].offset + stripes[n].span <= hi
    decreases |stripes| - n
  {
    if n < |stripes| - 1 { EndsBelow(stripes, lo, hi, n + 1); }
  }

  // ----- step 4: the buffer slot of every requested chunk

  // Block i's chunk of a band: requested when the band lies in its range, and
  // then at the band's place in cell i of the stripe buffer.
  function SliceFor(g: Group, r: Request, off: int, span: int, i: int): Chunk {
    if r.i0 <= i <= r.i1 && r.Top(g) + r.Lo(i) <= off && off + span <= r.Top(g) + r.Hi(g, i)
    then Requested(i * g.cellSize + (off - r.Top(g)), span) else Absent
  }

  // Cells up to block n have been placed in the band.
  ghost predicate Placed(g: Group, r: Request, s: AlignedStripe, n: int) {
    && |s.chunks| == g.k + g.p
    && (forall i :: 0 <= i < |s.chunks| ==>
          s.chunks[i] == if i < n then SliceFor(g, r, s.offset, s.span, i) else Absent)
  }

  ghost predicate SameBands(s: seq<AlignedStripe>, t: seq<AlignedStripe>) {
    |s| == |t| && forall n :: 0 <= n < |s| ==> s[n].offset == t[n].offset && s[n].span == t[n].span
  }

  method PlaceChunks(g: Group, cells: seq<StripingCell>, bands: seq<AlignedStripe>, bufStart: int, ghost r: Request)
    returns (stripes: seq<AlignedStripe>)
    requires 0 < g.cellSize && 0 < g.k && r.In(g) && |cells| == r.i1 - r.i0 + 1
    requires forall j :: 0 <= j < |cells| ==> cells[j] == CellFor(g, r, r.i0 + j)
    requires Aligned(g, r, bands) && Bare(bands, g.k + g.p)
    requires bufStart == r.i0 * g.cellSize + r.o0
    ensures SameBands(stripes, bands)
    ensures forall n :: 0 <= n < |stripes| ==> Placed(g, r, stripes[n], g.k)
  {
    hide NotCut, Tiling, SliceFor, Aligned;
    stripes := bands;
    var bufOffset := bufStart;
    forall n | 0 <= n < |stripes| ensures Placed(g, r, stripes[n], r.i0) {
      SliceOutside(g, r, stripes[n], r.i0);
    }
    for c := 0 to |cells|
      invariant SameBands(stripes, bands)
      invariant forall n :: 0 <= n < |stripes| ==> Placed(g, r, stripes[n], r.i0 + c)
      invariant c < |cells| ==> bufOffset == (r.i0 + c) * g.cellSize + r.Lo(r.i0 + c)
    {
      stripes := PlaceCell(g, cells[c], stripes, bufOffset, bands, r, r.i0 + c);
      bufOffset := bufOffset + cells[c].size;
      assert (r.i0 + c + 1) * g.cellSize == (r.i0 + c) * g.cellSize + g.cellSize;
    }
    forall n | 0 <= n < |stripes| ensures Placed(g, r, stripes[n], g.k) {
      SliceOutside(g, r, stripes[n], r.i1 + 1);
    }
  }

  // Blocks outside the request have no slice, so they count as placed.
  lemma SliceOutside(g: Group, r: Request, s: AlignedStripe, n: int)
    requires r.In(g) && |s.chunks| == g.k + g.p
    ensures n == r.i0 && Placed(g, r, s, 0) ==> Placed(g, r, s, n)
    ensures n == r.i1 + 1 && Placed(g, r, s, n) ==> Placed(g, r, s, g.k)
  {}

  method PlaceCell(g: Group, cell: StripingCell, before: seq<AlignedStripe>, bufOffset: int,
                   ghost bands: seq<AlignedStripe>, ghost r: Request, ghost i: int)
    returns (stripes: seq<AlignedStripe>)
    requires 0 < g.cellSize && 0 < g.k && r.In(g) && r.i0 <= i <= r.i1 && cell == CellFor(g, r, i)
    requires Aligned(g, r, bands) && SameBands(before, bands)
    requires forall n :: 0 <= n < |before| ==> Placed(g, r, before[n], i)
    requires bufOffset == i * g.cellSize + r.Lo(i)
    ensures SameBands(stripes, bands)
    ensures forall n :: 0 <= n < |stripes| ==> Placed(g, r, stripes[n], i + 1)
  {
    hide NotCut, Tiling, SliceFor;
    stripes := before;
    var cellStart := cell.idxInInternalBlk * g.cellSize + cell.offset;
    var cellEnd := cellStart + cell.size - 1;
    assert cellStart == r.Top(g) + r.Lo(i) && cellEnd == r.Top(g) + r.Hi(g, i) - 1;
    for j := 0 to |stripes|
      invariant |stripes| == |before| && SameBands(stripes, bands)
      invariant forall n :: 0 <= n < j ==> Placed(g, r, stripes[n], i + 1)
      invariant forall n :: j <= n < |stripes| ==> Placed(g, r, stripes[n], i)
    {
      var s := stripes[j];
      var stripeEnd := s.offset + s.span - 1;
      var overlapStart := if cellStart > s.offset then cellStart else s.offset;
      var overlapEnd := if cellEnd < stripeEnd then cellEnd else stripeEnd;
      var overLapLen := overlapEnd - overlapStart + 1;
      OverlapIsAll(g, r, bands, j, i, overlapStart, overlapEnd);
      if overLapLen > 0 {
        // The code checks here that the chunk has not been placed before.
        assert s.chunks[cell.idxInStripe] == Absent;
        var pos := bufOffset + overlapStart - cellStart;
        stripes := stripes[j := s.(chunks := s.chunks[cell.idxInStripe := Requested(pos, overLapLen)])];
      }
    }
  }

  // A band meets a requested range in all of the band or not at all.
  lemma OverlapIsAll(g: Group, r: Request, bands: seq<AlignedStripe>, j: nat, i: int, from: int, to: int)
    requires 0 < g.cellSize && 0 < g.k && Aligned(g, r, bands) && j < |bands| && r.i0 <= i <= r.i1
    requires from == if r.Top(g) + r.Lo(i) > bands[j].offset then r.Top(g) + r.Lo(i) else bands[j].offset
    requires to == (if r.Top(g) + r.Hi(g, i) < bands[j].offset + bands[j].span
                    then r.Top(g) + r.Hi(g, i) else bands[j].offset + bands[j].span) - 1
    ensures to - from + 1 > 0 ==> from == bands[j].offset && to - from + 1 == bands[j].span
    ensures SliceFor(g, r, bands[j].offset, bands[j].span, i) ==
            if to - from + 1 > 0 then Requested(i * g.cellSize + (bands[j].offset - r.Top(g)), bands[j].span)
            else Absent
  {
    hide LastCellEnd;
  }

  // ----- step 5: chunks beyond the end of their block

  function ChunkFor(g: Group, r: Request, off: int, span: int, i: nat): Chunk
    requires Layout(g.cellSize, g.k)
  {
    if i < g.k && BlockLength(g.bytes, g.cellSize, g.k, i) <= off then AllZero else SliceFor(g, r, off, span, i)
  }

  ghost predicate Finished(g: Group, r: Request, s: AlignedStripe)
    requires Layout(g.cellSize, g.k)
  {
    |s.chunks| == g.k + g.p && forall i :: 0 <= i < |s.chunks| ==> s.chunks[i] == ChunkFor(g, r, s.offset, s.span, i)
  }

  // The result of dividing a request.
  ghost predicate Divided(g: Group, r: Request, stripes: seq<AlignedStripe>)
    requires Layout(g.cellSize, g.k)
  {
    Aligned(g, r, stripes) && forall n :: 0 <= n < |stripes| ==> Finished(g, r, stripes[n])
  }

  // Requested bytes exist: block i reaches to the end of its range.
  lemma RangeInBlock(g: Group, start: nat, end: nat, r: Request, i: int)
    requires g.Valid() && Spans(g, start, end, r) && end < g.bytes && r.i0 <= i <= r.i1
    ensures r.Top(g) + r.Hi(g, i) <= BlockLength(g.bytes, g.cellSize, g.k, i)
  {
    hide BlockLength, OffsetInGroup, Rest;
    var off := r.Hi(g, i) - 1;
    var top := r.Top(g);
    var o := top + off;
    RowNonneg(r.row, g.cellSize);
    LengthMeansInGroup(g.bytes, o, i, g.cellSize, g.k);
    DivModUnique(o, g.cellSize, r.row, off);
    GroupForm(o, r.row, off, i, g.cellSize, g.k);
    if i < r.i1 { CellsApart(i, r.i1, g.cellSize); }
  }

  lemma RowNonneg(row: int, cellSize: nat)
    requires 0 <= row
    ensures 0 <= row * cellSize
  {}

  lemma CellsApart(i: int, j: int, cellSize: nat)
    requires i < j
    ensures i * cellSize + cellSize <= j * cellSize
  {
    MulAtLeast(j - i, cellSize);
    assert (j - i) * cellSize == j * cellSize - i * cellSize;
  }

  // The code's block lengths are the real ones in a group that fits.
  lemma LengthHolds(g: Group, i: nat)
    requires g.Valid() && i < g.k
    ensures GetInternalBlockLength(g.bytes, g.cellSize, g.k, i) == Ok(BlockLength(g.bytes, g.cellSize, g.k, i))
  {
    hide GetInternalBlockLength, BlockLength;
    LengthExact(g.bytes, g.cellSize, g.k, i);
    LengthsOrdered(g.bytes, g.cellSize, g.k, 0, i, g.k);
  }

  // prepareAllZeroChunks.
  method PrepareAllZeroChunks(g: Group, before: seq<AlignedStripe>, ghost start: nat, ghost end: nat, ghost r: Request)
    returns (stripes: seq<AlignedStripe>)
    requires g.Valid() && Spans(g, start, end, r) && end < g.bytes
    requires forall n :: 0 <= n < |before| ==> 0 < before[n].span && Placed(g, r, before[n], g.k)
    ensures SameBands(stripes, before)
    ensures forall n :: 0 <= n < |stripes| ==> Finished(g, r, stripes[n])
  {
    hide Spans, Placed, Finished;
    stripes := before;
    for n := 0 to |stripes|
      invariant SameBands(stripes, before)
      invariant forall m :: 0 <= m < n ==> Finished(g, r, stripes[m])
      invariant forall m :: n <= m < |stripes| ==> stripes[m] == before[m]
    {
      var s := ZeroBand(g, stripes[n], start, end, r);
      stripes := stripes[n := s];
    }
  }

  method ZeroBand(g: Group, before: AlignedStripe, ghost start: nat, ghost end: nat, ghost r: Request)
    returns (s: AlignedStripe)
    requires g.Valid() && Spans(g, start, end, r) && end < g.bytes
    requires 0 < before.span && Placed(g, r, before, g.k)
    ensures s.offset == before.offset && s.span == before.span && Finished(g, r, s)
  {
    s := before;
    for i := 0 to g.k
      invariant s.offset == before.offset && s.span == before.span && |s.chunks| == g.k + g.p
      invariant forall m :: 0 <= m < |s.chunks| ==>
                  s.chunks[m] == if m < i then ChunkFor(g, r, s.offset, s.span, m) else before.chunks[m]
    {
      LengthHolds(g, i);
      hide GetInternalBlockLength, BlockLength;
      var internalBlkLen := GetInternalBlockLength(g.bytes, g.cellSize, g.k, i).value;
      if internalBlkLen <= s.offset {
        if r.i0 <= i <= r.i1 { RangeInBlock(g, start, end, r, i); }
        // checkState(s.chunks[i] == nullptr)
        assert s.chunks[i] == Absent;
        s := s.(chunks := s.chunks[i := AllZero]);
      }
    }
  }

  // divideOneStripe. InvalidParameter stands for the failed range check; a valid
  // range must lie in one stripe.
  method DivideOneStripe(g: Group, start: nat, end: nat) returns (res: Result<seq<AlignedStripe>>, ghost r: Request)
    requires g.Valid()
    requires start <= end < g.bytes ==> start / (g.cellSize * g.k) == end / (g.cellSize * g.k)
    ensures res.Ok? <==> start <= end < g.bytes
    ensures res.Ok? ==> Spans(g, start, end, r) && Divided(g, r, res.value)
  {
    if !(start <= end < g.bytes) {
      r := Request(0, 0, 0, 0, 0);
      return InvalidParameter, r;
    }
    r := RequestOf(g, start, end);
    TopFits(g, start, end, r);
    CellsFit(r.i0, r.o0, g.cellSize, g.k);
    DivModUnique(start, g.cellSize * g.k, r.row, r.i0 * g.cellSize + r.o0);
    hide Spans, Aligned, Bare, Placed, Finished, CellFor, RangeFor;
    var cells := GetStripingCells(g, start, end, r);
    var ranges := GetRanges(g, cells, r);
    var bands := MergeRanges(g, ranges, r);
    var stripes := PlaceChunks(g, cells, bands, start % (g.cellSize * g.k), r);
    AlignedSame(g, r, bands, stripes);
    AlignedPositive(g, r, stripes);
    var done := PrepareAllZeroChunks(g, stripes, start, end, r);
    AlignedSame(g, r, stripes, done);
    res := Ok(done);
  }

  lemma TopFits(g: Group, start: nat, end: nat, r: Request)
    requires g.Valid() && Spans(g, start, end, r) && end < g.bytes
    ensures r.In(g) && r.Top(g) + g.cellSize < LLONG_MAX
  {
    CellsFit(r.i0, r.o0, g.cellSize, g.k);
    MulAtLeast(g.k, g.cellSize);
    hide BlockLength;
    RowsBelow(r.row, g.k, g.cellSize, start);
    BytesBelow(g.bytes, g.cellSize, g.bytes / g.cellSize);
  }

  lemma BytesBelow(bytes: nat, cellSize: int, q: int)
    requires 0 < cellSize < 0x8000_0000 && q == bytes / cellSize < 0x8000_0000
    ensures bytes < 0x4000_0000_0000_0000
  {
    assert bytes == q * cellSize + bytes % cellSize;
    assert q * cellSize <= 0x7fff_ffff * cellSize;
  }

  lemma RowsBelow(row: int, k: int, cellSize: int, start: int)
    requires 0 <= row && 0 < k && 0 < cellSize && row * (cellSize * k) <= start
    ensures row * cellSize <= start
  {
    assert row * (cellSize * k) == (row * cellSize) * k;
    assert (row * cellSize) * k >= row * cellSize;
  }

  lemma AlignedSame(g: Group, r: Request, a: seq<AlignedStripe>, b: seq<AlignedStripe>)
    requires 0 < g.cellSize && 0 < g.k && Aligned(g, r, a) && SameBands(b, a)
    ensures Aligned(g, r, b)
  {
    hide Tiling, NotCut, SameBands, LastCellEnd, Request.Top, Request.Lo, Request.Hi, Request.First, Request.Last;
    TilingSame(a, b, r.First(g), r.Last(g));
    NotCutSame(a, b);
  }

  lemma TilingSame(a: seq<AlignedStripe>, b: seq<AlignedStripe>, lo: int, hi: int)
    requires Tiling(a, lo, hi) && SameBands(b, a)
    ensures Tiling(b, lo, hi)
  {}

  lemma NotCutSame(a: seq<AlignedStripe>, b: seq<AlignedStripe>)
    requires SameBands(b, a)
    ensures forall x :: NotCut(a, x) ==> NotCut(b, x)
  {}

  lemma AlignedPositive(g: Group, r: Request, a: seq<AlignedStripe>)
    requires 0 < g.cellSize && 0 < g.k && Aligned(g, r, a)
    ensures forall n :: 0 <= n < |a| ==> 0 < a[n].span
  {}
}
