// How a block group is striped over its internal blocks: StripedBlockUtil's
// length and offset arithmetic, with the 32-bit steps it contains.

module Geometry {
  datatype Result<+T> = Ok(value: T) | InvalidParameter

  // The value a 32-bit signed integer keeps of x.
  function Int32(x: int): (r: int)
    ensures -0x8000_0000 <= r < 0x8000_0000
  {
    (x + 0x8000_0000) % 0x1_0000_0000 - 0x8000_0000
  }

  lemma Int32Exact(x: int)
    ensures Int32(x) == x <==> -0x8000_0000 <= x < 0x8000_0000
  {}

  // The largest parameters the code can hold: a stripe must fit 32 bits.
  predicate Layout(cellSize: int, numDataBlocks: int) {
    0 < cellSize && 0 < numDataBlocks && cellSize * numDataBlocks < 0x8000_0000
  }

  // ----- the code

  function LastCellSize(size: int, cellSize: int, numDataBlocks: int, i: int): int {
    var rest := if i < numDataBlocks then (var s := size - i * cellSize; if s < 0 then 0 else s) else size;
    if rest > cellSize then cellSize else rest
  }

  // getInternalBlockLength.
  function GetInternalBlockLength(dataSize: int, cellSize: int, numDataBlocks: int, idx: int): Result<int>
    requires 0 < cellSize && 0 < numDataBlocks ==> Layout(cellSize, numDataBlocks)
  {
    if dataSize < 0 || cellSize <= 0 || numDataBlocks <= 0 || idx < 0 then InvalidParameter
    else
      var stripeSize := cellSize * numDataBlocks;
      var lastStripeDataLen := Int32(dataSize % stripeSize);
      if lastStripeDataLen == 0 then Ok(dataSize / numDataBlocks)
      else
        var numStripes := Int32((dataSize - 1) / stripeSize + 1);
        Ok(Int32(Int32((numStripes - 1) * cellSize) +
                 LastCellSize(lastStripeDataLen, cellSize, numDataBlocks, idx)))
  }

  // offsetInBlkToOffsetInBG.
  function OffsetInGroup(cellSize: int, dataBlkNum: int, offsetInBlk: int, idx: int): int
    requires 0 < cellSize
  {
    offsetInBlk / cellSize * cellSize * dataBlkNum + idx * cellSize + offsetInBlk % cellSize
  }

  // ----- the length meant, without machine integers

  // Whole stripes contribute a cell each, the last stripe whatever reaches idx.
  function BlockLength(dataSize: nat, cellSize: int, numDataBlocks: int, idx: nat): int
    requires Layout(cellSize, numDataBlocks)
  {
    Rows(dataSize, cellSize, numDataBlocks) * cellSize +
    LastCellSize(Rest(dataSize, cellSize, numDataBlocks), cellSize, numDataBlocks, idx)
  }

  function Rows(dataSize: nat, cellSize: int, numDataBlocks: int): nat
    requires Layout(cellSize, numDataBlocks)
  {
    dataSize / (cellSize * numDataBlocks)
  }

  function Rest(dataSize: nat, cellSize: int, numDataBlocks: int): (r: nat)
    requires Layout(cellSize, numDataBlocks)
    ensures r < cellSize * numDataBlocks
  {
    dataSize % (cellSize * numDataBlocks)
  }

  // ----- division facts

  lemma MulAtLeast(n: int, d: int)
    requires 1 <= n && 0 <= d
    ensures n * d >= d
  {}

  lemma DivModUnique(x: int, d: int, q: int, r: int)
    requires 0 < d && x == q * d + r && 0 <= r < d
    ensures x / d == q && x % d == r
  {
    var q', r' := x / d, x % d;
    assert (q - q') * d == r' - r;
    if q > q' { MulAtLeast(q - q', d); }
    if q < q' { MulAtLeast(q' - q, d); }
  }

  lemma Int32Ring(a: int, b: int)
    ensures Int32(Int32(a) + b) == Int32(a + b)
  {}

  lemma Int32Mul(a: int, c: int)
    ensures Int32(Int32(a) * c) == Int32(a * c)
  {
    var n := (a + 0x8000_0000) / 0x1_0000_0000;
    assert Int32(a) == a - n * 0x1_0000_0000;
    assert Int32(a) * c == a * c - (n * c) * 0x1_0000_0000;
    Int32Shift(a * c, n * c);
  }

  lemma Int32Shift(x: int, n: int)
    ensures Int32(x - n * 0x1_0000_0000) == Int32(x)
  {
    var y := x + 0x8000_0000;
    DivModUnique(y - n * 0x1_0000_0000, 0x1_0000_0000, y / 0x1_0000_0000 - n, y % 0x1_0000_0000);
  }

  // ----- when the code computes the length meant

  lemma CodeLength(dataSize: nat, cellSize: int, numDataBlocks: int, idx: nat)
    requires Layout(cellSize, numDataBlocks)
    ensures GetInternalBlockLength(dataSize, cellSize, numDataBlocks, idx) ==
            if Rest(dataSize, cellSize, numDataBlocks) == 0
            then Ok(BlockLength(dataSize, cellSize, numDataBlocks, idx))
            else Ok(Int32(BlockLength(dataSize, cellSize, numDataBlocks, idx)))
  {
    hide Int32, LastCellSize;
    var s := cellSize * numDataBlocks;
    var q, r := Rows(dataSize, cellSize, numDataBlocks), Rest(dataSize, cellSize, numDataBlocks);
    Int32Exact(r);
    if r == 0 {
      NoLastCell(cellSize, numDataBlocks, idx);
      WholeStripes(dataSize, q, cellSize, numDataBlocks);
    } else {
      LastRow(dataSize, s, q, r);
      WrappedSum(q, cellSize, LastCellSize(r, cellSize, numDataBlocks, idx));
    }
  }

  lemma LastRow(dataSize: nat, s: int, q: int, r: int)
    requires 0 < s && q == dataSize / s && r == dataSize % s && 0 < r
    ensures (dataSize - 1) / s == q
  {
    DivModUnique(dataSize - 1, s, q, r - 1);
  }

  lemma NoLastCell(cellSize: int, numDataBlocks: int, idx: nat)
    requires Layout(cellSize, numDataBlocks)
    ensures LastCellSize(0, cellSize, numDataBlocks, idx) == 0
  {
    assert idx * cellSize >= 0;
  }

  lemma WholeStripes(dataSize: nat, q: nat, cellSize: int, numDataBlocks: int)
    requires Layout(cellSize, numDataBlocks) && dataSize == q * (cellSize * numDataBlocks)
    ensures dataSize / numDataBlocks == q * cellSize
  {
    assert dataSize == (q * cellSize) * numDataBlocks;
    DivModUnique(dataSize, numDataBlocks, q * cellSize, 0);
  }

  lemma WrappedSum(q: nat, cellSize: int, last: int)
    ensures Int32(Int32((Int32(q + 1) - 1) * cellSize) + last) == Int32(q * cellSize + last)
  {
    hide Int32;
    Int32Minus(q + 1);
    Int32Mul(Int32(q + 1) - 1, cellSize);
    Int32Mul(q, cellSize);
    Int32Ring(q * cellSize, last);
  }

  lemma Int32Minus(a: int)
    ensures Int32(Int32(a) - 1) == Int32(a - 1)
  {}

  // getInternalBlockLength is right exactly when the group ends at a stripe
  // boundary or the internal block is shorter than 2^31 bytes.
  lemma LengthExact(dataSize: nat, cellSize: int, numDataBlocks: int, idx: nat)
    requires Layout(cellSize, numDataBlocks)
    ensures GetInternalBlockLength(dataSize, cellSize, numDataBlocks, idx) ==
            Ok(BlockLength(dataSize, cellSize, numDataBlocks, idx)) <==>
            Rest(dataSize, cellSize, numDataBlocks) == 0 ||
            BlockLength(dataSize, cellSize, numDataBlocks, idx) < 0x8000_0000
  {
    hide GetInternalBlockLength, BlockLength, Int32;
    CodeLength(dataSize, cellSize, numDataBlocks, idx);
    Int32Exact(BlockLength(dataSize, cellSize, numDataBlocks, idx));
    BlockLengthNonneg(dataSize, cellSize, numDataBlocks, idx);
  }

  lemma BlockLengthNonneg(dataSize: nat, cellSize: int, numDataBlocks: int, idx: nat)
    requires Layout(cellSize, numDataBlocks)
    ensures 0 <= BlockLength(dataSize, cellSize, numDataBlocks, idx)
  {}

  // A group of 2^32 + 1 bytes over two data blocks: block 0 is reported with a
  // negative length.
  lemma LongBlockMisreported()
    ensures GetInternalBlockLength(0x1_0000_0001, 0x10_0000, 2, 0) == Ok(-0x7fff_ffff)
    ensures BlockLength(0x1_0000_0001, 0x10_0000, 2, 0) == 0x8000_0001
  {
    DivModUnique(0x1_0000_0001, 0x10_0000 * 2, 2048, 1);
    assert BlockLength(0x1_0000_0001, 0x10_0000, 2, 0) == 2048 * 0x10_0000 + 1;
    CodeLength(0x1_0000_0001, 0x10_0000, 2, 0);
    hide GetInternalBlockLength;
  }

  // ----- offsets and lengths agree: a bijection with the group

  // Where group byte g lives.
  function CellOf(g: nat, cellSize: int, numDataBlocks: int): int
    requires Layout(cellSize, numDataBlocks)
  {
    g / cellSize % numDataBlocks
  }

  function OffsetOf(g: nat, cellSize: int, numDataBlocks: int): int
    requires Layout(cellSize, numDataBlocks)
  {
    Rows(g, cellSize, numDataBlocks) * cellSize + g % cellSize
  }

  // g written as row * stripe + idx * cell + off.
  lemma Split(g: nat, cellSize: int, numDataBlocks: int) returns (row: int, idx: int, off: int)
    requires Layout(cellSize, numDataBlocks)
    ensures 0 <= row && 0 <= idx < numDataBlocks && 0 <= off < cellSize
    ensures g == row * (cellSize * numDataBlocks) + idx * cellSize + off
    ensures Rows(g, cellSize, numDataBlocks) == row && CellOf(g, cellSize, numDataBlocks) == idx
    ensures OffsetOf(g, cellSize, numDataBlocks) == row * cellSize + off
  {
    var c := g / cellSize;
    off := g % cellSize;
    row, idx := c / numDataBlocks, c % numDataBlocks;
    SplitRow(g, cellSize, numDataBlocks, c, off, row, idx);
  }

  lemma SplitRow(g: nat, cellSize: int, numDataBlocks: int, c: int, off: int, row: int, idx: int)
    requires Layout(cellSize, numDataBlocks) && c == g / cellSize && off == g % cellSize
    requires row == c / numDataBlocks && idx == c % numDataBlocks
    ensures 0 <= row && g == row * (cellSize * numDataBlocks) + idx * cellSize + off
    ensures Rows(g, cellSize, numDataBlocks) == row
  {
    hide Layout;
    Positive(cellSize, numDataBlocks);
    Quotient(g, cellSize);
    Quotient(c, numDataBlocks);
    TwoDigits(g, cellSize, numDataBlocks, c, off, row, idx);
    CellsFit(idx, off, cellSize, numDataBlocks);
    DivModUnique(g, cellSize * numDataBlocks, row, idx * cellSize + off);
  }

  lemma Positive(cellSize: int, numDataBlocks: int)
    requires Layout(cellSize, numDataBlocks)
    ensures 0 < cellSize && 0 < numDataBlocks && 0 < cellSize * numDataBlocks
  {}

  lemma Quotient(x: nat, d: int)
    requires 0 < d
    ensures x == x / d * d + x % d && 0 <= x / d && 0 <= x % d < d
  {}

  lemma TwoDigits(g: int, cellSize: int, numDataBlocks: int, c: int, off: int, row: int, idx: int)
    requires g == c * cellSize + off && c == row * numDataBlocks + idx
    ensures g == row * (cellSize * numDataBlocks) + idx * cellSize + off
  {
    Regroup(row, idx, cellSize, numDataBlocks);
  }

  // What such a triple composes to.
  lemma Compose(row: int, idx: int, off: int, cellSize: int, numDataBlocks: int)
    requires Layout(cellSize, numDataBlocks) && 0 <= row && 0 <= idx < numDataBlocks && 0 <= off < cellSize
    ensures var g := row * (cellSize * numDataBlocks) + idx * cellSize + off;
            && 0 <= g && Rows(g, cellSize, numDataBlocks) == row
            && CellOf(g, cellSize, numDataBlocks) == idx && g % cellSize == off
  {
    CellsFit(idx, off, cellSize, numDataBlocks);
    var s, c := cellSize * numDataBlocks, row * numDataBlocks + idx;
    var g := row * s + idx * cellSize + off;
    Regroup(row, idx, cellSize, numDataBlocks);
    DivModUnique(g, s, row, idx * cellSize + off);
    DivModUnique(g, cellSize, c, off);
    DivModUnique(c, numDataBlocks, row, idx);
  }

  lemma CellsFit(idx: int, off: int, cellSize: int, numDataBlocks: int)
    requires 0 <= idx < numDataBlocks && 0 <= off < cellSize
    ensures 0 <= idx * cellSize + off < cellSize * numDataBlocks
  {
    MulAtLeast(numDataBlocks - idx, cellSize);
    assert (numDataBlocks - idx) * cellSize == cellSize * numDataBlocks - idx * cellSize;
  }

  lemma Regroup(row: int, idx: int, cellSize: int, numDataBlocks: int)
    ensures (row * numDataBlocks + idx) * cellSize == row * (cellSize * numDataBlocks) + idx * cellSize
  {}

  // offsetInBlkToOffsetInBG and (CellOf, OffsetOf) undo each other.
  lemma OffsetToGroupAndBack(o: nat, idx: int, cellSize: int, numDataBlocks: int)
    requires Layout(cellSize, numDataBlocks) && 0 <= idx < numDataBlocks
    ensures var g := OffsetInGroup(cellSize, numDataBlocks, o, idx);
            && 0 <= g && CellOf(g, cellSize, numDataBlocks) == idx && OffsetOf(g, cellSize, numDataBlocks) == o
  {
    var row, off := o / cellSize, o % cellSize;
    GroupForm(o, row, off, idx, cellSize, numDataBlocks);
    Compose(row, idx, off, cellSize, numDataBlocks);
  }

  lemma GroupToOffsetAndBack(g: nat, cellSize: int, numDataBlocks: int)
    requires Layout(cellSize, numDataBlocks)
    ensures 0 <= CellOf(g, cellSize, numDataBlocks) < numDataBlocks
    ensures OffsetInGroup(cellSize, numDataBlocks, OffsetOf(g, cellSize, numDataBlocks),
                          CellOf(g, cellSize, numDataBlocks)) == g
  {
    hide CellOf, OffsetOf;
    var row, idx, off := Split(g, cellSize, numDataBlocks);
    DivModUnique(row * cellSize + off, cellSize, row, off);
    GroupForm(row * cellSize + off, row, off, idx, cellSize, numDataBlocks);
  }

  lemma GroupForm(o: int, row: int, off: int, idx: int, cellSize: int, numDataBlocks: int)
    requires 0 < cellSize && row == o / cellSize && off == o % cellSize
    ensures OffsetInGroup(cellSize, numDataBlocks, o, idx) == row * (cellSize * numDataBlocks) + idx * cellSize + off
  {}

  // A block offset is below the block's length exactly when the group offset it
  // stands for is below the group's size. With the two lemmas above this makes
  // the pairs (block, offset) a bijection with the group's bytes.
  lemma LengthMeansInGroup(dataSize: nat, o: nat, idx: int, cellSize: int, numDataBlocks: int)
    requires Layout(cellSize, numDataBlocks) && 0 <= idx < numDataBlocks
    ensures o < BlockLength(dataSize, cellSize, numDataBlocks, idx) <==>
            OffsetInGroup(cellSize, numDataBlocks, o, idx) < dataSize
  {
    var row, off := o / cellSize, o % cellSize;
    var q, r := Rows(dataSize, cellSize, numDataBlocks), Rest(dataSize, cellSize, numDataBlocks);
    var s := cellSize * numDataBlocks;
    assert dataSize == q * s + r;
    GroupForm(o, row, off, idx, cellSize, numDataBlocks);
    CellsFit(idx, off, cellSize, numDataBlocks);
    MixedRadix(row, idx * cellSize + off, q, r, s);
    LastCellReached(r, idx, off, cellSize, numDataBlocks);
    var last := LastCellSize(r, cellSize, numDataBlocks, idx);
    assert o == row * cellSize + off;
    MixedRadixClosed(row, off, q, last, cellSize);
  }

  lemma MixedRadix(a: int, b: int, c: int, d: int, s: int)
    requires 0 <= b < s && 0 <= d < s
    ensures a * s + b < c * s + d <==> a < c || (a == c && b < d)
  {
    if a < c { MulAtLeast(c - a, s); assert (c - a) * s == c * s - a * s; }
    if a > c { MulAtLeast(a - c, s); assert (a - c) * s == a * s - c * s; }
  }

  lemma MixedRadixClosed(a: int, b: int, c: int, d: int, s: int)
    requires 0 <= b < s && 0 <= d <= s
    ensures a * s + b < c * s + d <==> a < c || (a == c && b < d)
  {
    if a < c { MulAtLeast(c - a, s); assert (c - a) * s == c * s - a * s; }
    if a > c { MulAtLeast(a - c, s); assert (a - c) * s == a * s - c * s; }
  }

  lemma LastCellReached(r: nat, idx: int, off: int, cellSize: int, numDataBlocks: int)
    requires Layout(cellSize, numDataBlocks) && 0 <= idx < numDataBlocks && 0 <= off < cellSize
    ensures 0 <= LastCellSize(r, cellSize, numDataBlocks, idx) <= cellSize
    ensures off < LastCellSize(r, cellSize, numDataBlocks, idx) <==> idx * cellSize + off < r
  {}

  // ----- consequences for the lengths

  function SumLengths(dataSize: nat, cellSize: int, numDataBlocks: int, n: nat): int
    requires Layout(cellSize, numDataBlocks) && n <= numDataBlocks
  {
    if n == 0 then 0
    else SumLengths(dataSize, cellSize, numDataBlocks, n - 1) + BlockLength(dataSize, cellSize, numDataBlocks, n - 1)
  }

  lemma {:induction false} SumSoFar(dataSize: nat, cellSize: int, numDataBlocks: int, n: nat)
    requires Layout(cellSize, numDataBlocks) && n <= numDataBlocks
    ensures var r := Rest(dataSize, cellSize, numDataBlocks);
            SumLengths(dataSize, cellSize, numDataBlocks, n) ==
            n * (Rows(dataSize, cellSize, numDataBlocks) * cellSize) + if r < n * cellSize then r else n * cellSize
  {
    hide Rows, Rest;
    if n != 0 {
      SumSoFar(dataSize, cellSize, numDataBlocks, n - 1);
      var q, r := Rows(dataSize, cellSize, numDataBlocks), Rest(dataSize, cellSize, numDataBlocks);
      assert n * (q * cellSize) == (n - 1) * (q * cellSize) + q * cellSize;
      assert n * cellSize == (n - 1) * cellSize + cellSize;
    }
  }

  // The data blocks together hold the group.
  lemma LengthsSumToData(dataSize: nat, cellSize: int, numDataBlocks: int)
    requires Layout(cellSize, numDataBlocks)
    ensures SumLengths(dataSize, cellSize, numDataBlocks, numDataBlocks) == dataSize
  {
    SumSoFar(dataSize, cellSize, numDataBlocks, numDataBlocks);
    var q := Rows(dataSize, cellSize, numDataBlocks);
    assert numDataBlocks * (q * cellSize) == q * (cellSize * numDataBlocks);
  }

  // Lengths never increase with the index, and parity blocks are as long as the
  // first data block.
  lemma LengthsOrdered(dataSize: nat, cellSize: int, numDataBlocks: int, i: nat, j: nat, parity: nat)
    requires Layout(cellSize, numDataBlocks) && i <= j < numDataBlocks <= parity
    ensures BlockLength(dataSize, cellSize, numDataBlocks, j) <= BlockLength(dataSize, cellSize, numDataBlocks, i)
    ensures BlockLength(dataSize, cellSize, numDataBlocks, parity) == BlockLength(dataSize, cellSize, numDataBlocks, 0)
  {
    hide Rows, Rest;
    var r := Rest(dataSize, cellSize, numDataBlocks);
    LastCellOrdered(r, cellSize, numDataBlocks, i, j);
  }

  lemma LastCellOrdered(r: nat, cellSize: int, numDataBlocks: int, i: nat, j: nat)
    requires Layout(cellSize, numDataBlocks) && i <= j < numDataBlocks
    ensures LastCellSize(r, cellSize, numDataBlocks, j) <= LastCellSize(r, cellSize, numDataBlocks, i)
  {
    if i < j {
      MulAtLeast(j - i, cellSize);
      assert (j - i) * cellSize == j * cellSize - i * cellSize;
    }
  }
}
