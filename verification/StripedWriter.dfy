// StripedOutputStreamImpl without failures: chunks are routed to the data
// streamers cell by cell, parity is encoded stripe by stripe, and when the stream
// is closed every internal block holds what the reader takes it to hold.

module StripedWriter {
  import opened Bytes
  import opened EncodeLoop
  import opened ReedSolomon
  import opened Buffers
  import opened RawCoder
  import opened Geometry
  import opened DivideStripe
  import opened StripeReaders
  import opened GroupContent
  import opened StripeContent
  import opened Streamers
  import opened UnitLayout

  // The cell buffers: cell i of k data and p parity cells, len bytes of each.
  function CellsAt(g: Group, len: nat): Placement {
    Placement(g.k, g.p, g.cellSize, 0, len, 0, g.cellSize * g.k)
  }

  function Range(lo: nat, hi: nat): (s: seq<nat>)
    requires lo <= hi
    ensures |s| == hi - lo && forall i :: 0 <= i < |s| ==> s[i] == lo + i
  {
    seq(hi - lo, i requires 0 <= i < hi - lo => lo + i)
  }

  // Byte t of data cell i is the group's byte at that place of the row.
  ghost predicate CellByte(m: Vec, g: Group, data: Vec, row: nat, i: nat, t: nat)
    requires 0 < g.cellSize
  {
    0 <= g.cellSize * i + t < |m| && m[g.cellSize * i + t] == RowByte(g, data, row, i, t)
  }

  function RowByte(g: Group, data: Vec, row: nat, i: nat, t: nat): Byte
    requires 0 < g.cellSize
  {
    DataByte(g, data, RowOffset(g, row) + t, i)
  }

  ghost predicate CellHolds(m: Vec, g: Group, data: Vec, row: nat, i: nat, len: nat)
    requires 0 < g.cellSize
  {
    forall t: nat :: t < len ==> CellByte(m, g, data, row, i, t)
  }

  // Unit r over the first len bytes of a row of cells.
  function RowUnit(g: Group, data: Vec, r: nat, row: nat, len: nat): (v: Vec)
    requires 0 < g.cellSize && g.k <= 256 && r < 256
    ensures |v| == len
  {
    seq(len, t requires 0 <= t < len => UnitByte(g.k, r, DataColumn(g, data, RowOffset(g, row) + t)))
  }

  function RowOffset(g: Group, row: nat): nat {
    row * g.cellSize
  }

  lemma RowAppended(g: Group, data: Vec, r: nat, row: nat, len: nat)
    requires 0 < g.cellSize && g.k <= 256 && r < 256
    ensures UnitContent(g, data, r, RowOffset(g, row)) + RowUnit(g, data, r, row, len) ==
            UnitContent(g, data, r, RowOffset(g, row) + len)
  {
    hide UnitByte, DataColumn, RowOffset;
  }

  // Encoding cells that hold a row, padded with zeros, gives the row's parity.
  lemma ParityOfRow(g: Group, data: Vec, row: nat, len: nat, now: Vec, was: Vec, ins: seq<nat>, outs: seq<nat>, j: nat)
    requires 0 < g.cellSize && 0 < g.k && g.k + g.p < FIELD_SIZE && j < g.p == |outs|
    requires ins == CellsAt(g, len).Addrs(Range(0, g.k)) && EncodesParity(g.k, now, was, ins, outs, len)
    requires forall i: nat :: i < g.k ==> CellHolds(was, g, data, row, i, len)
    ensures Stretch(now, outs[j], len) == RowUnit(g, data, g.k + j, row, len)
  {
    hide UnitByte, DataByte, DataColumn;
    forall t: nat | t < len
      ensures Stretch(now, outs[j], len)[t] == RowUnit(g, data, g.k + j, row, len)[t]
    {
      assert ByteIsParity(now, outs[j], t, g.k, j, was, ins);
      ColumnOfCells(g, data, row, len, was, ins, t);
    }
  }

  lemma ColumnOfCells(g: Group, data: Vec, row: nat, len: nat, was: Vec, ins: seq<nat>, t: nat)
    requires 0 < g.cellSize && ins == CellsAt(g, len).Addrs(Range(0, g.k)) && InMemory(ins, t + 1, |was|) && t < len
    requires forall i: nat :: i < g.k ==> CellHolds(was, g, data, row, i, len)
    ensures ColumnAt(was, ins, t) == DataColumn(g, data, RowOffset(g, row) + t)
  {
    hide DataByte;
    forall i: nat | i < g.k ensures ColumnAt(was, ins, t)[i] == DataColumn(g, data, RowOffset(g, row) + t)[i] {
      assert CellHolds(was, g, data, row, i, len);
      assert CellByte(was, g, data, row, i, t);
      var units := Range(0, g.k);
      assert units[i] == i;
      assert ins[i] == CellsAt(g, len).Addr(units[i]);
    }
  }

  // What holds of the streamers when data has been routed and parity written for
  // parityLen bytes of every block.
  ghost predicate Laid(g: Group, data: Vec, streamers: seq<Streamer>, parityLen: nat, chunksPerPacket: nat,
                       blockSize: nat)
    requires Layout(g.cellSize, g.k) && g.k + g.p < FIELD_SIZE
  {
    && |streamers| == g.k + g.p
    && (forall r :: 0 <= r < g.k + g.p ==> streamers[r].Valid(chunksPerPacket, blockSize))
    && (forall i :: 0 <= i < g.k ==> DataLaid(g, data, streamers[i], i))
    && (forall r :: g.k <= r < g.k + g.p ==> ParityLaid(g, data, streamers[r], r, parityLen))
  }

  ghost predicate DataLaid(g: Group, data: Vec, s: Streamer, i: nat)
    requires Layout(g.cellSize, g.k) && g.k <= 256 && i < g.k
  {
    0 <= Len(g, |data|, i) && s.Content() == UnitContent(g, data, i, Len(g, |data|, i))
  }

  ghost predicate ParityLaid(g: Group, data: Vec, s: Streamer, r: nat, parityLen: nat)
    requires 0 < g.cellSize && g.k <= 256 && r < 256
  {
    s.Content() == UnitContent(g, data, r, parityLen)
  }

  // How far the data cells of the current row are filled after n bytes.
  function CellFill(g: Group, n: nat, i: nat): nat
    requires Layout(g.cellSize, g.k)
  {
    var c := CellOf(n, g.cellSize, g.k);
    if i < c then g.cellSize else if i == c then n % g.cellSize else 0
  }

  // A chunk goes to the streamer of the current cell.
  lemma ChunkLaid(g: Group, data: Vec, chunk: Vec, streamers: seq<Streamer>, parityLen: nat, chunksPerPacket: nat,
                  blockSize: nat)
    requires Layout(g.cellSize, g.k) && g.k + g.p < FIELD_SIZE && 1 <= chunksPerPacket
    requires Laid(g, data, streamers, parityLen, chunksPerPacket, blockSize)
    requires chunk != [] && |data| % g.cellSize + |chunk| <= g.cellSize
    requires parityLen <= Rows(|data|, g.cellSize, g.k) * g.cellSize
    ensures var c := CellOf(|data|, g.cellSize, g.k);
            && 0 <= c < g.k && |streamers| == g.k + g.p
            && Laid(g, data + chunk, streamers[c := streamers[c].AppendChunk(chunk, chunksPerPacket, blockSize)],
                    parityLen, chunksPerPacket, blockSize)
  {
    hide BlockLength, CellOf, UnitContent, Streamer.Content, Streamer.Valid, Streamer.AppendChunk, Rows;
    var row, c, off := Position(g, |data|);
    ChunkAdded(streamers[c], chunk, chunksPerPacket, blockSize);
    var s := streamers[c := streamers[c].AppendChunk(chunk, chunksPerPacket, blockSize)];
    forall i | 0 <= i < g.k ensures DataLaid(g, data + chunk, s[i], i) {
      assert DataLaid(g, data, streamers[i], i);
      DataGrows(g, data, chunk, i);
    }
    forall r | g.k <= r < g.k + g.p ensures ParityLaid(g, data + chunk, s[r], r, parityLen) {
      assert ParityLaid(g, data, streamers[r], r, parityLen);
      ParityStays(g, data, chunk, r, parityLen);
    }
  }

  // ----- cells

  // The cells after n bytes of data: data cells filled as far as the row has come.
  ghost predicate Cells(m: Vec, g: Group, data: Vec, cellPos: seq<nat>)
    requires Layout(g.cellSize, g.k)
  {
    && |cellPos| == g.k + g.p && |m| == BufferSize(g)
    && (forall i: nat :: i < g.k ==> CellFilled(m, g, data, Rows(|data|, g.cellSize, g.k), i, cellPos[i],
       CellFill(g, |data|, i)))
    && (forall r :: g.k <= r < g.k + g.p ==> cellPos[r] == 0)
  }

  ghost predicate CellFilled(m: Vec, g: Group, data: Vec, row: nat, i: nat, pos: nat, fill: nat)
    requires 0 < g.cellSize
  {
    pos == fill <= g.cellSize && CellHolds(m, g, data, row, i, fill)
  }

  // The group byte at offset t of cell i of a row.
  function GroupPos(g: Group, row: nat, i: nat, t: nat): int
    requires 0 < g.cellSize
  {
    OffsetInGroup(g.cellSize, g.k, RowOffset(g, row) + t, i)
  }

  // A chunk written behind what its cell holds.
  lemma CellGrows(m: Vec, g: Group, data: Vec, chunk: Vec, row: nat, c: nat, off: nat, i: nat, fill: nat, at: nat)
    requires Layout(g.cellSize, g.k) && i < g.k && c < g.k && |m| == BufferSize(g)
    requires at == g.cellSize * c + off && at + |chunk| <= |m|
    requires off + |chunk| <= g.cellSize && fill <= g.cellSize && (i == c ==> fill == off)
    requires CellHolds(m, g, data, row, i, fill)
    requires forall t: nat :: t < fill ==> 0 <= GroupPos(g, row, i, t) < |data|
    requires forall t: nat :: off <= t < off + |chunk| ==> GroupPos(g, row, c, t) == |data| + (t - off)
    ensures CellHolds(Splice(m, at, chunk), g, data + chunk, row, i, if i == c then off + |chunk| else fill)
  {
    hide OffsetInGroup, Splice;
    CellBound(g.cellSize, i, g.k);
    CellsOrdered(g.cellSize, i, c);
    assert 0 <= g.cellSize * g.p;
    var s := Splice(m, at, chunk);
    forall t: nat | t < (if i == c then off + |chunk| else fill) ensures CellByte(s, g, data + chunk, row, i, t) {
      SpliceAt(m, at, chunk, g.cellSize * i + t);
      if t < fill {
        assert CellByte(m, g, data, row, i, t);
        assert 0 <= GroupPos(g, row, i, t) < |data|;
      } else {
        assert GroupPos(g, row, c, t) == |data| + (t - off);
      }
    }
  }

  lemma Positions(g: Group, n: nat, row: nat, c: nat, off: nat)
    requires Layout(g.cellSize, g.k) && c < g.k && off < g.cellSize && n == row * g.Stripe() + c * g.cellSize + off
    ensures Rows(n, g.cellSize, g.k) == row && CellOf(n, g.cellSize, g.k) == c && n % g.cellSize == off
    ensures forall i: nat, t: nat :: i < g.k && t < CellFill(g, n, i) ==> 0 <= GroupPos(g, row, i, t) < n
    ensures forall t: nat :: off <= t < g.cellSize ==> GroupPos(g, row, c, t) == n + (t - off)
  {
    Compose(row, c, off, g.cellSize, g.k);
    var row', c', off' := Position(g, n);
    hide BlockLength, CellOf, OffsetInGroup, Rows;
    forall i: nat, t: nat | i < g.k && t < CellFill(g, n, i) ensures 0 <= GroupPos(g, row, i, t) < n {
      OldByte(g, n, i, RowOffset(g, row) + t);
    }
    forall t: nat | off <= t < g.cellSize ensures GroupPos(g, row, c, t) == n + (t - off) {
      NewByte(g, n, t - off);
    }
  }

  // Where the stream stands after z more bytes of the cell: further in the cell, at
  // the next cell, or at the next row with all cells of this one filled.
  lemma NextPosition(g: Group, n: nat, row: nat, c: nat, off: nat, z: nat)
    requires Layout(g.cellSize, g.k) && c < g.k && off < g.cellSize && n == row * g.Stripe() + c * g.cellSize + off
    requires 0 < z && off + z <= g.cellSize
    ensures var full := off + z == g.cellSize;
            && Rows(n + z, g.cellSize, g.k) == (if full && c == g.k - 1 then row + 1 else row)
            && CellOf(n + z, g.cellSize, g.k) == (if !full then c else if c == g.k - 1 then 0 else c + 1)
            && (n + z) % g.cellSize == (if full then 0 else off + z)
  {
    if off + z < g.cellSize {
      Compose(row, c, off + z, g.cellSize, g.k);
    } else if c + 1 < g.k {
      assert (c + 1) * g.cellSize == c * g.cellSize + g.cellSize;
      Compose(row, c + 1, 0, g.cellSize, g.k);
    } else {
      LastCell(row, g.cellSize, g.k);
      Compose(row + 1, 0, 0, g.cellSize, g.k);
    }
  }

  // The chunk that makes the group full ends its last stripe, which is where the end of
  // the group is looked for, exactly when a block is a whole number of cells.
  lemma GroupEndSeen(g: Group, blockSize: nat, row: nat, c: nat, off: nat, z: nat)
    requires Layout(g.cellSize, g.k) && c < g.k && off < g.cellSize && 0 < z && off + z <= g.cellSize
    requires row * g.Stripe() + c * g.cellSize + off + z == blockSize * g.k
    ensures off + z == g.cellSize && c == g.k - 1 <==> blockSize % g.cellSize == 0
  {
    if off + z == g.cellSize && c == g.k - 1 {
      EndsWhole(blockSize, row, g.cellSize, g.k);
    } else if blockSize % g.cellSize == 0 {
      EndsInLast(blockSize, row, c, off + z, g.cellSize, g.k);
    }
  }

  lemma EndsInLast(blockSize: nat, row: nat, c: nat, part: nat, cellSize: nat, k: nat)
    requires 0 < cellSize && c < k && 0 < part <= cellSize && blockSize % cellSize == 0
    requires row * (cellSize * k) + c * cellSize + part == blockSize * k
    ensures part == cellSize && c == k - 1
  {
    var m, s, done := blockSize / cellSize, cellSize * k, c * cellSize + part;
    RowsOfBlock(blockSize, m, cellSize, k);
    PartWithin(c, part, cellSize, k);
    LastOne(row, m, s, done);
    assert k * cellSize == s;
    LastOne(c, k, cellSize, part);
  }

  lemma PartWithin(c: nat, part: nat, cellSize: nat, k: nat)
    requires c < k && part <= cellSize
    ensures c * cellSize + part <= cellSize * k
  {
    MulAtLeast(k - c, cellSize);
    assert (k - c) * cellSize == cellSize * k - c * cellSize;
  }

  lemma EndsWhole(blockSize: nat, row: nat, cellSize: nat, k: nat)
    requires 0 < k && 0 < cellSize && row * (cellSize * k) + (k - 1) * cellSize + cellSize == blockSize * k
    ensures blockSize % cellSize == 0
  {
    LastCell(row, cellSize, k);
    var a := (row + 1) * cellSize;
    RowsOfBlock(a, row + 1, cellSize, k);
    SameFactor(blockSize, a, k);
    DivModUnique(blockSize, cellSize, row + 1, 0);
  }

  // What is left after c of k equal parts, being no more than a part, is the last one.
  lemma LastOne(c: nat, k: nat, size: nat, part: nat)
    requires 0 < part <= size && c * size + part == k * size
    ensures part == size && c == k - 1
  {
    var x := k * size - 1;
    assert (k - 1) * size == k * size - size;
    DivModUnique(x, size, c, part - 1);
    DivModUnique(x, size, k - 1, size - 1);
  }

  // Two blocks of two bytes and cells of four: when the group is full, the stream stands
  // at the second cell of the first row, the first cell full and the second empty, so
  // that no stripe has ended and the end of the group is not looked for.
  lemma GroupEndMissed()
    ensures var g, blockSize := Group(2, 1, 4, 0), 2;
            var full := blockSize * g.k;
            && Rows(full, g.cellSize, g.k) == 0 && CellOf(full, g.cellSize, g.k) == 1
            && CellFill(g, full, 0) == g.cellSize && CellFill(g, full, 1) == 0 && blockSize % g.cellSize != 0
  {}

  // Every data cell after the chunk, still seen as part of the row it began in.
  lemma CellsGrow(m: Vec, g: Group, data: Vec, chunk: Vec, cellPos: seq<nat>, row: nat, c: nat, off: nat, at: nat)
    requires Layout(g.cellSize, g.k) && c < g.k && off < g.cellSize
    requires |data| == row * g.Stripe() + c * g.cellSize + off
    requires at == g.cellSize * c + off && at + |chunk| <= |m|
    requires Cells(m, g, data, cellPos) && off + |chunk| <= g.cellSize
    ensures forall i: nat :: i < g.k ==>
              CellFilled(Splice(m, at, chunk), g, data + chunk, row, i,
                         cellPos[c := cellPos[c] + |chunk|][i], CellFill(g, |data|, i) + if i == c then |chunk| else 0)
  {
    Positions(g, |data|, row, c, off);
    hide Splice, GroupPos, CellHolds, CellOf, Rows;
    forall i: nat | i < g.k
      ensures CellFilled(Splice(m, at, chunk), g, data + chunk, row, i,
                         cellPos[c := cellPos[c] + |chunk|][i], CellFill(g, |data|, i) + if i == c then |chunk| else 0)
    {
      assert CellFilled(m, g, data, row, i, cellPos[i], CellFill(g, |data|, i));
      CellGrows(m, g, data, chunk, row, c, off, i, CellFill(g, |data|, i), at);
    }
  }

  // ----- the stream

  // A finished block group: its data, and what was stored for every unit.
  datatype GroupDone = GroupDone(data: Vec, units: seq<Vec>)

  class StripedOutputStream {
    const g: Group
    const chunkSize: nat
    const blockSize: nat
    const chunksPerPacket: nat
    const mem: array<Byte>             // the cell buffers
    const encoder: RawErasureEncoder
    var cellPos: seq<nat>
    var streamers: seq<Streamer>
    var current: nat
    var buffer: Vec
    var position: nat
    var hasGroup: bool
    var numBytes: nat
    var data: Vec                      // the current group's bytes
    var finished: seq<GroupDone>       // the groups on the datanodes

    function GroupSize(): nat {
      blockSize * g.k
    }

    ghost predicate Sizes()
      reads encoder
    {
      && Layout(g.cellSize, g.k) && g.k + g.p < FIELD_SIZE && 1 <= chunksPerPacket
      && 0 < chunkSize && g.cellSize % chunkSize == 0 && 0 < blockSize && blockSize % g.cellSize == 0
      && encoder.Valid() && encoder.k == g.k && encoder.p == g.p && mem.Length == BufferSize(g)
    }

    // The current group's data lies in the cells and the streamers.
    ghost predicate Standing()
      requires Sizes()
      reads `cellPos, `streamers, `current, `hasGroup, `numBytes, `data, `finished, mem, encoder
    {
      && Cells(mem[..], g, data, cellPos) && current == CellOf(|data|, g.cellSize, g.k) < g.k
      && Laid(g, data, streamers, RowOffset(g, Rows(|data|, g.cellSize, g.k)), chunksPerPacket, blockSize)
      && |data| < GroupSize() && (if hasGroup && numBytes != GroupSize() then numBytes == |data| else data == [])
      && (forall f :: 0 <= f < |finished| ==>
         |finished[f].data| == GroupSize() && Complete(g, finished[f].data, finished[f].units))
    }

    constructor (g: Group, chunkSize: nat, blockSize: nat, chunksPerPacket: nat)
      requires Layout(g.cellSize, g.k) && g.k + g.p < FIELD_SIZE && 1 <= chunksPerPacket
      requires 0 < chunkSize && g.cellSize % chunkSize == 0 && 0 < blockSize && blockSize % g.cellSize == 0
      ensures Sizes() && Standing() && data == [] && finished == [] && position == 0 && |buffer| == chunkSize
      ensures this.g == g && this.chunkSize == chunkSize && this.blockSize == blockSize
      ensures fresh(mem) && fresh(encoder)
    {
      this.g, this.chunkSize, this.blockSize, this.chunksPerPacket := g, chunkSize, blockSize, chunksPerPacket;
      mem := new Byte[BufferSize(g)](_ => 0);
      encoder := new RawErasureEncoder(g.k, g.p);
      cellPos := Zeroes(g.k + g.p);
      streamers := seq(g.k + g.p, _ => Streamer([], Empty, 0, 0, 0, 0));
      current, position, hasGroup, numBytes := 0, 0, false, 0;
      buffer := Zeros(chunkSize);
      data, finished := [], [];
      new;
      hide Laid, Cells, RawErasureEncoder.Valid, BufferSize;
      NothingLaid(g, streamers, chunksPerPacket, blockSize);
      NothingInCells(mem[..], g, cellPos);
      assert 0 < blockSize * g.k;
    }

    // writeParity: a parity cell, chunk by chunk.
    method WriteParity(r: nat, cell: Vec)
      requires 0 < chunkSize && 1 <= chunksPerPacket && r < |streamers| &&
               streamers[r].Valid(chunksPerPacket, blockSize)
      modifies `streamers
      ensures |streamers| == |old(streamers)| && streamers == old(streamers)[r := streamers[r]]
      ensures streamers[r].Valid(chunksPerPacket, blockSize) &&
              streamers[r].Content() == old(streamers[r].Content()) + cell
    {
      hide Streamer.Valid, Streamer.Content, Streamer.AppendChunk;
      var i := 0;
      assert old(streamers[r].Content()) + cell[..0] == old(streamers[r].Content());
      while i < |cell|
        invariant 0 <= i <= |cell| && |streamers| == |old(streamers)| && streamers == old(streamers)[r := streamers[r]]
        invariant streamers[r].Valid(chunksPerPacket, blockSize)
        invariant streamers[r].Content() == old(streamers[r].Content()) + cell[..i]
      {
        var chunkLen := if chunkSize < |cell| - i then chunkSize else |cell| - i;
        var chunk := cell[i..i + chunkLen];
        ChunkAdded(streamers[r], chunk, chunksPerPacket, blockSize);
        Appended(old(streamers[r].Content()), cell, i, chunkLen);
        streamers := streamers[r := streamers[r].AppendChunk(chunk, chunksPerPacket, blockSize)];
        i := i + chunkLen;
      }
      assert cell[..i] == cell;
    }

    // The encoding step of writeParityCells.
    method EncodeCells(len: nat) returns (ghost ins: seq<nat>, ghost outs: seq<nat>)
      requires Sizes() && 0 < len <= g.cellSize
      modifies mem
      ensures ins == CellsAt(g, len).Addrs(Range(0, g.k)) && outs == CellsAt(g, len).Addrs(Range(g.k, g.k + g.p))
      ensures EncodesParity(g.k, mem[..], old(mem[..]), ins, outs, len)
    {
      hide EncodesParity, AllApart, InMemory, Range, OutWindows, Placement.Addr, Placement.Addrs,
           RawErasureEncoder.Valid;
      hide BufferSize, Starts;
      var at := CellsAt(g, len);
      var dataUnits, parityUnits := Range(0, g.k), Range(g.k, g.k + g.p);
      ins, outs := at.Addrs(dataUnits), at.Addrs(parityUnits);
      CellsReady(g, len, dataUnits, parityUnits);
      var dataBuffers := OutputWindows(at, dataUnits);
      var parityBuffers := OutputWindows(at, parityUnits);
      StartsOn(at, dataUnits, dataBuffers);
      StartsOn(at, parityUnits, parityBuffers);
      forall i | 0 <= i < |dataBuffers| ensures fresh(dataBuffers[i]) {
        assert dataBuffers[i] in dataBuffers;
      }
      encoder.Encode(mem, dataBuffers, parityBuffers);
    }

    // writeParityCells, for a row of cells holding the row's bytes, padded with
    // zeros to len: the parity blocks grow by the row's parity.
    method WriteParityCells(len: nat, ghost row: nat)
      requires Sizes() && 0 < len <= g.cellSize
      requires Laid(g, data, streamers, RowOffset(g, row), chunksPerPacket, blockSize)
      requires forall i: nat :: i < g.k ==> CellHolds(mem[..], g, data, row, i, len)
      modifies mem, `streamers, `cellPos
      ensures Laid(g, data, streamers, RowOffset(g, row) + len, chunksPerPacket, blockSize) &&
              cellPos == Zeroes(g.k + g.p)
    {
      hide CellHolds, EncodesParity, Laid, ParityTo, RawErasureEncoder.Valid, RowUnit, BufferSize;
      ghost var was := mem[..];
      ghost var ins, outs := EncodeCells(len);
      ghost var encoded := mem[..];
      ParityStarts(g, data, streamers, row, len, chunksPerPacket, blockSize);
      for j := 0 to g.p
        invariant mem[..] == encoded
        invariant ParityTo(g, data, streamers, row, len, j, chunksPerPacket, blockSize)
      {
        ParityOfRow(g, data, row, len, mem[..], was, ins, outs, j);
        CellAddress(g, len, j, outs);
        var o := g.cellSize * (g.k + j);
        assert mem[o..o + len] == Stretch(encoded, outs[j], len);
        ParityNext(g, data, streamers, row, len, j, chunksPerPacket, blockSize);
        ghost var s := streamers;
        WriteParity(g.k + j, mem[o..o + len]);
        ParityStep(g, data, s, streamers, row, len, j, chunksPerPacket, blockSize);
      }
      ParityEnds(g, data, streamers, row, len, chunksPerPacket, blockSize);
      cellPos := Zeroes(g.k + g.p);
    }

    // CellBuffers::addTo.
    method AddTo(i: nat, chunk: Vec)
      requires Layout(g.cellSize, g.k) && mem.Length == BufferSize(g) && i < g.k && g.k <= |cellPos|
      requires cellPos[i] + |chunk| <= g.cellSize
      modifies mem, `cellPos
      ensures cellPos == old(cellPos)[i := old(cellPos)[i] + |chunk|]
      ensures g.cellSize * i + old(cellPos)[i] + |chunk| <= mem.Length
      ensures mem[..] == Splice(old(mem[..]), g.cellSize * i + old(cellPos)[i], chunk)
    {
      CellBound(g.cellSize, i, g.k);
      assert 0 <= g.cellSize * g.p;
      CopyStretch(mem, g.cellSize * i + cellPos[i], chunk, 0, |chunk|);
      assert chunk[0..|chunk|] == chunk;
      cellPos := cellPos[i := cellPos[i] + |chunk|];
    }

    // The first half of appendChunkToPacket: the chunk goes into its cell and to its
    // streamer, in a new group if the last one is full.
    method PutChunk(chunk: Vec, ghost row: nat, ghost off: nat)
      requires Sizes() && Standing() && chunk != [] && off + |chunk| <= g.cellSize && off < g.cellSize
      requires |data| == row * g.Stripe() + current * g.cellSize + off
      modifies mem, `cellPos, `streamers, `hasGroup, `numBytes, `data
      ensures Sizes() && data == old(data) + chunk && hasGroup && numBytes == |data|
      ensures Laid(g, data, streamers, RowOffset(g, row), chunksPerPacket, blockSize)
      ensures |cellPos| == g.k + g.p && forall r :: g.k <= r < g.k + g.p ==> cellPos[r] == 0
      ensures forall i: nat :: i < g.k ==>
                CellFilled(mem[..], g, data, row, i, cellPos[i],
                           CellFill(g, |old(data)|, i) + if i == current then |chunk| else 0)
    {
      hide Laid, CellFilled, CellFill, RawErasureEncoder.Valid, Rows, CellOf, Streamer.AppendChunk, Complete;
      StandsIn(row, off);
      ghost var was, filled := mem[..], cellPos;
      ChunkLaid(g, data, chunk, streamers, RowOffset(g, row), chunksPerPacket, blockSize);
      AddTo(current, chunk);
      CellsGrow(was, g, data, chunk, filled, row, current, off, g.cellSize * current + off);
      if !hasGroup || numBytes == GroupSize() {
        hasGroup := true;
        numBytes := 0;
      }
      numBytes := numBytes + |chunk|;
      streamers := streamers[current := streamers[current].AppendChunk(chunk, chunksPerPacket, blockSize)];
      data := data + chunk;
    }

    lemma StandsIn(row: nat, off: nat)
      requires Sizes() && Standing() && off < g.cellSize && |data| == row * g.Stripe() + current * g.cellSize + off
      ensures Rows(|data|, g.cellSize, g.k) == row && |data| % g.cellSize == off && cellPos[current] == off
      ensures RowOffset(g, row) <= Rows(|data|, g.cellSize, g.k) * g.cellSize
    {
      Positions(g, |data|, row, current, off);
      hide Laid, CellHolds, Rows, CellOf;
      assert CellFilled(mem[..], g, data, row, current, cellPos[current], CellFill(g, |data|, current));
    }

    // The group is full: every streamer ends its block.
    method EndGroup(ghost row: nat)
      requires Sizes() && |data| == GroupSize() && |data| == row * g.Stripe()
      requires Laid(g, data, streamers, RowOffset(g, row), chunksPerPacket, blockSize)
      modifies `streamers, `data, `finished
      ensures |streamers| == g.k + g.p && forall r :: 0 <= r < |streamers| ==> Unused(streamers[r])
      ensures data == [] && |finished| == |old(finished)| + 1 && finished[..|old(finished)|] == old(finished)
      ensures finished[|old(finished)|].data == old(data)
      ensures Complete(g, old(data), finished[|old(finished)|].units)
    {
      hide Complete, RawErasureEncoder.Valid, Laid, Streamer.Valid, BlockLength;
      GroupComplete(g, data, streamers, row, chunksPerPacket, blockSize);
      finished := finished + [GroupDone(data, StoredUnits(streamers))];
      data := [];
      CloseBlocks();
    }

    method CloseBlocks()
      requires forall r :: 0 <= r < |streamers| ==> streamers[r].bytesCurBlock == blockSize
      modifies `streamers
      ensures |streamers| == |old(streamers)| && forall r :: 0 <= r < |streamers| ==> Unused(streamers[r])
    {
      for i := 0 to |streamers|
        invariant |streamers| == |old(streamers)|
        invariant forall r :: 0 <= r < i ==> Unused(streamers[r])
        invariant forall r :: i <= r < |streamers| ==> streamers[r] == old(streamers)[r]
      {
        if streamers[i].bytesCurBlock == blockSize {
          streamers := streamers[i := streamers[i].CloseBlock()];
        }
      }
    }

    // Everything accepted so far: the finished groups and the current one.
    ghost function Accepted(): Vec
      reads `finished, `data
    {
      FlattenDone(finished) + data
    }

    // appendChunkToPacket.
    method AppendChunkToPacket(chunk: Vec)
      requires Sizes() && Standing() && 0 < |chunk| <= chunkSize && |data| % chunkSize == 0
      modifies mem, `cellPos, `streamers, `current, `hasGroup, `numBytes, `data, `finished
      ensures Sizes() && Standing() && Accepted() == old(Accepted()) + chunk
      ensures |chunk| == chunkSize ==> |data| % chunkSize == 0
    {
      hide Laid, Cells, CellFilled, Complete, RawErasureEncoder.Valid, Rows, CellOf, BlockLength, FlattenDone;
      ghost var row, c, off := Position(g, |data|);
      ChunkInCell(|data|, g.cellSize, chunkSize);
      GroupBound(g, blockSize, |data|, row, c, off, |chunk|);
      NextPosition(g, |data|, row, c, off, |chunk|);
      PutChunk(chunk, row, off);
      FilledTo(mem[..], g, old(data), data, cellPos, row, c, off, |chunk|);
      Regrouped(FlattenDone(finished), old(data), chunk);
      MultipleNext(|old(data)|, chunkSize);
      if cellPos[current] == g.cellSize {
        var next := current + 1;
        if next == g.k {
          WriteParityCells(g.cellSize, row);
          next := 0;
          NextRow(g, row);
          ClearedCells(mem[..], g, data, cellPos);
          if numBytes == GroupSize() {
            ghost var was, done := finished, data;
            RowsFill(g, blockSize, row, c, off, |chunk|);
            EndGroup(row + 1);
            NothingLaid(g, streamers, chunksPerPacket, blockSize);
            NothingInCells(mem[..], g, cellPos);
            FlattenDoneNext(was, finished, done);
          }
        }
        current := next;
      }
    }

    // ----- append and close

    ghost predicate Valid()
      reads this, mem, encoder
    {
      && Sizes() && Standing() && |data| % chunkSize == 0 && |buffer| == chunkSize && position < chunkSize
    }

    // Every byte handed to the stream.
    ghost function File(): Vec
      requires position <= |buffer|
      reads this
    {
      Accepted() + buffer[..position]
    }

    // appendInternal.
    method Append(buf: Vec)
      requires Valid()
      modifies this, mem
      ensures Valid() && File() == old(File()) + buf
    {
      hide Standing, Sizes, Accepted;
      var todo := |buf|;
      assert buf[..0] == [] && old(File()) + [] == old(File());
      while todo > 0
        invariant 0 <= todo <= |buf| && Valid()
        invariant File() == old(File()) + buf[..|buf| - todo]
      {
        var batch := |buffer| - position;
        batch := if batch < todo then batch else todo;
        var done := |buf| - todo;
        TakeBatch(buf[done..done + batch], position == 0 && todo >= |buffer|);
        assert buf[..done] + buf[done..done + batch] == buf[..done + batch];
        todo := todo - batch;
      }
      assert buf[..|buf|] == buf;
    }

    method TakeBatch(batch: Vec, bypass: bool)
      requires Valid() && 0 < |batch| <= chunkSize - position && (bypass ==> position == 0 && |batch| == chunkSize)
      modifies this, mem
      ensures Valid() && File() == old(File()) + batch
    {
      hide Standing, Sizes, Accepted;
      ChunkPositive();
      if bypass {
        AppendChunkToPacket(batch);
        assert File() == Accepted() + [];
      } else {
        ghost var b, p := buffer, position;
        buffer := Splice(buffer, position, batch);
        BufferGrows(b, p, batch);
        Regrouped(Accepted(), b[..p], batch);
        position := position + |batch|;
        if position == |buffer| {
          assert buffer[..position] == buffer;
          AppendChunkToPacket(buffer);
          position := 0;
          assert File() == Accepted() + [];
        }
      }
    }

    // Zeros behind what a cell holds, up to len.
    method PadCell(i: nat, len: nat)
      requires mem.Length == BufferSize(g) && i < g.k + g.p && len <= g.cellSize && |cellPos| == g.k + g.p &&
               cellPos[i] <= len
      modifies mem
      ensures g.cellSize * i + len <= mem.Length
      ensures forall q :: 0 <= q < mem.Length ==>
                mem[q] == if g.cellSize * i + cellPos[i] <= q < g.cellSize * i + len then 0 else old(mem[q])
    {
      CellBound(g.cellSize, i, g.k + g.p);
      assert g.cellSize * (g.k + g.p) == BufferSize(g);
      var o := g.cellSize * i;
      for t := cellPos[i] to len
        invariant forall q :: 0 <= q < mem.Length ==>
                    mem[q] == if o + cellPos[i] <= q < o + t then 0 else old(mem[q])
      {
        mem[o + t] := 0;
      }
    }

    // generateParityCellsForLastStripe: pad every cell to the length of the first.
    method PadCells(len: nat, ghost row: nat)
      requires Sizes() && Standing() && row == Rows(|data|, g.cellSize, g.k)
      requires 0 < len == Last(g, |data|)
      modifies mem
      ensures forall i: nat :: i < g.k ==> CellHolds(mem[..], g, data, row, i, len)
    {
      hide Standing, CellHolds, FillIs, Last;
      CellsInRow(row, len);
      PadAll(len, row);
    }

    // Its loop.
    method PadAll(len: nat, ghost row: nat)
      requires Sizes() && |cellPos| == g.k + g.p && len <= g.cellSize && forall r :: g.k <= r < g.k + g.p ==>
               cellPos[r] == 0
      requires forall j: nat :: j < g.k ==> FillIs(row, len, j) && CellHolds(mem[..], g, data, row, j, cellPos[j])
      modifies mem
      ensures forall i: nat :: i < g.k ==> CellHolds(mem[..], g, data, row, i, len)
    {
      hide RawErasureEncoder.Valid, CellHolds, CellFill, BlockLength, RowOffset;
      for i := 0 to g.k + g.p
        invariant forall j: nat :: j < g.k && j < i ==> CellHolds(mem[..], g, data, row, j, len)
        invariant forall j: nat :: i <= j < g.k ==> CellHolds(mem[..], g, data, row, j, cellPos[j])
      {
        ghost var was := mem[..];
        // assert(position <= parityCellSize)
        assert cellPos[i] <= len by { if i < g.k { assert FillIs(row, len, i); } }
        PadCell(i, len);
        forall j: nat | j < g.k
          ensures j < i + 1 ==> CellHolds(mem[..], g, data, row, j, len)
          ensures i + 1 <= j ==> CellHolds(mem[..], g, data, row, j, cellPos[j])
        {
          assert FillIs(row, len, j);
          PadStep(was, mem[..], row, i, len, j);
        }
      }
    }

    lemma CellsInRow(row: nat, len: nat)
      requires Sizes() && Standing() && row == Rows(|data|, g.cellSize, g.k) && len == Last(g, |data|)
      ensures |cellPos| == g.k + g.p && len <= g.cellSize && forall r :: g.k <= r < g.k + g.p ==> cellPos[r] == 0
      ensures forall j: nat :: j < g.k ==> FillIs(row, len, j) && CellHolds(mem[..], g, data, row, j, cellPos[j])
    {
      hide Laid, CellHolds, CellFill, Rows, Last, CellOf;
      var row', c, off := Position(g, |data|);
      forall j: nat | j < g.k
        ensures FillIs(row, len, j) && CellHolds(mem[..], g, data, row, j, cellPos[j])
      {
        assert CellFilled(mem[..], g, data, row, j, cellPos[j], CellFill(g, |data|, j));
        FillWithin(g, |data|, row, c, off, j);
        LenIs(g, |data|, row, c, off, j);
      }
      LastWithin(g, |data|);
    }

    ghost predicate FillIs(row: nat, len: nat, j: nat)
      requires Layout(g.cellSize, g.k) && j < |cellPos|
      reads `cellPos, `data
    {
      && cellPos[j] == CellFill(g, |data|, j) <= len
      && Len(g, |data|, j) == RowOffset(g, row) + CellFill(g, |data|, j)
    }

    lemma PadStep(was: Vec, now: Vec, row: nat, i: nat, len: nat, j: nat)
      requires Layout(g.cellSize, g.k) && |was| == |now| && |cellPos| == g.k + g.p && i < g.k + g.p && j < g.k
      requires cellPos[i] <= len <= g.cellSize && cellPos[j] <= g.cellSize && cellPos[j] == CellFill(g, |data|, j)
      requires Len(g, |data|, j) == RowOffset(g, row) + CellFill(g, |data|, j) && g.cellSize * i + len <= |was|
      requires forall q :: 0 <= q < |was| ==>
                 now[q] == if g.cellSize * i + cellPos[i] <= q < g.cellSize * i + len then 0 else was[q]
      requires CellHolds(was, g, data, row, j, if j < i then len else cellPos[j])
      ensures CellHolds(now, g, data, row, j, if j < i + 1 then len else cellPos[j])
    {
      hide CellHolds, RowByte, CellFill, RowOffset, BlockLength;
      if i == j {
        forall t: nat | cellPos[i] <= t < len ensures RowByte(g, data, row, i, t) == 0 {
          BeyondFill(g, data, row, i, t);
        }
      }
      PaddedHolds(was, now, g, data, row, i, len, cellPos[i], j, if j < i then len else cellPos[j]);
    }

    // close: the partial chunk, the parity of a partial last stripe, and all packets
    // go out. Every unit of the last group is then stored in full.
    method Close()
      requires Valid()
      modifies this, mem
      ensures Sizes() && Accepted() == old(File())
      ensures Complete(g, data, StoredUnits(streamers)) && |data| <= GroupSize()
      ensures forall f :: 0 <= f < |finished| ==>
              |finished[f].data| == GroupSize() && Complete(g, finished[f].data, finished[f].units)
    {
      hide Laid, Cells, Complete, RawErasureEncoder.Valid, Rows, CellOf, FlattenDone, Last, CellHolds;
      if position != 0 {
        AppendChunkToPacket(buffer[..position]);
        position := 0;
      } else {
        assert File() == Accepted() + [];
      }
      ghost var row := Rows(|data|, g.cellSize, g.k);
      var lastStripeSize := (if hasGroup then numBytes else 0) % g.Stripe();
      GroupRest();
      ParityLength(g, |data|);
      if lastStripeSize != 0 {
        var parityCellSize := if lastStripeSize < g.cellSize then lastStripeSize else g.cellSize;
        PadCells(parityCellSize, row);
        WriteParityCells(parityCellSize, row);
      }
      LaidComplete(g, data, streamers, RowOffset(g, row) + Last(g, |data|), chunksPerPacket, blockSize);
      ghost var was := streamers;
      EnqueueAll();
      StoredComplete(g, data, was, streamers);
    }

    // What is left of the group beyond whole stripes; a group that has ended counts
    // as having nothing left.
    lemma GroupRest()
      requires Sizes() && Standing()
      ensures (if hasGroup then numBytes else 0) % g.Stripe() == |data| % g.Stripe()
    {
      hide Laid, Cells, Complete, RawErasureEncoder.Valid, Rows, CellOf;
      if hasGroup && numBytes == GroupSize() {
        RowsOfBlock(blockSize, blockSize / g.cellSize, g.cellSize, g.k);
        DivModUnique(numBytes, g.Stripe(), blockSize / g.cellSize, 0);
      }
    }

    // enqueueAllCurrentPackets.
    method EnqueueAll()
      requires 1 <= chunksPerPacket && forall r :: 0 <= r < |streamers| ==>
               streamers[r].Valid(chunksPerPacket, blockSize)
      modifies `streamers
      ensures |streamers| == |old(streamers)|
      ensures forall r :: 0 <= r < |streamers| ==>
              streamers[r].packet.Empty? && streamers[r].Stored() == old(streamers)[r].Content()
    {
      hide Streamer.Valid, Streamer.Content, Streamer.Stored, Streamer.SendPacket;
      for i := 0 to |streamers|
        invariant |streamers| == |old(streamers)|
        invariant forall r :: 0 <= r < i ==>
                  streamers[r].packet.Empty? && streamers[r].Stored() == old(streamers)[r].Content()
        invariant forall r :: i <= r < |streamers| ==> streamers[r] == old(streamers)[r]
      {
        if streamers[i].packet.Filling? {
          PacketSent(streamers[i], chunksPerPacket, blockSize);
          SentIsEmpty(streamers[i]);
          streamers := streamers[i := streamers[i].SendPacket()];
        } else {
          NothingPending(streamers[i]);
        }
      }
    }

    lemma ChunkPositive()
      requires Sizes()
      ensures 0 < chunkSize
    {}
  }

  lemma SentIsEmpty(s: Streamer)
    requires s.packet.Filling?
    ensures s.SendPacket().packet.Empty?
  {}

  lemma NothingPending(s: Streamer)
    requires s.packet.Empty?
    ensures s.Stored() == s.Content()
  {}

  // How long a parity block is.
  lemma ParityLength(g: Group, n: nat)
    requires Layout(g.cellSize, g.k)
    ensures n % g.Stripe() == 0 <==> Last(g, n) == 0
    ensures n % g.Stripe() != 0 ==> Last(g, n) == if n % g.Stripe() < g.cellSize then n % g.Stripe() else g.cellSize
    ensures forall r: nat :: g.k <= r ==> Len(g, n, r) == RowOffset(g, Rows(n, g.cellSize, g.k)) + Last(g, n)
  {}

  // Streamers laid out to the parity length hold every unit in full.
  ghost predicate ContentsComplete(g: Group, data: Vec, streamers: seq<Streamer>)
    requires Layout(g.cellSize, g.k) && g.k + g.p < FIELD_SIZE
  {
    |streamers| == g.k + g.p && forall r :: 0 <= r < |streamers| ==> UnitComplete(g, data, streamers[r].Content(), r)
  }

  lemma LaidComplete(g: Group, data: Vec, streamers: seq<Streamer>, parityLen: nat, chunksPerPacket: nat,
                     blockSize: nat)
    requires Layout(g.cellSize, g.k) && g.k + g.p < FIELD_SIZE
    requires Laid(g, data, streamers, parityLen, chunksPerPacket, blockSize)
    requires forall r: nat :: g.k <= r ==> Len(g, |data|, r) == parityLen
    ensures ContentsComplete(g, data, streamers)
    ensures forall r :: 0 <= r < |streamers| ==> streamers[r].Valid(chunksPerPacket, blockSize)
  {
    hide UnitContent, BlockLength, Streamer.Content, Streamer.Valid;
    forall r | 0 <= r < |streamers| ensures UnitComplete(g, data, streamers[r].Content(), r) {
      if r < g.k { assert DataLaid(g, data, streamers[r], r); } else
          { assert ParityLaid(g, data, streamers[r], r, parityLen); }
    }
  }

  lemma StoredComplete(g: Group, data: Vec, was: seq<Streamer>, now: seq<Streamer>)
    requires Layout(g.cellSize, g.k) && g.k + g.p < FIELD_SIZE && ContentsComplete(g, data, was) && |now| == |was|
    requires forall r :: 0 <= r < |now| ==> now[r].Stored() == was[r].Content()
    ensures Complete(g, data, StoredUnits(now))
  {
    hide UnitComplete, Streamer.Content, Streamer.Stored;
    forall r | 0 <= r < |now| ensures UnitComplete(g, data, StoredUnits(now)[r], r) {
      assert UnitComplete(g, data, was[r].Content(), r);
    }
  }

  // How long the cells of the last row are made: as the longest, the first.
  function Last(g: Group, n: nat): nat
    requires 0 < g.Stripe()
  {
    var lastStripeSize := n % g.Stripe();
    if lastStripeSize < g.cellSize then lastStripeSize else g.cellSize
  }

  lemma FillWithin(g: Group, n: nat, row: nat, c: nat, off: nat, i: nat)
    requires Layout(g.cellSize, g.k) && c < g.k && off < g.cellSize && n == row * g.Stripe() + c * g.cellSize + off
    requires CellOf(n, g.cellSize, g.k) == c && n % g.cellSize == off
    ensures CellFill(g, n, i) <= Last(g, n)
  {
    CellsFit(c, off, g.cellSize, g.k);
    DivModUnique(n, g.Stripe(), row, c * g.cellSize + off);
    if c > 0 { MulAtLeast(c, g.cellSize); }
  }

  lemma LastWithin(g: Group, n: nat)
    requires 0 < g.Stripe()
    ensures Last(g, n) <= g.cellSize
  {}

  lemma LenIs(g: Group, n: nat, row: nat, c: nat, off: nat, i: nat)
    requires Layout(g.cellSize, g.k) && c < g.k && off < g.cellSize && n == row * g.Stripe() + c * g.cellSize + off
    requires i < g.k
    ensures Len(g, n, i) == RowOffset(g, row) + CellFill(g, n, i)
  {
    Compose(row, c, off, g.cellSize, g.k);
    var row', c', off' := Position(g, n);
    hide BlockLength, CellOf, Rows;
  }

  // Past what the row has, the group has nothing: the byte counts as zero.
  lemma BeyondFill(g: Group, data: Vec, row: nat, i: nat, t: nat)
    requires Layout(g.cellSize, g.k) && i < g.k && Len(g, |data|, i) == RowOffset(g, row) + CellFill(g, |data|, i)
    requires CellFill(g, |data|, i) <= t
    ensures RowByte(g, data, row, i, t) == 0
  {
    hide BlockLength, OffsetInGroup, CellFill, RowOffset;
    LengthMeansInGroup(|data|, RowOffset(g, row) + t, i, g.cellSize, g.k);
  }

  lemma PaddedHolds(was: Vec, now: Vec, g: Group, data: Vec, row: nat, i: nat, len: nat, fill: nat, j: nat, holds: nat)
    requires 0 < g.cellSize && |was| == |now| && i < g.k + g.p && j < g.k && fill <= len <= g.cellSize &&
             holds <= g.cellSize
    requires forall q :: 0 <= q < |was| ==>
               now[q] == if g.cellSize * i + fill <= q < g.cellSize * i + len then 0 else was[q]
    requires CellHolds(was, g, data, row, j, holds) && (i == j ==> holds == fill)
    requires i == j ==> forall t: nat :: fill <= t < len ==> RowByte(g, data, row, i, t) == 0
    requires g.cellSize * i + len <= |was|
    ensures CellHolds(now, g, data, row, j, if i == j then len else holds)
  {
    hide RowByte;
    CellsOrdered(g.cellSize, i, j);
    forall t: nat | t < (if i == j then len else holds) ensures CellByte(now, g, data, row, j, t) {
      if t < holds { assert CellByte(was, g, data, row, j, t); }
    }
  }

  lemma BufferGrows(b: Vec, p: nat, batch: Vec)
    requires p + |batch| <= |b|
    ensures Splice(b, p, batch)[..p + |batch|] == b[..p] + batch
  {}

  function FlattenDone(groups: seq<GroupDone>): Vec {
    if groups == [] then [] else FlattenDone(groups[..|groups| - 1]) + groups[|groups| - 1].data
  }

  lemma FlattenDoneNext(was: seq<GroupDone>, now: seq<GroupDone>, data: Vec)
    requires |now| == |was| + 1 && now[..|was|] == was && now[|was|].data == data
    ensures FlattenDone(now) + [] == FlattenDone(was) + data
  {}

  // A chunk that starts at a multiple of the chunk size stays within its cell.
  lemma ChunkInCell(n: nat, cellSize: nat, chunkSize: nat)
    requires 0 < chunkSize && 0 < cellSize && cellSize % chunkSize == 0 && n % chunkSize == 0
    ensures n % cellSize + chunkSize <= cellSize
  {
    var m, q, r := cellSize / chunkSize, n / cellSize, n % cellSize;
    var a, b := n / chunkSize, r / chunkSize;
    assert q * cellSize == (q * m) * chunkSize;
    assert r == (a - q * m) * chunkSize;
    MixedRadix(a - q * m, 0, m, 0, chunkSize);
    if a - q * m < m {
      MulAtLeast(m - (a - q * m), chunkSize);
      assert (m - (a - q * m)) * chunkSize == m * chunkSize - (a - q * m) * chunkSize;
    }
  }

  lemma MultipleNext(n: nat, chunkSize: nat)
    requires 0 < chunkSize && n % chunkSize == 0
    ensures (n + chunkSize) % chunkSize == 0
  {
    assert n / chunkSize * chunkSize + chunkSize == (n / chunkSize + 1) * chunkSize;
    DivModUnique(n + chunkSize, chunkSize, n / chunkSize + 1, 0);
  }

  // Bytes added to a cell do not pass the end of the group, and reach it only with
  // the last cell of a row.
  lemma GroupBound(g: Group, blockSize: nat, n: nat, row: nat, c: nat, off: nat, z: nat)
    requires Layout(g.cellSize, g.k) && c < g.k && off < g.cellSize && n == row * g.Stripe() + c * g.cellSize + off
    requires blockSize % g.cellSize == 0 && n < blockSize * g.k && off + z <= g.cellSize
    ensures n + z <= blockSize * g.k
    ensures n + z == blockSize * g.k ==> off + z == g.cellSize && c == g.k - 1
  {
    var m := blockSize / g.cellSize;
    RowsOfBlock(blockSize, m, g.cellSize, g.k);
    CellsFit(c, off, g.cellSize, g.k);
    MixedRadix(row, c * g.cellSize + off, m, 0, g.Stripe());
    RowWithin(row, m, g.Stripe());
    CellsLeft(c, g.cellSize, g.k);
  }

  lemma RowsOfBlock(blockSize: nat, m: nat, cellSize: nat, k: nat)
    requires blockSize == m * cellSize
    ensures blockSize * k == m * (cellSize * k)
  {}

  lemma RowWithin(row: nat, m: nat, stripe: nat)
    requires row < m
    ensures row * stripe + stripe <= m * stripe
  {
    MulAtLeast(m - row, stripe);
    assert (m - row) * stripe == m * stripe - row * stripe;
  }

  lemma CellsLeft(c: nat, cellSize: nat, k: nat)
    requires c < k
    ensures c * cellSize + cellSize <= cellSize * k
    ensures c < k - 1 ==> c * cellSize + 2 * cellSize <= cellSize * k
  {
    MulAtLeast(k - c, cellSize);
    assert (k - c) * cellSize == cellSize * k - c * cellSize;
    if c < k - 1 {
      MulAtLeast(k - c - 1, cellSize);
      assert (k - c - 1) * cellSize == cellSize * k - c * cellSize - cellSize;
    }
  }

  lemma NextRow(g: Group, row: nat)
    ensures RowOffset(g, row + 1) == RowOffset(g, row) + g.cellSize
  {}

  lemma RowsFill(g: Group, blockSize: nat, row: nat, c: nat, off: nat, z: nat)
    requires c == g.k - 1 && off + z == g.cellSize
    ensures row * g.Stripe() + c * g.cellSize + off + z == (row + 1) * g.Stripe()
  {
    LastCell(row, g.cellSize, g.k);
  }

  // After the chunk the cells are those of the new position, or, when the chunk
  // ended the row, hold the whole row.
  lemma FilledTo(m: Vec, g: Group, was: Vec, data: Vec, cellPos: seq<nat>, row: nat, c: nat, off: nat, z: nat)
    requires Layout(g.cellSize, g.k) && c < g.k && off < g.cellSize && |was| == row * g.Stripe() + c * g.cellSize + off
    requires 0 < z && off + z <= g.cellSize && |data| == |was| + z && |m| == BufferSize(g)
    requires |cellPos| == g.k + g.p && forall r :: g.k <= r < g.k + g.p ==> cellPos[r] == 0
    requires forall i: nat :: i < g.k ==>
               CellFilled(m, g, data, row, i, cellPos[i], CellFill(g, |was|, i) + if i == c then z else 0)
    ensures cellPos[c] == off + z
    ensures !(off + z == g.cellSize && c == g.k - 1) ==> Cells(m, g, data, cellPos)
    ensures off + z == g.cellSize && c == g.k - 1 ==> forall i: nat :: i < g.k ==>
            CellHolds(m, g, data, row, i, g.cellSize)
  {
    Positions(g, |was|, row, c, off);
    NextPosition(g, |was|, row, c, off, z);
    hide CellHolds, CellOf, Rows;
    assert CellFilled(m, g, data, row, c, cellPos[c], CellFill(g, |was|, c) + z);
    forall i: nat | i < g.k
      ensures off + z == g.cellSize && c == g.k - 1 ==> CellHolds(m, g, data, row, i, g.cellSize)
    {
      assert CellFilled(m, g, data, row, i, cellPos[i], CellFill(g, |was|, i) + if i == c then z else 0);
    }
  }

  lemma ClearedCells(m: Vec, g: Group, data: Vec, cellPos: seq<nat>)
    requires Layout(g.cellSize, g.k) && |m| == BufferSize(g) && cellPos == Zeroes(g.k + g.p)
    requires CellOf(|data|, g.cellSize, g.k) == 0 && |data| % g.cellSize == 0
    ensures Cells(m, g, data, cellPos)
  {
    hide CellOf, Rows;
  }

  function StoredUnits(streamers: seq<Streamer>): (u: seq<Vec>)
    ensures |u| == |streamers|
  {
    seq(|streamers|, r requires 0 <= r < |streamers| => streamers[r].Stored())
  }

  // With the group full, every block is full, sent, and what it should be.
  lemma GroupComplete(g: Group, data: Vec, streamers: seq<Streamer>, row: nat, chunksPerPacket: nat, blockSize: nat)
    requires Layout(g.cellSize, g.k) && g.k + g.p < FIELD_SIZE && blockSize % g.cellSize == 0
    requires |data| == blockSize * g.k == row * g.Stripe()
    requires Laid(g, data, streamers, RowOffset(g, row), chunksPerPacket, blockSize)
    ensures |streamers| == g.k + g.p && Complete(g, data, StoredUnits(streamers))
    ensures forall r :: 0 <= r < |streamers| ==> streamers[r].bytesCurBlock == blockSize
  {
    hide UnitContent, BlockLength, Streamer.Stored;
    FullLengths(g, blockSize, row);
    forall r | 0 <= r < |streamers|
      ensures streamers[r].bytesCurBlock == blockSize && UnitComplete(g, data, StoredUnits(streamers)[r], r)
    {
      if r < g.k { assert DataLaid(g, data, streamers[r], r); } else
          { assert ParityLaid(g, data, streamers[r], r, RowOffset(g, row)); }
      assert streamers[r].Valid(chunksPerPacket, blockSize);
      assert streamers[r].Stored() + [] == streamers[r].Stored();
    }
  }

  lemma FullLengths(g: Group, blockSize: nat, row: nat)
    requires Layout(g.cellSize, g.k) && blockSize * g.k == row * g.Stripe()
    ensures RowOffset(g, row) == blockSize && forall r: nat :: Len(g, blockSize * g.k, r) == blockSize
  {
    SameRows(blockSize, row, g.cellSize, g.k);
    DivModUnique(row * g.Stripe(), g.Stripe(), row, 0);
    forall r: nat ensures Len(g, blockSize * g.k, r) == blockSize {
      NoLastCell(g.cellSize, g.k, r);
    }
  }

  lemma SameRows(blockSize: nat, row: nat, cellSize: nat, k: nat)
    requires 0 < k && blockSize * k == row * (cellSize * k)
    ensures row * cellSize == blockSize
  {
    assert row * (cellSize * k) == (row * cellSize) * k;
    SameFactor(blockSize, row * cellSize, k);
  }

  lemma SameFactor(a: int, b: int, k: nat)
    requires 0 < k && a * k == b * k
    ensures a == b
  {
    DivModUnique(a * k, k, a, 0);
    DivModUnique(b * k, k, b, 0);
  }

  // The first j parity blocks include the row, the others do not yet.
  ghost predicate ParityTo(g: Group, data: Vec, streamers: seq<Streamer>, row: nat, len: nat, j: nat,
                           chunksPerPacket: nat, blockSize: nat)
    requires Layout(g.cellSize, g.k) && g.k + g.p < FIELD_SIZE && j <= g.p
  {
    && |streamers| == g.k + g.p
    && (forall r :: 0 <= r < g.k + g.p ==> streamers[r].Valid(chunksPerPacket, blockSize))
    && (forall i :: 0 <= i < g.k ==> DataLaid(g, data, streamers[i], i))
    && (forall r :: g.k <= r < g.k + j ==> ParityLaid(g, data, streamers[r], r, RowOffset(g, row) + len))
    && (forall r :: g.k + j <= r < g.k + g.p ==> ParityLaid(g, data, streamers[r], r, RowOffset(g, row)))
  }

  lemma ParityStarts(g: Group, data: Vec, streamers: seq<Streamer>, row: nat, len: nat, chunksPerPacket: nat,
                     blockSize: nat)
    requires Layout(g.cellSize, g.k) && g.k + g.p < FIELD_SIZE
    requires Laid(g, data, streamers, RowOffset(g, row), chunksPerPacket, blockSize)
    ensures ParityTo(g, data, streamers, row, len, 0, chunksPerPacket, blockSize)
  {
    hide Streamer.Valid, DataLaid, ParityLaid;
  }

  lemma ParityNext(g: Group, data: Vec, streamers: seq<Streamer>, row: nat, len: nat, j: nat,
                   chunksPerPacket: nat, blockSize: nat)
    requires Layout(g.cellSize, g.k) && g.k + g.p < FIELD_SIZE && j < g.p
    requires ParityTo(g, data, streamers, row, len, j, chunksPerPacket, blockSize)
    ensures |streamers| == g.k + g.p && streamers[g.k + j].Valid(chunksPerPacket, blockSize)
  {
    hide Streamer.Valid, DataLaid, ParityLaid;
  }

  lemma ParityStep(g: Group, data: Vec, s: seq<Streamer>, t: seq<Streamer>, row: nat, len: nat, j: nat,
                   chunksPerPacket: nat, blockSize: nat)
    requires Layout(g.cellSize, g.k) && g.k + g.p < FIELD_SIZE && j < g.p && |t| == |s| == g.k + g.p
    requires ParityTo(g, data, s, row, len, j, chunksPerPacket, blockSize) && t == s[g.k + j := t[g.k + j]]
    requires t[g.k + j].Valid(chunksPerPacket, blockSize)
    requires t[g.k + j].Content() == s[g.k + j].Content() + RowUnit(g, data, g.k + j, row, len)
    ensures ParityTo(g, data, t, row, len, j + 1, chunksPerPacket, blockSize)
  {
    hide Streamer.Valid, Streamer.Content, DataLaid, ParityLaid, RowUnit;
    ParityGrows(g, data, s[g.k + j], t[g.k + j], g.k + j, row, len, RowUnit(g, data, g.k + j, row, len));
  }

  lemma ParityEnds(g: Group, data: Vec, streamers: seq<Streamer>, row: nat, len: nat, chunksPerPacket: nat,
                   blockSize: nat)
    requires Layout(g.cellSize, g.k) && g.k + g.p < FIELD_SIZE
    requires ParityTo(g, data, streamers, row, len, g.p, chunksPerPacket, blockSize)
    ensures Laid(g, data, streamers, RowOffset(g, row) + len, chunksPerPacket, blockSize)
  {
    hide Streamer.Valid, DataLaid, ParityLaid;
  }

  lemma CellAddress(g: Group, len: nat, j: nat, outs: seq<nat>)
    requires j < g.p && outs == CellsAt(g, len).Addrs(Range(g.k, g.k + g.p)) && len <= g.cellSize
    ensures outs[j] == g.cellSize * (g.k + j) && g.cellSize * (g.k + j) + len <= BufferSize(g)
  {
    var units := Range(g.k, g.k + g.p);
    assert outs[j] == CellsAt(g, len).Addr(units[j]);
    assert g.cellSize * (g.k + j) == g.cellSize * g.k + g.cellSize * j;
    CellBound(g.cellSize, j, g.p);
  }

  lemma ParityGrows(g: Group, data: Vec, s: Streamer, t: Streamer, r: nat, row: nat, len: nat, cell: Vec)
    requires 0 < g.cellSize && g.k <= 256 && r < 256 && ParityLaid(g, data, s, r, RowOffset(g, row))
    requires cell == RowUnit(g, data, r, row, len) && t.Content() == s.Content() + cell
    ensures ParityLaid(g, data, t, r, RowOffset(g, row) + len)
  {
    RowAppended(g, data, r, row, len);
  }

  function Zeroes(n: nat): (z: seq<nat>)
    ensures |z| == n && forall i :: 0 <= i < n ==> z[i] == 0
  {
    seq(n, _ => 0)
  }

  lemma AtStart(g: Group)
    requires Layout(g.cellSize, g.k)
    ensures Rows(0, g.cellSize, g.k) == 0 && CellOf(0, g.cellSize, g.k) == 0 && RowOffset(g, 0) == 0
    ensures forall i: nat :: i < g.k ==> Len(g, 0, i) == 0 && CellFill(g, 0, i) == 0
  {
    Compose(0, 0, 0, g.cellSize, g.k);
    var row, c, off := Position(g, 0);
  }

  lemma NothingLaid(g: Group, streamers: seq<Streamer>, chunksPerPacket: nat, blockSize: nat)
    requires Layout(g.cellSize, g.k) && g.k + g.p < FIELD_SIZE && |streamers| == g.k + g.p
    requires forall r :: 0 <= r < |streamers| ==> Unused(streamers[r])
    ensures Rows(0, g.cellSize, g.k) == 0 && CellOf(0, g.cellSize, g.k) == 0
    ensures Laid(g, [], streamers, RowOffset(g, Rows(0, g.cellSize, g.k)), chunksPerPacket, blockSize)
  {
    hide BlockLength, Rows, Streamer.Content, Streamer.Valid;
    AtStart(g);
    forall r | 0 <= r < g.k + g.p
      ensures streamers[r].Valid(chunksPerPacket, blockSize) && streamers[r].Content() == []
    {
      FreshValid(streamers[r], chunksPerPacket, blockSize);
    }
  }

  ghost predicate Unused(s: Streamer) {
    s.log == [] && s.packet.Empty? && s.bytesSent == s.bytesCurBlock == 0 && s.nextSeqNo == s.first
  }

  lemma NothingInCells(m: Vec, g: Group, cellPos: seq<nat>)
    requires Layout(g.cellSize, g.k) && |m| == BufferSize(g) && |cellPos| == g.k + g.p
    requires forall i :: 0 <= i < |cellPos| ==> cellPos[i] == 0
    ensures Cells(m, g, [], cellPos)
  {
    hide Rows, CellOf;
    AtStart(g);
  }

  lemma Appended(before: Vec, cell: Vec, i: nat, n: nat)
    requires i + n <= |cell|
    ensures before + cell[..i] + cell[i..i + n] == before + cell[..i + n]
  {
    assert cell[..i] + cell[i..i + n] == cell[..i + n];
  }

  lemma CellsReady(g: Group, len: nat, dataUnits: seq<nat>, parityUnits: seq<nat>)
    requires 0 < g.k && g.k + g.p < FIELD_SIZE && 0 < len <= g.cellSize
    requires dataUnits == Range(0, g.k) && parityUnits == Range(g.k, g.k + g.p)
    ensures var at := CellsAt(g, len);
            && InMemory(at.Addrs(dataUnits), len, BufferSize(g)) && InMemory(at.Addrs(parityUnits), len, BufferSize(g))
            && AllApart(at.Addrs(dataUnits), at.Addrs(parityUnits), len)
  {
    hide AllApart, InMemory;
    CellsAt(g, len).AddrsApart(dataUnits, parityUnits, BufferSize(g));
  }

  lemma StartsOn(at: Placement, units: seq<nat>, windows: seq<ByteBuffer>)
    requires OutWindows(at, units, windows)
    ensures |windows| == |units| && Starts(windows) == at.Addrs(units)
    ensures units != [] ==> windows[0].Remaining() == at.span
  {
    if units != [] { assert On(windows[0], at.Addr(units[0]), at.span); }
    hide Placement.Addr;
    forall l | 0 <= l < |units| ensures Starts(windows)[l] == at.Addrs(units)[l] {
      assert On(windows[l], at.Addr(units[l]), at.span);
    }
  }
}
