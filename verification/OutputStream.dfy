// OutputStreamImpl: bytes are gathered into checksummed chunks, chunks into
// packets, packets into blocks; a flush sends a partial chunk and keeps it.

module OutputStreams {
  import opened Bytes
  import opened Geometry
  import opened PacketHeaders
  import opened Packets
  import opened WriteLog
  import opened Pipelines
  import opened Blocks
  import opened BlockWriters

  // ----- packets under construction

  // The packet holds n chunks with these data and checksums, and was laid out for
  // max chunks of the given size.
  ghost predicate Holds(p: Packet, data: Vec, sums: Vec, n: nat, chunkSize: nat, max: nat)
    reads p
  {
    && p.Valid() && p.headerStart == 0 && p.numChunks == n && p.maxChunks == max && !p.lastPacketInBlock
    && p.dataStart == HEADER_SIZE + 4 * max && p.dataStart + max * chunkSize <= |p.buffer|
    && p.checksumPos == HEADER_SIZE + 4 * n && p.Data() == data && p.Sums() == sums
  }

  lemma HoldsCount(p: Packet, data: Vec, sums: Vec, n: nat, chunkSize: nat, max: nat)
    requires Holds(p, data, sums, n, chunkSize, max)
    ensures p.numChunks == n && p.maxChunks == max
    ensures Carries(p, Sent(p.offsetInBlock, p.seqno, data, sums, chunkSize, false))
  {}

  lemma ChunkFits(n: nat, max: nat, chunkSize: nat)
    requires n < max
    ensures n * chunkSize + chunkSize <= max * chunkSize
  {
    MulAtLeast(max - n, chunkSize);
    assert (max - n) * chunkSize == max * chunkSize - n * chunkSize;
  }

  // An empty packet of the computed size, new or recycled, has room for all chunks.
  lemma EmptyHolds(p: Packet, packetSize: nat, chunksPerPacket: nat, chunkSize: nat)
    requires packetSize == chunksPerPacket * (chunkSize + 4) + HEADER_SIZE && p.Empty(packetSize, chunksPerPacket)
    ensures Holds(p, [], [], 0, chunkSize, chunksPerPacket)
  {
    PacketRoom(chunksPerPacket, chunkSize);
  }

  // The three calls at the end of appendChunkToPacket. Neither exception of
  // Packet can occur.
  method AddChunk(p: Packet, chunk: Vec, checksum: Sum, ghost data: Vec, ghost sums: Vec, ghost n: nat,
                  ghost chunkSize: nat, ghost max: nat)
    requires Holds(p, data, sums, n, chunkSize, max) && n < max && |data| == n * chunkSize && |chunk| <= chunkSize
    modifies p
    ensures Holds(p, data + chunk, sums + checksum.Bytes(), n + 1, chunkSize, max)
    ensures p.offsetInBlock == old(p.offsetInBlock) && p.seqno == old(p.seqno)
  {
    ChunkFits(n, max, chunkSize);
    var summed := p.AddChecksum(checksum);
    assert summed;
    var added := p.AddData(chunk);
    assert added;
    p.numChunks := p.numChunks + 1;
  }

  class OutputStream {
    const blockSize: nat
    const unit: nat                    // the configured chunk size
    const defaultPacketSize: nat
    const crc: Crc
    const writer: BlockWriter
    var chunkSize: nat
    var packetSize: nat
    var chunksPerPacket: nat
    var bytesWritten: nat
    var cursor: nat
    var lastFlushed: nat
    var nextSeqNo: nat
    var position: nat
    var buffer: Vec
    var summed: Vec                    // what the checksum has been updated with
    var currentPacket: Packet?
    var isAppend: bool
    var lastError: bool
    ghost var block: Block
    ghost var before: Vec              // the file's earlier blocks at open
    ghost var finished: seq<Block>     // blocks completed since
    ghost var closed: seq<Closing>     // and what their pipelines left behind

    ghost predicate Sizes()
      reads `chunkSize, `packetSize, `chunksPerPacket, `bytesWritten, `isAppend
    {
      && 0 < chunkSize <= unit && blockSize % unit == 0 && bytesWritten <= blockSize && 0 < blockSize
      && 1 <= chunksPerPacket && packetSize == chunksPerPacket * (chunkSize + 4) + HEADER_SIZE
      && (!isAppend ==> chunkSize == unit) && (chunkSize < unit ==> chunksPerPacket == 1)
    }

    // The bytes of the unfinished chunk are in the buffer and in the checksum.
    ghost predicate Buffered()
      reads `chunkSize, `bytesWritten, `position, `buffer, `summed, `block
    {
      && |buffer| == chunkSize && position < chunkSize
      && bytesWritten + position == |block.content|
      && buffer[..position] == summed == block.content[bytesWritten..]
    }

    function Start(): nat
      reads `currentPacket, `bytesWritten, currentPacket
    {
      if currentPacket == null then bytesWritten else currentPacket.offsetInBlock
    }

    // The packet holds the content from Start to e in so many chunks.
    ghost predicate Holding(e: nat, n: nat)
      requires currentPacket != null
      reads `chunkSize, `chunksPerPacket, `bytesWritten, `block, `currentPacket, currentPacket
    {
      && Start() <= e <= |block.content| && 0 < chunkSize
      && Holds(currentPacket, block.content[Start()..e], SumsOf(block.content[Start()..e], chunkSize, crc),
               n, chunkSize, chunksPerPacket)
    }

    // The packet holds the whole chunks up to bytesWritten that were not sent.
    ghost predicate Packing()
      reads `chunkSize, `chunksPerPacket, `bytesWritten, `block, `currentPacket, currentPacket
    {
      currentPacket != null ==>
        && Holding(bytesWritten, currentPacket.numChunks) && currentPacket.numChunks <= chunksPerPacket
        && bytesWritten - Start() == currentPacket.numChunks * chunkSize
    }

    // Every packet handed over, in order.
    ghost function All(): seq<Sent>
      reads `finished, `block
    {
      Logs(finished) + block.log
    }

    ghost predicate Numbered()
      reads `finished, `block, `nextSeqNo, `currentPacket, currentPacket
    {
      && InOrder(All(), crc) && nextSeqNo == |All()| + (if currentPacket == null then 0 else 1)
      && (currentPacket != null ==> currentPacket.seqno + 1 == nextSeqNo)
    }

    ghost predicate AllFull()
      reads `finished
    {
      forall b :: 0 <= b < |finished| ==> Full(finished[b], blockSize)
    }

    // Only the first packet of an append goes to a block that held something.
    ghost predicate Placed()
      reads `isAppend, `block
    {
      isAppend || block.log != [] || block.base == []
    }

    // What every step keeps.
    ghost predicate Core()
      reads `chunkSize, `packetSize, `chunksPerPacket, `bytesWritten, `nextSeqNo, `position, `buffer, `summed,
            `currentPacket, `isAppend, `block, `finished, currentPacket
    {
      && Sizes() && Buffered() && Packing() && Numbered() && block.Sound(Start())
      && AllFull() && Placed()
    }

    // Between two chunks or inside one, with nothing due to be sent.
    ghost predicate Settled()
      reads `chunkSize, `chunksPerPacket, `bytesWritten, `currentPacket, currentPacket
    {
      && 0 < unit && bytesWritten < blockSize && (bytesWritten + chunkSize) % unit == 0
      && (currentPacket != null ==> currentPacket.numChunks < chunksPerPacket)
    }

    // A chunk has just been completed and put into the packet.
    ghost predicate Completed()
      reads `position, `bytesWritten, `currentPacket, currentPacket
    {
      0 < unit && position == 0 && currentPacket != null && 0 < currentPacket.numChunks && bytesWritten % unit == 0
    }

    // The writer has the block's packets, and not the one being filled.
    ghost predicate Joined()
      reads `block, `currentPacket, writer, writer.pipeline, writer.inFlight
    {
      && writer.Valid() && writer.log == block.log && writer.base == |block.base|
      && (currentPacket != null ==> writer.Lent(currentPacket))
    }

    // Closed blocks were acknowledged.
    ghost predicate Confirmed()
      reads `finished, `closed
    {
      |closed| == |finished| && forall b :: 0 <= b < |finished| ==> Acknowledged(finished[b], closed[b])
    }

    // Everything sent for the current block is acknowledged, and recorded.
    ghost predicate Secured()
      reads `block, writer, writer.pipeline
    {
      var p := writer.pipeline;
      p != null ==>
        p.h.offered == Pkts(block.log) && p.h.acked == |p.h.offered| && p.lastBlock.numBytes == |block.content|
    }

    // The file as the caller has written it.
    ghost function File(): Vec
      reads `before, `finished, `block
    {
      before + Flatten(finished) + block.content
    }

    ghost predicate Valid()
      reads this, currentPacket, writer, writer.pipeline, writer.inFlight
    {
      !lastError ==>
        && Core() && Settled() && Joined() && Confirmed() && |File()| == cursor && lastFlushed <= cursor
        && (lastFlushed == cursor ==> currentPacket == null && block.Stored() == block.content && Secured())
    }

    // A stream on a block that holds the given content, with the chunk and packet
    // sizes the first packet is to have.
    constructor (blockSize: nat, unit: nat, defaultPacketSize: nat, crc: Crc, writer: BlockWriter,
                 isAppend: bool, chunkSize: nat, packetSize: nat, bytesWritten: nat, cursor: nat,
                 ghost before: Vec, ghost content: Vec)
      requires 0 < chunkSize <= unit && 0 < blockSize && blockSize % unit == 0
      requires bytesWritten == |content| < blockSize && (bytesWritten + chunkSize) % unit == 0
      requires cursor == |before| + |content|
      requires (!isAppend ==> chunkSize == unit && content == []) && (chunkSize < unit ==> packetSize == 0)
      requires writer.Valid() && writer.pipeline == null && writer.log == [] && writer.base == |content|
      ensures Valid() && !lastError && File() == before + content && this.before == before && finished == []
      ensures this.blockSize == blockSize && this.unit == unit && this.crc == crc && this.writer == writer
      ensures currentPacket == null && block == Block(content, content, [])
    {
      this.blockSize, this.unit, this.defaultPacketSize, this.crc, this.writer := blockSize, unit, defaultPacketSize,
          crc, writer;
      this.isAppend, this.chunkSize, this.bytesWritten, this.cursor := isAppend, chunkSize, bytesWritten, cursor;
      this.packetSize, chunksPerPacket := packetSize, 1;
      lastFlushed, nextSeqNo, position := 0, 0, 0;
      buffer, summed, currentPacket, lastError := [], [], null, false;
      this.block, this.before, finished, closed := Block(content, content, []), before, [], [];
      new;
      hide Delivered, Running, Separate, Unchanged, Configured, Core, Settled, Joined, Confirmed, Secured, File,
           BlockWriter.Valid;
      ComputePacketChunkSize();
      OneChunk(chunkSize);
      FirstState(content);
    }

    // A stream that has been opened and not been written to.
    lemma FirstState(content: Vec)
      requires Sizes() && bytesWritten == |content| && position == 0 && |buffer| == chunkSize && summed == []
      requires block == Block(content, content, []) && finished == [] && closed == [] && nextSeqNo == 0 &&
               currentPacket == null
      requires bytesWritten < blockSize && (bytesWritten + chunkSize) % unit == 0 && cursor == |before| + |content|
      requires lastFlushed == 0 && (!isAppend ==> content == [])
      requires writer.Valid() && writer.pipeline == null && writer.log == [] && writer.base == |content|
      ensures Valid() && File() == before + content
    {
      hide Delivered, BlockWriter.Valid;
      StoredAtFirst(content);
      assert before + [] + content == before + content;
    }

    // open for a new file. None stands for the InvalidParameter exceptions.
    static method OpenNew(blockSize: nat, unit: nat, packetSize: nat, crc: Crc, conf: Conf, setups: nat -> Setup)
      returns (r: Option<OutputStream>)
      requires 0 < unit && 0 < blockSize && Configured(conf, setups)
      ensures r.Some? <==> unit <= packetSize && blockSize % unit == 0
      ensures r.Some? ==> r.value.Valid() && !r.value.lastError && r.value.File() == []
      ensures r.Some? ==> fresh(r.value) && fresh(r.value.writer) && r.value.writer.packets == {}
      ensures r.Some? ==> r.value.blockSize == blockSize
    {
      hide OutputStream.Valid, OutputStream.File, BlockWriter.Valid, Configured;
      if packetSize < unit || blockSize % unit != 0 {
        return None;
      }
      NextChunk(0, unit);
      var writer := new BlockWriter(conf, setups, 0);
      var stream := new OutputStream(blockSize, unit, packetSize, crc, writer, false, unit, packetSize, 0, 0, [], []);
      return Some(stream);
    }

    // open for append to a file whose last block is not full. None stands for an
    // exception. A partial chunk at the end makes the first packet a single chunk
    // that completes it.
    static method OpenAppend(blockSize: nat, unit: nat, packetSize: nat, crc: Crc, conf: Conf, setups: nat -> Setup,
                             fileLength: nat, lastBytes: nat, ghost before: Vec, ghost content: Vec)
      returns (r: Option<OutputStream>)
      requires 0 < unit && 0 < blockSize && Configured(conf, setups)
      requires fileLength == |before| + |content| && lastBytes == |content| < blockSize && |before| % unit == 0
      ensures r.Some? <==> unit <= packetSize && blockSize % unit == 0 && fileLength % blockSize != 0
      ensures r.Some? ==> r.value.Valid() && !r.value.lastError && r.value.File() == before + content
      ensures r.Some? ==> fresh(r.value) && fresh(r.value.writer) && r.value.writer.packets == {}
      ensures r.Some? ==> r.value.blockSize == blockSize
    {
      hide OutputStream.Valid, OutputStream.File, BlockWriter.Valid, Configured, FirstChunk;
      if packetSize < unit || blockSize % unit != 0 {
        return None;
      }
      if fileLength % blockSize == 0 {
        return None;
      }
      var chunkSize, firstPacketSize := FirstSizes(fileLength, unit, blockSize, packetSize);
      AlignedIff(|before|, lastBytes, unit);
      var writer := new BlockWriter(conf, setups, |content|);
      var stream := new OutputStream(blockSize, unit, packetSize, crc, writer, true, chunkSize, firstPacketSize,
                                     lastBytes, fileLength, before, content);
      return Some(stream);
    }

    // The chunk and packet sizes an append begins with.
    static method FirstSizes(fileLength: nat, unit: nat, blockSize: nat, packetSize: nat)
      returns (chunkSize: nat, firstPacketSize: nat)
      requires 0 < unit && 0 < blockSize
      ensures chunkSize == FirstChunk(fileLength, unit) && (chunkSize < unit ==> firstPacketSize == 0)
      ensures chunkSize == unit ==> firstPacketSize == Min(packetSize, blockSize - fileLength % blockSize)
    {
      var usedInCksum := fileLength % unit;
      var freeInCksum := unit - usedInCksum;
      if usedInCksum > 0 && freeInCksum > 0 {
        chunkSize, firstPacketSize := freeInCksum, 0;
      } else {
        var freeInLastBlock := blockSize - fileLength % blockSize;
        chunkSize := unit;
        firstPacketSize := if packetSize < freeInLastBlock then packetSize else freeInLastBlock;
      }
    }

    // A packet is filled where it is, or taken from the pool, or new.
    twostate predicate Tidy()
      reads `currentPacket, writer`packets, writer`pipeline
    {
      && writer.Grown()
      && (currentPacket == old(currentPacket) ||
          (old(currentPacket) == null && currentPacket != null &&
              (currentPacket in old(writer.pool) || fresh(currentPacket))))
    }

    // getPacket, for the block at its present end.
    method GetPacket() returns (p: Packet)
      requires Sizes() && Joined() && currentPacket == null
      modifies writer`pool, writer`packets, writer.pool
      ensures Holds(p, [], [], 0, chunkSize, chunksPerPacket) && p.offsetInBlock == bytesWritten && p.seqno == nextSeqNo
      ensures Joined() && writer.Lent(p) && (p in old(writer.pool) || fresh(p)) && writer.Grown()
    {
      hide BlockWriter.Valid, Packet.Empty, Holds;
      PacketRoom(chunksPerPacket, chunkSize);
      p := writer.GetPacket(packetSize, chunksPerPacket, bytesWritten, nextSeqNo);
      EmptyHolds(p, packetSize, chunksPerPacket, chunkSize);
    }

    // appendChunkToPacket: the next bytes of the content, as one chunk.
    method AppendChunkToPacket(chunk: Vec)
      requires Sizes() && Packing() && Numbered() && Joined() && 0 < |chunk| <= chunkSize && summed == chunk
      requires currentPacket != null ==> currentPacket.numChunks < chunksPerPacket
      requires bytesWritten + |chunk| <= |block.content|
      requires block.content[bytesWritten..bytesWritten + |chunk|] == chunk
      modifies `currentPacket, `nextSeqNo, currentPacket, writer`pool, writer`packets, writer.pool
      ensures currentPacket != null && Joined() && Tidy()
      ensures Start() == old(Start()) && Numbered()
      ensures Holding(bytesWritten + |chunk|, currentPacket.numChunks) && 0 < currentPacket.numChunks <= chunksPerPacket
      ensures bytesWritten - Start() == (currentPacket.numChunks - 1) * chunkSize
    {
      hide Sizes, Packing, Holding, Numbered, Joined;
      EnsurePacket();
      PutChunk(chunk);
    }

    method PutChunk(chunk: Vec)
      requires Sizes() && Packing() && Numbered() && Joined() && 0 < |chunk| <= chunkSize && summed == chunk
      requires currentPacket != null && currentPacket.numChunks < chunksPerPacket
      requires bytesWritten + |chunk| <= |block.content|
      requires block.content[bytesWritten..bytesWritten + |chunk|] == chunk
      modifies currentPacket
      ensures Joined() && Start() == old(Start()) && Numbered()
      ensures Holding(bytesWritten + |chunk|, currentPacket.numChunks) && 0 < currentPacket.numChunks <= chunksPerPacket
      ensures bytesWritten - Start() == (currentPacket.numChunks - 1) * chunkSize
    {
      hide SumsOf, InOrder, Holds, Logs, BlockWriter.Valid, Block.Sound, Sum.Bytes;
      ghost var n := currentPacket.numChunks;
      ghost var data := block.content[Start()..bytesWritten];
      HoldsCount(currentPacket, data, SumsOf(data, chunkSize, crc), n, chunkSize, chunksPerPacket);
      AddChunk(currentPacket, chunk, crc(summed), data, SumsOf(data, chunkSize, crc), n, chunkSize, chunksPerPacket);
      HoldsCount(currentPacket, data + chunk, SumsOf(data, chunkSize, crc) + crc(summed).Bytes(), n + 1, chunkSize,
          chunksPerPacket);
      SumsSnoc(data, n, chunk, chunkSize, crc);
      ChunkNext(block.content, Start(), bytesWritten, chunk);
    }

    // A packet to put the next chunk in.
    method EnsurePacket()
      requires Sizes() && Packing() && Numbered() && Joined() && bytesWritten <= |block.content|
      requires currentPacket != null ==> currentPacket.numChunks < chunksPerPacket
      modifies `currentPacket, `nextSeqNo, writer`pool, writer`packets, writer.pool
      ensures currentPacket != null && Joined() && Tidy()
      ensures Start() == old(Start()) && Numbered() && Packing() && currentPacket.numChunks < chunksPerPacket
    {
      hide SumsOf, InOrder, Logs, BlockWriter.Valid, Holds, Block.Sound;
      if currentPacket == null {
        currentPacket := GetPacket();
        HoldsCount(currentPacket, [], [], 0, chunkSize, chunksPerPacket);
        nextSeqNo := nextSeqNo + 1;
        NoSums(chunkSize, crc);
        assert block.content[Start()..bytesWritten] == [];
      }
    }

    // sendPacket. False stands for an exception out of the pipeline.
    method SendPacket(ghost e: nat) returns (ok: bool)
      requires currentPacket != null && Holding(e, currentPacket.numChunks) && Numbered() && block.Sound(Start())
      requires Joined() && 1 <= chunksPerPacket && Placed()
      modifies `currentPacket, `block, writer, currentPacket, writer.pipeline
      ensures !ok ==> writer.Down()
      ensures ok ==> currentPacket == null && writer.pipeline != null && Numbered() && Joined() && block.log != []
      ensures block.base == old(block.base) && block.content == old(block.content) && writer.Grown()
      ensures ok ==> block.Sound(e)
      ensures ok ==> |block.Stored()| == if |old(block.Stored())| < e then e else |old(block.Stored())|
    {
      hide SumsOf, InOrder, Logs, Pkts, Holds, Carries, BlockWriter.Valid, BlockWriter.Lent, BlockWriter.Down,
           Block.Sound, Block.Stored;
      ghost var data := block.content[Start()..e];
      HoldsCount(currentPacket, data, SumsOf(data, chunkSize, crc), currentPacket.numChunks, chunkSize,
          chunksPerPacket);
      ghost var p := Sent(currentPacket.offsetInBlock, currentPacket.seqno, data, SumsOf(data, chunkSize, crc),
                chunkSize, false);
      if block.log == [] { NothingSent(block, Start()); }
      SendKeeps(block, Start(), e, p);
      OrderNext(Logs(finished), block.log, p, crc);
      ok := writer.Send(currentPacket, isAppend, p);
      if ok {
        block := block.(log := block.log + [p]);
        currentPacket := null;
      }
    }

    // The chunk is complete: it counts as written and the checksum starts over.
    method FinishChunk(chunk: Vec)
      requires Sizes() && Packing() && Numbered() && Settled() && Joined() && block.Sound(Start()) && Placed()
      requires |chunk| == chunkSize == |buffer| && summed == chunk
      requires bytesWritten + chunkSize == |block.content| && block.content[bytesWritten..] == chunk
      requires AllFull()
      modifies `currentPacket, `nextSeqNo, `bytesWritten, `summed, `position, currentPacket, writer`pool,
               writer`packets, writer.pool
      ensures Core() && Completed() && Joined() && Tidy()
    {
      hide Sizes, Numbered, Holding, Packing, Settled, Completed, Core, Block.Sound, AllFull, Joined, Tidy;
      ThereIsRoom();
      AppendChunkToPacket(chunk);
      CountChunk();
    }

    lemma ThereIsRoom()
      requires Sizes() && Settled()
      ensures 0 < chunkSize && (currentPacket != null ==> currentPacket.numChunks < chunksPerPacket)
      ensures 0 < unit && (bytesWritten + chunkSize) % unit == 0 && bytesWritten < blockSize
    {}

    method CountChunk()
      requires Sizes() && Numbered() && 0 < unit && (bytesWritten + chunkSize) % unit == 0 && bytesWritten < blockSize
      requires currentPacket != null && block.Sound(Start()) && AllFull() && Placed()
      requires |buffer| == chunkSize && bytesWritten + chunkSize == |block.content|
      requires Holding(|block.content|, currentPacket.numChunks) && 0 < currentPacket.numChunks <= chunksPerPacket
      requires bytesWritten - Start() == (currentPacket.numChunks - 1) * chunkSize
      modifies `bytesWritten, `summed, `position
      ensures Core() && Completed()
    {
      hide SumsOf, Numbered, Block.Sound, AllFull, Holds;
      ChunkWithinBlock(bytesWritten, chunkSize, unit, blockSize);
      OneMore(currentPacket.numChunks, chunkSize);
      bytesWritten := bytesWritten + chunkSize;
      summed := [];
      position := 0;
    }

    // One turn of appendInternal's loop up to the decision to send: a batch goes
    // straight into a packet or into the chunk buffer.
    method TakeBatch(batch: Vec, bypass: bool)
      requires Core() && Settled() && Joined() && 0 < |batch| <= chunkSize - position
      requires bypass ==> position == 0 && |batch| == chunkSize
      modifies `currentPacket, `nextSeqNo, `bytesWritten, `summed, `position, `buffer, `block, currentPacket,
               writer`pool, writer`packets, writer.pool
      ensures Core() && (Settled() || Completed()) && Joined() && Tidy()
      ensures block == old(block).(content := old(block.content) + batch)
    {
      hide SumsOf, InOrder, Block.Sound, AllFull, Holds, Logs, BlockWriter.Valid;
      ContentGrows(block, Start(), batch);
      GrowKeepsPacking(batch);
      summed := summed + batch;
      block := block.(content := block.content + batch);
      if bypass {
        FinishChunk(batch);
      } else {
        BufferBatch(batch);
      }
    }

    method BufferBatch(batch: Vec)
      requires Sizes() && Packing() && Numbered() && Settled() && Joined() && block.Sound(Start()) && Placed()
      requires |buffer| == chunkSize && 0 < |batch| <= chunkSize - position && buffer[..position] + batch == summed
      requires bytesWritten + position + |batch| == |block.content| && block.content[bytesWritten..] == summed
      requires AllFull()
      modifies `currentPacket, `nextSeqNo, `bytesWritten, `summed, `position, `buffer, currentPacket,
               writer`pool, writer`packets, writer.pool
      ensures Core() && (Settled() || Completed()) && Joined() && Tidy()
    {
      hide SumsOf, InOrder, Block.Sound, AllFull, Holds, Logs, BlockWriter.Valid, Splice;
      SpliceExtends(buffer, position, batch, 0);
      buffer := Splice(buffer, position, batch);
      position := position + |batch|;
      if position == |buffer| {
        FinishChunk(buffer);
      }
    }

    lemma GrowKeepsPacking(batch: Vec)
      requires Core()
      ensures currentPacket != null ==>
                (block.content + batch)[Start()..bytesWritten] == block.content[Start()..bytesWritten]
      ensures (block.content + batch)[bytesWritten..] == block.content[bytesWritten..] + batch
    {}

    // computePacketChunkSize, after the chunk and packet sizes wanted were set.
    method ComputePacketChunkSize()
      requires 0 < chunkSize
      modifies `chunksPerPacket, `packetSize, `buffer
      ensures chunksPerPacket == ChunksPerPacket(old(packetSize), chunkSize)
      ensures packetSize == chunksPerPacket * (chunkSize + 4) + HEADER_SIZE && |buffer| == chunkSize
    {
      chunksPerPacket := ChunksPerPacket(packetSize, chunkSize);
      packetSize := chunksPerPacket * (chunkSize + 4) + HEADER_SIZE;
      buffer := if |buffer| >= chunkSize then buffer[..chunkSize] else buffer + Zeros(chunkSize - |buffer|);
    }

    // closePipeline, with everything sent before: an empty packet ends the block.
    method ClosePipeline() returns (ok: bool)
      requires Sizes() && Numbered() && currentPacket == null && block.Sound(bytesWritten) &&
               block.Stored() == block.content
      requires Joined() && Confirmed()
      modifies `nextSeqNo, `bytesWritten, `block, `finished, `closed, writer, writer.pipeline, writer.pool
      ensures !ok ==> writer.Down()
      ensures ok ==> writer.pipeline == null && Joined() && Confirmed() && Numbered() && block.Sound(bytesWritten)
      ensures ok ==> block.Stored() == block.content && before + Flatten(finished) + block.content == old(File())
      ensures writer.Grown() && (old(writer.pipeline) == null ==> ok && unchanged(`block, `finished, `bytesWritten))
      ensures old(writer.pipeline) != null && ok ==> bytesWritten == 0 && block == Block([], [], [])
      ensures old(writer.pipeline) != null && ok ==>
              |finished| == |old(finished)| + 1 && finished[..|old(finished)|] == old(finished)
      ensures old(writer.pipeline) != null && ok ==> var b := finished[|old(finished)|];
                b.content == b.Stored() == old(block.content) && b.base == old(block.base) && b.Replayable()
    {
      hide SumsOf, InOrder, Logs, Pkts, Holds, Carries, BlockWriter.Valid, BlockWriter.Lent, BlockWriter.Down,
           Block.Sound, Block.Stored, Block.Replayable, Furthest, Flatten, Ended, Acknowledged;
      if writer.pipeline == null {
        return true;
      }
      var p := GetPacket();
      HoldsCount(p, [], [], 0, chunkSize, chunksPerPacket);
      ghost var s := Sent(bytesWritten, p.seqno, [], [], chunkSize, true);
      nextSeqNo := nextSeqNo + 1;
      NoSums(chunkSize, crc);
      OrderNext(Logs(finished), block.log, s, crc);
      ClosingPacket(block, bytesWritten, s);
      ghost var c;
      ok, c := writer.Close(p, s);
      if ok {
        EndBlock(s, c);
      }
    }

    // The block joins the finished ones, and an empty one takes its place.
    method EndBlock(ghost s: Sent, ghost c: Closing)
      requires block.Sound(bytesWritten) && block.Stored() == block.content && s.offset == bytesWritten && s.data == []
      requires Ended(c, |block.base|, block.log, s) && currentPacket == null && Confirmed()
      requires InOrder(Logs(finished) + (block.log + [s]), crc) && nextSeqNo == |Logs(finished) + (block.log + [s])|
      requires writer.Valid() && writer.log == [] && writer.base == 0
      modifies `bytesWritten, `block, `finished, `closed
      ensures bytesWritten == 0 && block == Block([], [], []) && block.Sound(0) && block.Stored() == []
      ensures |finished| == |old(finished)| + 1 && finished[..|old(finished)|] == old(finished)
      ensures var b := finished[|old(finished)|];
              b.content == b.Stored() == old(block.content) && b.base == old(block.base) && b.Replayable()
      ensures Numbered() && Confirmed() && Joined() && before + Flatten(finished) + block.content == old(File())
    {
      hide InOrder, Logs, Block.Sound, Block.Stored, Block.Replayable, Flatten, Ended, Acknowledged,
           BlockWriter.Valid, BlockWriter.Lent;
      BlockEnds(block, bytesWritten, s, c, finished, before);
      EmptyBlock();
      finished := finished + [block.(log := block.log + [s])];
      closed := closed + [c];
      block := Block([], [], []);
      bytesWritten := 0;
    }

    // The first packet of an append having been sent, the configured sizes apply.
    method RestoreSizes()
      requires Sizes() && |buffer| == chunkSize
      modifies `isAppend, `chunkSize, `packetSize, `chunksPerPacket, `buffer
      ensures Sizes() && chunkSize == unit == |buffer|
    {
      if isAppend {
        isAppend := false;
        chunkSize := unit;
        packetSize := defaultPacketSize;
        ComputePacketChunkSize();
      }
    }

    // The end of a turn: a full packet, or the end of the block, is sent, and a
    // full block is closed.
    method SendDue() returns (ok: bool)
      requires Core() && (Settled() || Completed()) && Joined() && Confirmed()
      modifies `currentPacket, `nextSeqNo, `bytesWritten, `block, `finished, `closed, `isAppend,
               `chunkSize, `packetSize, `chunksPerPacket, `buffer, writer, writer.packets, writer.pipeline
      ensures ok ==> Core() && Settled() && Joined() && Confirmed() && File() == old(File())
      ensures writer.Grown() && (!ok ==> writer.Down())
    {
      hide SumsOf, InOrder, Full, Flatten, Logs, Holds, Block.Sound, Joined, Confirmed, BlockWriter.Down;
      PacketMax();
      if currentPacket != null && (currentPacket.numChunks >= currentPacket.maxChunks || bytesWritten == blockSize) {
        ok := SendWhole();
      } else {
        ok := true;
        if Completed() { NextChunk(bytesWritten, unit); }
      }
    }

    lemma Owned()
      requires Joined()
      ensures currentPacket != null ==> currentPacket in writer.packets
      ensures forall q :: q in writer.pool ==> q in writer.packets
    {}

    lemma PacketMax()
      requires Packing()
      ensures currentPacket != null ==> currentPacket.maxChunks == chunksPerPacket
    {}

    // What Core says between two chunks with no packet being filled.
    lemma Between()
      requires Sizes() && position == 0 && summed == [] && |buffer| == chunkSize && bytesWritten == |block.content|
      requires currentPacket == null && Numbered() && block.Sound(bytesWritten) && AllFull() && Placed()
      ensures Core()
    {
      hide Numbered, Block.Sound, AllFull;
    }

    method SendWhole() returns (ok: bool)
      requires Core() && Completed() && Joined() && Confirmed()
      modifies `currentPacket, `nextSeqNo, `bytesWritten, `block, `finished, `closed, `isAppend,
               `chunkSize, `packetSize, `chunksPerPacket, `buffer, writer, writer.packets, writer.pipeline
      ensures ok ==> Core() && Settled() && Joined() && Confirmed() && File() == old(File())
      ensures writer.Grown() && (!ok ==> writer.Down())
    {
      hide SumsOf, Numbered, Holds, AllFull, Flatten, Block.Sound, Block.Stored, Confirmed, Joined, BlockWriter.Down;
      Owned();
      NoRest();
      ok := SendPacket(bytesWritten);
      if ok {
        ok := AfterSend();
      }
    }

    lemma NoRest()
      requires Buffered() && position == 0
      ensures summed == [] && bytesWritten == |block.content| && |buffer| == chunkSize
    {}

    // The sizes change after the first packet of an append, the block at its end.
    method AfterSend() returns (ok: bool)
      requires Sizes() && position == 0 && summed == [] && |buffer| == chunkSize && bytesWritten == |block.content|
      requires currentPacket == null && Numbered() && block.Sound(bytesWritten) && AllFull() && block.log != []
      requires 0 < unit && bytesWritten % unit == 0 && Joined() && Confirmed() && writer.pipeline != null
      modifies `nextSeqNo, `bytesWritten, `block, `finished, `closed, `isAppend,
               `chunkSize, `packetSize, `chunksPerPacket, `buffer, writer, writer.packets, writer.pipeline
      ensures ok ==> Core() && Settled() && Joined() && Confirmed() && File() == old(File())
      ensures writer.Grown() && (!ok ==> writer.Down())
    {
      hide Numbered, AllFull, Flatten, Block.Sound, Block.Stored, Confirmed, Joined, BlockWriter.Down, Core;
      RestoreSizes();
      ok := true;
      if bytesWritten == blockSize {
        ok := CloseFull();
      }
      if ok {
        NextChunk(bytesWritten, unit);
        Between();
      }
    }

    // A full block is closed.
    method CloseFull() returns (ok: bool)
      requires Sizes() && Numbered() && currentPacket == null && block.Sound(bytesWritten) && AllFull()
      requires Joined() && Confirmed() && bytesWritten == |block.content| == blockSize && writer.pipeline != null
      modifies `nextSeqNo, `bytesWritten, `block, `finished, `closed, writer, writer.packets, writer.pipeline
      ensures ok ==> Joined() && Confirmed() && Numbered() && block.Sound(bytesWritten) && AllFull()
      ensures ok ==> bytesWritten == |block.content| == 0 && File() == old(File()) && block.base == []
      ensures writer.Grown() && (!ok ==> writer.Down())
    {
      hide Numbered, Flatten, Block.Sound, Block.Stored, Block.Replayable, Confirmed, Joined, BlockWriter.Down, Full;
      SentWhole(block, bytesWritten);
      Owned();
      ghost var was := finished;
      ok := ClosePipeline();
      if ok { FullNext(was, finished, blockSize); }
    }

    // append: the bytes are added to the file, through as many chunks, packets and
    // blocks as it takes. False stands for the exception, kept and thrown again.
    method Append(buf: Vec) returns (ok: bool)
      requires Valid()
      modifies this, writer, currentPacket, writer.packets, writer.pipeline
      ensures Valid() && ok == !lastError
      ensures ok ==> File() == old(File()) + buf && before == old(before)
      ensures ok <==> !old(lastError) && !writer.Down()
      ensures writer.Grown()
    {
      hide Core, Settled, Flatten, Block.Stored, Joined, Confirmed, Secured, BlockWriter.Down;
      if lastError {
        return false;
      }
      Owned();
      ok := AppendInternal(buf);
      if !ok {
        lastError := true;
        return;
      }
      Up();
      cursor := cursor + |buf|;
    }

    method AppendInternal(buf: Vec) returns (ok: bool)
      requires Core() && Settled() && Joined() && Confirmed()
      modifies this, writer, writer.packets, writer.pipeline
      ensures ok ==> Core() && Settled() && Joined() && Confirmed() && File() == old(File()) + buf
      ensures buf == [] ==> ok && unchanged(this) && Secured() == old(Secured())
      ensures before == old(before) && cursor == old(cursor) && lastFlushed == old(lastFlushed) &&
              lastError == old(lastError)
      ensures writer.Grown() && (!ok ==> writer.Down())
    {
      hide Core, Settled, Flatten, Joined, Confirmed, Secured, BlockWriter.Down;
      var todo := |buf|;
      while todo > 0
        invariant 0 <= todo <= |buf| && Core() && Settled() && Joined() && Confirmed()
        invariant File() == old(File()) + buf[..|buf| - todo]
        invariant todo == |buf| ==> unchanged(this) && Secured() == old(Secured())
        invariant before == old(before) && cursor == old(cursor) && lastFlushed == old(lastFlushed) &&
                  lastError == old(lastError)
        invariant writer.Grown()
      {
        var taken, fine := AppendSome(buf[|buf| - todo..]);
        if !fine {
          return false;
        }
        Prefix(buf, |buf| - todo, taken);
        todo := todo - taken;
      }
      return true;
    }

    // One turn of the loop on the bytes still to do.
    method AppendSome(rest: Vec) returns (batch: nat, ok: bool)
      requires Core() && Settled() && Joined() && Confirmed() && rest != []
      modifies this, writer, writer.packets, writer.pipeline
      ensures 0 < batch <= |rest|
      ensures ok ==> Core() && Settled() && Joined() && Confirmed() && File() == old(File()) + rest[..batch]
      ensures before == old(before) && cursor == old(cursor) && lastFlushed == old(lastFlushed) &&
              lastError == old(lastError)
      ensures writer.Grown() && (!ok ==> writer.Down())
    {
      hide Core, Settled, Completed, Flatten, Joined, Confirmed, BlockWriter.Down;
      HasRoom();
      Owned();
      batch := |buffer| - position;
      if |rest| < batch {
        batch := |rest|;
      }
      ghost var b := block;
      TakeBatch(rest[..batch], position == 0 && |rest| >= |buffer|);
      Regrouped(before + Flatten(finished), b.content, rest[..batch]);
      ok := SendDue();
    }

    lemma HasRoom()
      requires Core()
      ensures |buffer| == chunkSize && position < chunkSize
    {}

    // The packet flushInternal sends: what has gathered, the partial chunk, or for
    // a sync with nothing to send an empty packet. It reaches the end of the
    // content, or there is nothing left to send.
    method GatherPacket(needSync: bool) returns (ghost e: nat)
      requires Core() && Settled() && Joined()
      modifies `currentPacket, `nextSeqNo, currentPacket, writer`pool, writer`packets, writer.pool
      ensures Sizes() && Buffered() && Numbered() && Joined() && Tidy() && Start() == old(Start()) &&
              e == |block.content|
      ensures currentPacket != null ==> Holding(e, currentPacket.numChunks)
      ensures currentPacket == null ==> e == bytesWritten && old(currentPacket) == null
    {
      hide SumsOf, InOrder, Holds, Logs, BlockWriter.Valid, Block.Sound, AllFull;
      e := bytesWritten;
      if position > 0 {
        AppendChunkToPacket(buffer[..position]);
        e := bytesWritten + position;
      }
      if currentPacket == null && needSync && writer.pipeline != null {
        EnsurePacket();
      }
    }

    // Send it. The partial chunk stays in the buffer, to be sent again when it has
    // grown; every byte written so far has been sent.
    method SendRest(needSync: bool) returns (ok: bool)
      requires Core() && Settled() && Joined()
      modifies `currentPacket, `nextSeqNo, `block, writer, writer.packets, writer.pipeline
      ensures block.base == old(block.base) && block.content == old(block.content)
      ensures ok ==> Core() && Settled() && Joined() && currentPacket == null && block.Stored() == block.content
      ensures writer.Grown() && (!ok ==> writer.Down())
    {
      hide Sizes, Numbered, Packing, Holding, AllFull, Joined, BlockWriter.Down, Block.Sound, Block.Stored;
      Owned();
      StartWithin();
      ghost var start := Start();
      ghost var e := GatherPacket(needSync);
      ok := true;
      if currentPacket != null {
        ok := SendPacket(e);
      }
      if ok { RestSent(start, e); }
    }

    lemma StartWithin()
      requires Core()
      ensures |block.base| <= Start() <= bytesWritten && 1 <= chunksPerPacket
    {
      hide Numbered, AllFull, Holds, Furthest, Pkts, Delivered, Block.Replayable;
    }

    lemma RestSent(start: nat, e: nat)
      requires Sizes() && Buffered() && Numbered() && AllFull() && currentPacket == null && Placed()
      requires block.Sound(e) && e == |block.content| && |block.base| <= start <= bytesWritten
      ensures Core() && block.Stored() == block.content
    {
      hide Sizes, Numbered, AllFull, Furthest, Pkts, Delivered, Block.Replayable;
    }

    // A pipeline that has nothing left to wait for has the whole content on record.
    lemma NowSecured(start: nat)
      requires Joined() && block.Sound(start) && block.Stored() == block.content
      requires writer.pipeline != null ==> Answered(writer.pipeline, writer.base, writer.log)
      ensures Secured()
    {
      hide Separate, Unchanged, Configured, Delivered, Furthest, Pkts, Squeeze, Block.Replayable;
    }

    method FlushInternal(needSync: bool) returns (ok: bool)
      requires Valid() && !lastError
      modifies this, writer, currentPacket, writer.packets, writer.pipeline
      ensures before == old(before) && cursor == old(cursor) && !lastError
      ensures ok ==> Valid() && currentPacket == null && Secured()
      ensures ok ==> block.Stored() == block.content && File() == old(File())
      ensures writer.Grown() && (!ok ==> writer.Down())
    {
      hide Numbered, Buffered, Packing, Sizes, AllFull, Settled, Flatten, Block.Sound, Block.Stored,
           BlockWriter.Valid, Confirmed, Secured, BlockWriter.Down, Answered;
      if lastFlushed == cursor && !needSync {
        return true;
      }
      lastFlushed := cursor;
      Owned();
      ok := SendRest(needSync);
      if ok {
        ok := writer.Flush();
        if ok { NowSecured(bytesWritten); }
      }
    }

    // flush (and sync, with needSync).
    method Flush(needSync: bool) returns (ok: bool)
      requires Valid()
      modifies this, writer, currentPacket, writer.packets, writer.pipeline
      ensures Valid() && ok == !lastError
      ensures ok ==> block.Stored() == block.content && File() == old(File()) && before == old(before) && Secured()
      ensures ok <==> !old(lastError) && !writer.Down()
      ensures writer.Grown()
    {
      hide Core, Settled, Flatten, Block.Stored, Joined, Confirmed, Secured, BlockWriter.Down;
      if lastError {
        return false;
      }
      ok := FlushInternal(needSync);
      if ok { Up(); }
      lastError := !ok;
    }

    // close: every byte ever written has been sent and acknowledged, in packets that
    // are numbered in order and carry their checksums, and every block but the last
    // is full.
    method Close() returns (ok: bool)
      requires Valid()
      modifies this, writer, currentPacket, writer.packets, writer.pipeline
      ensures ok ==> writer.pipeline == null && File() == old(File()) && before == old(before)
      ensures ok ==> block.Stored() == block.content && |block.content| <= blockSize
      ensures ok ==> InOrder(All(), crc) && Confirmed()
      ensures ok ==> forall b :: 0 <= b < |finished| ==> Closed(finished[b], blockSize)
      ensures ok ==> forall b :: 0 <= b < |finished| - 1 ==> Full(finished[b], blockSize)
      ensures ok ==> block.content == [] || finished == old(finished)
      ensures ok <==> !old(lastError) && !writer.Down()
    {
      hide Packing, Buffered, Flatten, Block.Stored, Block.Replayable, InOrder, Joined, Confirmed, Secured,
           BlockWriter.Down, Full, Logs, Block.Sound;
      if lastError {
        return false;
      }
      Owned();
      if lastFlushed != cursor {
        ok := SendRest(false);
        if !ok {
          return;
        }
      }
      Owned();
      ghost var was := finished;
      BlockBound();
      ok := ClosePipeline();
      if ok {
        Up();
        assert finished != was ==> Closed(finished[|was|], blockSize);
        ClosedAll(was, finished, blockSize);
      }
    }

    lemma Up()
      requires Joined()
      ensures !writer.Down()
    {
      writer.NotDown();
    }

    lemma BlockBound()
      requires Core() && Settled()
      ensures |block.content| <= blockSize
    {
      hide Numbered, Packing, Block.Sound, AllFull;
      ChunkWithinBlock(bytesWritten, chunkSize, unit, blockSize);
    }
  }

  // Sent completely, and no longer than a block may be.
  ghost predicate Closed(b: Block, blockSize: nat) {
    b.Stored() == b.content && |b.content| <= blockSize && b.Replayable()
  }

  lemma ClosedAll(was: seq<Block>, now: seq<Block>, blockSize: nat)
    requires forall b :: 0 <= b < |was| ==> Full(was[b], blockSize)
    requires now == was || (|now| == |was| + 1 && now[..|was|] == was && Closed(now[|was|], blockSize))
    ensures forall b :: 0 <= b < |now| ==> Closed(now[b], blockSize)
    ensures forall b :: 0 <= b < |now| - 1 ==> Full(now[b], blockSize)
  {
    hide Block.Stored, Block.Replayable;
    forall b | 0 <= b < |now| ensures Closed(now[b], blockSize) && (b < |now| - 1 ==> Full(now[b], blockSize)) {
      if b < |was| { assert now[b] == was[b]; }
    }
  }

  // What has been sent to the end of the content is the content.
  lemma SentWhole(b: Block, e: nat)
    requires b.Sound(e) && e == |b.content|
    ensures b.Stored() == b.content
  {}

  lemma FullNext(was: seq<Block>, now: seq<Block>, blockSize: nat)
    requires |now| == |was| + 1 && now[..|was|] == was && now[|was|].Stored() == now[|was|].content &&
             now[|was|].Replayable()
    requires |now[|was|].content| == blockSize && forall b :: 0 <= b < |was| ==> Full(was[b], blockSize)
    ensures forall b :: 0 <= b < |now| ==> Full(now[b], blockSize)
  {
    hide Block.Stored, Block.Replayable;
    forall b | 0 <= b < |now| ensures Full(now[b], blockSize) {
      if b < |was| { assert now[b] == was[b]; }
    }
  }

  // The closing packet reaches no further than the data.
  lemma ClosingPacket(b: Block, e: nat, s: Sent)
    requires b.Sound(e) && s.offset == e && s.data == []
    ensures s.offset + |s.data| <= Furthest(|b.base|, Pkts(b.log))
  {}

  // A block is closed with packet s.
  lemma BlockEnds(b: Block, e: nat, s: Sent, c: Closing, was: seq<Block>, before: Vec)
    requires b.Sound(e) && b.Stored() == b.content && s.offset == e && s.data == [] && Ended(c, |b.base|, b.log, s)
    ensures var d := b.(log := b.log + [s]);
            && d.Stored() == d.content && d.Replayable() && Acknowledged(d, c)
            && before + Flatten(was + [d]) + [] == before + Flatten(was) + b.content
            && Logs(was + [d]) + [] == Logs(was) + (b.log + [s])
  {
    hide Flatten, Logs, Delivered, Pkts, Furthest, Squeeze, Consecutive;
    EmptyPacketChangesNothing(b, s);
    PktsNext(b.log, s);
    FinishedNext(was, b.(log := b.log + [s]), before);
  }

  lemma ChunkNext(content: Vec, from: nat, upto: nat, chunk: Vec)
    requires from <= upto && upto + |chunk| <= |content| && content[upto..upto + |chunk|] == chunk
    ensures content[from..upto + |chunk|] == content[from..upto] + chunk
  {
    assert content[from..upto + |chunk|] == content[from..upto] + content[upto..upto + |chunk|];
  }

  lemma Prefix(buf: Vec, done: nat, n: nat)
    requires done + n <= |buf|
    ensures buf[..done] + buf[done..][..n] == buf[..done + n]
  {}

  lemma OneMore(n: nat, chunkSize: nat)
    requires 0 < n
    ensures n * chunkSize == (n - 1) * chunkSize + chunkSize
  {}

  lemma OneChunk(chunkSize: nat)
    requires 0 < chunkSize
    ensures ChunksPerPacket(0, chunkSize) == 1
  {
    DivBelow(chunkSize - 28, chunkSize + 4);
  }

  lemma DivBelow(x: int, d: nat)
    requires 0 < d && x < d
    ensures 0 <= x ==> x / d == 0
  {}

  // The size of the first chunk of an append: what a partial chunk at the end of the
  // file lacks, or a whole chunk.
  function FirstChunk(fileLength: nat, unit: nat): (c: nat)
    requires 0 < unit
    ensures 0 < c <= unit
  {
    if fileLength % unit > 0 then unit - fileLength % unit else unit
  }

  // It completes a chunk of the last block exactly when the earlier blocks are whole
  // chunks.
  lemma AlignedIff(before: nat, last: nat, unit: nat)
    requires 0 < unit
    ensures (last + FirstChunk(before + last, unit)) % unit == 0 <==> before % unit == 0
  {
    var q, r := (before + last) / unit, (before + last) % unit;
    var c := FirstChunk(before + last, unit);
    assert (q + 1) * unit == q * unit + unit;
    var whole := q + 1;
    assert before + (last + c) == whole * unit;
    Complement(before, last + c, whole, unit);
  }

  // Blocks of 100 bytes and chunks of 512: the first chunk of the append is 312 bytes
  // long and ends 412 bytes into the last block, in the middle of a chunk of it.
  lemma AppendMisaligned()
    ensures FirstChunk(100 + 100, 512) == 312 && (100 + FirstChunk(100 + 100, 512)) % 512 == 412
  {}

  lemma Complement(a: nat, b: nat, n: nat, unit: nat)
    requires 0 < unit && a + b == n * unit
    ensures b % unit == 0 <==> a % unit == 0
  {
    if a % unit == 0 {
      assert (n - a / unit) * unit == n * unit - a / unit * unit;
      DivModUnique(b, unit, n - a / unit, 0);
    }
    if b % unit == 0 {
      assert (n - b / unit) * unit == n * unit - b / unit * unit;
      DivModUnique(a, unit, n - b / unit, 0);
    }
  }

  lemma NoSums(c: nat, crc: Crc)
    requires 0 < c
    ensures SumsOf([], c, crc) == []
  {}
}
