// A StripedDataStreamer and the packets that carry its internal block.

module Streamers {
  import opened Bytes
  import opened WriteLog

  datatype Pending = Empty | Filling(offset: nat, seqno: nat, data: Vec, numChunks: nat)

  // What a streamer has sent, the packet it is filling, and its two byte counts.
  datatype Streamer = Streamer(log: seq<Sent>, packet: Pending, bytesSent: nat, bytesCurBlock: nat, first: nat,
      nextSeqNo: nat) {
    function Stored(): Vec {
      Delivered([], log)
    }

    // The internal block, sent or still in the packet.
    function Content(): Vec {
      Stored() + if packet.Empty? then [] else packet.data
    }

    // Packets begin where the pipeline's count of sent bytes says the block ends.
    // A block that is full has nothing left to send. Numbers go on from first.
    ghost predicate Valid(chunksPerPacket: nat, blockSize: nat) {
      && bytesSent == |Stored()| && bytesCurBlock == |Content()|
      && (packet.Filling? ==> packet.offset == bytesSent && packet.seqno == first + |log|)
      && (packet.Filling? ==> packet.numChunks < chunksPerPacket)
      && (bytesCurBlock == blockSize ==> packet.Empty?)
      && nextSeqNo == first + |log| + (if packet.Empty? then 0 else 1)
      && (forall i :: 0 <= i < |log| ==> log[i].seqno == first + i)
    }

    // closePipeline: the closing packet takes a number, and the next block starts.
    function CloseBlock(): Streamer {
      Streamer([], Empty, 0, 0, nextSeqNo + 1, nextSeqNo + 1)
    }

    // sendPacket.
    function SendPacket(): Streamer
      requires packet.Filling?
    {
      var p := Sent(packet.offset, packet.seqno, packet.data, [], 0, false);
      var reach := packet.offset + |packet.data|;
      this.(log := log + [p], packet := Empty, bytesSent := if bytesSent > reach then bytesSent else reach)
    }

    // appendChunkToPacketInternal.
    function AppendChunk(chunk: Vec, chunksPerPacket: nat, blockSize: nat): Streamer {
      var q := if packet.Empty? then Filling(bytesSent, nextSeqNo, chunk, 1)
               else Filling(packet.offset, packet.seqno, packet.data + chunk, packet.numChunks + 1);
      var s := this.(packet := q, bytesCurBlock := bytesCurBlock + |chunk|,
                     nextSeqNo := if packet.Empty? then nextSeqNo + 1 else nextSeqNo);
      if q.numChunks >= chunksPerPacket || s.bytesCurBlock == blockSize then s.SendPacket() else s
    }
  }

  lemma SendKeepsContent(s: Streamer)
    requires s.packet.Filling? && s.packet.offset == |s.Stored()|
    ensures s.SendPacket().Stored() == s.SendPacket().Content() == s.Content()
  {
    DeliveredNext([], s.log, s.SendPacket().log[|s.log|]);
    PatchAtEnd(s.Stored(), s.packet.data);
  }

  lemma PatchAtEnd(cur: Vec, data: Vec)
    ensures Patch(cur, |cur|, data) == cur + data
  {
    assert cur[..|cur|] == cur;
    if data == [] { assert cur[|cur|..] == [] && cur + [] == cur; }
  }

  // A chunk is added to the block, whatever the packet boundaries.
  lemma ChunkAdded(s: Streamer, chunk: Vec, chunksPerPacket: nat, blockSize: nat)
    requires s.Valid(chunksPerPacket, blockSize) && 1 <= chunksPerPacket && chunk != []
    ensures var t := s.AppendChunk(chunk, chunksPerPacket, blockSize);
            t.Valid(chunksPerPacket, blockSize) && t.Content() == s.Content() + chunk
  {
    hide Delivered;
    var q := if s.packet.Empty? then Filling(s.bytesSent, s.nextSeqNo, chunk, 1)
             else Filling(s.packet.offset, s.packet.seqno, s.packet.data + chunk, s.packet.numChunks + 1);
    var u := s.(packet := q, bytesCurBlock := s.bytesCurBlock + |chunk|,
                nextSeqNo := if s.packet.Empty? then s.nextSeqNo + 1 else s.nextSeqNo);
    assert u.Stored() == s.Stored();
    assert u.Content() == s.Content() + chunk;
    SendKeepsContent(u);
  }

  // enqueueAllCurrentPackets for one streamer.
  lemma PacketSent(s: Streamer, chunksPerPacket: nat, blockSize: nat)
    requires s.Valid(chunksPerPacket, blockSize) && s.packet.Filling?
    ensures var t := s.SendPacket(); t.Valid(chunksPerPacket, blockSize) && t.Stored() == t.Content() == s.Content()
  {
    hide Delivered;
    SendKeepsContent(s);
  }

  lemma FreshValid(s: Streamer, chunksPerPacket: nat, blockSize: nat)
    requires s.log == [] && s.packet.Empty? && s.bytesSent == s.bytesCurBlock == 0 && s.nextSeqNo == s.first
    ensures s.Valid(chunksPerPacket, blockSize) && s.Content() == s.Stored() == []
  {}
}
