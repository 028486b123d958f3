// Packet: one buffer holding a header, the checksums and the data of a packet.
// Checksums and data are added at two places; before sending, the checksums are
// moved up so that header, checksums and data are one contiguous image.

module Packets {
  import opened Bytes
  import opened PacketHeaders

  // A 32-bit checksum, most significant byte first.
  datatype Sum = Sum(b3: Byte, b2: Byte, b1: Byte, b0: Byte) {
    function Bytes(): (v: Vec)
      ensures |v| == 4
    {
      [b3, b2, b1, b0]
    }
  }

  // A packet of n chunks, each with its checksum, and a header: the room it needs.
  lemma PacketRoom(n: nat, chunkSize: nat)
    ensures n * (chunkSize + 4) + HEADER_SIZE == HEADER_SIZE + n * 4 + n * chunkSize
  {}

  class Packet {
    var lastPacketInBlock: bool
    var checksumPos: nat
    var checksumStart: nat
    var dataPos: nat
    var dataStart: nat
    var headerStart: nat
    var maxChunks: nat
    var numChunks: nat
    var offsetInBlock: nat
    var seqno: nat
    var buffer: Vec

    ghost predicate Valid()
      reads this
    {
      && checksumStart == headerStart + HEADER_SIZE
      && checksumStart <= checksumPos <= dataStart <= dataPos <= |buffer|
      && (headerStart == 0 || checksumPos == dataStart)
    }

    function Sums(): Vec
      requires Valid()
      reads this
    {
      buffer[checksumStart..checksumPos]
    }

    function Data(): Vec
      requires Valid()
      reads this
    {
      buffer[dataStart..dataPos]
    }

    // The header the packet is sent with. The length counts itself.
    function Head(): Header
      requires Valid()
      reads this
    {
      Header((dataPos - dataStart) + (checksumPos - checksumStart) + 4, offsetInBlock, seqno, lastPacketInBlock,
             dataPos - dataStart)
    }

    // What is written to the datanodes.
    function Image(): Vec
      requires Valid()
      reads this
    {
      Encode(Head()) + Sums() + Data()
    }

    // Empty, with room for so many checksums and so much data.
    ghost predicate Empty(pktSize: nat, chunksPerPkt: nat)
      reads this
    {
      && Valid() && headerStart == 0 && checksumPos == checksumStart && dataPos == dataStart
      && dataStart == checksumStart + chunksPerPkt * 4 && pktSize <= |buffer|
      && numChunks == 0 && maxChunks == chunksPerPkt && !lastPacketInBlock
    }

    constructor (pktSize: nat, chunksPerPkt: nat, offsetInBlock: nat, seqno: nat)
      requires HEADER_SIZE + chunksPerPkt * 4 <= pktSize
      ensures Empty(pktSize, chunksPerPkt) && this.offsetInBlock == offsetInBlock && this.seqno == seqno
    {
      lastPacketInBlock := false;
      headerStart, maxChunks, numChunks := 0, chunksPerPkt, 0;
      this.offsetInBlock, this.seqno := offsetInBlock, seqno;
      buffer := seq(pktSize, _ => 0);
      checksumPos, checksumStart := HEADER_SIZE, HEADER_SIZE;
      dataPos, dataStart := HEADER_SIZE + chunksPerPkt * 4, HEADER_SIZE + chunksPerPkt * 4;
    }

    // A recycled packet is as good as a new one, whatever it held.
    method Reset(pktSize: nat, chunksPerPkt: nat, offsetInBlock: nat, seqno: nat)
      requires HEADER_SIZE + chunksPerPkt * 4 <= pktSize
      modifies this
      ensures Empty(pktSize, chunksPerPkt) && this.offsetInBlock == offsetInBlock && this.seqno == seqno
    {
      lastPacketInBlock := false;
      headerStart, maxChunks, numChunks := 0, chunksPerPkt, 0;
      this.offsetInBlock, this.seqno := offsetInBlock, seqno;
      checksumPos, checksumStart := HEADER_SIZE, HEADER_SIZE;
      dataPos, dataStart := HEADER_SIZE + chunksPerPkt * 4, HEADER_SIZE + chunksPerPkt * 4;
      if pktSize > |buffer| {
        buffer := buffer + seq(pktSize - |buffer|, _ => 0);
      }
    }

    // False stands for the exception: no checksum slot is left.
    method AddChecksum(checksum: Sum) returns (ok: bool)
      requires Valid()
      modifies `checksumPos, `buffer
      ensures Valid() && ok == (old(checksumPos) + 4 <= dataStart)
      ensures Sums() == if ok then old(Sums()) + checksum.Bytes() else old(Sums())
      ensures Data() == old(Data()) && |buffer| == |old(buffer)|
      ensures checksumPos == if ok then old(checksumPos) + 4 else old(checksumPos)
    {
      if checksumPos + 4 > dataStart {
        return false;
      }
      SpliceExtends(buffer, checksumPos, checksum.Bytes(), checksumStart);
      SpliceKeeps(buffer, checksumPos, checksum.Bytes(), dataStart, dataPos);
      buffer := Splice(buffer, checksumPos, checksum.Bytes());
      checksumPos := checksumPos + 4;
      return true;
    }

    // False stands for the exception: the buffer is too small.
    method AddData(buf: Vec) returns (ok: bool)
      requires Valid()
      modifies `dataPos, `buffer
      ensures Valid() && ok == (|buf| + old(dataPos) <= |buffer|)
      ensures Data() == if ok then old(Data()) + buf else old(Data())
      ensures Sums() == old(Sums()) && |buffer| == |old(buffer)|
      ensures dataPos == if ok then old(dataPos) + |buf| else old(dataPos)
    {
      if |buf| + dataPos > |buffer| {
        return false;
      }
      SpliceExtends(buffer, dataPos, buf, dataStart);
      SpliceKeeps(buffer, dataPos, buf, checksumStart, checksumPos);
      buffer := Splice(buffer, dataPos, buf);
      dataPos := dataPos + |buf|;
      return true;
    }

    // getLastByteOffsetBlock, with its assertion.
    function LastByteOffset(): nat
      requires Valid() && 0 < maxChunks
      reads this
    {
      assert dataPos - dataStart <= maxChunks * |buffer| by {
        assert maxChunks * |buffer| == |buffer| + (maxChunks - 1) * |buffer|;
      }
      offsetInBlock + dataPos - dataStart
    }

    // The memmove of getBuffer: checksums up to the data, header room below them.
    method CloseGap()
      requires Valid()
      modifies `checksumPos, `checksumStart, `headerStart, `buffer
      ensures Valid() && checksumPos == dataStart
      ensures Sums() == old(Sums()) && Data() == old(Data())
      ensures checksumPos - checksumStart == old(checksumPos - checksumStart)
    {
      hide Splice;
      var checksumLen := checksumPos - checksumStart;
      if checksumPos != dataStart {
        var sums := buffer[checksumStart..checksumPos];
        SpliceHolds(buffer, dataStart - checksumLen, sums);
        SpliceKeeps(buffer, dataStart - checksumLen, sums, dataStart, dataPos);
        buffer := Splice(buffer, dataStart - checksumLen, sums);
        headerStart := dataStart - checksumPos;
        checksumStart := checksumStart + (dataStart - checksumPos);
        checksumPos := dataStart;
      }
    }

    // getBuffer: close the gap below the data, put the header in front. The image
    // is header, checksums, data without a gap; what the packet holds is not
    // changed, so a packet sent again sends the same image.
    method GetBuffer() returns (image: Vec)
      requires Valid()
      modifies `checksumPos, `checksumStart, `headerStart, `buffer
      ensures Valid() && checksumPos == dataStart
      ensures Sums() == old(Sums()) && Data() == old(Data()) && Head() == old(Head())
      ensures image == old(Image()) == Image()
    {
      hide Splice, Encode;
      var header := Encode(Head());
      var pktLen := (dataPos - dataStart) + (checksumPos - checksumStart);
      CloseGap();
      SpliceHolds(buffer, headerStart, header);
      SpliceKeeps(buffer, headerStart, header, checksumStart, checksumPos);
      SpliceKeeps(buffer, headerStart, header, dataStart, dataPos);
      buffer := Splice(buffer, headerStart, header);
      assert headerStart + HEADER_SIZE + pktLen == dataPos;
      image := buffer[headerStart..headerStart + HEADER_SIZE + pktLen];
      Joined(buffer, headerStart, checksumStart, dataStart, dataPos);
    }
  }

  lemma Joined(s: Vec, a: nat, b: nat, c: nat, d: nat)
    requires a <= b <= c <= d <= |s|
    ensures s[a..d] == s[a..b] + s[b..c] + s[c..d]
  {}
}
