// What a sequence of packets does to a block: each is written at its offset over
// what was there.

module WriteLog {
  import opened Bytes
  import opened PacketHeaders
  import opened Packets
  import opened Geometry

  // A packet as it went to the pipeline.
  datatype Sent = Sent(offset: nat, seqno: nat, data: Vec, sums: Vec, chunk: nat, last: bool) {
    function Head(): Header {
      Header(|data| + |sums| + 4, offset, seqno, last, |data|)
    }

    // The bytes on the wire.
    function Image(): Vec {
      Encode(Head()) + sums + data
    }
  }

  // data written at off over cur; a write beyond the end would leave a hole and
  // is not applied.
  function Patch(cur: Vec, off: nat, data: Vec): Vec {
    if |cur| < off then cur
    else if off + |data| <= |cur| then cur[..off] + data + cur[off + |data|..]
    else cur[..off] + data
  }

  function Delivered(base: Vec, log: seq<Sent>): Vec {
    if log == [] then base
    else Patch(Delivered(base, log[..|log| - 1]), log[|log| - 1].offset, log[|log| - 1].data)
  }

  lemma DeliveredNext(base: Vec, log: seq<Sent>, p: Sent)
    ensures Delivered(base, log + [p]) == Patch(Delivered(base, log), p.offset, p.data)
  {
    assert (log + [p])[..|log|] == log;
  }

  // Writing a stretch of the content where the content already reaches extends
  // what is there to the stretch's end, and never changes a byte.
  lemma PatchExtends(content: Vec, d: nat, from: nat, to: nat)
    requires from <= d <= |content| && from <= to <= |content|
    ensures Patch(content[..d], from, content[from..to]) == content[..if d < to then to else d]
  {
    var cur := content[..d];
    assert cur[..from] == content[..from];
    assert content[..from] + content[from..to] == content[..to];
    if to <= d {
      assert cur[to..] == content[to..d];
      assert content[..to] + content[to..d] == content[..d];
    }
  }

  // The packet carries bytes of the content, at their place.
  ghost predicate StretchOf(p: Sent, content: Vec) {
    p.offset + |p.data| <= |content| && p.data == content[p.offset..p.offset + |p.data|]
  }

  lemma StretchAt(p: Sent, content: Vec)
    requires StretchOf(p, content)
    ensures p.offset + |p.data| <= |content| && p.data == content[p.offset..p.offset + |p.data|]
  {}

  lemma Skipped(cur: Vec, p: Sent)
    ensures |cur| < p.offset ==> Patch(cur, p.offset, p.data) == cur
  {}

  // However often and in whatever order such packets are written again, a replica
  // that holds a prefix of the content goes on holding one, and no shorter one.
  lemma {:induction false} ReplayHarmless(content: Vec, d: nat, log: seq<Sent>) returns (e: nat)
    requires d <= |content| && forall i :: 0 <= i < |log| ==> StretchOf(log[i], content)
    ensures d <= e <= |content| && Delivered(content[..d], log) == content[..e]
  {
    if log == [] {
      e := d;
    } else {
      var init, p := log[..|log| - 1], log[|log| - 1];
      hide Patch, StretchOf;
      assert log == init + [p];
      e := ReplayHarmless(content, d, init);
      DeliveredNext(content[..d], init, p);
      hide Delivered;
      StretchAt(p, content);
      Skipped(content[..e], p);
      if p.offset <= e {
        PatchExtends(content, e, p.offset, p.offset + |p.data|);
        e := if e < p.offset + |p.data| then p.offset + |p.data| else e;
      }
    }
  }

  // ----- checksums

  type Crc = Vec -> Sum

  // One checksum per chunk of c bytes, the last chunk possibly shorter.
  function SumsOf(data: Vec, c: nat, crc: Crc): Vec
    requires 0 < c
  {
    if data == [] then []
    else if |data| <= c then crc(data).Bytes()
    else crc(data[..c]).Bytes() + SumsOf(data[c..], c, crc)
  }

  lemma {:induction false} SumsSnoc(data: Vec, n: nat, chunk: Vec, c: nat, crc: Crc)
    requires 0 < c && |data| == n * c && 0 < |chunk| <= c
    ensures SumsOf(data + chunk, c, crc) == SumsOf(data, c, crc) + crc(chunk).Bytes()
    decreases n
  {
    if n == 0 {
      assert data + chunk == chunk;
    } else {
      assert n * c == (n - 1) * c + c;
      if n > 1 { MoreThanOne(n, c); }
      SumsSnoc(data[c..], n - 1, chunk, c, crc);
      SumsFirst(data, chunk, c, crc);
    }
  }

  lemma SumsFirst(data: Vec, more: Vec, c: nat, crc: Crc)
    requires 0 < c <= |data| && 0 < |more|
    ensures SumsOf(data + more, c, crc) == crc(data[..c]).Bytes() + SumsOf(data[c..] + more, c, crc)
    ensures SumsOf(data, c, crc) == crc(data[..c]).Bytes() + SumsOf(data[c..], c, crc)
  {
    hide SumsOf, Sum.Bytes;
    SumsUnfold(data + more, c, crc);
    SumsUnfold(data, c, crc);
    Prefixes(data, more, c);
  }

  lemma Prefixes(data: Vec, more: Vec, c: nat)
    requires c <= |data|
    ensures (data + more)[..c] == data[..c] && (data + more)[c..] == data[c..] + more
  {}

  lemma SumsUnfold(d: Vec, c: nat, crc: Crc)
    requires 0 < c <= |d|
    ensures SumsOf(d, c, crc) == crc(d[..c]).Bytes() + SumsOf(d[c..], c, crc)
  {
    hide Sum.Bytes;
    if |d| == c {
      assert d[..c] == d && d[c..] == [];
      assert crc(d).Bytes() + [] == crc(d).Bytes();
    }
  }

  lemma MoreThanOne(n: nat, c: nat)
    requires 1 < n && 0 < c
    ensures n * c > c
  {
    MulAtLeast(n - 1, c);
    assert n * c == c + (n - 1) * c;
  }

  lemma {:induction false} SumsLength(data: Vec, n: nat, c: nat, crc: Crc)
    requires 0 < c && |data| == n * c
    ensures |SumsOf(data, c, crc)| == 4 * n
    decreases n
  {
    if n != 0 {
      assert n * c == (n - 1) * c + c;
      SumsLength(data[c..], n - 1, c, crc);
      if n > 1 { MoreThanOne(n, c); }
    }
  }

  // ----- packet sizes

  // chunksPerPacket as computePacketChunkSize works it out; the division truncates
  // toward zero.
  function ChunksPerPacket(packetSize: nat, chunkSize: nat): (n: nat)
    requires 0 < chunkSize
    ensures 1 <= n
  {
    var withSum := chunkSize + 4;
    var room := packetSize - HEADER_SIZE + withSum - 1;
    var n := if room >= 0 then room / withSum else -((-room) / withSum);
    if n > 1 then n else 1
  }

  // ----- block ends

  // The end of the current chunk is a chunk boundary and so within the block.
  lemma ChunkWithinBlock(bytesWritten: nat, chunkSize: nat, unit: nat, blockSize: nat)
    requires 0 < chunkSize <= unit && blockSize % unit == 0 && (bytesWritten + chunkSize) % unit == 0
    requires bytesWritten < blockSize
    ensures bytesWritten + chunkSize <= blockSize
  {
    Multiples(bytesWritten + chunkSize, blockSize, unit, (bytesWritten + chunkSize) / unit, blockSize / unit);
  }

  lemma Multiples(x: int, y: int, unit: int, a: int, b: int)
    requires 0 < unit && x == a * unit && y == b * unit && x < y + unit
    ensures x <= y
  {
    MixedRadix(a, 0, b + 1, 0, unit);
    MixedRadix(b, 0, a, 0, unit);
    assert (b + 1) * unit == b * unit + unit;
  }

  lemma NextChunk(bytesWritten: nat, unit: nat)
    requires 0 < unit && bytesWritten % unit == 0
    ensures (bytesWritten + unit) % unit == 0
  {
    var q := bytesWritten / unit;
    assert (q + 1) * unit == q * unit + unit;
    DivModUnique(bytesWritten + unit, unit, q + 1, 0);
  }
}
