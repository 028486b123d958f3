// A block being written, as values: what it held, what has been appended, the
// packets that carry it, and what its pipeline has to show when it is closed.

module Blocks {
  import opened Bytes
  import opened WriteLog
  import opened Pipelines

  // ----- packets as the pipeline is given them

  function ToPkt(p: Sent): Pkt {
    Pkt(p.seqno, p.offset + |p.data|, p.last, p.Image())
  }

  function Pkts(log: seq<Sent>): (ps: seq<Pkt>)
    ensures |ps| == |log|
  {
    seq(|log|, i requires 0 <= i < |log| => ToPkt(log[i]))
  }

  lemma PktsNext(log: seq<Sent>, p: Sent)
    ensures Pkts(log + [p]) == Pkts(log) + [ToPkt(p)]
    ensures Pkts((log + [p])[..|log|]) == Pkts(log)
  {
    hide ToPkt;
    assert (log + [p])[..|log|] == log;
  }

  lemma PktsLast(log: seq<Sent>)
    ensures log != [] ==> Pkts(log)[|log| - 1].seqno == log[|log| - 1].seqno
  {}

  ghost predicate NoGap(base: nat, log: seq<Sent>, i: nat)
    requires i < |log|
  {
    log[i].offset <= Furthest(base, Pkts(log[..i]))
  }

  // ----- one block

  // What the block held at first, what it holds with what has been appended, and the
  // packets handed to its pipeline.
  datatype Block = Block(base: Vec, content: Vec, log: seq<Sent>) {
    function Stored(): Vec {
      Delivered(base, log)
    }

    // What has been sent is a prefix of the content that reaches at least start, and
    // the pipeline's packets reach as far.
    ghost predicate Sound(start: nat) {
      && |base| <= start <= |Stored()| <= |content| && Stored() == content[..|Stored()|] && Replayable()
      && |Stored()| == Furthest(|base|, Pkts(log))
    }

    // The content begins with what was there. Every packet carries bytes of the
    // content, so sending it again changes nothing, and begins no later than where the packets before it end.
    ghost predicate Replayable() {
      base <= content && forall i :: 0 <= i < |log| ==> StretchOf(log[i], content) && NoGap(|base|, log, i)
    }
  }

  lemma StretchStays(p: Sent, content: Vec, more: Vec)
    requires StretchOf(p, content)
    ensures StretchOf(p, content + more)
  {
    assert (content + more)[p.offset..p.offset + |p.data|] == content[p.offset..p.offset + |p.data|];
  }

  lemma ContentGrows(b: Block, start: nat, more: Vec)
    requires b.Sound(start)
    ensures b.(content := b.content + more).Sound(start)
  {
    hide Delivered, Pkts, Furthest;
    var c := b.(content := b.content + more);
    assert c.Stored() == b.Stored();
    assert c.content[..|b.Stored()|] == b.content[..|b.Stored()|];
    forall i | 0 <= i < |c.log| ensures StretchOf(c.log[i], c.content) && NoGap(|c.base|, c.log, i) {
      StretchStays(b.log[i], b.content, more);
    }
  }

  // Sending the content from start to e.
  lemma SendKeeps(b: Block, start: nat, e: nat, p: Sent)
    requires b.Sound(start) && start <= e <= |b.content|
    requires p.offset == start && p.data == b.content[start..e]
    ensures var c := b.(log := b.log + [p]);
            c.Sound(e) && |c.Stored()| == if |b.Stored()| < e then e else |b.Stored()|
  {
    hide Delivered, Pkts, Furthest, Patch, Block.Replayable, Sent.Image;
    assert StretchOf(p, b.content);
    ReplayableNext(b, p);
    DeliveredNext(b.base, b.log, p);
    PatchExtends(b.content, |b.Stored()|, start, e);
    PktsNext(b.log, p);
    FurthestNext(|b.base|, Pkts(b.log), ToPkt(p));
  }

  lemma ReplayableNext(b: Block, p: Sent)
    requires b.Replayable() && StretchOf(p, b.content) && p.offset <= Furthest(|b.base|, Pkts(b.log))
    ensures b.(log := b.log + [p]).Replayable()
  {
    hide Furthest, Pkts;
    var log := b.log + [p];
    forall i | 0 <= i < |log| ensures StretchOf(log[i], b.content) && NoGap(|b.base|, log, i) {
      if i < |b.log| {
        assert NoGap(|b.base|, b.log, i) && log[..i] == b.log[..i];
      } else {
        assert log[..i] == b.log;
      }
    }
  }

  lemma EmptyPacketChangesNothing(b: Block, p: Sent)
    requires b.Sound(p.offset) && p.data == []
    ensures b.(log := b.log + [p]).Stored() == b.Stored() && b.(log := b.log + [p]).Replayable()
  {
    hide Delivered, Furthest, Pkts, Block.Replayable;
    DeliveredNext(b.base, b.log, p);
    assert b.Stored()[..p.offset] + b.Stored()[p.offset..] == b.Stored();
    ReplayableNext(b, p);
  }

  lemma EmptyBlock()
    ensures Block([], [], []).Stored() == [] && Block([], [], []).Sound(0)
  {}

  lemma StoredAtFirst(content: Vec)
    ensures Block(content, content, []).Stored() == content && Block(content, content, []).Sound(|content|)
  {}

  // Nothing handed over means nothing stored beyond what was there.
  lemma NothingSent(b: Block, start: nat)
    requires b.Sound(start) && b.log == []
    ensures b.Stored() == b.base && start == |b.base|
  {}

  // ----- all blocks

  // The contents of blocks, one after the other.
  function Flatten(blocks: seq<Block>): Vec {
    if blocks == [] then [] else Flatten(blocks[..|blocks| - 1]) + blocks[|blocks| - 1].content
  }

  // The packets of blocks, one after the other.
  function Logs(blocks: seq<Block>): seq<Sent> {
    if blocks == [] then [] else Logs(blocks[..|blocks| - 1]) + blocks[|blocks| - 1].log
  }

  lemma BlocksNext(blocks: seq<Block>, b: Block)
    ensures Flatten(blocks + [b]) == Flatten(blocks) + b.content && Logs(blocks + [b]) == Logs(blocks) + b.log
  {
    assert (blocks + [b])[..|blocks|] == blocks;
  }

  // Numbered 0, 1, 2, ... and every chunk with its checksum.
  ghost predicate InOrder(all: seq<Sent>, crc: Crc) {
    forall i :: 0 <= i < |all| ==> all[i].seqno == i && WellSummed(all[i], crc)
  }

  ghost predicate WellSummed(p: Sent, crc: Crc) {
    0 < p.chunk && p.sums == SumsOf(p.data, p.chunk, crc)
  }

  // The next packet of a block is numbered one more than the last one.
  lemma OrderNext(done: seq<Sent>, log: seq<Sent>, p: Sent, crc: Crc)
    requires InOrder(done + log, crc) && p.seqno == |done + log| && WellSummed(p, crc)
    ensures InOrder(done + (log + [p]), crc)
    ensures log != [] ==> log[|log| - 1].seqno + 1 == p.seqno
  {
    hide InOrder, Pkts, WellSummed;
    InOrderNext(done + log, p, crc);
    assert done + (log + [p]) == (done + log) + [p];
    if log != [] { LastNumber(done, log, crc); }
  }

  lemma InOrderNext(all: seq<Sent>, p: Sent, crc: Crc)
    requires InOrder(all, crc) && p.seqno == |all| && WellSummed(p, crc)
    ensures InOrder(all + [p], crc)
  {
    hide WellSummed;
  }

  lemma LastNumber(done: seq<Sent>, log: seq<Sent>, crc: Crc)
    requires InOrder(done + log, crc) && log != []
    ensures log[|log| - 1].seqno + 1 == |done + log|
  {
    hide WellSummed;
    assert (done + log)[|done| + |log| - 1] == log[|log| - 1];
  }

  // ----- closed blocks

  // A finished block is full and has been sent completely.
  ghost predicate Full(b: Block, blockSize: nat) {
    b.Stored() == b.content && |b.content| == blockSize && b.Replayable()
  }

  // What a pipeline leaves behind: its history and the block's record, its life and
  // the nodes it ended with.
  datatype Closing = Closing(h: History, record: LastBlock, trace: Trace, nodes: seq<nat>)

  // Every packet of the block was acknowledged, but for a closing packet that was
  // dropped, and the record has the block's length.
  ghost predicate Acknowledged(b: Block, c: Closing) {
    && c.h.Valid() && c.h.acked == |c.h.offered| && c.h.base == |b.base|
    && c.record.numBytes == Furthest(c.h.base, c.h.offered) == |b.content| && b.log != []
    && (c.h.offered == Pkts(b.log) ||
        (b.log[|b.log| - 1].data == [] && c.h.offered == Pkts(b.log[..|b.log| - 1])))
    && Chronicle(c.trace, c.h.base, c.h.from, c.h.offered) && Followed(c.trace, c.nodes) && c.trace.all == Pkts(b.log)
  }

  // A block has been closed.
  lemma FinishedNext(was: seq<Block>, b: Block, before: Vec)
    ensures before + Flatten(was + [b]) + [] == before + Flatten(was) + b.content
    ensures Logs(was + [b]) + [] == Logs(was) + b.log
  {
    hide Flatten, Logs;
    BlocksNext(was, b);
    Regrouped(before, Flatten(was), b.content);
  }
}
