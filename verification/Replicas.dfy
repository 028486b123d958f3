// What the datanodes of a pipeline have: each image received is written at the
// place its header names.

module Replicas {
  import opened Bytes
  import opened PacketHeaders
  import opened WriteLog
  import opened Pipelines
  import opened Blocks
  import opened OutputStreams

  // A datanode that receives an image writes the data in it at the offset in the
  // header.
  function Receive(replica: Vec, image: Vec): Vec {
    if |image| < HEADER_SIZE then replica
    else
      match Decode(image[..HEADER_SIZE])
      case None => replica
      case Some(h) =>
        if |image| - HEADER_SIZE < h.dataLen then replica
        else Patch(replica, h.offsetInBlock, image[|image| - h.dataLen..])
  }

  function ReceiveAll(replica: Vec, conn: seq<Pkt>): Vec {
    if conn == [] then replica else Receive(ReceiveAll(replica, conn[..|conn| - 1]), conn[|conn| - 1].image)
  }

  lemma ReceiveSent(replica: Vec, s: Sent)
    requires s.Head().InRange()
    ensures Receive(replica, s.Image()) == Patch(replica, s.offset, s.data)
  {
    hide Encode, Decode, Patch;
    DecodeUndoesEncode(s.Head());
    var image := s.Image();
    assert image[..HEADER_SIZE] == Encode(s.Head());
    assert image[|image| - |s.data|..] == s.data;
  }

  // Lengths, offsets and numbers fit the header's fields.
  ghost predicate Encodable(log: seq<Sent>) {
    forall i :: 0 <= i < |log| ==> log[i].Head().InRange()
  }

  // How far the first m packets of the block reach.
  function Reach(b: Block, m: nat): nat
    requires m <= |b.log|
  {
    Furthest(|b.base|, Pkts(b.log[..m]))
  }

  lemma ReachNext(b: Block, m: nat)
    requires m < |b.log|
    ensures Reach(b, m + 1) == Max(Reach(b, m), b.log[m].offset + |b.log[m].data|)
  {
    hide Furthest, Pkts, Sent.Image;
    assert b.log[..m + 1] == b.log[..m] + [b.log[m]];
    PktsNext(b.log[..m], b.log[m]);
    FurthestNext(|b.base|, Pkts(b.log[..m]), ToPkt(b.log[m]));
  }

  lemma {:induction false} ReachWithin(b: Block, m: nat)
    requires b.Replayable() && |b.base| <= |b.content| && m <= |b.log|
    ensures Reach(b, m) <= |b.content|
  {
    if m == 0 {
      assert b.log[..0] == [];
    } else {
      hide Furthest, Pkts, Reach;
      ReachWithin(b, m - 1);
      ReachNext(b, m - 1);
      assert StretchOf(b.log[m - 1], b.content);
    }
  }

  // Packet m arrives at a replica that holds what the packets before it carry, or more.
  lemma OneMore(b: Block, m: nat, d: nat)
    requires b.Replayable() && |b.base| <= |b.content| && m < |b.log| && b.log[m].Head().InRange()
    requires Reach(b, m) <= d <= |b.content|
    ensures Reach(b, m + 1) <= |b.content|
    ensures Receive(b.content[..d], b.log[m].Image()) == b.content[..Max(d, Reach(b, m + 1))]
  {
    hide Receive, Reach, Patch, Sent.Image;
    var s := b.log[m];
    assert StretchOf(s, b.content) && NoGap(|b.base|, b.log, m);
    hide StretchOf, NoGap;
    ReachWithin(b, m + 1);
    Starts(b, m);
    ReachNext(b, m);
    ReceiveSent(b.content[..d], s);
    StretchEnds(s, b.content);
    PatchExtends(b.content, d, s.offset, s.offset + |s.data|);
  }

  lemma Extended(b: Block, m: nat, d: nat)
    requires b.Replayable() && |b.base| <= |b.content| && m < |b.log| && Encodable(b.log) && d <= |b.content|
    requires Reach(b, m) <= |b.content|
    ensures Reach(b, m + 1) <= |b.content|
    ensures Receive(b.content[..Max(d, Reach(b, m))], b.log[m].Image()) == b.content[..Max(d, Reach(b, m + 1))]
  {
    hide Reach, Receive, Block.Replayable, Sent.Image;
    ReachNext(b, m);
    OneMore(b, m, Max(d, Reach(b, m)));
  }

  lemma Repeated(b: Block, m: nat, d: nat)
    requires b.Replayable() && |b.base| <= |b.content| && m < |b.log| && Encodable(b.log) && d <= |b.content|
    requires Reach(b, m + 1) <= |b.content|
    ensures Receive(b.content[..Max(d, Reach(b, m + 1))], b.log[m].Image()) == b.content[..Max(d, Reach(b, m + 1))]
  {
    hide Reach, Receive, Block.Replayable, Sent.Image;
    ReachNext(b, m);
    OneMore(b, m, Max(d, Reach(b, m + 1)));
  }

  lemma Starts(b: Block, m: nat)
    requires m < |b.log| && NoGap(|b.base|, b.log, m)
    ensures b.log[m].offset <= Reach(b, m)
  {}

  lemma StretchEnds(s: Sent, content: Vec)
    requires StretchOf(s, content)
    ensures s.offset + |s.data| <= |content| && s.data == content[s.offset..s.offset + |s.data|]
  {}

  // A connection that has carried the block's packets from number from to number m,
  // some of them twice in a row, leaves a replica that held at least what came
  // before with the content up to where those packets reach.
  lemma {:induction false} ConnectionCarries(b: Block, conn: seq<Pkt>, from: nat, m: nat, d: nat)
    requires b.Replayable() && |b.base| <= |b.content| && Encodable(b.log)
    requires from <= m <= |b.log| && Squeeze(conn) == Pkts(b.log)[from..m] && Reach(b, from) <= d <= |b.content|
    ensures Reach(b, m) <= |b.content|
    ensures ReceiveAll(b.content[..d], conn) == b.content[..Max(d, Reach(b, m))]
    decreases |conn|
  {
    hide Squeeze, Pkts, Reach, ReceiveAll, Receive, Block.Replayable, Sent.Image, Encodable;
    if conn == [] {
      EmptyConnection(b, from, m, d);
    } else {
      var init, p := conn[..|conn| - 1], conn[|conn| - 1];
      assert conn == init + [p];
      SqueezeNext(init, p);
      ReceiveNext(b.content[..d], init, p);
      if Squeeze(conn) == Squeeze(init) {
        LastCarried(b.log, from, m, p);
        ConnectionCarries(b, init, from, m, d);
        Repeated(b, m - 1, d);
      } else {
        NextCarried(b.log, from, m, Squeeze(init), p);
        ConnectionCarries(b, init, from, m - 1, d);
        Extended(b, m - 1, d);
      }
    }
  }

  lemma EmptyConnection(b: Block, from: nat, m: nat, d: nat)
    requires b.Replayable() && |b.base| <= |b.content| && from <= m <= |b.log| && Squeeze([]) == Pkts(b.log)[from..m]
    requires Reach(b, from) <= d <= |b.content|
    ensures from == m && Max(d, Reach(b, m)) == d && ReceiveAll(b.content[..d], []) == b.content[..d]
  {
    hide Pkts, Furthest;
    assert |Pkts(b.log)[from..m]| == 0;
  }

  lemma ReceiveNext(replica: Vec, conn: seq<Pkt>, p: Pkt)
    ensures ReceiveAll(replica, conn + [p]) == Receive(ReceiveAll(replica, conn), p.image)
  {
    hide Receive;
    assert (conn + [p])[..|conn|] == conn;
  }

  // The last packet of a stretch of the log.
  lemma LastCarried(log: seq<Sent>, from: nat, m: nat, p: Pkt)
    requires from <= m <= |log| && Pkts(log)[from..m] != [] && Pkts(log)[from..m][|Pkts(log)[from..m]| - 1] == p
    ensures from < m && p.image == log[m - 1].Image()
  {
    hide Sent.Image;
    assert Pkts(log)[from..m][m - from - 1] == Pkts(log)[m - 1] == ToPkt(log[m - 1]);
  }

  lemma NextCarried(log: seq<Sent>, from: nat, m: nat, before: seq<Pkt>, p: Pkt)
    requires from <= m <= |log| && before + [p] == Pkts(log)[from..m]
    ensures from < m && before == Pkts(log)[from..m - 1] && p.image == log[m - 1].Image()
  {
    hide Sent.Image;
    assert |before| + 1 == m - from;
    assert before == (before + [p])[..|before|];
    assert Pkts(log)[from..m][m - from - 1] == Pkts(log)[m - 1] == ToPkt(log[m - 1]);
  }

  // ----- over all connections of a block

  // What each datanode has.
  type Store = map<nat, Vec>

  // The first j writes of a connection bring the packets up to number m, and no fewer
  // than have been acknowledged.
  ghost predicate Got(h: History, j: nat, m: nat) {
    && j <= |h.conn| && h.acked <= m <= |h.offered| && h.from <= m
    && Squeeze(h.conn[..j]) == h.offered[h.from..m]
  }

  // A datanode has received the beginning of a connection: it acknowledges only what
  // it has.
  ghost predicate Received(h: History, before: Vec, after: Vec) {
    exists j: nat, m: nat :: Got(h, j, m) && after == ReceiveAll(before, h.conn[..j])
  }

  // What a step of the pipeline's life does to the datanodes.
  ghost predicate StepTo(s: Store, step: Step, t: Store) {
    match step
    case Copied(source, target) => source in s && t == s[target := s[source]]
    case Failed(h, nodes) => forall x :: x in nodes && x in s ==> x in t && Received(h, s[x], t[x])
  }

  // What the datanodes had before and after every step. At first the nodes named had
  // the block as it was.
  ghost predicate Run(t: Trace, base: Vec, stores: seq<Store>) {
    && |stores| == |t.life| + 1
    && (forall x :: x in t.origin ==> x in stores[0] && stores[0][x] == base)
    && (forall i :: 0 <= i < |t.life| ==> StepTo(stores[i], t.life[i], stores[i + 1]))
  }

  // A block as its pipeline saw it.
  ghost predicate Carried(b: Block, t: Trace) {
    && b.Replayable() && Encodable(b.log) && t.all == Pkts(b.log) && t.kept
    && (forall i :: 0 <= i < |t.life| ==> SoundStep(t, |b.base|, i))
  }

  lemma CarriedBefore(b: Block, t: Trace)
    requires Carried(b, t) && t.life != []
    ensures Carried(b, t.(life := t.life[..|t.life| - 1]))
  {
    hide Block.Replayable, Encodable, Pkts, Begins, Holders, History.Valid;
    var u := t.(life := t.life[..|t.life| - 1]);
    forall i | 0 <= i < |u.life| ensures SoundStep(u, |b.base|, i) {
      assert SoundStep(t, |b.base|, i) && u.life[..i] == t.life[..i];
    }
  }

  lemma {:induction false} ReachGrows(b: Block, m: nat, n: nat)
    requires m <= n <= |b.log|
    ensures Reach(b, m) <= Reach(b, n)
    decreases n
  {
    if m < n {
      hide Reach;
      ReachGrows(b, m, n - 1);
      ReachNext(b, n - 1);
    }
  }

  // A replica of at least what was acknowledged before the connection becomes one of
  // at least what has been acknowledged on it.
  lemma OneConnection(b: Block, h: History, before: Vec, after: Vec, d: nat) returns (e: nat)
    requires b.Replayable() && Encodable(b.log) && h.Valid() && h.base == |b.base| && h.offered <= Pkts(b.log)
    requires Reach(b, h.from) <= d <= |b.content| && before == b.content[..d] && Received(h, before, after)
    ensures Reach(b, h.acked) <= e <= |b.content| && after == b.content[..e]
  {
    hide Squeeze, Pkts, Reach, ReceiveAll, Encodable, Consecutive;
    var j: nat, m: nat :| Got(h, j, m) && after == ReceiveAll(before, h.conn[..j]);
    assert h.offered[h.from..m] == Pkts(b.log)[h.from..m];
    hide Block.Replayable;
    ConnectionCarries(b, h.conn[..j], h.from, m, d);
    ReachGrows(b, h.acked, m);
    e := Max(d, Reach(b, m));
  }

  // After any number of failures and recoveries, every node that has followed the
  // block has at least what was acknowledged before the connection that comes next.
  lemma {:induction false} HolderHolds(b: Block, t: Trace, stores: seq<Store>, x: nat) returns (d: nat)
    requires Carried(b, t) && Run(t, b.base, stores) && x in Holders(t.origin, t.life)
    ensures Begins(t.life) <= |b.log| && Reach(b, Begins(t.life)) <= d <= |b.content|
    ensures x in stores[|t.life|] && stores[|t.life|][x] == b.content[..d]
    decreases |t.life|
  {
    var n := |t.life|;
    if n == 0 {
      d := AtFirst(b);
    } else {
      hide Carried, Reach, Holders, Begins, Run, Received;
      var u, rest := t.(life := t.life[..n - 1]), stores[..n];
      CarriedBefore(b, t);
      RunBefore(t, b.base, stores);
      match t.life[n - 1]
      case Copied(source, target) =>
        CopyLast(b, t);
        d := HolderHolds(b, u, rest, if x == target then source else x);
      case Failed(h, nodes) =>
        FailLast(b, t, x);
        d := HolderHolds(b, u, rest, x);
        d := OneConnection(b, h, stores[n - 1][x], stores[n][x], d);
    }
  }

  lemma RunBefore(t: Trace, base: Vec, stores: seq<Store>)
    requires Run(t, base, stores) && t.life != []
    ensures var n := |t.life|;
            && |stores| == n + 1 && StepTo(stores[n - 1], t.life[n - 1], stores[n])
            && Run(t.(life := t.life[..n - 1]), base, stores[..n])
  {
    hide StepTo;
  }

  lemma AtFirst(b: Block) returns (d: nat)
    requires b.Replayable()
    ensures Reach(b, 0) <= d <= |b.content| && b.base == b.content[..d]
  {
    d := |b.base|;
    assert b.log[..0] == [] && b.content[..d] == b.base;
    assert Pkts(b.log[..0]) == [];
  }

  lemma CopyLast(b: Block, t: Trace)
    requires Carried(b, t) && t.life != [] && t.life[|t.life| - 1].Copied?
    ensures var init, last := t.life[..|t.life| - 1], t.life[|t.life| - 1];
            && Begins(t.life) == Begins(init)
            && last.source in Holders(t.origin, init)
            && Holders(t.origin, t.life) == Holders(t.origin, init) + {last.target}
  {
    hide Block.Replayable, Encodable, Pkts;
    assert SoundStep(t, |b.base|, |t.life| - 1);
  }

  lemma FailLast(b: Block, t: Trace, x: nat)
    requires Carried(b, t) && t.life != [] && t.life[|t.life| - 1].Failed? && x in Holders(t.origin, t.life)
    ensures var init, last := t.life[..|t.life| - 1], t.life[|t.life| - 1];
            && x in last.nodes && x in Holders(t.origin, init)
            && last.h.Valid() && last.h.base == |b.base| && last.h.offered <= Pkts(b.log)
            && last.h.from == Begins(init) && last.h.acked == Begins(t.life) <= |b.log|
            && b.Replayable() && Encodable(b.log)
  {
    hide Block.Replayable, Encodable, Pkts, Squeeze, Consecutive;
    assert SoundStep(t, |b.base|, |t.life| - 1);
  }

  // ----- the present connection

  // At every moment every node of the pipeline has at least what has been
  // acknowledged.
  lemma NodeHolds(b: Block, h: History, t: Trace, nodes: seq<nat>, stores: seq<Store>, x: nat,
                  now: Vec) returns (e: nat)
    requires Carried(b, t) && h.Valid() && h.base == |b.base| && Chronicle(t, h.base, h.from, h.offered) &&
             Followed(t, nodes)
    requires Run(t, b.base, stores) && x in nodes && x in stores[|t.life|] && Received(h, stores[|t.life|][x], now)
    ensures h.acked <= |b.log| && Reach(b, h.acked) <= e <= |b.content| && now == b.content[..e]
  {
    hide Reach, Holders, Begins, StepTo, Received, History.Valid, Block.Replayable, Encodable, Pkts, SoundStep;
    assert x in Elements(nodes);
    e := HolderHolds(b, t, stores, x);
    e := OneConnection(b, h, stores[|t.life|][x], now, e);
    Within(h, Pkts(b.log));
  }

  lemma Within(h: History, all: seq<Pkt>)
    requires h.Valid() && h.offered <= all
    ensures h.acked <= |all|
  {}

  // With everything acknowledged they have the whole content.
  lemma AcknowledgedIsHeld(b: Block, h: History, t: Trace, nodes: seq<nat>, stores: seq<Store>, x: nat, now: Vec)
    requires Carried(b, t) && h.Valid() && h.base == |b.base| && Chronicle(t, h.base, h.from, h.offered) &&
             Followed(t, nodes)
    requires Run(t, b.base, stores) && x in nodes && x in stores[|t.life|] && Received(h, stores[|t.life|][x], now)
    requires h.acked == |h.offered| && Furthest(h.base, h.offered) == |b.content|
    ensures now == b.content
  {
    hide SoundStep, Begins, Followed, Run, Received, Carried, Furthest, History.Valid;
    var e := NodeHolds(b, h, t, nodes, stores, x, now);
    AllOffered(b, h, t);
  }

  lemma AllOffered(b: Block, h: History, t: Trace)
    requires Carried(b, t) && h.base == |b.base| && h.offered <= t.all && h.acked == |h.offered| <= |b.log|
    ensures Reach(b, h.acked) == Furthest(h.base, h.offered)
  {
    hide Furthest, Block.Replayable, Encodable, SoundStep;
    forall i | 0 <= i < h.acked ensures Pkts(b.log[..h.acked])[i] == h.offered[i] {
      assert h.offered[i] == Pkts(b.log)[i];
    }
    assert Pkts(b.log[..h.acked]) == h.offered;
  }

  // A closed block: a closing packet that was dropped carried nothing.
  lemma ClosedIsHeld(b: Block, c: Closing, stores: seq<Store>, x: nat, now: Vec)
    requires b.Replayable() && Encodable(b.log) && Acknowledged(b, c) && c.trace.kept
    requires Run(c.trace, b.base, stores) && x in c.nodes && x in stores[|c.trace.life|]
    requires Received(c.h, stores[|c.trace.life|][x], now)
    ensures now == b.content
  {
    hide Run, Received, Pkts, Furthest, Followed, SoundStep, History.Valid, Block.Replayable, Encodable;
    AcknowledgedIsHeld(b, c.h, c.trace, c.nodes, stores, x, now);
  }

  // After a flush the datanodes of the stream's pipeline have the block as written.
  lemma FlushedIsHeld(s: OutputStream, stores: seq<Store>, x: nat, now: Vec)
    requires s.Valid() && !s.lastError && s.block.Stored() == s.block.content && s.Secured() &&
             s.writer.pipeline != null
    requires Encodable(s.block.log) && s.writer.pipeline.trace.kept
    requires var p := s.writer.pipeline;
             && Run(p.trace, s.block.base, stores) && x in p.nodes && x in stores[|p.trace.life|]
             && Received(p.h, stores[|p.trace.life|][x], now)
    ensures now == s.block.content
  {
    hide Run, Received, Pkts, Furthest, Followed, SoundStep, History.Valid, Encodable, Squeeze, Block.Stored,
         Pipeline.Membership;
    var p := s.writer.pipeline;
    AcknowledgedIsHeld(s.block, p.h, p.trace, p.nodes, stores, x, now);
  }
}
