// PipelineImpl: packets go out in order and wait in a queue for their
// acknowledgements; after a failure the pipeline is rebuilt and the queue sent
// again.

module Pipelines {
  import opened Bytes

  // ----- packets, and what the queue protocol promises about them

  // A packet as the pipeline sees it: its number, the end of its data in the
  // block, whether it closes the block, and the bytes to write.
  datatype Pkt = Pkt(seqno: nat, lastByte: nat, last: bool, image: Vec)

  function Max(a: nat, b: nat): nat {
    if a < b then b else a
  }

  // How far into the block these packets reach.
  function Furthest(base: nat, ps: seq<Pkt>): nat {
    if ps == [] then base else Max(Furthest(base, ps[..|ps| - 1]), ps[|ps| - 1].lastByte)
  }

  lemma FurthestNext(base: nat, ps: seq<Pkt>, p: Pkt)
    ensures Furthest(base, ps + [p]) == Max(Furthest(base, ps), p.lastByte)
  {
    assert (ps + [p])[..|ps|] == ps;
  }

  lemma {:induction false} FurthestGrows(base: nat, ps: seq<Pkt>, n: nat)
    requires n <= |ps|
    ensures Furthest(base, ps[..n]) <= Furthest(base, ps)
    decreases |ps|
  {
    if n < |ps| {
      var init := ps[..|ps| - 1];
      assert init[..n] == ps[..n];
      FurthestGrows(base, init, n);
    } else {
      assert ps[..n] == ps;
    }
  }

  // What a connection carried, with a packet written twice in a row counted once.
  function Squeeze(conn: seq<Pkt>): seq<Pkt> {
    if conn == [] then []
    else
      var before := Squeeze(conn[..|conn| - 1]);
      var p := conn[|conn| - 1];
      if before != [] && before[|before| - 1] == p then before else before + [p]
  }

  lemma SqueezeNext(conn: seq<Pkt>, p: Pkt)
    ensures var s := Squeeze(conn);
            Squeeze(conn + [p]) == if s != [] && s[|s| - 1] == p then s else s + [p]
  {
    assert (conn + [p])[..|conn|] == conn;
  }

  lemma {:induction false} SqueezeShorter(conn: seq<Pkt>)
    ensures |Squeeze(conn)| <= |conn|
  {
    if conn != [] { SqueezeShorter(conn[..|conn| - 1]); }
  }

  // Numbered one after the other.
  predicate Consecutive(ps: seq<Pkt>) {
    forall i :: 0 < i < |ps| ==> ps[i].seqno == ps[i - 1].seqno + 1
  }

  // The history of one block's pipeline: the packets handed over, the number of
  // them acknowledged, and the present connection, which has carried the packets
  // from number from to number upto.
  datatype History = History(base: nat, offered: seq<Pkt>, acked: nat, from: nat, upto: nat, conn: seq<Pkt>) {
    ghost predicate Valid() {
      && from <= acked <= upto <= |offered| && Consecutive(offered)
      && Squeeze(conn) == offered[from..upto]
    }

    // The connection has carried each of its packets once.
    ghost predicate CarriedOnce() {
      from <= upto <= |offered| && conn == offered[from..upto]
    }

    function Queue(): seq<Pkt>
      requires acked <= |offered|
    {
      offered[acked..]
    }
  }

  lemma Offer(h: History, p: Pkt)
    requires h.Valid() && (h.offered != [] ==> p.seqno == h.offered[|h.offered| - 1].seqno + 1)
    ensures var g := h.(offered := h.offered + [p]);
            g.Valid() && g.Queue() == h.Queue() + [p]
  {
    hide Squeeze, Consecutive;
    var g := h.(offered := h.offered + [p]);
    ConsecutiveNext(h.offered, p);
    assert g.offered[g.from..g.upto] == h.offered[h.from..h.upto];
  }

  lemma ConsecutiveNext(ps: seq<Pkt>, p: Pkt)
    requires Consecutive(ps) && (ps != [] ==> p.seqno == ps[|ps| - 1].seqno + 1)
    ensures Consecutive(ps + [p])
  {}

  lemma OfferCarries(h: History, p: Pkt)
    requires h.Valid()
    ensures h.(offered := h.offered + [p]).CarriedOnce() == h.CarriedOnce()
  {
    hide Squeeze, Consecutive;
    assert (h.offered + [p])[h.from..h.upto] == h.offered[h.from..h.upto];
  }

  lemma OfferReaches(h: History, p: Pkt)
    requires h.Valid()
    ensures var g := h.(offered := h.offered + [p]);
            && g.offered[..g.acked] == h.offered[..h.acked] && g.offered[..g.upto] == h.offered[..h.upto]
            && g.offered[..|g.offered| - 1] == h.offered
            && Furthest(h.base, h.offered) <= Furthest(g.base, g.offered)
  {
    hide Squeeze;
    FurthestNext(h.base, h.offered, p);
  }

  lemma Acknowledge(h: History)
    requires h.Valid() && h.acked < h.upto
    ensures h.(acked := h.acked + 1).Valid()
    ensures h.(acked := h.acked + 1).Queue() == h.Queue()[1..]
  {}

  // A new connection starts at the first packet not acknowledged.
  lemma Reconnect(h: History)
    requires h.Valid()
    ensures h.(from := h.acked, upto := h.acked, conn := []).Valid()
  {}

  // The next packet is written, or the last one once more.
  lemma Written(h: History)
    requires h.Valid() && h.upto < |h.offered|
    ensures h.(upto := h.upto + 1, conn := h.conn + [h.offered[h.upto]]).Valid()
  {
    hide Squeeze;
    SqueezeNext(h.conn, h.offered[h.upto]);
    SliceNext(h.offered, h.from, h.upto);
    if h.from < h.upto { assert h.offered[h.upto].seqno == h.offered[h.upto - 1].seqno + 1; }
  }

  lemma SliceNext(ps: seq<Pkt>, from: nat, upto: nat)
    requires from <= upto < |ps|
    ensures ps[from..upto + 1] == ps[from..upto] + [ps[upto]]
    ensures from < upto ==> ps[from..upto][upto - from - 1] == ps[upto - 1]
  {}

  lemma WrittenAgain(h: History)
    requires h.Valid() && h.from < h.upto
    ensures h.(conn := h.conn + [h.offered[h.upto - 1]]).Valid()
  {
    hide Squeeze;
    SqueezeNext(h.conn, h.offered[h.upto - 1]);
  }

  // ----- the life of a block's pipeline

  // A replica was copied from one node to another, or the connection through these
  // nodes failed, with this history.
  datatype Step = Copied(source: nat, target: nat) | Failed(h: History, nodes: seq<nat>)

  // The nodes the block began with, what has happened since, every packet ever handed
  // over, and whether the namenode has kept the nodes in use whenever it named others.
  datatype Trace = Trace(origin: seq<nat>, life: seq<Step>, all: seq<Pkt>, kept: bool)

  // The number of the packet with which the connection after these steps begins.
  function Begins(life: seq<Step>): nat {
    if life == [] then 0
    else match life[|life| - 1]
      case Copied(_, _) => Begins(life[..|life| - 1])
      case Failed(h, _) => h.acked
  }

  // The nodes that have followed the block: those of the last connection, and those
  // their replicas were copied to.
  ghost function Holders(origin: seq<nat>, life: seq<Step>): set<nat> {
    if life == [] then Elements(origin)
    else match life[|life| - 1]
      case Copied(_, target) => Holders(origin, life[..|life| - 1]) + {target}
      case Failed(_, nodes) => Elements(nodes)
  }

  // Step i: a replica was copied from a node that had followed the block; or a
  // connection failed that began where the one before it had packets acknowledged,
  // and went through nodes that had followed the block.
  ghost predicate SoundStep(t: Trace, base: nat, i: nat)
    requires i < |t.life|
  {
    var followers := Holders(t.origin, t.life[..i]);
    match t.life[i]
    case Copied(source, _) => t.kept ==> source in followers
    case Failed(g, nodes) =>
      && g.Valid() && g.base == base && g.offered <= t.all && g.from == Begins(t.life[..i])
      && (t.kept ==> Elements(nodes) <= followers)
  }

  ghost predicate Chronicle(t: Trace, base: nat, from: nat, offered: seq<Pkt>) {
    && from == Begins(t.life) && offered <= t.all
    && forall i :: 0 <= i < |t.life| ==> SoundStep(t, base, i)
  }

  ghost predicate Followed(t: Trace, nodes: seq<nat>) {
    t.kept ==> Elements(nodes) <= Holders(t.origin, t.life)
  }

  // Replicas were copied, and nothing else happened.
  ghost predicate Copying(t: Trace, u: Trace) {
    && u.origin == t.origin && u.all == t.all && (u.kept ==> t.kept) && t.life <= u.life
    && forall i :: |t.life| <= i < |u.life| ==> FaithfulCopy(u, i)
  }

  ghost predicate FaithfulCopy(u: Trace, i: nat)
    requires i < |u.life|
  {
    u.life[i].Copied? && (u.kept ==> u.life[i].source in Holders(u.origin, u.life[..i]))
  }

  // All these nodes but number d are among the original ones.
  ghost predicate NoStranger(nodes: seq<nat>, original: seq<nat>, d: int) {
    forall i :: 0 <= i < |nodes| && i != d ==> nodes[i] in original
  }

  lemma NothingCopied(t: Trace)
    ensures Copying(t, t)
  {}

  lemma CopyingGrows(t: Trace, u: Trace)
    requires Copying(t, u)
    ensures |t.life| <= |u.life| && u.all == t.all
  {}

  lemma CopyingNext(t: Trace, u: Trace, v: Trace)
    requires Copying(t, u) && Copying(u, v)
    ensures Copying(t, v)
  {
    hide Holders;
    forall i | |t.life| <= i < |v.life| ensures FaithfulCopy(v, i) {
      if i < |u.life| { assert FaithfulCopy(u, i) && v.life[..i] == u.life[..i]; }
    }
  }

  lemma CopyStep(t: Trace, source: nat, target: nat)
    requires t.kept ==> source in Holders(t.origin, t.life)
    ensures var u := t.(life := t.life + [Copied(source, target)]);
            Copying(t, u) && Holders(u.origin, u.life) == Holders(t.origin, t.life) + {target}
  {
    assert (t.life + [Copied(source, target)])[..|t.life|] == t.life;
  }

  lemma {:induction false} CopiesBegin(t: Trace, u: Trace)
    requires Copying(t, u)
    ensures Begins(u.life) == Begins(t.life)
    decreases |u.life|
  {
    if |t.life| == |u.life| {
      assert t.life == u.life;
    } else {
      CopiedLast(t, u);
      CopiesBegin(t, u.(life := u.life[..|u.life| - 1]));
    }
  }

  lemma CopiedLast(t: Trace, u: Trace)
    requires Copying(t, u) && |t.life| < |u.life|
    ensures u.life[|u.life| - 1].Copied? && Copying(t, u.(life := u.life[..|u.life| - 1]))
  {
    hide Holders;
    var n := |u.life| - 1;
    var v := u.(life := u.life[..n]);
    assert FaithfulCopy(u, n);
    forall i | |t.life| <= i < n ensures FaithfulCopy(v, i) {
      assert FaithfulCopy(u, i) && v.life[..i] == u.life[..i];
    }
  }

  lemma ChronicleCopies(t: Trace, u: Trace, base: nat, from: nat, offered: seq<Pkt>)
    requires Chronicle(t, base, from, offered) && Copying(t, u)
    ensures Chronicle(u, base, from, offered)
  {
    hide Begins, Holders, History.Valid;
    CopiesBegin(t, u);
    forall i | 0 <= i < |u.life| ensures SoundStep(u, base, i) {
      if i < |t.life| {
        assert SoundStep(t, base, i) && u.life[..i] == t.life[..i];
      } else {
        assert FaithfulCopy(u, i);
      }
    }
  }

  // The present connection fails.
  lemma ChronicleFails(t: Trace, h: History, nodes: seq<nat>)
    requires h.Valid() && Chronicle(t, h.base, h.from, h.offered) && Followed(t, nodes)
    ensures var u := t.(life := t.life + [Failed(h, nodes)]);
            Chronicle(u, h.base, h.acked, h.offered) && Holders(u.origin, u.life) == Elements(nodes)
  {
    hide History.Valid, Begins, Holders;
    var u := t.(life := t.life + [Failed(h, nodes)]);
    AfterFailure(t.origin, t.life, h, nodes);
    forall i | 0 <= i < |u.life| ensures SoundStep(u, h.base, i) {
      if i < |t.life| { assert SoundStep(t, h.base, i) && u.life[..i] == t.life[..i]; }
    }
  }

  lemma AfterFailure(origin: seq<nat>, life: seq<Step>, h: History, nodes: seq<nat>)
    ensures var now := life + [Failed(h, nodes)];
            now[..|life|] == life && Begins(now) == h.acked && Holders(origin, now) == Elements(nodes)
  {}

  // Another packet is handed over, or the last one taken back.
  lemma ChronicleOffers(t: Trace, base: nat, from: nat, offered: seq<Pkt>, p: Pkt)
    requires Chronicle(t, base, from, offered) && t.all == offered
    ensures Chronicle(t.(all := t.all + [p]), base, from, offered + [p])
  {
    hide Begins, Holders, History.Valid;
    var u := t.(all := t.all + [p]);
    forall i | 0 <= i < |u.life| ensures SoundStep(u, base, i) {
      assert SoundStep(t, base, i);
    }
  }

  lemma ChronicleDrops(t: Trace, base: nat, from: nat, offered: seq<Pkt>, n: nat)
    requires Chronicle(t, base, from, offered) && n <= |offered|
    ensures Chronicle(t, base, from, offered[..n])
  {
    hide SoundStep, Begins;
  }

  // ----- the environment

  // What the network, the datanodes and the namenode do next. Each step of the
  // pipeline that depends on them takes the next event; an event that does not
  // fit the step, or none being left, is a failure of that step.
  datatype Event =
    | Wrote                                          // a write went through
    | Quiet                                          // nothing to read
    | Ack(seqno: int)                                // all nodes acknowledge a packet
    | AckError(node: nat)                            // a node reports an error
    | Locations(nodes: seq<nat>, ids: seq<nat>)      // the namenode offers nodes
    | Done                                           // an RPC, transfer or connection succeeded
    | BadLink(node: nat)                             // connecting failed at this node
    | Broken                                         // an error the code recovers from
    | Fatal                                          // an error it passes on

  // ----- the pipeline

  datatype LastBlock = LastBlock(pool: nat, id: nat, offset: nat, numBytes: nat, nodes: seq<nat>, storageIDs: seq<nat>)

  // The step at which an error was passed on: asking for another node, with these
  // excluded; copying the replica to it; asking for a new generation stamp;
  // connecting; telling the namenode of the new pipeline.
  datatype Refusal = AtOffer(excluded: seq<nat>) | AtTransfer | AtStamp | AtConnect | AtRecord

  datatype Attempt = Built | Retry | Throw(at: Refusal)

  // How the last recovery ended: with a pipeline, or with the exception that all
  // datanodes are bad, that the retries are used up, that an error is passed on,
  // or that a striped block is not recovered.
  datatype Recovery = Ready | AllBad | GaveUp | Refused(at: Refusal) | NotTried

  // The event a step gets.
  function Upcoming(script: seq<Event>): Event {
    if script == [] then Broken else script[0]
  }

  // The events after that one.
  function Rest(script: seq<Event>): seq<Event> {
    if script == [] then [] else script[1..]
  }

  function After(script: seq<Event>, n: nat): seq<Event> {
    if n <= |script| then script[n..] else []
  }

  // An answer that is no failure: one for the packet in front, a heartbeat's, or
  // none when none is waited for.
  predicate Welcome(e: Event, wait: bool, front: nat) {
    (e.Quiet? && !wait) || (e.Ack? && (e.seqno == -1 || e.seqno == front))
  }

  // What the namenode may offer: known nodes, none twice, none excluded.
  predicate Usable(ns: seq<nat>, ids: seq<nat>, universe: set<nat>, excluded: seq<nat>) {
    && ns != [] && (forall i, j :: 0 <= i < j < |ns| ==> ns[i] != ns[j])
    && (forall i :: 0 <= i < |ns| ==> ns[i] in universe && ns[i] !in excluded)
    && (ids == [] || |ids| == |ns|)
  }

  // Why no pipeline was built for a new block: so many calls to the namenode failed in
  // a row; an error was passed on by it, or by connecting; it offered no node, or
  // nodes that cannot be used; the block could not be given back.
  datatype Denial =
    | TooManyCalls(n: int)
    | PassedOn(e: Event)
    | NotConnected(e: Event)
    | NoNode(e: Event)
    | BadOffer(e: Event, excluded: seq<nat>)
    | NotAbandoned(e: Event)
  {
    ghost predicate Real(blockWriteRetry: int, universe: set<nat>) {
      match this
      case TooManyCalls(n) => blockWriteRetry < n
      case PassedOn(e) => !e.Locations? && e != Broken
      case NotConnected(e) => e == Fatal
      case NoNode(e) => e.Locations? && e.nodes == []
      case BadOffer(e, excluded) => e.Locations? && !Usable(e.nodes, e.ids, universe, excluded)
      case NotAbandoned(e) => e != Done
    }
  }

  // locateNextBlock. Quiet stands for the answer that an earlier block is not
  // replicated yet, which is asked again so many times.
  method LocateNextBlock(script: seq<Event>, blockWriteRetry: nat) returns (e: Event, rest: seq<Event>)
    ensures |rest| <= |script|
    ensures e == Quiet ==> blockWriteRetry < |script| && forall i :: 0 <= i <= blockWriteRetry ==> script[i] == Quiet
    ensures e != Quiet ==> exists n: nat :: AskedAgain(script, n, blockWriteRetry, e) && rest == After(script, n + 1)
  {
    var n := 0;
    e, rest := Upcoming(script), Rest(script);
    while e == Quiet && n < blockWriteRetry
      invariant 0 <= n <= blockWriteRetry && e == Upcoming(After(script, n)) && rest == After(script, n + 1)
      invariant n <= |script| && forall i :: 0 <= i < n ==> script[i] == Quiet
    {
      n := n + 1;
      e, rest := Upcoming(rest), Rest(rest);
    }
    assert e != Quiet ==> AskedAgain(script, n, blockWriteRetry, e);
  }

  ghost predicate AskedAgain(script: seq<Event>, n: nat, retries: nat, e: Event) {
    && n <= retries && n <= |script| && (forall i :: 0 <= i < n ==> script[i] == Quiet)
    && e == Upcoming(After(script, n))
  }

  // buildForNewBlock. Null stands for an exception. The loop ends because every block
  // given back excludes another node. No node found bad is in the pipeline built.
  method BuildForNewBlock(poolMax: nat, replication: nat, canAddDatanode: bool, blockWriteRetry: nat,
                          universe: set<nat>,
                          id: nat, script: seq<Event>)
    returns (p: Pipeline?, ghost denial: Denial, ghost bad: seq<nat>)
    requires 2 <= poolMax && 1 <= blockWriteRetry
    ensures p == null ==> denial.Real(blockWriteRetry, universe)
    ensures p != null ==> fresh(p) && p.Valid() && p.AllWritten() && p.Once() && !p.closing && p.packets == []
    ensures p != null ==> p.h == History(0, [], 0, 0, 0, []) && p.errorIndex == -1 && p.nodes == p.trace.origin
    ensures p != null ==> Distinct(p.nodes) && forall x :: x in p.nodes ==> x in universe && x !in bad
  {
    hide Remaining, Elements, Pipeline.Valid;
    var retryAlloc, excluded, s: seq<Event> := 0, [], script;
    denial := TooManyCalls(0);
    while true
      invariant 0 <= retryAlloc <= blockWriteRetry + 1
      decreases Remaining(universe, excluded), blockWriteRetry + 1 - retryAlloc
    {
      bad := excluded;
      var e;
      e, s := LocateNextBlock(s, blockWriteRetry);
      if e == Broken {
        if retryAlloc > blockWriteRetry {
          return null, TooManyCalls(retryAlloc), bad;
        }
        retryAlloc := retryAlloc + 1;
      } else if !e.Locations? {
        return null, PassedOn(e), bad;
      } else if e.nodes == [] {
        return null, NoNode(e), bad;
      } else if !Usable(e.nodes, e.ids, universe, excluded) {
        return null, BadOffer(e, excluded), bad;
      } else {
        retryAlloc := 0;
        p := new Pipeline(poolMax, replication, canAddDatanode, blockWriteRetry, false, universe,
                          LastBlock(0, id, 0, 0, e.nodes, e.ids), s);
        var r := p.Connect();
        if r == Built {
          return;
        }
        if r.Throw? {
          return null, NotConnected(p.seen), bad;
        }
        s := p.script;
        var abandoned := Upcoming(s);
        s := Rest(s);
        if abandoned != Done {
          return null, NotAbandoned(abandoned), bad;
        }
        FewerLeft(universe, excluded, p.nodes[p.errorIndex]);
        excluded := excluded + [p.nodes[p.errorIndex]];
      }
    }
  }

  class Pipeline {
    const poolMax: nat
    const replication: nat
    const canAddDatanode: bool
    const blockWriteRetry: int
    const striped: bool
    const universe: set<nat>           // the datanodes there are
    var packets: seq<Pkt>
    var bytesAcked: nat
    var bytesSent: nat
    var lastBlock: LastBlock
    var closing: bool                  // stage is PIPELINE_CLOSE
    var nodes: seq<nat>
    var storageIDs: seq<nat>
    var errorIndex: int
    var released: nat                  // packets given back to the pool
    var script: seq<Event>
    ghost var h: History
    ghost var trace: Trace
    ghost var mark: nat                // the steps of the life before room was found for the newest packet
    ghost var seen: Event              // the last event
    ghost var spent: nat               // attempts of a recovery that failed without a bad node
    ghost var outcome: Recovery

    // A pipeline just built for a block of base bytes.
    constructor (poolMax: nat, replication: nat, canAddDatanode: bool, blockWriteRetry: int, striped: bool,
                 universe: set<nat>, lastBlock: LastBlock, script: seq<Event>)
      requires 2 <= poolMax && lastBlock.nodes != [] && Distinct(lastBlock.nodes)
      requires forall i :: 0 <= i < |lastBlock.nodes| ==> lastBlock.nodes[i] in universe
      requires lastBlock.storageIDs == [] || |lastBlock.storageIDs| == |lastBlock.nodes|
      ensures Valid() && AllWritten() && !closing && h == History(lastBlock.numBytes, [], 0, 0, 0, []) && Once()
      ensures trace == Trace(lastBlock.nodes, [], [], true) && errorIndex == -1 && packets == []
      ensures this.poolMax == poolMax && this.script == script && this.striped == striped && nodes == lastBlock.nodes
      ensures this.replication == replication
    {
      this.poolMax, this.replication, this.canAddDatanode := poolMax, replication, canAddDatanode;
      this.blockWriteRetry, this.striped, this.universe := blockWriteRetry, striped, universe;
      this.lastBlock, this.script := lastBlock, script;
      packets, bytesAcked, bytesSent, released := [], lastBlock.numBytes, lastBlock.numBytes, 0;
      nodes, storageIDs, errorIndex, closing := lastBlock.nodes, lastBlock.storageIDs, -1, false;
      h, seen, spent, outcome := History(lastBlock.numBytes, [], 0, 0, 0, []), Done, 0, Ready;
      trace, mark := Trace(lastBlock.nodes, [], [], true), 0;
    }

    method NextEvent() returns (e: Event)
      modifies `script, `seen
      ensures e == seen == Upcoming(old(script))
      ensures script == Rest(old(script)) && |script| <= |old(script)| && (e != Broken ==> |script| < |old(script)|)
    {
      if script == [] {
        e := Broken;
      } else {
        e := script[0];
        script := script[1..];
      }
      seen := e;
    }

    // ----- rebuilding

    ghost predicate Membership()
      reads `nodes, `storageIDs, `errorIndex
    {
      && Distinct(nodes) && (forall i :: 0 <= i < |nodes| ==> nodes[i] in universe)
      && (storageIDs == [] || |storageIDs| == |nodes|) && -1 <= errorIndex < |nodes|
    }

    predicate Acceptable(ns: seq<nat>, ids: seq<nat>, excluded: seq<nat>) {
      Usable(ns, ids, universe, excluded)
    }

    // The pipeline's nodes have followed the block, but for one that is marked bad.
    ghost predicate Stocked()
      reads `nodes, `errorIndex, `trace
    {
      trace.kept ==>
        forall i :: 0 <= i < |nodes| && i != errorIndex ==> nodes[i] in Holders(trace.origin, trace.life)
    }

    // The namenode has named new nodes in place of the original ones; only node d
    // may be another.
    ghost method Named(original: seq<nat>, d: int)
      requires trace.kept ==> forall i :: 0 <= i < |original| ==> original[i] in Holders(trace.origin, trace.life)
      modifies `trace
      ensures trace == old(trace).(kept := old(trace.kept) && NoStranger(nodes, original, d)) &&
              Copying(old(trace), trace)
      ensures trace.kept ==> forall i :: 0 <= i < |nodes| && i != d ==> nodes[i] in Holders(trace.origin, trace.life)
    {
      hide Holders;
      trace := trace.(kept := trace.kept && NoStranger(nodes, original, d));
    }

    ghost predicate Apart(excluded: seq<nat>)
      reads `nodes
    {
      forall i :: 0 <= i < |nodes| ==> nodes[i] !in excluded
    }

    // findNewDatanode: the first node that was not there before; -1 for the
    // exceptions.
    method FindNewDatanode(original: seq<nat>) returns (d: int)
      ensures -1 <= d < |nodes| && (d >= 0 ==> nodes[d] !in original && forall i :: 0 <= i < d ==> nodes[i] in original)
      ensures d == -1 <==> |nodes| != |original| + 1 || forall i :: 0 <= i < |nodes| ==> nodes[i] in original
    {
      if |nodes| != |original| + 1 {
        return -1;
      }
      for i := 0 to |nodes|
        invariant forall j :: 0 <= j < i ==> nodes[j] in original
      {
        if nodes[i] !in original {
          return i;
        }
      }
      return -1;
    }

    // addDatanodeToPipeline. When the transfer fails errorIndex names the new node.
    method AddDatanode(excluded: seq<nat>) returns (r: Attempt)
      requires Membership() && Apart(excluded) && nodes != [] && errorIndex == -1 && Stocked()
      modifies `nodes, `storageIDs, `errorIndex, `script, `seen, `trace
      ensures Membership() && Apart(excluded) && nodes != [] && |script| <= |old(script)|
      ensures Stocked() && Copying(old(trace), trace)
      ensures r == Built ==> errorIndex == -1 && |nodes| == |old(nodes)| + 1 && seen == Done
      ensures r.Throw? ==> Justified(r.at)
      ensures 0 <= errorIndex ==> nodes[errorIndex] !in old(nodes)
    {
      hide Holders, Elements, Acceptable, Distinct, Copying;
      var d;
      r, d := AskForNode(excluded);
      if r != Built {
        return;
      }
      errorIndex := d;
      var e := NextEvent();
      if e == Fatal {
        return Throw(AtTransfer);
      }
      if e != Done {
        return Retry;
      }
      // the replica has been copied from the neighbour, which exists
      ghost var before := trace;
      Copy(if d == 0 then 1 else d - 1);
      CopyingNext(old(trace), before, trace);
      errorIndex := -1;
      return Built;
    }

    // The first half of it: the namenode names the nodes, and the new one is found.
    method AskForNode(excluded: seq<nat>) returns (r: Attempt, d: int)
      requires Membership() && Apart(excluded) && nodes != [] && errorIndex == -1 && Stocked()
      modifies `nodes, `storageIDs, `script, `seen, `trace
      ensures Membership() && Apart(excluded) && nodes != [] && |script| <= |old(script)| && Copying(old(trace), trace)
      ensures r == Built ==> 0 <= d < |nodes| == |old(nodes)| + 1 && nodes[d] !in old(nodes)
      ensures r == Built && trace.kept ==>
                forall i :: 0 <= i < |nodes| && i != d ==> nodes[i] in Holders(trace.origin, trace.life)
      ensures r != Built ==> Stocked()
      ensures r.Throw? ==> Justified(r.at)
    {
      hide Holders;
      var original := nodes;
      d := -1;
      var e := NextEvent();
      if e == Fatal {
        return Throw(AtOffer(excluded)), d;
      }
      if !e.Locations? {
        return Retry, d;
      }
      if !Acceptable(e.nodes, e.ids, excluded) {
        return Throw(AtOffer(excluded)), d;
      }
      nodes, storageIDs := e.nodes, e.ids;
      if |original| != |nodes| {
        d := FindNewDatanode(original);
      }
      Named(original, d);
      r := if d < 0 then Retry else Built;
    }

    // The new node has been given the neighbour's replica.
    ghost method Copy(neighbour: nat)
      requires 0 <= errorIndex < |nodes| && neighbour < |nodes| && neighbour != errorIndex && Stocked()
      modifies `trace
      ensures Copying(old(trace), trace)
      ensures trace.kept ==> forall i :: 0 <= i < |nodes| ==> nodes[i] in Holders(trace.origin, trace.life)
    {
      hide Holders;
      CopyStep(trace, nodes[neighbour], nodes[errorIndex]);
      trace := trace.(life := trace.life + [Copied(nodes[neighbour], nodes[errorIndex])]);
    }

    // createBlockOutputStream: on failure errorIndex names a node.
    method CreateBlockOutputStream() returns (r: Attempt)
      requires Membership() && nodes != []
      modifies `errorIndex, `script, `seen
      ensures Membership() && |script| <= |old(script)|
      ensures var e := Upcoming(old(script));
              && r == (if e == Done then Built else if e == Fatal then Throw(AtConnect) else Retry)
              && errorIndex == (if r == Built then old(errorIndex)
                                else if e.BadLink? && e.node < |nodes| then e.node else 0)
      ensures seen == Upcoming(old(script)) && script == Rest(old(script))
    {
      var e := NextEvent();
      if e == Done {
        return Built;
      }
      errorIndex := 0;
      if e == Fatal {
        return Throw(AtConnect);
      }
      if e.BadLink? && e.node < |nodes| {
        errorIndex := e.node;
      }
      return Retry;
    }

    // The connection of a pipeline for a new block.
    method Connect() returns (r: Attempt)
      requires Valid() && errorIndex == -1
      modifies `errorIndex, `script, `seen
      ensures r == Built ==> Valid() && errorIndex == -1
      ensures r == Retry ==> 0 <= errorIndex < |nodes|
      ensures r.Throw? ==> seen == Fatal
    {
      hide Squeeze, Furthest, Chronicle, Followed;
      r := CreateBlockOutputStream();
    }

    predicate TooFew(n: nat)
      reads `closing
    {
      !closing && n < replication && canAddDatanode
    }

    // The try block of the loop.
    method TryBuild(excluded: seq<nat>) returns (r: Attempt)
      requires Membership() && Apart(excluded) && nodes != [] && errorIndex == -1 && Stocked()
      modifies `nodes, `storageIDs, `errorIndex, `script, `seen, `trace
      ensures Membership() && Apart(excluded) && nodes != [] && |script| <= |old(script)|
      ensures Stocked() && Copying(old(trace), trace)
      ensures r == Built ==> errorIndex == -1 && |nodes| == |old(nodes)| + if TooFew(|old(nodes)|) then 1 else 0
      ensures r.Throw? ==> Justified(r.at)
      ensures old(Upcoming(script) == Upcoming(Rest(script)) == Done && !TooFew(|nodes|)) ==>
                r == Built && script == Rest(Rest(old(script))) && nodes == old(nodes)
    {
      hide Holders, Distinct;
      if TooFew(|nodes|) {
        r := AddDatanode(excluded);
        if r != Built {
          return;
        }
      }
      // so the test for errorIndex that follows never succeeds
      assert errorIndex == -1;
      var e := NextEvent();
      if e == Fatal {
        return Throw(AtStamp);
      }
      if e != Done {
        return Retry;
      }
      r := CreateBlockOutputStream();
    }

    // Take the bad node out.
    method RemoveBad(excluded: seq<nat>) returns (x: seq<nat>)
      requires Membership() && Apart(excluded) && 0 <= errorIndex && nodes != []
      modifies `nodes, `storageIDs
      ensures x == excluded + [old(nodes[errorIndex])] && nodes == old(nodes[..errorIndex] + nodes[errorIndex + 1..])
      ensures Apart(x) && old(nodes[errorIndex]) !in excluded && old(nodes[errorIndex]) in universe
      ensures Distinct(nodes) && (forall i :: 0 <= i < |nodes| ==> nodes[i] in universe)
      ensures storageIDs == [] || |storageIDs| == |nodes|
    {
      x := excluded + [nodes[errorIndex]];
      nodes := nodes[..errorIndex] + nodes[errorIndex + 1..];
      if storageIDs != [] {
        storageIDs := storageIDs[..errorIndex] + storageIDs[errorIndex + 1..];
      }
    }

    // The start of a turn: a bad node, if one is known, is taken out for good.
    method TakeOut(excluded: seq<nat>) returns (x: seq<nat>)
      requires Membership() && Apart(excluded) && nodes != []
      modifies `nodes, `storageIDs, `errorIndex
      ensures nodes != [] ==> Membership() && Apart(x) && errorIndex == -1
      ensures old(errorIndex) < 0 ==> x == excluded && nodes == old(nodes)
      ensures old(errorIndex) >= 0 ==> x == excluded + [old(nodes[errorIndex])]
      ensures old(errorIndex) >= 0 ==> Remaining(universe, x) < Remaining(universe, excluded)
      ensures old(errorIndex) >= 0 ==> |nodes| == |old(nodes)| - 1
      ensures old(Stocked()) && nodes != [] ==> Stocked()
    {
      hide Remaining, Holders;
      x := excluded;
      if errorIndex >= 0 {
        FewerLeft(universe, excluded, nodes[errorIndex]);
        x := RemoveBad(excluded);
        if nodes != [] {
          errorIndex := -1;
        }
      }
    }

    // What stands behind each way a recovery fails.
    ghost predicate Lost()
      reads `outcome, `nodes, `spent, `seen
    {
      match outcome
      case Ready => false
      case AllBad => nodes == []
      case GaveUp => blockWriteRetry <= spent
      case Refused(at) => Justified(at)
      case NotTried => striped
    }

    // The event behind a refusal: an error that is passed on, an offer that cannot be
    // used, or the namenode not recording the new pipeline.
    ghost predicate Justified(at: Refusal)
      reads `seen
    {
      match at
      case AtOffer(excluded) =>
        seen == Fatal || (seen.Locations? && !Acceptable(seen.nodes, seen.ids, excluded))
      case AtRecord => seen != Done
      case _ => seen == Fatal
    }

    // The node marked bad is not the last one, and nothing else goes wrong in the
    // recovery.
    ghost predicate Easy()
      reads `nodes, `errorIndex, `closing, `script
    {
      && 2 <= |nodes| && 0 <= errorIndex < |nodes| && !TooFew(|nodes| - 1)
      && Upcoming(script) == Upcoming(Rest(script)) == Upcoming(Rest(Rest(script))) == Done
    }

    // buildForAppendOrRecovery. False stands for an exception: only when no node is
    // left, the retries are used up, or an error is passed on.
    method Rebuild() returns (built: bool)
      requires Membership() && nodes != [] && Stocked()
      modifies `nodes, `storageIDs, `errorIndex, `script, `lastBlock, `seen, `spent, `outcome, `trace
      ensures |script| <= |old(script)| && (built ==> |script| < |old(script)|)
      ensures built ==> Copying(old(trace), trace) && Followed(trace, nodes)
      ensures old(Easy()) ==> built && script == Rest(Rest(Rest(old(script))))
      ensures built ==> Membership() && nodes != [] && errorIndex == -1 && outcome == Ready
      ensures built ==> lastBlock == old(lastBlock).(nodes := nodes, storageIDs := storageIDs)
      ensures !built ==> lastBlock == old(lastBlock) && Lost()
    {
      hide Holders, Distinct, Copying, Elements;
      built := BuildLoop();
      if !built {
        return;
      }
      AllFollow();
      var e := NextEvent();
      if e != Done {
        outcome := Refused(AtRecord);
        return false;
      }
      lastBlock := lastBlock.(nodes := nodes, storageIDs := storageIDs);
      return true;
    }

    // The constructor for an append: nodes are added before anything is sent.
    method BuildForAppend() returns (built: bool)
      requires Valid() && errorIndex == -1
      modifies `nodes, `storageIDs, `errorIndex, `script, `lastBlock, `seen, `spent, `outcome, `trace
      ensures built ==> Valid()
      ensures !built ==> Lost()
    {
      hide Squeeze, Consecutive, Furthest, Chronicle, Membership, Lost, Copying, Easy, Rest, History.Valid;
      FollowedIsStocked();
      ghost var before := trace;
      built := Rebuild();
      if built {
        ChronicleCopies(before, trace, h.base, h.from, h.offered);
        CopyingGrows(before, trace);
      }
    }

    lemma FollowedIsStocked()
      requires Followed(trace, nodes)
      ensures Stocked()
    {
      hide Holders;
    }

    lemma AllFollow()
      requires Stocked() && errorIndex == -1
      ensures Followed(trace, nodes)
    {
      hide Holders;
    }

    // Its loop. It ends because every turn excludes another node, spends a retry, or
    // finds a node to exclude.
    method BuildLoop() returns (built: bool)
      requires Membership() && nodes != [] && Stocked()
      modifies `nodes, `storageIDs, `errorIndex, `script, `seen, `spent, `outcome, `trace
      ensures |script| <= |old(script)|
      ensures built ==> Membership() && nodes != [] && errorIndex == -1 && outcome == Ready
      ensures built ==> Stocked() && Copying(old(trace), trace)
      ensures !built ==> Lost()
      ensures old(Easy()) ==> built && script == Rest(Rest(old(script)))
    {
      hide Membership, Remaining, Apart, Elements, Stocked, Copying, Upcoming, Rest, TooFew, Justified;
      NoneExcluded();
      NothingCopied(trace);
      var retry, excluded := blockWriteRetry, [];
      var r := Retry;
      var turn := true;
      spent := 0;
      while turn
        invariant !r.Throw? && Membership() && Apart(excluded) && nodes != [] && |script| <= |old(script)|
        invariant retry == blockWriteRetry - spent && (turn || r == Built || retry <= 0)
        invariant r == Built ==> errorIndex == -1
        invariant Stocked() && Copying(old(trace), trace)
        invariant old(Easy()) && turn ==> script == old(script) && nodes == old(nodes) && errorIndex == old(errorIndex)
        invariant old(Easy()) && !turn ==> r == Built && script == Rest(Rest(old(script)))
        decreases turn, Remaining(universe, excluded), retry, if errorIndex < 0 then 1 else 0
      {
        ghost var before := trace;
        excluded, r := Turn(excluded);
        if r.Throw? {
          outcome := if nodes == [] then AllBad else Refused(r.at);
          return false;
        }
        CopyingNext(old(trace), before, trace);
        if r == Retry && errorIndex < 0 {
          retry, spent := retry - 1, spent + 1;
        }
        turn := r != Built && retry > 0;
      }
      built := r == Built;
      outcome := if built then Ready else GaveUp;
    }

    lemma NoneExcluded()
      ensures Apart([])
    {}

    // One turn: take out the bad node and try. A turn that is to be repeated has
    // excluded another node, or not even found one to exclude, or found the first.
    method Turn(excluded: seq<nat>) returns (x: seq<nat>, r: Attempt)
      requires Membership() && Apart(excluded) && nodes != [] && Stocked()
      modifies `nodes, `storageIDs, `errorIndex, `script, `seen, `trace
      ensures |script| <= |old(script)| && (nodes == [] ==> r.Throw?) && (r.Throw? && nodes != [] ==> Justified(r.at))
      ensures !r.Throw? ==> Membership() && Apart(x) && (r == Built ==> errorIndex == -1)
      ensures !r.Throw? ==> Stocked() && Copying(old(trace), trace)
      ensures old(Easy()) ==> r == Built && script == Rest(Rest(old(script)))
      ensures Remaining(universe, x) < Remaining(universe, excluded) || (x == excluded && old(errorIndex) < 0)
    {
      hide Membership, Remaining, Apart, TooFew, Stocked, Copying, Upcoming, Rest, Justified;
      x := TakeOut(excluded);
      if nodes == [] {
        return x, Throw(AtConnect);
      }
      r := TryBuild(x);
    }

    // ----- the queue

    // The queue is the unacknowledged part of what was handed over, the block's
    // length is what has been acknowledged, and no more than was sent has been.
    ghost predicate Valid()
      reads this
    {
      && 2 <= poolMax && Membership() && nodes != [] && h.Valid() && outcome == Ready
      && packets == h.Queue() && released == h.acked
      && lastBlock.numBytes == bytesAcked == Furthest(h.base, h.offered[..h.acked])
      && Furthest(h.base, h.offered[..h.upto]) <= bytesSent <= Furthest(h.base, h.offered)
      && Chronicle(trace, h.base, h.from, h.offered) && Followed(trace, nodes)
      && (closing || trace.all == h.offered)
    }

    // The present connection has carried every packet once.
    ghost predicate Once()
      reads `h
    {
      h.CarriedOnce()
    }

    // Everything handed over has been written to the present connection.
    ghost predicate AllWritten()
      reads this
    {
      h.upto == |h.offered|
    }

    // Only acknowledgements and writes have happened since.
    twostate predicate Onward()
      reads this
    {
      && h.offered == old(h.offered) && h.base == old(h.base) && old(h.acked) <= h.acked
      && closing == old(closing) && old(bytesAcked) <= bytesAcked && old(bytesSent) <= bytesSent
    }

    // processAck for a good acknowledgement of the packet in front.
    method TakeAck()
      requires Valid() && h.acked < h.upto
      modifies `packets, `bytesAcked, `released, `lastBlock, `h
      ensures Valid() && h == old(h).(acked := old(h.acked) + 1) && old(bytesAcked) <= bytesAcked
    {
      hide Squeeze, Consecutive, Furthest, Membership, Chronicle, Followed;
      AckStep(h, bytesAcked);
      bytesAcked := Max(packets[0].lastByte, bytesAcked);
      lastBlock := lastBlock.(numBytes := bytesAcked);
      released := released + 1;
      packets := packets[1..];
      h := h.(acked := h.acked + 1);
    }

    // checkResponse and what follows from it. False stands for an exception.
    method CheckResponse(wait: bool) returns (ok: bool)
      requires Valid() && h.acked < h.upto
      modifies `packets, `bytesAcked, `released, `lastBlock, `errorIndex, `script, `seen, `h
      ensures Valid() && Onward() && |script| <= |old(script)| && (ok ==> |script| < |old(script)|)
      ensures script == Rest(old(script)) && (Upcoming(old(script)) == Broken ==> errorIndex == old(errorIndex))
      ensures h == old(h) || (ok && h == old(h).(acked := old(h.acked) + 1))
      ensures var e, front := Upcoming(old(script)), old(h.offered[h.acked]).seqno;
              && ok == Welcome(e, wait, front)
              && h == if e == Ack(front) then old(h).(acked := old(h.acked) + 1) else old(h)
    {
      hide Squeeze, Furthest, Rest, Chronicle, Followed;
      var e := NextEvent();
      match e
      case Quiet =>
        return !wait;
      case Ack(seqno) =>
        if seqno == -1 {
          return true;
        }
        // The code asserts here that the queue is not empty.
        assert packets != [] && packets[0] == h.offered[h.acked];
        if packets[0].seqno != seqno {
          return false;
        }
        TakeAck();
        return true;
      case AckError(node) =>
        if node < |nodes| {
          errorIndex := node;
        }
        return false;
      case _ =>
        return false;
    }

    // A packet of the queue is written, for the first time on this connection or
    // again.
    method WritePacket(n: nat) returns (ok: bool)
      requires Valid() && n < |packets|
      requires h.acked + n == h.upto || (h.acked + n + 1 == h.upto && h.from < h.upto)
      modifies `bytesSent, `script, `seen, `h
      ensures Valid() && Onward() && script == Rest(old(script)) && |script| <= |old(script)|
      ensures ok == (Upcoming(old(script)) == Wrote) && h == if ok then AfterWrite(old(h), n) else old(h)
    {
      hide Squeeze, Consecutive, Furthest, Membership, Rest, Chronicle, Followed, AfterWrite;
      var e := NextEvent();
      if e != Wrote {
        return false;
      }
      WriteStep(h, n, bytesSent);
      bytesSent := Max(bytesSent, packets[n].lastByte);
      h := AfterWrite(h, n);
      return true;
    }

    // resend, on a new connection.
    method Resend() returns (ok: bool)
      requires Valid() && h.upto == h.acked && !closing && Once()
      modifies `bytesSent, `script, `seen, `h
      ensures Valid() && Onward() && |script| <= |old(script)| && h.acked == old(h.acked) && h.from == old(h.from)
      ensures (ok <==> AllWritten()) && Once()
      ensures old(AllWrote(script, |packets|)) ==> ok && script == After(old(script), |packets|)
    {
      hide Squeeze, Consecutive, Furthest, Membership, Chronicle, Followed;
      for i := 0 to |packets|
        invariant Valid() && Onward() && |script| <= |old(script)| && h.acked == old(h.acked) && h.from == old(h.from)
        invariant h.upto == h.acked + i && Once()
        invariant old(AllWrote(script, |packets|)) ==> script == old(script)[i..]
      {
        SliceNext(h.offered, h.from, h.upto);
        ok := WritePacket(i);
        if !ok {
          return;
        }
      }
      return true;
    }

    // The next n events are writes that go through.
    predicate AllWrote(script: seq<Event>, n: nat) {
      n <= |script| && forall i :: 0 <= i < n ==> script[i] == Wrote
    }

    // In the closing stage at most the empty packet that ends the block is queued.
    ghost predicate Ending()
      requires h.Valid()
      reads `packets, `closing, `h
    {
      closing ==>
        packets == [] ||
        (|packets| == 1 && packets[0].last && h.offered != [] &&
         packets[0].lastByte <= Furthest(h.base, h.offered[..|h.offered| - 1]))
    }

    // Catching the exception: rebuild, to start over on a new connection.
    method Failover() returns (alive: bool)
      requires Valid() && Ending()
      modifies `errorIndex, `script, `nodes, `storageIDs, `lastBlock, `seen, `spent, `outcome, `h, `trace
      ensures alive || Lost()
      ensures |script| <= |old(script)| && (alive ==> |script| < |old(script)|)
      ensures alive ==> Valid() && Ending() && Onward()
      ensures alive ==> h == old(h).(from := old(h.acked), upto := old(h.acked), conn := [])
      ensures alive ==> |old(trace.life)| < |trace.life| && trace.all == old(trace.all)
      ensures old(Spare(script)) ==> alive && script == Rest(Rest(Rest(old(script))))
    {
      hide Squeeze, Consecutive, Furthest, Chronicle, Followed, Membership, Rest, Upcoming, Justified, TooFew,
           Stocked, History.Valid, Copying;
      MarkBad();
      if striped {
        outcome := NotTried;
        return false;
      }
      EndConnection();
      ghost var before := trace;
      alive := Rebuild();
      if alive {
        ChronicleCopies(before, trace, h.base, h.acked, h.offered);
        CopyingGrows(before, trace);
        BeginConnection();
      }
    }

    method MarkBad()
      requires Membership() && nodes != []
      modifies `errorIndex
      ensures Membership() && 0 <= errorIndex < |nodes|
    {
      if errorIndex < 0 {
        errorIndex := 0;
      }
    }

    ghost method BeginConnection()
      requires 2 <= poolMax && Membership() && nodes != [] && h.Valid() && outcome == Ready
      requires packets == h.Queue() && released == h.acked
      requires lastBlock.numBytes == bytesAcked == Furthest(h.base, h.offered[..h.acked])
      requires Furthest(h.base, h.offered[..h.upto]) <= bytesSent <= Furthest(h.base, h.offered)
      requires Chronicle(trace, h.base, h.acked, h.offered) && Followed(trace, nodes)
      requires closing || trace.all == h.offered
      modifies `h
      ensures Valid() && h == old(h).(from := old(h.acked), upto := old(h.acked), conn := [])
    {
      hide Squeeze, Consecutive, Furthest, Chronicle, Followed, Membership;
      Reconnect(h);
      UptoFalls(h);
      h := h.(from := h.acked, upto := h.acked, conn := []);
    }

    ghost method EndConnection()
      requires h.Valid() && Chronicle(trace, h.base, h.from, h.offered) && Followed(trace, nodes)
      modifies `trace
      ensures Chronicle(trace, h.base, h.acked, h.offered) && Stocked()
      ensures trace == old(trace).(life := old(trace.life) + [Failed(h, nodes)])
    {
      hide Chronicle, Followed, Holders, History.Valid;
      ChronicleFails(trace, h, nodes);
      trace := trace.(life := trace.life + [Failed(h, nodes)]);
    }

    // There is a node to spare, and nothing goes wrong in the recovery.
    ghost predicate Spare(script: seq<Event>)
      reads `nodes, `closing
    {
      && !striped && 2 <= |nodes| && !TooFew(|nodes| - 1)
      && Upcoming(script) == Upcoming(Rest(script)) == Upcoming(Rest(Rest(script))) == Done
    }

    // After a recovery in the closing stage the data is all there: the closing
    // packet is dropped.
    method DropClosing()
      requires Valid() && Ending() && closing && packets != [] && h.upto == h.acked
      modifies `packets, `h
      ensures Valid() && Ending() && packets == [] && AllWritten()
      ensures h == old(h).(offered := old(h.offered[..|h.offered| - 1]))
      ensures Furthest(h.base, h.offered) == old(Furthest(h.base, h.offered))
    {
      hide Squeeze, Consecutive, Furthest, Membership, Chronicle, Followed;
      ChronicleDrops(trace, h.base, h.from, h.offered, |h.offered| - 1);
      // The code asserts here that only the closing packet is queued.
      assert |packets| == 1 && packets[0].last;
      Withdraw(h);
      packets := [];
      h := h.(offered := h.offered[..|h.offered| - 1]);
    }

    // What waitForAcks and send do after a failure.
    method Recover() returns (alive: bool)
      requires Valid() && Ending() && packets != []
      modifies this
      ensures alive || Lost()
      ensures alive ==> Valid() && Ending() && Progress() && |script| < |old(script)|
      ensures alive && closing ==> packets == [] && AllWritten()
      ensures alive && !closing ==> packets == old(packets) && h.offered == old(h.offered)
      ensures alive && !closing ==> h.upto == h.acked == old(h.acked)
      ensures alive ==> Once() && |old(trace.life)| < |trace.life| && trace.all == old(trace.all)
      ensures mark == old(mark)
      ensures old(!closing && Spare(script)) ==> alive && script == Rest(Rest(Rest(old(script))))
    {
      hide Squeeze, Consecutive, Furthest, Membership, Lost, Chronicle, Followed, Spare, Rest;
      alive := Failover();
      if alive && closing {
        DropClosing();
      }
    }

    // The packet in front is acknowledged next, at once or after the whole queue has
    // been written.
    ghost predicate Answers()
      reads `packets, `script
    {
      packets != [] && Upcoming(script) == Ack(packets[0].seqno)
    }

    ghost predicate ResendsAnswers()
      reads `packets, `script
    {
      && packets != [] && AllWrote(script, |packets|)
      && Upcoming(After(script, |packets|)) == Ack(packets[0].seqno)
    }

    // The connection fails next, and can be recovered.
    ghost predicate Breaks()
      reads `script, `nodes, `closing
    {
      !closing && Upcoming(script) == Broken && Spare(Rest(script))
    }

    // One wait for an answer, after sending the queue again if need be.
    method AwaitOne(failover: bool) returns (ok: bool)
      requires Valid() && Ending() && packets != []
      requires if failover then h.upto == h.acked && !closing && Once() else h.acked < h.upto
      modifies `packets, `bytesAcked, `bytesSent, `released, `lastBlock, `errorIndex, `script, `seen, `h
      ensures Valid() && Ending() && Onward() && |script| <= |old(script)| && (ok ==> |script| < |old(script)|)
      ensures ok ==> if failover then AllWritten() else h.upto == old(h.upto)
      ensures h.acked <= old(h.acked) + One(ok) && Once() == old(Once())
      ensures !failover && Upcoming(old(script)) == Broken ==>
                !ok && packets == old(packets) && script == Rest(old(script))
      ensures !failover && old(Answers()) ==> ok && packets == old(packets)[1..] && script == Rest(old(script))
      ensures failover && old(ResendsAnswers()) ==>
                ok && packets == old(packets)[1..] && script == Rest(After(old(script), |old(packets)|))
    {
      hide Squeeze, Consecutive, Furthest, Membership, Upcoming, Chronicle, Followed, Rest, AllWrote;
      ok := true;
      if failover {
        ok := Resend();
      }
      if ok {
        ok := CheckResponse(true);
      }
    }

    function One(b: bool): nat {
      if b then 1 else 0
    }

    // One try of send: the newest packet, or after a recovery the whole queue, and a
    // look for an answer.
    method WriteOnce(failover: bool) returns (ok: bool)
      requires Valid() && Ending() && packets != []
      requires if failover then h.upto == h.acked && !closing && Once() else |h.offered| <= h.upto + 1
      modifies `packets, `bytesAcked, `bytesSent, `released, `lastBlock, `errorIndex, `script, `seen, `h
      ensures Valid() && Ending() && Onward() && |script| <= |old(script)|
      ensures ok ==> AllWritten()
      ensures !ok ==> packets == old(packets)
      ensures ok && failover ==> Once()
      ensures ok && !failover ==> (Once() <==> old(Once() && !AllWritten())) && h.from == old(h.from)
      ensures ok && !failover ==> h.conn == old(h.conn) + [h.offered[|h.offered| - 1]]
      ensures !failover && Goes(old(script)) ==>
                ok && packets == old(packets) && script == Rest(Rest(old(script)))
    {
      hide Squeeze, Consecutive, Furthest, Membership, Upcoming, Chronicle, Followed, Rest, AllWrote;
      if failover {
        ok := Resend();
      } else {
        ok := WriteNewest();
      }
      if ok {
        ok := CheckResponse(false);
      }
    }

    method WriteNewest() returns (ok: bool)
      requires Valid() && Ending() && packets != [] && |h.offered| <= h.upto + 1
      modifies `bytesSent, `script, `seen, `h
      ensures Valid() && Ending() && Onward() && script == Rest(old(script)) && |script| <= |old(script)|
      ensures ok == (Upcoming(old(script)) == Wrote)
      ensures if ok then h == AfterWrite(old(h), |packets| - 1) && AllWritten() else h == old(h)
      ensures ok ==> (Once() <==> old(Once() && !AllWritten()))
      ensures ok ==> h.conn == old(h.conn) + [h.offered[|h.offered| - 1]]
    {
      hide Squeeze, Consecutive, Furthest, Membership, Upcoming, Chronicle, Followed, Rest, History.CarriedOnce;
      NewestWritten(h);
      ok := WritePacket(|packets| - 1);
    }

    // While room is waited for, with n packets in the queue and front the number of
    // the first, the connection fails; the recovery and the writes after it go
    // through, and two packets are acknowledged.
    predicate Mishap(script: seq<Event>, n: nat, front: nat) {
      && n + 6 <= |script| && script[0] == Broken && script[1] == script[2] == script[3] == Done
      && AllWrote(script[4..], n) && script[4 + n] == Ack(front) && script[5 + n] == Ack(front + 1)
    }

    lemma MishapSteps(script: seq<Event>, n: nat, front: nat)
      requires Mishap(script, n, front)
      ensures Upcoming(script) == Broken && Rest(Rest(Rest(Rest(script)))) == After(script, 4)
      ensures Upcoming(Rest(script)) == Upcoming(Rest(Rest(script))) == Upcoming(Rest(Rest(Rest(script)))) == Done
      ensures var resent := After(script, 4);
              && AllWrote(resent, n) && Upcoming(After(resent, n)) == Ack(front)
              && Rest(After(resent, n)) == After(script, n + 5)
      ensures Upcoming(After(script, n + 5)) == Ack(front + 1) && Rest(After(script, n + 5)) == After(script, n + 6)
    {}

    // The queue is over full, and that is what happens next.
    ghost predicate Unlucky()
      reads `packets, `script, `nodes, `closing
    {
      && !closing && !striped && 2 <= |nodes| && !TooFew(|nodes| - 1)
      && |packets| == poolMax + 1 && Mishap(script, poolMax + 1, packets[0].seqno)
    }

    // How far it has got: not begun, recovered, one packet acknowledged, or two.
    ghost predicate InPhase(phase: nat, failover: bool, s: seq<Event>, ps: seq<Pkt>)
      reads `packets, `script
    {
      && phase <= 3 && 2 <= |ps| && (failover <==> phase == 1)
      && (phase == 0 ==> script == s && packets == ps)
      && (phase == 1 ==> script == After(s, 4) && packets == ps)
      && (phase == 2 ==> script == After(s, |ps| + 5) && packets == ps[1..])
      && (phase == 3 ==> script == After(s, |ps| + 6) && packets == ps[2..])
    }

    ghost predicate Planned(phase: nat, failover: bool, s: seq<Event>, ps: seq<Pkt>)
      reads `packets, `script, `nodes, `closing
    {
      InPhase(phase, failover, s, ps) && Fated(s, ps) && (phase == 0 ==> Breaks())
    }

    ghost predicate Fated(s: seq<Event>, ps: seq<Pkt>) {
      2 <= |ps| && ps[1].seqno == ps[0].seqno + 1 && Mishap(s, |ps|, ps[0].seqno)
    }

    lemma PhaseMoves(phase: nat, again: bool, s: seq<Event>, ps: seq<Pkt>)
      requires phase < 3 && Fated(s, ps)
      requires phase == 0 ==> again && script == After(s, 4) && packets == ps
      requires phase == 1 ==> !again && script == After(s, |ps| + 5) && packets == ps[1..]
      requires phase == 2 ==> !again && script == After(s, |ps| + 6) && packets == ps[2..]
      ensures Planned(phase + 1, again, s, ps)
    {
      hide After, Mishap, Breaks;
    }

    lemma PhaseAnswers(phase: nat, failover: bool, s: seq<Event>, ps: seq<Pkt>)
      requires Planned(phase, failover, s, ps)
      ensures (failover <==> phase == 1) && Fated(s, ps)
      ensures phase == 0 ==> Breaks() && packets == ps && Rest(Rest(Rest(Rest(script)))) == After(s, 4)
      ensures phase == 1 ==> ResendsAnswers() && packets[1..] == ps[1..]
      ensures phase == 1 ==> Rest(After(script, |packets|)) == After(s, |ps| + 5)
      ensures phase == 2 ==> Answers() && Rest(script) == After(s, |ps| + 6) && packets[1..] == ps[2..]
    {
      hide Rest, After, Upcoming, Mishap, AllWrote, Breaks, Answers, ResendsAnswers;
      if phase == 0 {
        MishapSteps(s, |ps|, ps[0].seqno);
      } else if phase == 1 {
        FirstAnswer(s, ps);
      } else if phase == 2 {
        SecondAnswer(s, ps);
      }
    }

    lemma FirstAnswer(s: seq<Event>, ps: seq<Pkt>)
      requires Fated(s, ps) && script == After(s, 4) && packets == ps
      ensures ResendsAnswers() && Rest(After(script, |packets|)) == After(s, |ps| + 5)
    {
      hide Rest, After, Upcoming, Mishap, AllWrote;
      MishapSteps(s, |ps|, ps[0].seqno);
    }

    lemma SecondAnswer(s: seq<Event>, ps: seq<Pkt>)
      requires Fated(s, ps) && script == After(s, |ps| + 5) && packets == ps[1..]
      ensures Answers() && Rest(script) == After(s, |ps| + 6) && packets[1..] == ps[2..]
    {
      hide Rest, After, Upcoming, Mishap;
      MishapSteps(s, |ps|, ps[0].seqno);
      assert packets[0] == ps[1];
    }

    lemma PhaseSize(phase: nat, failover: bool, s: seq<Event>, ps: seq<Pkt>)
      requires Planned(phase, failover, s, ps)
      ensures |packets| == if phase < 2 then |ps| else |ps| + 1 - phase
      ensures phase == 3 ==> script == After(s, |ps| + 6)
      ensures failover <==> phase == 1
    {
      hide Mishap, After, Breaks;
    }

    lemma FirstTwo()
      requires Valid() && 2 <= |packets|
      ensures packets[1].seqno == packets[0].seqno + 1
    {
      hide Squeeze, Furthest, Membership, Chronicle, Followed;
      assert h.offered[h.acked + 1].seqno == h.offered[h.acked].seqno + 1;
    }

    lemma BadLuck()
      requires Valid() && Unlucky()
      ensures Planned(0, false, script, packets) && |packets| == poolMax + 1
    {
      hide Rest, After, Mishap, TooFew, Squeeze, Furthest, Membership, Chronicle, Followed;
      FirstTwo();
      MishapSteps(script, poolMax + 1, packets[0].seqno);
    }

    // One turn of waitForAcks: an answer is taken, or the pipeline recovered.
    method WaitTurn(failover: bool, ghost phase: nat, ghost s: seq<Event>, ghost ps: seq<Pkt>)
      returns (alive: bool, again: bool)
      requires Valid() && Ending() && packets != []
      requires if failover then h.upto == h.acked && !closing && Once() else h.acked < h.upto
      modifies this
      ensures alive || Lost()
      ensures alive ==> Valid() && Ending() && Progress() && |script| < |old(script)|
      ensures alive ==> |old(trace.life)| <= |trace.life| && trace.all == old(trace.all)
      ensures alive && again ==> Once() && |old(trace.life)| < |trace.life|
      ensures alive && again && closing ==> packets == [] && AllWritten()
      ensures alive && again && !closing ==> packets == old(packets) && h.upto == h.acked && h.offered == old(h.offered)
      ensures alive && !again ==> trace == old(trace) && Once() == old(Once()) && h.offered == old(h.offered)
      ensures alive && !again ==> h.acked <= old(h.acked) + 1
      ensures alive && !again ==> if failover then AllWritten() else h.upto == old(h.upto)
      ensures phase < 3 && old(Planned(phase, failover, s, ps)) ==> alive && Planned(phase + 1, again, s, ps)
    {
      hide Squeeze, Consecutive, Furthest, Membership, Lost, Welcome, Upcoming, Chronicle, Followed, Rest, AllWrote,
           Pipeline.Once, TooFew, Answers, ResendsAnswers, After, Fated, Planned;
      ghost var planned := phase < 3 && Planned(phase, failover, s, ps);
      if planned { PhaseAnswers(phase, failover, s, ps); }
      alive := AwaitOne(failover);
      again := !alive;
      if again {
        alive := Recover();
      }
      if planned { PhaseMoves(phase, again, s, ps); }
    }

    // waitForAcks. Forced, it leaves nothing unacknowledged.
    method WaitForAcks(force: bool) returns (alive: bool)
      requires Valid() && Ending() && (if force then AllWritten() else |h.offered| <= h.upto + 1 && poolMax < |packets|)
      modifies this
      ensures alive || Lost()
      ensures alive ==> Valid() && Ending() && Progress() && |h.offered| <= h.upto + 1
      ensures alive && force ==> packets == []
      ensures old(packets) == [] ==> alive && h == old(h)
      ensures alive && !force ==> packets != [] && h.offered == old(h.offered)
      ensures alive ==> |old(trace.life)| <= |trace.life| && trace.all == old(trace.all)
      ensures alive ==> (Once() <==> old(Once()) || |old(trace.life)| < |trace.life|)
      ensures alive && !force && old(!AllWritten()) ==> (AllWritten() <==> |old(trace.life)| < |trace.life|)
      ensures !force && old(Unlucky()) ==>
                alive && |old(trace.life)| < |trace.life| && script == After(old(script), poolMax + 7)
    {
      hide Squeeze, Consecutive, Furthest, Membership, Lost, Welcome, Upcoming, Chronicle, Followed, Rest, AllWrote,
           Pipeline.Once, Pipeline.Unlucky, Pipeline.Planned, After;
      var failover := false;
      ghost var phase, s, ps := 0, script, packets;
      ghost var unlucky := !force && Unlucky();
      if unlucky { BadLuck(); }
      while packets != []
        invariant Valid() && Ending() && Progress() && (old(packets) == [] ==> packets == [] && h == old(h))
        invariant if failover then h.upto == h.acked && !closing else |h.offered| <= h.upto + 1
        invariant force && !failover ==> AllWritten()
        invariant !force ==> poolMax <= |packets| + 1 && (failover ==> poolMax <= |packets|)
        invariant |old(trace.life)| <= |trace.life| && trace.all == old(trace.all)
        invariant (Once() <==> old(Once()) || |old(trace.life)| < |trace.life|)
        invariant failover ==> Once() && |old(trace.life)| < |trace.life|
        invariant !failover && old(!AllWritten()) ==> (AllWritten() <==> |old(trace.life)| < |trace.life|)
        invariant unlucky ==> phase <= 3 && Planned(phase, failover, s, ps) && |ps| == poolMax + 1
        invariant unlucky && 0 < phase ==> |old(trace.life)| < |trace.life|
        decreases |script|
      {
        if unlucky { PhaseSize(phase, failover, s, ps); }
        if !force && |packets| < poolMax {
          return true;
        }
        alive, failover := WaitTurn(failover, phase, s, ps);
        phase := phase + 1;
        if unlucky { PhaseSize(phase, failover, s, ps); }
        if !alive || (failover && closing) {
          return;
        }
      }
      return true;
    }

    // send. Afterwards the packet and all before it have been written to the present
    // connection, or acknowledged; only a closing packet may have been dropped.
    method Send(p: Pkt) returns (alive: bool)
      requires Valid() && AllWritten() && p.last == closing && (closing ==> packets == [])
      requires h.offered != [] ==> p.seqno == h.offered[|h.offered| - 1].seqno + 1
      requires closing ==> p.lastByte <= Furthest(h.base, h.offered)
      requires trace.all == h.offered
      modifies this
      ensures alive || Lost()
      ensures alive ==> Valid() && Ending() && AllWritten() && closing == old(closing) && h.base == old(h.base)
      ensures alive ==> old(bytesAcked) <= bytesAcked && old(bytesSent) <= bytesSent && old(h.acked) <= h.acked
      ensures alive ==> h.offered == old(h.offered) + [p] || (closing && packets == [] && h.offered == old(h.offered))
      ensures alive ==> trace.all == old(h.offered) + [p] && |old(trace.life)| <= mark <= |trace.life|
      ensures alive && old(|packets|) < poolMax ==> mark == |old(trace.life)|
      ensures alive ==> (Once() <==> mark < |trace.life| || (mark == |old(trace.life)| && old(Once())))
      ensures alive && |old(trace.life)| < mark == |trace.life| ==> h.conn == h.offered[h.from..h.upto] + [p]
      ensures old(|packets| < poolMax && Goes(script)) ==>
                && alive && packets == old(packets) + [p] && trace.life == old(trace.life) && nodes == old(nodes)
                && script == Rest(Rest(old(script)))
      ensures old(Overfull()) ==> alive && |old(trace.life)| < mark == |trace.life|
    {
      hide Squeeze, Consecutive, Furthest, Membership, Lost, Ending, History.Valid, Chronicle, Followed, Goes, Mishap,
           After, Rest, TooFew;
      Enqueue(p);
      alive := Dispatch();
    }

    // What follows when a packet has joined the queue.
    method Dispatch() returns (alive: bool)
      requires Valid() && Ending() && packets != [] && h.upto + 1 == |h.offered|
      modifies this
      ensures alive || Lost()
      ensures alive ==> Valid() && Ending() && Progress() && AllWritten()
      ensures alive ==> |old(trace.life)| <= mark <= |trace.life| && trace.all == old(trace.all)
      ensures alive && old(|packets|) <= poolMax ==> mark == |old(trace.life)|
      ensures alive ==> (Once() <==> mark < |trace.life| || (mark == |old(trace.life)| && old(Once())))
      ensures alive && |old(trace.life)| < mark == |trace.life| ==>
                h.offered == old(h.offered) && h.conn == h.offered[h.from..h.upto] + [h.offered[|h.offered| - 1]]
      ensures old(|packets| <= poolMax && Goes(script)) ==>
                && alive && packets == old(packets) && trace == old(trace) && nodes == old(nodes)
                && script == Rest(Rest(old(script)))
      ensures old(Unlucky() && Goes(After(script, poolMax + 7))) ==> alive && |old(trace.life)| < mark == |trace.life|
    {
      hide Squeeze, Consecutive, Furthest, Membership, Lost, Ending, History.Valid, Chronicle, Followed, Goes,
           Unlucky, After, Rest;
      alive := MakeRoom();
      if alive {
        alive := WriteOut();
      }
    }

    // The wait for room, if the queue has grown past the pool.
    method MakeRoom() returns (alive: bool)
      requires Valid() && Ending() && packets != [] && h.upto + 1 == |h.offered|
      modifies this
      ensures alive || Lost()
      ensures alive ==> Valid() && Ending() && Progress() && packets != [] && h.offered == old(h.offered)
      ensures alive ==> |h.offered| <= h.upto + 1 && trace.all == old(trace.all)
      ensures alive ==> |old(trace.life)| <= mark == |trace.life|
      ensures old(|packets|) <= poolMax ==>
                alive && unchanged(`packets, `script, `nodes, `h, `trace, `closing, `bytesSent, `bytesAcked)
      ensures alive ==> (Once() <==> old(Once()) || |old(trace.life)| < mark)
      ensures alive ==> (AllWritten() <==> |old(trace.life)| < mark)
      ensures old(Unlucky()) ==> alive && |old(trace.life)| < mark && script == After(old(script), poolMax + 7)
    {
      hide Squeeze, Consecutive, Furthest, Membership, Lost, History.Valid, Chronicle, Followed, Mishap, After,
           TooFew, Pipeline.Once;
      alive := true;
      if |packets| > poolMax {
        alive := WaitForAcks(false);
      }
      mark := |trace.life|;
    }

    method Enqueue(p: Pkt)
      requires Valid() && AllWritten() && p.last == closing && (closing ==> packets == [])
      requires h.offered != [] ==> p.seqno == h.offered[|h.offered| - 1].seqno + 1
      requires closing ==> p.lastByte <= Furthest(h.base, h.offered)
      requires trace.all == h.offered
      modifies `packets, `h, `trace
      ensures Valid() && Ending() && packets == old(packets) + [p] && h == old(h).(offered := old(h.offered) + [p])
      ensures trace == old(trace).(all := h.offered) && Once() == old(Once())
    {
      hide Squeeze, Consecutive, Membership, Furthest, Chronicle, Holders, Elements, History.CarriedOnce;
      Offer(h, p);
      OfferReaches(h, p);
      OfferCarries(h, p);
      ChronicleOffers(trace, h.base, h.from, h.offered, p);
      packets := packets + [p];
      h := h.(offered := h.offered + [p]);
      trace := trace.(all := trace.all + [p]);
    }

    // The next write goes through, and no answer is there.
    predicate Goes(script: seq<Event>) {
      Upcoming(script) == Wrote && Upcoming(Rest(script)) == Quiet
    }

    // A full queue, a node to spare, and a connection that fails while room is waited
    // for, with nothing going wrong after that.
    ghost predicate Overfull()
      reads `packets, `script, `nodes, `closing
    {
      && !closing && !striped && 2 <= |nodes| && !TooFew(|nodes| - 1) && 0 < poolMax == |packets|
      && Mishap(script, poolMax + 1, packets[0].seqno) && Goes(After(script, poolMax + 7))
    }

    // The loop of send: write the newest packet, or after a recovery all of them.
    method WriteOut() returns (alive: bool)
      requires Valid() && Ending() && packets != [] && |h.offered| <= h.upto + 1
      modifies this
      ensures alive || Lost()
      ensures alive ==> Valid() && Ending() && Progress() && AllWritten()
      ensures mark == old(mark) && (alive ==> |old(trace.life)| <= |trace.life| && trace.all == old(trace.all))
      ensures alive ==> (Once() <==> |old(trace.life)| < |trace.life| || old(Once() && !AllWritten()))
      ensures alive && |old(trace.life)| == |trace.life| ==>
                && h.offered == old(h.offered) != [] && h.from == old(h.from)
                && h.conn == old(h.conn) + [h.offered[|h.offered| - 1]]
      ensures old(Goes(script)) ==>
                alive && trace == old(trace) && packets == old(packets) && nodes == old(nodes) &&
                    script == Rest(Rest(old(script)))
    {
      hide Squeeze, Consecutive, Furthest, Membership, Lost, Welcome, Upcoming, Chronicle, Followed, Rest, AllWrote,
           Pipeline.Once;
      var failover := false;
      while true
        invariant Valid() && Ending() && Progress() && packets != []
        invariant if failover then h.upto == h.acked && !closing else |h.offered| <= h.upto + 1
        invariant mark == old(mark) && trace.all == old(trace.all)
        invariant if failover then |old(trace.life)| < |trace.life| && Once() else trace == old(trace) && h == old(h)
        invariant !failover ==> script == old(script) && packets == old(packets) && nodes == old(nodes)
        invariant old(Goes(script)) ==> !failover
        decreases |script|
      {
        var ok := WriteOnce(failover);
        if ok {
          return true;
        }
        alive := Recover();
        failover := true;
        if !alive || closing {
          return;
        }
      }
    }

    // flush: everything handed over has been acknowledged.
    method Flush() returns (alive: bool)
      requires Valid() && AllWritten() && !closing
      modifies this
      ensures alive || Lost()
      ensures alive ==> Valid() && AllWritten() && !closing && packets == [] && h.acked == |h.offered|
      ensures alive ==> h.offered == old(h.offered) && h.base == old(h.base)
      ensures alive ==> lastBlock.numBytes == bytesAcked == Furthest(h.base, h.offered)
    {
      hide Squeeze, Consecutive, Furthest, Membership, Lost, Chronicle, Followed, Pipeline.Once, Unlucky, After;
      alive := WaitForAcks(true);
      if alive {
        assert h.offered[..h.acked] == h.offered;
      }
    }

    // No more has been acknowledged than was sent, nor sent than was handed over.
    lemma AckedWithinSent()
      requires Valid()
      ensures bytesAcked <= bytesSent <= Furthest(h.base, h.offered)
    {
      hide Squeeze, Membership;
      UptoFalls(h);
    }

    // close: every data packet has been acknowledged, and the block's length is the
    // end of the data.
    method Close(lastPacket: Pkt) returns (alive: bool)
      requires Valid() && AllWritten() && !closing && lastPacket.last
      requires h.offered != [] ==> lastPacket.seqno == h.offered[|h.offered| - 1].seqno + 1
      requires lastPacket.lastByte <= Furthest(h.base, h.offered)
      modifies this
      ensures alive || Lost()
      ensures alive ==> Valid() && packets == [] && h.acked == |h.offered|
      ensures alive ==> h.base == old(h.base)
      ensures alive ==> h.offered == old(h.offered) || h.offered == old(h.offered) + [lastPacket]
      ensures alive ==> lastBlock.numBytes == bytesAcked == old(Furthest(h.base, h.offered))
      ensures alive ==> trace.all == old(h.offered) + [lastPacket]
    {
      hide Squeeze, Consecutive, Furthest, Membership, Lost, Chronicle, Followed, Pipeline.Once, Goes, Overfull,
           Unlucky, After, Rest;
      alive := WaitForAcks(true);
      if !alive {
        return;
      }
      Drained();
      closing := true;
      alive := SendLast(lastPacket, old(h.offered));
      if alive {
        lastBlock := lastBlock.(numBytes := bytesAcked);
      }
    }

    lemma Drained()
      requires Valid() && packets == []
      ensures AllWritten() && h.acked == |h.offered|
    {
      hide Squeeze, Consecutive, Furthest, Membership, Chronicle, Followed;
    }

    // In the closing stage, with nothing unacknowledged.
    method SendLast(p: Pkt, ghost data: seq<Pkt>) returns (alive: bool)
      requires Valid() && AllWritten() && packets == [] && closing && p.last && h.offered == trace.all == data
      requires data != [] ==> p.seqno == data[|data| - 1].seqno + 1
      requires p.lastByte <= Furthest(h.base, data)
      modifies this
      ensures alive || Lost()
      ensures alive ==> Valid() && packets == [] && h.base == old(h.base) && closing
      ensures alive ==> trace.all == data + [p] && (h.offered == data || h.offered == data + [p])
      ensures alive ==> h.acked == |h.offered| && bytesAcked == Furthest(h.base, data)
    {
      hide Squeeze, Consecutive, Furthest, Membership, Lost, Chronicle, Followed, Pipeline.Once, Goes, Overfull,
           Unlucky, After, Rest;
      alive := Send(p);
      if alive {
        assert (data + [p])[..|data|] == data;
        alive := WaitForAcks(true);
        if alive { AllAcked(h, data, p); }
      }
    }

    // Acknowledgements and writes, and at most the closing packet dropped.
    twostate predicate Progress()
      reads this
    {
      && h.base == old(h.base) && old(h.acked) <= h.acked && closing == old(closing)
      && old(bytesAcked) <= bytesAcked && old(bytesSent) <= bytesSent
      && (h.offered == old(h.offered) ||
          (closing && packets == [] && |h.offered| + 1 == |old(h.offered)| &&
              h.offered == old(h.offered)[..|h.offered|]))
    }
  }

  // A pool of two, two packets queued and written. The connection fails while the
  // third waits for room; all three are written to the next one, and then the third
  // once more.
  method WrittenTwice(a: Pkt, b: Pkt, c: Pkt) returns (pl: Pipeline)
    requires a.seqno == 0 && b.seqno == 1 && c.seqno == 2 && !a.last && !b.last && !c.last
    ensures pl.Valid() && pl.h.offered == [a, b, c] && pl.AllWritten()
    ensures pl.h.conn == pl.h.offered[pl.h.from..pl.h.upto] + [c] && !pl.Once()
  {
    hide Pipeline.Valid, Pipeline.Ending, Pipeline.Mishap, Pipeline.Goes, After, Rest, Upcoming;
    var script := [Wrote, Quiet, Wrote, Quiet] + TroubledTimes();
    pl := new Pipeline(2, 1, false, 3, false, {0, 1}, LastBlock(0, 0, 0, 0, [0, 1], []), script);
    Troubled(pl);
    var ok := pl.Send(a);
    ok := pl.Send(b);
    ok := pl.Send(c);
  }

  function TroubledTimes(): seq<Event> {
    [Broken, Done, Done, Done, Wrote, Wrote, Wrote, Ack(0), Ack(1), Wrote, Quiet]
  }

  lemma Troubled(pl: Pipeline)
    ensures var s := [Wrote, Quiet, Wrote, Quiet] + TroubledTimes();
            && pl.Goes(s) && pl.Goes(Rest(Rest(s))) && Rest(Rest(Rest(Rest(s)))) == TroubledTimes()
            && pl.Mishap(TroubledTimes(), 3, 0) && pl.Goes(After(TroubledTimes(), 9))
  {
    var s := [Wrote, Quiet, Wrote, Quiet] + TroubledTimes();
    assert Rest(Rest(s)) == s[2..] && Rest(Rest(s[2..])) == s[4..] == TroubledTimes();
  }

  lemma UptoFalls(h: History)
    requires h.Valid()
    ensures Furthest(h.base, h.offered[..h.acked]) <= Furthest(h.base, h.offered[..h.upto])
  {
    FurthestGrows(h.base, h.offered[..h.upto], h.acked);
    assert h.offered[..h.upto][..h.acked] == h.offered[..h.acked];
  }

  lemma AllAcked(h: History, data: seq<Pkt>, p: Pkt)
    requires h.Valid() && h.Queue() == [] && p.lastByte <= Furthest(h.base, data)
    requires h.offered == data || h.offered == data + [p]
    ensures h.acked == |h.offered| && Furthest(h.base, h.offered[..h.acked]) == Furthest(h.base, data)
  {
    hide Squeeze, Consecutive;
    assert h.offered[..h.acked] == h.offered;
    FurthestNext(h.base, data, p);
  }

  lemma Withdraw(h: History)
    requires h.Valid() && h.upto == h.acked && h.acked + 1 == |h.offered|
    requires h.offered[h.acked].lastByte <= Furthest(h.base, h.offered[..h.acked])
    ensures var g := h.(offered := h.offered[..h.acked]);
            g.Valid() && g.Queue() == [] && Furthest(g.base, g.offered) == Furthest(h.base, h.offered)
    ensures h.offered[..h.acked][..h.acked] == h.offered[..h.acked]
  {
    hide Squeeze;
    assert h.offered[..h.acked][h.from..h.upto] == h.offered[h.from..h.upto];
    assert h.offered == h.offered[..h.acked] + [h.offered[h.acked]];
    FurthestNext(h.base, h.offered[..h.acked], h.offered[h.acked]);
  }

  lemma AckStep(h: History, bytesAcked: nat)
    requires h.Valid() && h.acked < h.upto && bytesAcked == Furthest(h.base, h.offered[..h.acked])
    ensures var g := h.(acked := h.acked + 1);
            && h.Queue() != [] && g.Valid() && g.Queue() == h.Queue()[1..]
            && Max(h.Queue()[0].lastByte, bytesAcked) == Furthest(g.base, g.offered[..g.acked])
  {
    hide Squeeze;
    Acknowledge(h);
    FurthestNext(h.base, h.offered[..h.acked], h.Queue()[0]);
    assert h.offered[..h.acked + 1] == h.offered[..h.acked] + [h.Queue()[0]];
  }

  // The history after packet n of the queue has been written.
  function AfterWrite(h: History, n: nat): History
    requires h.acked + n < |h.offered|
  {
    if h.acked + n == h.upto then h.(upto := h.upto + 1, conn := h.conn + [h.offered[h.acked + n]])
    else h.(conn := h.conn + [h.offered[h.acked + n]])
  }

  // The newest packet is written to a connection that has carried it already, or to
  // one that has not.
  lemma NewestWritten(h: History)
    requires h.Valid() && h.Queue() != [] && |h.offered| <= h.upto + 1
    ensures var g := AfterWrite(h, |h.Queue()| - 1);
            && g.upto == |g.offered| && g.conn == h.conn + [h.offered[|h.offered| - 1]]
            && (g.CarriedOnce() <==> h.CarriedOnce() && h.upto < |h.offered|)
  {
    hide Squeeze, Consecutive;
    SqueezeShorter(h.conn);
    if h.upto < |h.offered| {
      SliceNext(h.offered, h.from, h.upto);
      var g := AfterWrite(h, |h.Queue()| - 1);
      assert g.conn[..|h.conn|] == h.conn;
      assert g.offered[g.from..g.upto][..h.upto - h.from] == h.offered[h.from..h.upto];
    }
  }

  lemma WriteStep(h: History, n: nat, bytesSent: nat)
    requires h.Valid() && n < |h.Queue()|
    requires h.acked + n == h.upto || (h.acked + n + 1 == h.upto && h.from < h.upto)
    requires Furthest(h.base, h.offered[..h.upto]) <= bytesSent <= Furthest(h.base, h.offered)
    ensures var g, sent := AfterWrite(h, n), Max(bytesSent, h.Queue()[n].lastByte);
            && g.Valid() && g.Queue() == h.Queue()
            && g.base == h.base && g.offered == h.offered && g.acked == h.acked && g.from == h.from
            && Furthest(g.base, g.offered[..g.upto]) <= sent <= Furthest(g.base, g.offered)
  {
    hide Squeeze, Consecutive, Furthest;
    WriteReaches(h.base, h.offered, h.acked + n, bytesSent);
    if h.acked + n == h.upto { Written(h); } else { WrittenAgain(h); }
  }

  // A packet written now or before is covered by the larger of bytesSent and its end.
  lemma WriteReaches(base: nat, offered: seq<Pkt>, i: nat, bytesSent: nat)
    requires i < |offered| && bytesSent <= Furthest(base, offered)
    ensures Max(bytesSent, offered[i].lastByte) <= Furthest(base, offered)
    ensures Furthest(base, offered[..i]) <= bytesSent ==>
              Furthest(base, offered[..i + 1]) <= Max(bytesSent, offered[i].lastByte)
  {
    assert offered[..i + 1] == offered[..i] + [offered[i]];
    FurthestNext(base, offered[..i], offered[i]);
    FurthestGrows(base, offered, i + 1);
  }

  // A queue that has grown past the pool, its newest packet not yet written, is waited on
  // until it is smaller than the pool. The second packet waited for has been written
  // exactly when the pool holds two packets or more.
  lemma WaitedForIsWritten(h: History, poolMax: nat)
    requires h.Valid() && |h.Queue()| == poolMax + 1 && h.upto + 1 == |h.offered|
    ensures h.acked + 1 < h.upto <==> 2 <= poolMax
  {}

  // With a pool of one, the second packet waited for has not been written.
  lemma PoolOfOneWaitsInVain(a: Pkt, b: Pkt)
    requires b.seqno == a.seqno + 1
    ensures var h := History(0, [a, b], 0, 0, 1, [a]);
            h.Valid() && |h.Queue()| == 2 && h.upto + 1 == |h.offered| && !(h.acked + 1 < h.upto)
  {
    SqueezeNext([], a);
    assert [] + [a] == [a];
  }

  // When the namenode names one node more than there were, only the first new one is
  // given a replica. It is the only new one if and only if the namenode has kept all
  // the others.
  lemma NoStrangerIff(nodes: seq<nat>, original: seq<nat>, d: nat)
    requires Distinct(nodes) && Distinct(original) && |nodes| == |original| + 1 && d < |nodes| && nodes[d] !in original
    ensures NoStranger(nodes, original, d) <==> forall i :: 0 <= i < |original| ==> original[i] in nodes
  {
    var others, before := Elements(nodes) - {nodes[d]}, Elements(original);
    DistinctSize(nodes);
    DistinctSize(original);
    if NoStranger(nodes, original, d) {
      assert others <= before;
      SameSize(others, before);
      forall i | 0 <= i < |original| ensures original[i] in nodes { assert original[i] in before; }
    } else if forall i :: 0 <= i < |original| ==> original[i] in nodes {
      assert before <= others;
      SameSize(before, others);
      forall i | 0 <= i < |nodes| && i != d ensures nodes[i] in original { assert nodes[i] in others; }
    }
  }

  // Two nodes, of which the namenode keeps one and names two more: the third has no
  // replica.
  lemma StrangerHasNothing()
    ensures !NoStranger([1, 3, 4], [1, 2], 1) && 4 !in Holders([1, 2], [Copied(1, 3)])
  {
    assert [Copied(1, 3)][..0] == [];
    assert [1, 3, 4][2] == 4;
  }

  lemma {:induction false} DistinctSize(s: seq<nat>)
    requires Distinct(s)
    ensures |Elements(s)| == |s|
  {
    if s != [] {
      var init, x := s[..|s| - 1], s[|s| - 1];
      DistinctSize(init);
      assert Elements(s) == Elements(init) + {x} && x !in Elements(init);
    }
  }

  lemma SameSize(a: set<nat>, b: set<nat>)
    requires a <= b && |a| == |b|
    ensures a == b
  {
    assert |b - a| == |b| - |a|;
  }

  lemma FewerLeft(universe: set<nat>, excluded: seq<nat>, x: nat)
    requires x in universe && x !in excluded
    ensures Remaining(universe, excluded + [x]) < Remaining(universe, excluded)
  {
    var a, b := universe - Elements(excluded), universe - Elements(excluded + [x]);
    assert a == b + {x} && x !in b;
  }

  function Elements(s: seq<nat>): set<nat> {
    set x | x in s
  }

  // How many nodes there are left to exclude.
  ghost function Remaining(universe: set<nat>, excluded: seq<nat>): nat {
    |universe - Elements(excluded)|
  }
}
