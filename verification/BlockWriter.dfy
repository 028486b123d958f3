// What the output stream sends packets with: the pool it takes packets from and the
// pipeline of the block being written, which gives them back when acknowledged.

module BlockWriters {
  import opened Bytes
  import opened PacketHeaders
  import opened Packets
  import opened WriteLog
  import opened Pipelines
  import opened Blocks

  datatype Conf = Conf(poolMax: nat, replication: nat, canAddDatanode: bool, blockWriteRetry: int, universe: set<nat>)

  // What a pipeline meets with: the nodes of the block, if it is one to append to, and
  // the events from then on.
  datatype Setup = Setup(nodes: seq<nat>, ids: seq<nat>, id: nat, script: seq<Event>)

  // The nodes of the block are known, some, and none twice.
  ghost predicate Sane(s: Setup, universe: set<nat>) {
    && s.nodes != [] && Distinct(s.nodes) && (forall i :: 0 <= i < |s.nodes| ==> s.nodes[i] in universe)
    && (s.ids == [] || |s.ids| == |s.nodes|)
  }

  ghost predicate Configured(conf: Conf, setups: nat -> Setup) {
    2 <= conf.poolMax && 1 <= conf.blockWriteRetry && forall n :: Sane(setups(n), conf.universe)
  }

  // The packet is the one recorded.
  ghost predicate Carries(q: Packet, p: Sent)
    reads q
  {
    && q.Valid() && q.offsetInBlock == p.offset && q.seqno == p.seqno && q.lastPacketInBlock == p.last
    && q.Data() == p.data && q.Sums() == p.sums
  }

  // So what it is sent with, now or again, is the recorded image.
  lemma CarriesImage(q: Packet, p: Sent)
    requires Carries(q, p)
    ensures q.Image() == p.Image() && q.Head() == p.Head()
  {
    hide Encode;
    assert q.Head() == p.Head();
  }

  // The packets in flight are the last ones of the log, unchanged.
  ghost predicate Unchanged(inFlight: seq<Packet>, log: seq<Sent>)
    reads inFlight
  {
    |inFlight| <= |log| && forall i :: 0 <= i < |inFlight| ==> Carries(inFlight[i], log[|log| - |inFlight| + i])
  }

  lemma UnchangedNext(inFlight: seq<Packet>, log: seq<Sent>, q: Packet, p: Sent)
    requires Unchanged(inFlight, log) && Carries(q, p)
    ensures Unchanged(inFlight + [q], log + [p])
  {
    hide Carries;
  }

  lemma UnchangedRest(inFlight: seq<Packet>, log: seq<Sent>)
    requires Unchanged(inFlight, log) && inFlight != []
    ensures Unchanged(inFlight[1..], log)
  {
    hide Carries;
    forall i | 0 <= i < |inFlight| - 1 ensures Carries(inFlight[1..][i], log[|log| - |inFlight[1..]| + i]) {
      assert inFlight[1..][i] == inFlight[i + 1];
    }
  }

  // No packet serves two purposes.
  ghost predicate Separate(pool: seq<Packet>, inFlight: seq<Packet>, packets: set<Packet>) {
    && Distinct(pool) && Distinct(inFlight) && (forall q :: q in pool ==> q in packets && q !in inFlight)
    && (forall q :: q in inFlight ==> q in packets)
  }

  // A packet leaves the pool.
  lemma Taken(pool: seq<Packet>, inFlight: seq<Packet>, packets: set<Packet>)
    requires Separate(pool, inFlight, packets) && pool != []
    ensures Separate(pool[1..], inFlight, packets) && pool[0] in packets && pool[0] !in pool[1..] &&
            pool[0] !in inFlight
  {
    var rest := pool[1..];
    forall q | q in rest ensures q in pool {}
    forall i, j | 0 <= i < j < |rest| ensures rest[i] != rest[j] {
      assert rest[i] == pool[i + 1] && rest[j] == pool[j + 1];
    }
    forall i | 0 <= i < |rest| ensures rest[i] != pool[0] {
      assert rest[i] == pool[i + 1];
    }
  }

  // The first packet in flight goes to the pool, or nowhere.
  lemma GivenBack(pool: seq<Packet>, inFlight: seq<Packet>, packets: set<Packet>)
    requires Separate(pool, inFlight, packets) && inFlight != []
    ensures Separate(pool, inFlight[1..], packets) && Separate(pool + [inFlight[0]], inFlight[1..], packets)
  {
    var first, rest := inFlight[0], inFlight[1..];
    forall q | q in rest ensures q in inFlight {}
    forall i, j | 0 <= i < j < |rest| ensures rest[i] != rest[j] {
      assert rest[i] == inFlight[i + 1] && rest[j] == inFlight[j + 1];
    }
    forall i | 0 <= i < |rest| ensures rest[i] != first {
      assert rest[i] == inFlight[i + 1];
    }
    assert first in inFlight;
  }

  lemma Widened(pool: seq<Packet>, inFlight: seq<Packet>, packets: set<Packet>, more: set<Packet>)
    requires Separate(pool, inFlight, packets)
    ensures Separate(pool, inFlight, packets + more) && forall p :: p !in packets ==> p !in pool && p !in inFlight
  {}

  // A packet that was lent is put in flight.
  lemma Launched(pool: seq<Packet>, inFlight: seq<Packet>, packets: set<Packet>, p: Packet)
    requires Separate(pool, inFlight, packets) && p in packets && p !in pool && p !in inFlight
    ensures Separate(pool, inFlight + [p], packets)
  {}

  // A pipeline that has been given exactly these packets.
  ghost predicate Running(p: Pipeline, base: nat, log: seq<Sent>)
    reads p
  {
    && p.Valid() && p.AllWritten() && !p.closing && p.h.base == base && p.h.offered == Pkts(log)
  }

  method Post(pipeline: Pipeline, pkt: Pkt, ghost base: nat, ghost log: seq<Sent>, ghost s: Sent) returns (ok: bool)
    requires Running(pipeline, base, log) && pkt == ToPkt(s) && !s.last
    requires log != [] ==> s.seqno == log[|log| - 1].seqno + 1
    modifies pipeline
    ensures ok ==> Running(pipeline, base, log + [s]) && |pipeline.packets| <= |old(pipeline.packets)| + 1
    ensures !ok ==> pipeline.Lost()
  {
    hide Furthest, Squeeze, Pkts, Sent.Image, Consecutive, Pipeline.Membership, Pipeline.Lost;
    PktsLast(log);
    PktsNext(log, s);
    ok := pipeline.Send(pkt);
  }

  // Everything the pipeline was given has been acknowledged, and the block's record
  // says so.
  ghost predicate Answered(p: Pipeline, base: nat, log: seq<Sent>)
    reads p
  {
    p.h.acked == |p.h.offered| && p.lastBlock.numBytes == Furthest(base, Pkts(log))
  }

  method Drain(pipeline: Pipeline, ghost base: nat, ghost log: seq<Sent>) returns (ok: bool)
    requires Running(pipeline, base, log)
    modifies pipeline
    ensures ok ==> Running(pipeline, base, log) && pipeline.packets == [] && Answered(pipeline, base, log)
    ensures !ok ==> pipeline.Lost()
  {
    hide Furthest, Squeeze, Pkts, Consecutive, Pipeline.Membership, Pipeline.Lost;
    ok := pipeline.Flush();
  }

  // What is known of a pipeline after it has been closed with packet s.
  ghost predicate Ended(c: Closing, base: nat, log: seq<Sent>, s: Sent) {
    && c.h.Valid() && c.h.acked == |c.h.offered| && c.h.base == base
    && c.record.numBytes == Furthest(base, Pkts(log)) == Furthest(base, c.h.offered)
    && (c.h.offered == Pkts(log + [s]) || c.h.offered == Pkts(log))
    && Chronicle(c.trace, c.h.base, c.h.from, c.h.offered) && Followed(c.trace, c.nodes) &&
       c.trace.all == Pkts(log + [s])
  }

  // What a pipeline leaves behind.
  ghost function Remains(p: Pipeline): Closing
    reads p
  {
    Closing(p.h, p.lastBlock, p.trace, p.nodes)
  }

  method End(pipeline: Pipeline, pkt: Pkt, ghost base: nat, ghost log: seq<Sent>, ghost s: Sent)
    returns (ok: bool, n: nat)
    requires Running(pipeline, base, log) && pkt == ToPkt(s) && s.last
    requires s.offset + |s.data| <= Furthest(base, Pkts(log)) && (log != [] ==> s.seqno == log[|log| - 1].seqno + 1)
    modifies pipeline
    ensures ok ==> Ended(Remains(pipeline), base, log, s) && n <= |old(pipeline.packets)| + 1
    ensures !ok ==> pipeline.Lost()
  {
    hide Furthest, Squeeze, Pkts, Sent.Image, Consecutive, Pipeline.Membership, Pipeline.Lost;
    PktsLast(log);
    PktsNext(log, s);
    var before := pipeline.released;
    ok := pipeline.Close(pkt);
    FurthestNext(base, Pkts(log), pkt);
    n := if ok then pipeline.released - before else 0;
  }

  class BlockWriter {
    const conf: Conf
    const setups: nat -> Setup
    var pipeline: Pipeline?
    var asked: nat                     // pipelines asked for
    var pool: seq<Packet>              // packets to use again
    var inFlight: seq<Packet>          // packets the pipeline has and has not given back
    ghost var failed: Pipeline?        // a pipeline for append that could not be built
    ghost var denied: Option<Denial>   // why there is none for a new block
    ghost var base: nat                // the length the block had at first
    ghost var log: seq<Sent>           // the packets handed over for it
    ghost var packets: set<Packet>

    // Without a pipeline nothing has been handed over; a pipeline has been given the
    // log, and has what is in flight.
    ghost predicate Linked()
      reads `pipeline, `inFlight, `failed, `denied, `base, `log, pipeline
    {
      && failed == null && denied == None
      && if pipeline == null then log == [] && inFlight == []
         else Running(pipeline, base, log) && |inFlight| == |pipeline.packets|
    }

    ghost predicate Valid()
      reads this, pipeline, inFlight
    {
      && Configured(conf, setups) && Linked() && Separate(pool, inFlight, packets) && Unchanged(inFlight, log)
    }

    // A packet that is neither in the pool nor in flight.
    ghost predicate Lent(p: Packet)
      reads `pool, `inFlight, `packets
    {
      p in packets && p !in pool && p !in inFlight
    }

    // No pipeline could be built, or the recovery of one failed.
    ghost predicate Down()
      reads `pipeline, `failed, `denied, pipeline, failed
    {
      || (denied.Some? && denied.value.Real(conf.blockWriteRetry, conf.universe))
      || (failed != null && failed.Lost()) || (pipeline != null && pipeline.Lost())
    }

    lemma NotDown()
      requires Valid()
      ensures !Down()
    {}

    // Packets and pipeline in use are old ones or new.
    twostate predicate Grown()
      reads `packets, `pipeline
    {
      && old(packets) <= packets && fresh(packets - old(packets))
      && (pipeline == null || pipeline == old(pipeline) || fresh(pipeline))
    }

    constructor (conf: Conf, setups: nat -> Setup, ghost base: nat)
      requires Configured(conf, setups)
      ensures Valid() && pipeline == null && log == [] && this.base == base && packets == {}
      ensures this.conf == conf && this.setups == setups
    {
      this.conf, this.setups := conf, setups;
      pipeline, asked, pool, inFlight := null, 0, [], [];
      failed, denied, this.base, log, packets := null, None, base, [], {};
    }

    // ----- the pool

    // getPacket: a packet from the pool, made as good as new, or a new one.
    method GetPacket(packetSize: nat, chunksPerPacket: nat, offsetInBlock: nat, seqno: nat) returns (p: Packet)
      requires Valid() && HEADER_SIZE + chunksPerPacket * 4 <= packetSize
      modifies `pool, `packets, pool
      ensures p.Empty(packetSize, chunksPerPacket) && p.offsetInBlock == offsetInBlock && p.seqno == seqno
      ensures Valid() && Lent(p) && (p in old(pool) || fresh(p)) && Grown()
    {
      hide Linked, Unchanged, Configured, Packet.Empty, Separate;
      if pool == [] {
        p := new Packet(packetSize, chunksPerPacket, offsetInBlock, seqno);
        Widened(pool, inFlight, packets, {p});
        packets := packets + {p};
      } else {
        Taken(pool, inFlight, packets);
        p := pool[0];
        pool := pool[1..];
        p.Reset(packetSize, chunksPerPacket, offsetInBlock, seqno);
      }
    }

    // releasePacket for the first n packets in flight.
    method Release(n: nat)
      requires Separate(pool, inFlight, packets) && Unchanged(inFlight, log) && n <= |inFlight|
      modifies `pool, `inFlight
      ensures Separate(pool, inFlight, packets) && Unchanged(inFlight, log) && inFlight == old(inFlight)[n..]
    {
      hide Unchanged, Separate;
      var i := 0;
      while i < n
        invariant i <= n && inFlight == old(inFlight)[i..]
        invariant Separate(pool, inFlight, packets) && Unchanged(inFlight, log)
      {
        UnchangedRest(inFlight, log);
        GivenBack(pool, inFlight, packets);
        if |pool| < conf.poolMax {
          pool := pool + [inFlight[0]];
        }
        inFlight := inFlight[1..];
        i := i + 1;
      }
    }

    // ----- sending

    // setupPipeline. Null stands for an exception.
    method SetupPipeline(offsetInBlock: nat, isAppend: bool) returns (p: Pipeline?)
      requires Configured(conf, setups) && pipeline == null && failed == null && denied == None
      requires !isAppend ==> offsetInBlock == 0
      modifies `asked, `failed, `denied
      ensures p != null ==> fresh(p) && Running(p, offsetInBlock, []) && p.packets == []
      ensures p != null ==> failed == null && denied == None
      ensures p == null ==> Down()
    {
      assert Sane(setups(asked), conf.universe);
      hide Sane, Configured, Running, Pipeline.Lost;
      var setup := setups(asked);
      asked := asked + 1;
      if isAppend {
        var built;
        p, built := OpenPipeline(offsetInBlock, setup);
        if !built {
          failed := p;
          return null;
        }
      } else {
        p := NewPipeline(setup);
      }
    }

    // The constructor of PipelineImpl for an append, which goes through a recovery.
    method OpenPipeline(offsetInBlock: nat, setup: Setup) returns (p: Pipeline, built: bool)
      requires 2 <= conf.poolMax && Sane(setup, conf.universe)
      ensures fresh(p) && (built ==> Running(p, offsetInBlock, []) && p.packets == []) && (!built ==> p.Lost())
    {
      hide Furthest, Squeeze, Chronicle, Followed;
      p := new Pipeline(conf.poolMax, conf.replication, conf.canAddDatanode, conf.blockWriteRetry, false, conf.universe,
                        LastBlock(0, setup.id, 0, offsetInBlock, setup.nodes, setup.ids), setup.script);
      built := p.BuildForAppend();
    }

    // And for a new block.
    method NewPipeline(setup: Setup) returns (p: Pipeline?)
      requires 2 <= conf.poolMax && 1 <= conf.blockWriteRetry && denied == None
      modifies `denied
      ensures p != null ==> fresh(p) && Running(p, 0, []) && p.packets == [] && denied == None
      ensures p == null ==> denied.Some? && denied.value.Real(conf.blockWriteRetry, conf.universe)
    {
      hide Pipeline.Valid, Denial.Real, Distinct;
      ghost var denial, bad;
      p, denial, bad := BuildForNewBlock(conf.poolMax, conf.replication, conf.canAddDatanode, conf.blockWriteRetry,
                                         conf.universe, setup.id, setup.script);
      if p == null {
        denied := Some(denial);
      }
    }

    // sendPacket. False stands for an exception out of the pipeline.
    method Send(p: Packet, isAppend: bool, ghost s: Sent) returns (ok: bool)
      requires Valid() && Lent(p) && Carries(p, s) && 0 < p.maxChunks && !s.last
      requires log == [] ==> p.offsetInBlock == base && (!isAppend ==> base == 0)
      requires log != [] ==> s.seqno == log[|log| - 1].seqno + 1
      modifies this, p, pipeline
      ensures ok ==> Valid() && pipeline != null && log == old(log) + [s] && base == old(base)
      ensures !ok ==> Down()
      ensures Grown()
    {
      hide Unchanged, Separate, Carries, Running, Configured, Pipeline.Lost, Down;
      ok := Attach(p.offsetInBlock, isAppend);
      if ok {
        ok := HandOver(p, s);
        if ok {
          Release(|inFlight| - |pipeline.packets|);
        }
      }
    }

    method Attach(offsetInBlock: nat, isAppend: bool) returns (ok: bool)
      requires Valid() && (pipeline == null ==> offsetInBlock == base && (!isAppend ==> base == 0))
      modifies `pipeline, `asked, `failed, `denied
      ensures ok ==> Linked() && pipeline != null
      ensures !ok ==> Down()
      ensures Grown()
    {
      hide Unchanged, Separate, Running, Configured;
      if pipeline == null {
        pipeline := SetupPipeline(offsetInBlock, isAppend);
        if pipeline == null {
          return false;
        }
      }
      return true;
    }

    // PipelineImpl::send, after which the pipeline has the packet.
    method HandOver(p: Packet, ghost s: Sent) returns (ok: bool)
      requires pipeline != null && Running(pipeline, base, log) && |inFlight| == |pipeline.packets|
      requires Separate(pool, inFlight, packets) && Unchanged(inFlight, log)
      requires Lent(p) && Carries(p, s) && 0 < p.maxChunks && !s.last
      requires log != [] ==> s.seqno == log[|log| - 1].seqno + 1
      modifies `log, `inFlight, p, pipeline
      ensures pipeline == old(pipeline)
      ensures ok ==> log == old(log) + [s] && inFlight == old(inFlight) + [p]
      ensures ok ==> Running(pipeline, base, log) && |pipeline.packets| <= |inFlight|
      ensures ok ==> Separate(pool, inFlight, packets) && Unchanged(inFlight, log)
      ensures !ok ==> Down()
    {
      hide Unchanged, Separate, Running, Carries, Pkts, Pipeline.Lost;
      var pkt := Prepare(p, s);
      ok := Post(pipeline, pkt, base, log, s);
      if ok {
        UnchangedNext(inFlight, log, p, s);
        Launched(pool, inFlight, packets, p);
        inFlight := inFlight + [p];
        log := log + [s];
      }
    }

    // getBuffer gives the recorded image.
    method Prepare(p: Packet, ghost s: Sent) returns (pkt: Pkt)
      requires Carries(p, s) && 0 < p.maxChunks
      modifies p
      ensures Carries(p, s) && pkt == ToPkt(s)
    {
      hide Encode;
      CarriesImage(p, s);
      var end := p.LastByteOffset();
      var image := p.GetBuffer();
      pkt := Pkt(p.seqno, end, p.lastPacketInBlock, image);
    }

    // ----- waiting and closing

    // The pipeline's flush: everything handed over has been acknowledged.
    method Flush() returns (ok: bool)
      requires Valid()
      modifies `pool, `inFlight, pipeline
      ensures ok ==> Valid() && (pipeline != null ==> Answered(pipeline, base, log))
      ensures !ok ==> Down()
    {
      hide Unchanged, Separate, Running, Configured, Pipeline.Lost, Answered;
      if pipeline == null {
        return true;
      }
      ok := Drain(pipeline, base, log);
      if ok {
        Release(|inFlight|);
      }
    }

    // The pipeline's close with packet p, after which there is none.
    method Close(p: Packet, ghost s: Sent) returns (ok: bool, ghost c: Closing)
      requires Valid() && pipeline != null && Lent(p) && Carries(p, s.(last := false)) && 0 < p.maxChunks && s.last
      requires s.offset + |s.data| <= Furthest(base, Pkts(log)) && (log != [] ==> s.seqno == log[|log| - 1].seqno + 1)
      modifies `pipeline, `pool, `inFlight, `base, `log, p, pipeline
      ensures ok ==> Valid() && pipeline == null && log == [] && base == 0
      ensures ok ==> Ended(c, old(base), old(log), s)
      ensures Grown()
      ensures !ok ==> Down()
    {
      hide Unchanged, Separate, Running, Configured, Pipeline.Lost, Answered, Ended;
      var pkt := PrepareLast(p, s);
      var n;
      ok, n := End(pipeline, pkt, base, log, s);
      c := Remains(pipeline);
      if ok {
        Finish(p, n, s);
      }
    }

    method PrepareLast(p: Packet, ghost s: Sent) returns (pkt: Pkt)
      requires Carries(p, s.(last := false)) && 0 < p.maxChunks && s.last
      modifies p
      ensures Carries(p, s) && pkt == ToPkt(s)
    {
      p.lastPacketInBlock := true;
      pkt := Prepare(p, s);
    }

    // The packets acknowledged go back to the pool, and the pipeline is gone.
    method Finish(p: Packet, n: nat, ghost s: Sent)
      requires Configured(conf, setups) && Separate(pool, inFlight, packets) && Unchanged(inFlight, log)
      requires Lent(p) && Carries(p, s) && n <= |inFlight| + 1 && failed == null && denied == None
      modifies `pipeline, `pool, `inFlight, `base, `log
      ensures Valid() && pipeline == null && log == [] && base == 0
    {
      hide Unchanged, Carries, Configured, Separate;
      UnchangedNext(inFlight, log, p, s);
      Launched(pool, inFlight, packets, p);
      inFlight := inFlight + [p];
      log := log + [s];
      Release(n);
      NoneLeft(pool, inFlight, packets);
      pipeline, inFlight, log, base := null, [], [], 0;
    }
  }

  lemma NoneLeft(pool: seq<Packet>, inFlight: seq<Packet>, packets: set<Packet>)
    requires Separate(pool, inFlight, packets)
    ensures Separate(pool, [], packets) && Unchanged([], [])
  {}
}
