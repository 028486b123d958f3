// StripeReader::readStripe: reading one aligned stripe from whatever datanodes
// answer, asking for parity as chunks are lost, and decoding at the end.

module StripeReaders {
  import opened Bytes
  import opened EncodeLoop
  import opened ReedSolomon
  import opened Buffers
  import opened RawCoder
  import opened RoundTrip
  import opened ChunkStates
  import opened Geometry
  import opened DivideStripe

  // What the datanodes do, chunk by chunk: whether a reader can be set up, and
  // whether the read it starts then succeeds or stops after some wrong bytes.
  datatype Outcome = Outcome(opens: bool, completes: bool, garbage: Vec) {
    predicate Good() {
      opens && completes
    }
  }

  // At most len bytes of v.
  function Cut(v: Vec, len: nat): (w: Vec)
    ensures |w| <= len
  {
    if |v| <= len then v else v[..len]
  }

  lemma CellBound(c: nat, i: nat, n: nat)
    requires i < n
    ensures 0 <= c * i && c * i + c <= c * n
  {
    MulAtLeast(n - i, c);
    assert (n - i) * c == c * n - c * i;
  }

  // Where the chunks of a band live: data chunk i in cell i of the stripe buffer,
  // parity chunk j in cell j of the parity buffer, span bytes each.
  datatype Placement = Placement(k: nat, p: nat, cellSize: nat, inCell: nat, span: nat,
                                 stripeBase: nat, parityBase: nat) {
    function Addr(i: nat): nat {
      if i < k then stripeBase + inCell + cellSize * i
      else parityBase + cellSize * (i - k)
    }

    predicate Fits(size: nat) {
      && 0 < k && k + p < FIELD_SIZE && 0 < span && inCell + span <= cellSize
      && stripeBase + cellSize * k <= size && parityBase + cellSize * p <= size
      && (stripeBase + cellSize * k <= parityBase || parityBase + cellSize * p <= stripeBase)
    }

    lemma AddrFits(i: nat, size: nat)
      requires Fits(size) && i < k + p
      ensures Addr(i) + span <= size
    {
      if i < k { CellBound(cellSize, i, k); } else { CellBound(cellSize, i - k, p); }
    }

    function Addrs(units: seq<nat>): (a: seq<nat>)
      ensures |a| == |units|
    {
      seq(|units|, i requires 0 <= i < |units| => Addr(units[i]))
    }

    // No chunk's buffer holds address q.
    predicate Clear(q: int) {
      forall i: nat :: i < k + p ==> !(Addr(i) <= q < Addr(i) + span)
    }

    lemma AddrsFit(size: nat)
      requires Fits(size)
      ensures forall i: nat :: i < k + p ==> Addr(i) + span <= size
    {
      forall i: nat | i < k + p ensures Addr(i) + span <= size {
        AddrFits(i, size);
      }
    }

    lemma AddrsApart(valid: seq<nat>, erased: seq<nat>, size: nat)
      requires Fits(size)
      requires forall i :: 0 <= i < |valid| ==> valid[i] < k + p
      requires forall i :: 0 <= i < |erased| ==> erased[i] < k + p
      requires forall i, l :: 0 <= i < |valid| && 0 <= l < |erased| ==> valid[i] != erased[l]
      requires forall i, j :: 0 <= i < j < |erased| ==> erased[i] < erased[j]
      ensures InMemory(Addrs(valid), span, size) && InMemory(Addrs(erased), span, size)
      ensures AllApart(Addrs(valid), Addrs(erased), span)
    {
      AddrsFit(size);
      forall i, l | 0 <= i < |valid| && 0 <= l < |erased| ensures Apart(Addrs(valid)[i], Addrs(erased)[l], span) {
        if valid[i] < erased[l] { AddrApart(valid[i], erased[l], size); } else { AddrApart(erased[l], valid[i], size); }
      }
      forall l, l' | 0 <= l < l' < |erased| ensures Apart(Addrs(erased)[l], Addrs(erased)[l'], span) {
        AddrApart(erased[l], erased[l'], size);
      }
    }

    lemma AddrApart(i: nat, j: nat, size: nat)
      requires Fits(size) && i < j < k + p
      ensures Apart(Addr(i), Addr(j), span)
    {
      if j < k {
        CellBound(cellSize, i, j);
      } else if i >= k {
        CellBound(cellSize, i - k, j - k);
      } else {
        CellBound(cellSize, i, k);
        CellBound(cellSize, j - k, p);
      }
    }
  }

  // No reader has gone past offset o of its block.
  ghost predicate NotBeyond(readers: seq<int>, o: int) {
    forall i :: 0 <= i < |readers| ==> readers[i] <= o
  }

  predicate Fresh(chunks: seq<ChunkState>, k: nat) {
    && k <= |chunks|
    && (forall i :: 0 <= i < k ==> chunks[i] == Null || chunks[i] == REQUESTED || chunks[i] == ALLZERO)
    && (forall i :: k <= i < |chunks| ==> chunks[i] == Null)
  }

  lemma FreshCounts(chunks: seq<ChunkState>, k: nat)
    requires Fresh(chunks, k)
    ensures Missing(chunks) == 0 && Fetched(chunks) == 0 && Debt(chunks, k) == 0
  {
    hide Num;
    NumZero(chunks, MISSING, 0, |chunks|);
    NumZero(chunks, FETCHED, 0, |chunks|);
    NumZero(chunks, MISSING, 0, k);
    NumZero(chunks, PENDING, k, |chunks|);
    NumZero(chunks, FETCHED, k, |chunks|);
  }

  // Zero chunks stay zero, and no chunk becomes absent again.
  ghost predicate Settled(now: seq<ChunkState>, was: seq<ChunkState>) {
    && |now| == |was|
    && (forall i :: 0 <= i < |now| ==> (now[i] == ALLZERO <==> was[i] == ALLZERO))
    && (forall i :: 0 <= i < |now| && was[i] != Null ==> now[i] != Null)
  }

  ghost predicate SameFetched(now: seq<ChunkState>, was: seq<ChunkState>) {
    |now| == |was| && forall i :: 0 <= i < |now| ==> (now[i] == FETCHED <==> was[i] == FETCHED)
  }

  // A chunk in flight is fetched or lost.
  lemma SettledMark(before: seq<ChunkState>, was: seq<ChunkState>, i: nat, after: seq<ChunkState>)
    requires Settled(before, was) && i < |before| && before[i] == PENDING
    requires after == before[i := FETCHED] || after == before[i := MISSING]
    ensures Settled(after, was)
  {}

  lemma SettledAdvance(before: seq<ChunkState>, now: seq<ChunkState>, was: seq<ChunkState>)
    requires Settled(before, was) && Settled(now, before)
    ensures Settled(now, was)
  {}


  class StripeReader {
    const k: nat
    const p: nat
    const at: Placement
    const mem: array<Byte>
    const units: seq<Vec>            // the internal blocks as the datanodes hold them
    ghost const blocks: seq<Vec>     // the bytes of each unit over the band
    ghost const zero: set<nat>       // the chunks known to be zero
    const decoder: RawErasureDecoder
    const outcomes: seq<Outcome>
    var chunks: seq<ChunkState>
    var fetchedChunksNum: nat
    var missingChunksNum: nat
    var futures: set<nat>
    const target: nat                // the band's offset in the internal blocks
    var readers: seq<int>            // where each block's reader stands, -1 for none

    // A stripe as divided: data chunks absent, requested or zero, no parity yet.
    constructor (at: Placement, mem: array<Byte>, units: seq<Vec>, ghost blocks: seq<Vec>, decoder: RawErasureDecoder,
                 outcomes: seq<Outcome>, chunks: seq<ChunkState>, target: nat, readers: seq<int>)
      requires |chunks| == |outcomes| == |readers| == at.k + at.p && Fresh(chunks, at.k) && NotBeyond(readers, target)
      ensures this.at == at && this.mem == mem && this.units == units && this.blocks == blocks &&
              this.decoder == decoder
      ensures forall i: nat :: i in zero <==> i < |chunks| && chunks[i] == ALLZERO
      ensures this.outcomes == outcomes && this.chunks == chunks && k == at.k && p == at.p
      ensures Valid() && futures == {} && missingChunksNum == 0 && Debt(chunks, k) == 0
      ensures this.target == target && this.readers == readers
    {
      this.target, this.readers := target, readers;
      this.k, this.p, this.at, this.mem, this.units, this.blocks := at.k, at.p, at, mem, units, blocks;
      zero := set i: nat | i < |chunks| && chunks[i] == ALLZERO;
      this.decoder, this.outcomes, this.chunks := decoder, outcomes, chunks;
      fetchedChunksNum, missingChunksNum, futures := 0, 0, {};
      new;
      FreshCounts(chunks, at.k);
    }

    // What holds between any two steps of readStripe; only bad reads are missing.
    ghost predicate Valid()
      reads this
    {
      && |outcomes| == |chunks| == k + p
      && ParityStates(chunks, k)
      && missingChunksNum == Missing(chunks)
      && fetchedChunksNum == Fetched(chunks)
      && futures == (set i: nat | i < |chunks| && chunks[i] == PENDING)
      && (forall i :: 0 <= i < |chunks| && chunks[i] == MISSING ==> !outcomes[i].Good())
      && (forall i :: i in zero ==> i < |chunks| && chunks[i] == ALLZERO)
      && ForwardOnly()
    }

    // Readers stand at or before the band, after it once they have delivered it.
    ghost predicate ForwardOnly()
      reads this
    {
      && |readers| == |chunks|
      && (forall i :: 0 <= i < |chunks| ==>
            if chunks[i] == FETCHED then readers[i] == target + at.span
            else readers[i] <= target && (chunks[i] == PENDING ==> 0 <= readers[i]))
    }

    // Data chunks are all asked for once something is missing.
    ghost predicate Decoding()
      reads this
    {
      k <= |chunks| && forall i :: 0 <= i < k ==> chunks[i] != Null && chunks[i] != REQUESTED
    }

    // No step takes back a zero chunk or a fetched one.
    twostate predicate Advances()
      reads this
    {
      Settled(chunks, old(chunks)) && SameFetched(chunks, old(chunks))
    }

    // readChunk together with the count its callers keep.
    method ReadChunk(i: nat) returns (ok: bool)
      requires |outcomes| == |chunks| == k + p && i < |chunks| && chunks[i] == REQUESTED
      requires forall j :: k <= j < |chunks| && j != i ==> chunks[j] != REQUESTED && chunks[j] != ALLZERO
      requires missingChunksNum == Missing(chunks) && fetchedChunksNum == Fetched(chunks)
      requires futures == (set j: nat | j < |chunks| && chunks[j] == PENDING)
      requires forall j :: 0 <= j < |chunks| && chunks[j] == MISSING ==> !outcomes[j].Good()
      requires forall j :: j in zero ==> j < |chunks| && chunks[j] == ALLZERO
      requires ForwardOnly()
      modifies this
      ensures ok == outcomes[i].opens
      ensures chunks == old(chunks)[i := if ok then PENDING else MISSING]
      ensures Valid()
      ensures missingChunksNum == old(missingChunksNum) + One(!ok)
      ensures Debt(chunks, k) == old(Debt(chunks, k)) + (if i < k then One(!ok) else -One(ok))
      ensures TotalRank(chunks, |chunks|) < old(TotalRank(chunks, |chunks|))
    {
      hide Debt, Missing, Fetched, TotalRank;
      SetState(chunks, k, i, if outcomes[i].opens then PENDING else MISSING);
      if !outcomes[i].opens {
        chunks := chunks[i := MISSING];
        missingChunksNum := missingChunksNum + 1;
        return false;
      }
      if readers[i] < 0 {
        readers := readers[i := target];
      }
      chunks := chunks[i := PENDING];
      futures := futures + {i};
      return true;
    }

    // prepareDecodeInputs gives every data chunk a buffer and so a request.
    method PrepareDecodeInputs()
      requires Valid()
      modifies this`chunks
      ensures Valid() && Advances() && forall j :: 0 <= j < k ==> chunks[j] != Null
      ensures Debt(chunks, k) == old(Debt(chunks, k))
      ensures TotalRank(chunks, |chunks|) <= old(TotalRank(chunks, |chunks|))
    {
      hide Debt, Missing, Fetched, TotalRank;
      for i := 0 to k
        invariant Valid() && Advances()
        invariant forall j :: 0 <= j < i ==> chunks[j] != Null
        invariant Debt(chunks, k) == old(Debt(chunks, k))
        invariant TotalRank(chunks, |chunks|) <= old(TotalRank(chunks, |chunks|))
      {
        if chunks[i] == Null {
          SetState(chunks, k, i, REQUESTED);
          chunks := chunks[i := REQUESTED];
        }
      }
    }

    // readDataForDecoding: ask for every data chunk not asked for yet. False
    // stands for checkMissingBlocks throwing.
    method ReadDataForDecoding() returns (ok: bool)
      requires Valid()
      modifies this
      ensures Valid() && Advances() && Decoding()
      ensures ok == (missingChunksNum <= p)
      ensures Debt(chunks, k) - old(Debt(chunks, k)) == missingChunksNum - old(missingChunksNum) >= 0
      ensures TotalRank(chunks, |chunks|) <= old(TotalRank(chunks, |chunks|))
    {
      hide Debt, Missing, Fetched, TotalRank;
      PrepareDecodeInputs();
      for i := 0 to k
        invariant Valid() && Advances()
        invariant forall j :: 0 <= j < k ==> chunks[j] != Null
        invariant forall j :: 0 <= j < i ==> chunks[j] != REQUESTED
        invariant Debt(chunks, k) - old(Debt(chunks, k)) == missingChunksNum - old(missingChunksNum) >= 0
        invariant TotalRank(chunks, |chunks|) <= old(TotalRank(chunks, |chunks|))
      {
        if chunks[i] == REQUESTED {
          var started := ReadChunk(i);
        }
      }
      ok := missingChunksNum <= p;
    }

    // readParityChunks: start num parity reads, replacing those that cannot be
    // started; or all parity has been tried and too much is missing.
    method ReadParityChunks(num: nat) returns (ok: bool)
      requires Valid() && Decoding() && Debt(chunks, k) == num
      modifies this
      ensures Valid() && Advances() && Decoding()
      ensures ok == (missingChunksNum <= p) && (ok ==> Debt(chunks, k) == 0)
      ensures missingChunksNum >= old(missingChunksNum)
      ensures TotalRank(chunks, |chunks|) <= old(TotalRank(chunks, |chunks|))
    {
      hide Debt, Missing, Fetched, TotalRank;
      var i, j := k, 0;
      while i < k + p && j < num
        invariant k <= i <= k + p && 0 <= j <= num
        invariant Valid() && Advances() && Decoding()
        invariant Debt(chunks, k) == num - j
        invariant forall q :: k <= q < i ==> chunks[q] != Null
        invariant missingChunksNum >= old(missingChunksNum)
        invariant TotalRank(chunks, |chunks|) <= old(TotalRank(chunks, |chunks|))
      {
        if chunks[i] == Null {
          SetState(chunks, k, i, REQUESTED);
          chunks := chunks[i := REQUESTED];
          var started := ReadChunk(i);
          if started {
            j := j + 1;
          }
        }
        i := i + 1;
      }
      ok := missingChunksNum <= p;
      if i == k + p { DebtMeansTooMany(chunks, k); }
    }

    // ----- memory

    // The block reaches to the end of the band and has the unit's bytes there.
    ghost predicate Available(r: nat)
      requires r < |units| && r < |blocks|
    {
      target + at.span <= |units[r]| && units[r][target..target + at.span] == blocks[r]
    }

    // The band's units are a codeword, and the datanodes have them all but for chunks
    // past the end of their block.
    ghost predicate Stored(columns: seq<Vec>) {
      && at.k == k && at.p == p && at.Fits(mem.Length) && |columns| == at.span
      && (forall t :: 0 <= t < |columns| ==> |columns[t]| == k)
      && |units| == |blocks| == |outcomes| == k + p
      && (forall r: nat :: r < k + p && r !in zero ==> Available(r))
      && (forall r :: 0 <= r < |blocks| ==> blocks[r] == UnitBytes(k, r, columns))
    }

    // Fetched chunks are in their buffers.
    ghost predicate FetchedHold()
      reads this, mem
    {
      && |blocks| == |chunks| == k + p && at.k == k && at.p == p && at.Fits(mem.Length)
      && (forall i :: 0 <= i < |chunks| ==> |blocks[i]| == at.span)
      && (forall i :: 0 <= i < |chunks| && chunks[i] == FETCHED ==> Holds(mem[..], i))
    }

    ghost predicate Holds(m: Vec, i: nat) {
      && i < |blocks| && at.Addr(i) + at.span <= |m| && |blocks[i]| == at.span
      && Stretch(m, at.Addr(i), at.span) == blocks[i]
    }

    // Memory outside the band's buffers is untouched.
    twostate predicate OnlyBand()
      reads mem
    {
      forall q :: 0 <= q < mem.Length && at.Clear(q) ==> mem[q] == old(mem[q])
    }

    // The bytes a read leaves in its buffer.
    method Deliver(i: nat, v: Vec)
      requires i < k + p && |v| <= at.span && at.k == k && at.p == p && at.Fits(mem.Length)
      requires at.Addr(i) + at.span <= mem.Length
      modifies mem
      ensures OnlyBand()
      ensures mem[..] == Splice(old(mem[..]), at.Addr(i), v)
    {
      ghost var s := mem[..];
      var o := at.Addr(i);
      for t := 0 to |v|
        invariant forall q :: o <= q < o + t ==> mem[q] == v[q - o]
        invariant forall q :: 0 <= q < mem.Length && !(o <= q < o + t) ==> mem[q] == s[q]
      {
        mem[o + t] := v[t];
      }
      SpliceFrom(mem[..], s, o, v);
    }

    // What a finished read leaves in memory.
    method Store(i: nat, good: bool, ghost columns: seq<Vec>)
      requires Stored(columns) && FetchedHold() && i < |chunks| && chunks[i] == PENDING && i !in zero &&
               |outcomes| == |chunks|
      modifies mem
      ensures FetchedHold() && OnlyBand() && (good ==> Holds(mem[..], i))
    {
      hide UnitBytes, Holds, Splice, Placement.Addr, Placement.Clear;
      ghost var was := mem[..];
      at.AddrFits(i, mem.Length);
      assert Available(i);
      var v := if good then units[i][target..target + at.span] else Cut(outcomes[i].garbage, at.span);
      Deliver(i, v);
      KeepsOthers(was, i, v);
    }

    // The next read to finish, the lowest numbered one as getNextCompletedStripedRead
    // takes it, has finished.
    method Complete(i: nat, ghost columns: seq<Vec>) returns (good: bool)
      requires Valid() && Stored(columns) && FetchedHold() && i in futures
      modifies this, mem
      ensures Valid() && FetchedHold() && OnlyBand() && good == outcomes[i].completes
      ensures chunks == old(chunks)[i := if good then FETCHED else MISSING]
      ensures missingChunksNum == old(missingChunksNum) + One(!good)
      ensures Debt(chunks, k) == old(Debt(chunks, k)) + One(!good)
      ensures TotalRank(chunks, |chunks|) < old(TotalRank(chunks, |chunks|))
    {
      hide Debt, Missing, Fetched, TotalRank, Stored, Holds, Placement.Fits, Placement.Clear, ForwardOnly;
      good := outcomes[i].completes;
      Store(i, good, columns);
      Mark(i, good);
    }

    // The chunk's new state, and its reader's.
    method Mark(i: nat, good: bool)
      requires Valid() && i in futures && good == outcomes[i].completes
      modifies this
      ensures Valid() && chunks == old(chunks)[i := if good then FETCHED else MISSING]
      ensures missingChunksNum == old(missingChunksNum) + One(!good)
      ensures Debt(chunks, k) == old(Debt(chunks, k)) + One(!good)
      ensures TotalRank(chunks, |chunks|) < old(TotalRank(chunks, |chunks|))
    {
      hide Debt, Missing, Fetched, TotalRank;
      futures := futures - {i};
      // The code checks here that the reader is not ahead of the band.
      assert 0 <= readers[i] <= target;
      SetState(chunks, k, i, if good then FETCHED else MISSING);
      if good {
        chunks := chunks[i := FETCHED];
        readers := readers[i := target + at.span];
        fetchedChunksNum := fetchedChunksNum + 1;
      } else {
        chunks := chunks[i := MISSING];
        readers := readers[i := -1];
        missingChunksNum := missingChunksNum + 1;
      }
    }

    // ----- readStripe

    // The loop that starts a read for every requested data chunk.
    method StartReads()
      requires Valid() && futures == {} && missingChunksNum == 0 && Debt(chunks, k) == 0
      modifies this
      ensures Valid() && Advances() && Debt(chunks, k) == missingChunksNum
      ensures forall i :: 0 <= i < k ==> chunks[i] != REQUESTED
    {
      hide Debt, Missing, Fetched, TotalRank;
      for i := 0 to k
        invariant Valid() && Advances() && Debt(chunks, k) == missingChunksNum
        invariant forall j :: 0 <= j < i ==> chunks[j] != REQUESTED
        invariant forall j :: i <= j < k ==> chunks[j] == old(chunks)[j]
      {
        if chunks[i] == REQUESTED {
          var started := ReadChunk(i);
        }
      }
    }

    // Ask for what decoding needs after something went missing. The debt is what
    // the losses since the last call leave to be made up by parity.
    method AskForMore(missing: nat) returns (ok: bool)
      requires Valid() && missing < missingChunksNum && Debt(chunks, k) == missingChunksNum - missing
      modifies this
      ensures Valid() && Advances() && (old(FetchedHold()) ==> FetchedHold())
      ensures ok <==> missingChunksNum <= p
      ensures ok ==> Decoding() && Debt(chunks, k) == 0 && missingChunksNum > 0
      ensures TotalRank(chunks, |chunks|) <= old(TotalRank(chunks, |chunks|))
    {
      hide Debt, Missing, Fetched, TotalRank, Holds;
      if missingChunksNum > p {
        return false;
      }
      ok := ReadDataForDecoding();
      if ok {
        ok := ReadParityChunks(missingChunksNum - missing);
      }
    }

    // Between two completed reads: what is lost is made up for, and once anything
    // is lost every data chunk has been asked for.
    ghost predicate Waiting(was: seq<ChunkState>)
      reads this, mem
    {
      && Valid() && FetchedHold() && Steady(was)
      && Debt(chunks, k) == 0 && missingChunksNum <= p && (missingChunksNum > 0 ==> Decoding())
      && (forall i :: 0 <= i < k ==> chunks[i] != REQUESTED)
    }

    // One turn of the loop over completed reads.
    method TakeNext(ghost columns: seq<Vec>, ghost was: seq<ChunkState>) returns (ok: bool, good: bool)
      requires Waiting(was) && Stored(columns) && futures != {}
      modifies this, mem
      ensures Valid() && FetchedHold() && OnlyBand() && Steady(was)
      ensures ok <==> missingChunksNum <= p
      ensures ok ==> Waiting(was)
      ensures TotalRank(chunks, |chunks|) < old(TotalRank(chunks, |chunks|))
    {
      hide Debt, Missing, Fetched, TotalRank, Stored, ForwardOnly, FetchedHold, Settled, SameFetched;
      ghost var least := MinOf(futures);
      var i :| i in futures && forall j :: j in futures ==> i <= j;
      // The code checks here that the chunk is pending.
      assert chunks[i] == PENDING;
      var missing := missingChunksNum;
      ghost var before := chunks;
      good := Complete(i, columns);
      ghost var after := chunks;
      SettledMark(before, was, i, after);
      ok := true;
      if !good {
        ok := AskForMore(missing);
        SettledAdvance(after, chunks, was);
      }
    }

    // The loop over completed reads; it ends because the total rank falls.
    method AwaitReads(ghost columns: seq<Vec>) returns (ok: bool)
      requires Waiting(chunks) && Stored(columns)
      modifies this, mem
      ensures Valid() && FetchedHold() && OnlyBand() && Steady(old(chunks))
      ensures ok <==> missingChunksNum <= p
      ensures ok ==> futures == {} && Waiting(old(chunks))
    {
      hide Debt, Missing, Fetched, TotalRank, Stored, FetchedHold, ForwardOnly;
      while futures != {}
        invariant Waiting(old(chunks)) && OnlyBand()
        decreases TotalRank(chunks, |chunks|)
      {
        var more, good := TakeNext(columns, old(chunks));
        if !more {
          return false;
        }
        if good && fetchedChunksNum == k {
          AllFetched();
          break;
        }
      }
      ok := true;
    }

    ghost predicate Steady(was: seq<ChunkState>)
      reads this
    {
      Settled(chunks, was)
    }

    // When k chunks are fetched no read is outstanding.
    lemma AllFetched()
      requires Valid() && Debt(chunks, k) == 0 && fetchedChunksNum == k
      ensures futures == {}
    {
      hide Debt;
      LiveChunks(chunks, k);
      NumZero(chunks, PENDING, 0, |chunks|);
    }

    // readStripe. False stands for the exception checkMissingBlocks throws. Whatever
    // the datanodes do, every chunk asked for ends up with its unit's bytes unless
    // more than p reads are bad, and nothing outside the band's buffers is written.
    method ReadStripe(ghost columns: seq<Vec>) returns (ok: bool)
      requires Valid() && Fresh(chunks, k) && Stored(columns) && ZerosStored(chunks)
      requires decoder.Valid() && decoder.k == k && decoder.p == p
      modifies this, mem, decoder
      ensures decoder.Valid() && OnlyBand()
      ensures ok ==> forall i :: 0 <= i < k && old(chunks)[i] == REQUESTED ==> Holds(mem[..], i)
      ensures ok <== NumBad(outcomes, |outcomes|) <= p
      ensures ok ==> |readers| == k + p && NotBeyond(readers, target + at.span)
    {
      hide Stored, Debt, Missing, Fetched, Holds, FetchedHold, ZerosStored;
      ok := FetchChunks(columns);
      if ok {
        if missingChunksNum > 0 {
          StillZeros(old(chunks));
          DecodeStripe(columns);
        } else {
          NothingMissing(old(chunks));
        }
      }
    }

    // readStripe up to the decoding.
    method FetchChunks(ghost columns: seq<Vec>) returns (ok: bool)
      requires Valid() && Fresh(chunks, k) && Stored(columns)
      modifies this, mem
      ensures OnlyBand() && Steady(old(chunks))
      ensures ok ==> futures == {} && Waiting(old(chunks))
      ensures ok <== NumBad(outcomes, |outcomes|) <= p
    {
      hide Stored, Debt, Fetched, Holds, FetchedHold, TotalRank, ForwardOnly;
      FreshCounts(chunks, k);
      StartReads();
      ok := true;
      if missingChunksNum > 0 {
        ok := AskForMore(0);
      }
      if ok {
        NoneFetched(columns);
        ok := AwaitReads(columns);
      }
      if !ok {
        MissingAreBad(chunks, outcomes, |chunks|);
      }
    }

    lemma NoneFetched(columns: seq<Vec>)
      requires Stored(columns) && |chunks| == k + p && forall i :: 0 <= i < |chunks| ==> chunks[i] != FETCHED
      ensures FetchedHold()
    {
      hide UnitByte;
    }

    lemma StillZeros(was: seq<ChunkState>)
      requires ZerosStored(was) && Steady(was)
      ensures ZerosStored(chunks)
    {}

    // With nothing missing, what was asked for has been fetched.
    lemma NothingMissing(was: seq<ChunkState>)
      requires Valid() && Steady(was) && FetchedHold() && futures == {} && missingChunksNum == 0
      requires forall i :: 0 <= i < k ==> chunks[i] != REQUESTED
      ensures forall i :: 0 <= i < k && was[i] == REQUESTED ==> Holds(mem[..], i)
    {
      hide Holds, Num;
      NumZero(chunks, MISSING, 0, |chunks|);
      forall i | 0 <= i < k && was[i] == REQUESTED ensures Holds(mem[..], i) {
        assert i !in futures;
        assert chunks[i] == FETCHED;
      }
    }

    // ----- decode

    // finalizeDecodeInputs and toBuffers: zero chunks are filled with zeros.
    method ZeroChunks(ghost columns: seq<Vec>)
      requires Stored(columns) && FetchedHold() && ZerosStored(chunks)
      modifies mem
      ensures SurvivorsHold(mem[..]) && OnlyBand()
    {
      hide Stored, UnitBytes;
      for i := 0 to |chunks|
        invariant FetchedHold() && OnlyBand()
        invariant forall j :: 0 <= j < i && chunks[j] == ALLZERO ==> Holds(mem[..], j)
      {
        if chunks[i] == ALLZERO {
          ghost var was := mem[..];
          at.AddrFits(i, mem.Length);
          Deliver(i, Zeros(at.span));
          KeepsOthers(was, i, blocks[i]);
        }
      }
    }

    // Chunks beyond the data are zero.
    ghost predicate ZerosStored(chunks: seq<ChunkState>) {
      |chunks| == |blocks| && forall i :: 0 <= i < |chunks| && chunks[i] == ALLZERO ==> blocks[i] == Zeros(at.span)
    }

    // Writing one chunk's buffer leaves every other chunk's bytes in place.
    lemma KeepsOthers(was: Vec, i: nat, v: Vec)
      requires i < k + p && at.k == k && at.p == p && at.Fits(|was|) && |v| <= at.span
      ensures at.Addr(i) + |v| <= |was|
      ensures forall j :: 0 <= j < k + p && j != i && Holds(was, j) ==> Holds(Splice(was, at.Addr(i), v), j)
      ensures i < |blocks| && v == blocks[i] && |v| == at.span ==> Holds(Splice(was, at.Addr(i), v), i)
    {
      at.AddrFits(i, |was|);
      forall j | 0 <= j < k + p && j != i && Holds(was, j) ensures Holds(Splice(was, at.Addr(i), v), j) {
        if i < j { at.AddrApart(i, j, |was|); } else { at.AddrApart(j, i, |was|); }
        SpliceReadsShort(was, at.Addr(i), v, at.Addr(j), at.span);
      }
      if |v| == at.span { SpliceReadsBack(was, at.Addr(i), v); }
    }

    // prepareErasedIndices: the missing chunks, ascending. The code's array has
    // room for p of them.
    method PrepareErasedIndices() returns (erased: seq<nat>)
      requires Valid() && missingChunksNum <= p
      ensures erased == MissingList(chunks, |chunks|) && |erased| == missingChunksNum
    {
      erased := [];
      for i := 0 to |chunks|
        invariant erased == MissingList(chunks, i)
      {
        MissingCount(chunks, i);
        if chunks[i] == MISSING {
          erased := erased + [i];
        }
      }
      MissingCount(chunks, |chunks|);
    }

    // decodeAndFillBuffer: recover every missing chunk into its own buffer.
    method DecodeStripe(ghost columns: seq<Vec>)
      requires Valid() && Stored(columns) && FetchedHold() && ZerosStored(chunks) && Decoding()
      requires futures == {} && Debt(chunks, k) == 0 && missingChunksNum <= p
      requires decoder.Valid() && decoder.k == k && decoder.p == p
      modifies mem, decoder
      ensures decoder.Valid() && OnlyBand()
      ensures forall i :: 0 <= i < |chunks| && chunks[i] != Null ==> Holds(mem[..], i)
    {
      hide Stored, Debt, Missing, Fetched, FetchedHold, Holds, SurvivorsHold;
      StoredFits(columns);
      var erased := PrepareErasedIndices();
      ZeroChunks(columns);
      ghost var held := mem[..];
      Recover(columns, erased);
      RecoveredAll(erased, held, mem[..]);
    }

    // The call of the decoder: the chunks in erased get their bytes.
    method Recover(ghost columns: seq<Vec>, erased: seq<nat>)
      requires Valid() && Stored(columns) && Decoding()
      requires futures == {} && Debt(chunks, k) == 0 && missingChunksNum <= p
      requires decoder.Valid() && decoder.k == k && decoder.p == p
      requires erased == MissingList(chunks, |chunks|) && |erased| == missingChunksNum
      requires SurvivorsHold(mem[..])
      modifies mem, decoder
      ensures decoder.Valid() && Recovered(erased, old(mem[..]), mem[..])
    {
      hide Stored, Debt, Missing, Fetched, Holds, Combines, Placement.Addr, SurvivorsHold;
      StoredFits(columns);
      ghost var held := mem[..];
      var inputs := InputWindows(at, chunks);
      var outputs := OutputWindows(at, erased);
      ghost var valid := ValidIndexes(inputs, |inputs|);
      DecodeReady(inputs, outputs, erased);
      ValidHold(held, inputs, valid);
      AscendingDataFirst(k, erased);
      var ok := decoder.Decode(mem, inputs, erased, outputs);
      DecodedHolds(columns, valid, erased, held, mem[..]);
    }

    // Chunks that can be decoded from are in their buffers.
    ghost predicate SurvivorsHold(m: Vec)
      reads this
    {
      forall i :: 0 <= i < |chunks| && (chunks[i] == FETCHED || chunks[i] == ALLZERO) ==> Holds(m, i)
    }

    // Lost chunks have their bytes, other chunks keep theirs, other memory is as it was.
    ghost predicate Recovered(erased: seq<nat>, held: Vec, now: Vec) {
      && |held| == |now|
      && (forall l :: 0 <= l < |erased| ==> Holds(now, erased[l]))
      && (forall i :: 0 <= i < k + p && i !in erased && Holds(held, i) ==> Holds(now, i))
      && (forall q :: 0 <= q < |held| && at.Clear(q) ==> now[q] == held[q])
    }

    lemma RecoveredAll(erased: seq<nat>, held: Vec, now: Vec)
      requires |chunks| == k + p && erased == MissingList(chunks, |chunks|) && Decoding() && futures == {}
      requires SurvivorsHold(held) && Recovered(erased, held, now)
      requires futures == (set i: nat | i < |chunks| && chunks[i] == PENDING) && ParityStates(chunks, k)
      ensures forall i :: 0 <= i < |chunks| && chunks[i] != Null ==> Holds(now, i)
    {
      hide Holds;
      forall i | 0 <= i < |chunks| && chunks[i] != Null ensures Holds(now, i) {
        assert i !in futures;
        if chunks[i] == MISSING { assert i in erased; }
      }
    }

    lemma StoredFits(columns: seq<Vec>)
      requires Stored(columns)
      ensures at.k == k && at.p == p && at.Fits(mem.Length) && 0 < k && k + p < FIELD_SIZE
    {}

    // The preconditions of decode: k survivors, lost units in range, and buffers
    // that do not overlap.
    lemma DecodeReady(inputs: seq<ByteBuffer?>, outputs: seq<ByteBuffer>, erased: seq<nat>)
      requires Valid() && Decoding() && futures == {} && Debt(chunks, k) == 0 && missingChunksNum <= p
      requires at.k == k && at.p == p && at.Fits(mem.Length)
      requires Windows(at, chunks, inputs) && OutWindows(at, erased, outputs)
      requires erased == MissingList(chunks, |chunks|) && |erased| == missingChunksNum
      requires decoder.k == k && decoder.p == p
      ensures var valid := ValidIndexes(inputs, |inputs|);
              && |valid| == k && decoder.Usable(erased, valid)
              && inputs[valid[0]].Remaining() == at.span
              && Starts(Chosen(inputs, k)) == at.Addrs(valid) && Starts(outputs) == at.Addrs(erased)
      ensures DecodeFits(k, mem, inputs, outputs)
    {
      hide Debt, Placement.Addr, Placement.Addrs, InMemory, AllApart, Missing, Fetched, ParityStates, Starts, Chosen;
      hide ForwardOnly, Windows, OutWindows;
      WindowsShape(at, chunks, inputs, erased, outputs);
      var valid := ValidIndexes(inputs, |inputs|);
      EnoughSurvivors(inputs);
      StartsOfWindows(at, chunks, inputs, erased, outputs, k);
      forall i, l | 0 <= i < |valid| && 0 <= l < |erased| ensures valid[i] != erased[l] {
        assert chunks[valid[i]] != chunks[erased[l]];
      }
      at.AddrsApart(valid, erased, mem.Length);
    }

    // Exactly k chunks can be decoded from.
    lemma EnoughSurvivors(inputs: seq<ByteBuffer?>)
      requires Valid() && Decoding() && futures == {} && Debt(chunks, k) == 0
      requires Windows(at, chunks, inputs)
      ensures |ValidIndexes(inputs, |inputs|)| == k
    {
      hide Debt, Num, ValidIndexes;
      ValidCount(inputs, chunks, |chunks|);
      forall i | 0 <= i < |chunks| ensures chunks[i] != PENDING {
        assert i !in futures;
      }
      SurvivorCount(chunks, k);
    }

    lemma ValidHold(held: Vec, inputs: seq<ByteBuffer?>, valid: seq<nat>)
      requires |inputs| == |chunks| && SurvivorsHold(held) && valid == ValidIndexes(inputs, |inputs|)
      requires forall i :: 0 <= i < |inputs| ==> (inputs[i] != null <==> chunks[i] == FETCHED || chunks[i] == ALLZERO)
      ensures forall i :: 0 <= i < |valid| ==> Holds(held, valid[i])
    {
      hide Holds;
    }

    // Decoding from chunks that hold their unit's bytes gives the lost chunks
    // theirs and leaves the others alone.
    lemma DecodedHolds(columns: seq<Vec>, valid: seq<nat>, erased: seq<nat>, held: Vec, now: Vec)
      requires Stored(columns) && |held| == |now| == mem.Length
      requires 0 < k && k + p < FIELD_SIZE && DataFirst(k, erased)
      requires |valid| == k && decoder.k == k && decoder.p == p && decoder.Usable(erased, valid)
      requires forall i :: 0 <= i < k ==> Holds(held, valid[i])
      requires InMemory(at.Addrs(valid), at.span, |held|) && InMemory(at.Addrs(erased), at.span, |held|)
      requires Combines(now, held, DecodeRows(k, valid, erased), at.Addrs(valid), at.Addrs(erased), at.span)
      ensures Recovered(erased, held, now)
    {
      hide DecodeRows, Stretch, UnitBytes, Combines, Placement.Fits, Placement.Addr, Outside;
      var srcs, dsts := at.Addrs(valid), at.Addrs(erased);
      forall l | 0 <= l < |erased| ensures Holds(now, erased[l]) {
        DecodedUnit(k, valid, erased, srcs, dsts, held, now, columns, l);
        assert dsts[l] == at.Addr(erased[l]);
      }
      forall i | 0 <= i < k + p && i !in erased && Holds(held, i) ensures Holds(now, i) {
        OutsideErased(erased, i, |held|);
        SameStretch(now, held, DecodeRows(k, valid, erased), srcs, dsts, at.span, at.Addr(i));
      }
      forall q | 0 <= q < |held| && at.Clear(q) ensures now[q] == held[q] {
        BandCovers(erased, q);
        UntouchedByte(now, held, DecodeRows(k, valid, erased), srcs, dsts, at.span, q);
      }
    }

    lemma BandCovers(erased: seq<nat>, q: int)
      requires at.k == k && at.p == p && at.Clear(q) && forall l :: 0 <= l < |erased| ==> erased[l] < k + p
      ensures Outside(q, at.Addrs(erased), at.span, |erased|)
    {}

    lemma OutsideErased(erased: seq<nat>, i: nat, size: nat)
      requires at.k == k && at.p == p && at.Fits(size) && i < k + p && i !in erased
      requires forall l :: 0 <= l < |erased| ==> erased[l] < k + p
      ensures forall l :: 0 <= l < |erased| ==> Apart(at.Addr(i), at.Addrs(erased)[l], at.span)
    {
      hide Placement.Fits, Placement.Addr;
      forall l | 0 <= l < |erased| ensures Apart(at.Addr(i), at.Addrs(erased)[l], at.span) {
        if erased[l] < i { at.AddrApart(erased[l], i, size); } else { at.AddrApart(i, erased[l], size); }
      }
    }
  }

  lemma {:induction false} ValidCount(inputs: seq<ByteBuffer?>, chunks: seq<ChunkState>, n: nat)
    requires n <= |inputs| == |chunks|
    requires forall i :: 0 <= i < |inputs| ==> (inputs[i] != null <==> chunks[i] == FETCHED || chunks[i] == ALLZERO)
    ensures |ValidIndexes(inputs, n)| == Num(chunks, FETCHED, 0, n) + Num(chunks, ALLZERO, 0, n)
  {
    if n != 0 { ValidCount(inputs, chunks, n - 1); }
  }

  // How many of the first n outcomes are bad.
  function NumBad(outcomes: seq<Outcome>, n: nat): nat
    requires n <= |outcomes|
  {
    if n == 0 then 0 else NumBad(outcomes, n - 1) + if outcomes[n - 1].Good() then 0 else 1
  }

  lemma {:induction false} MissingAreBad(chunks: seq<ChunkState>, outcomes: seq<Outcome>, n: nat)
    requires n <= |chunks| == |outcomes|
    requires forall i :: 0 <= i < |chunks| && chunks[i] == MISSING ==> !outcomes[i].Good()
    ensures Num(chunks, MISSING, 0, n) <= NumBad(outcomes, n)
  {
    if n != 0 { MissingAreBad(chunks, outcomes, n - 1); }
  }

  // ----- the chunks to recover and the chunks to recover them from

  function MissingList(chunks: seq<ChunkState>, n: nat): (v: seq<nat>)
    requires n <= |chunks|
    ensures forall i :: 0 <= i < |v| ==> v[i] < n && chunks[v[i]] == MISSING
    ensures forall i, j :: 0 <= i < j < |v| ==> v[i] < v[j]
    ensures forall r :: 0 <= r < n && chunks[r] == MISSING ==> r in v
  {
    if n == 0 then []
    else if chunks[n - 1] == MISSING then MissingList(chunks, n - 1) + [n - 1]
    else MissingList(chunks, n - 1)
  }

  lemma {:induction false} MissingCount(chunks: seq<ChunkState>, n: nat)
    requires n <= |chunks|
    ensures |MissingList(chunks, n)| == Num(chunks, MISSING, 0, n)
  {
    if n != 0 { MissingCount(chunks, n - 1); }
  }

  // In an ascending list the data units come first.
  lemma AscendingDataFirst(k: nat, erased: seq<nat>)
    requires forall i, j :: 0 <= i < j < |erased| ==> erased[i] < erased[j]
    ensures DataFirst(k, erased)
  {
    CountBelow(k, erased);
  }

  lemma {:induction false} CountBelow(k: nat, erased: seq<nat>)
    requires forall i, j :: 0 <= i < j < |erased| ==> erased[i] < erased[j]
    ensures forall i :: 0 <= i < |erased| ==> (i < CountData(k, erased) <==> erased[i] < k)
  {
    if erased != [] {
      var init := erased[..|erased| - 1];
      CountBelow(k, init);
      forall i | 0 <= i < |init| ensures i < CountData(k, init) <==> erased[i] < k {
        assert init[i] == erased[i];
      }
    }
  }

  lemma SpliceReadsShort(m: Vec, o: nat, v: Vec, p: nat, len: nat)
    requires o + len <= |m| && p + len <= |m| && |v| <= len && (Apart(p, o, len) || Apart(o, p, len))
    ensures Stretch(Splice(m, o, v), p, len) == Stretch(m, p, len)
  {}

  // ----- windows for the decoder

  // A window on each chunk that can be decoded from, null for the others.
  ghost predicate Windows(at: Placement, chunks: seq<ChunkState>, inputs: seq<ByteBuffer?>)
    reads Present(inputs)
  {
    && |inputs| == |chunks|
    && (forall i :: 0 <= i < |inputs| ==>
          (inputs[i] != null <==> chunks[i] == FETCHED || chunks[i] == ALLZERO))
    && (forall i :: 0 <= i < |inputs| && inputs[i] != null ==> On(inputs[i], at.Addr(i), at.span))
  }

  ghost predicate On(b: ByteBuffer, base: nat, len: nat)
    reads b
  {
    b.base == base && b.position == 0 && b.limit == len
  }

  ghost predicate OutWindows(at: Placement, erased: seq<nat>, outputs: seq<ByteBuffer>)
    reads outputs
  {
    |outputs| == |erased| && forall l :: 0 <= l < |outputs| ==> On(outputs[l], at.Addr(erased[l]), at.span)
  }

  lemma WindowsShape(at: Placement, chunks: seq<ChunkState>, inputs: seq<ByteBuffer?>, erased: seq<nat>,
                     outputs: seq<ByteBuffer>)
    requires Windows(at, chunks, inputs) && OutWindows(at, erased, outputs)
    ensures |inputs| == |chunks| && |outputs| == |erased|
    ensures forall i :: 0 <= i < |inputs| ==> (inputs[i] != null <==> chunks[i] == FETCHED || chunks[i] == ALLZERO)
  {}

  lemma StartsOfWindows(at: Placement, chunks: seq<ChunkState>, inputs: seq<ByteBuffer?>, erased: seq<nat>,
                        outputs: seq<ByteBuffer>, k: nat)
    requires Windows(at, chunks, inputs) && OutWindows(at, erased, outputs)
    requires 0 < k == |ValidIndexes(inputs, |inputs|)|
    ensures Starts(Chosen(inputs, k)) == at.Addrs(ValidIndexes(inputs, |inputs|))
    ensures Starts(outputs) == at.Addrs(erased)
    ensures inputs[ValidIndexes(inputs, |inputs|)[0]].Remaining() == at.span
  {
    hide Placement.Addr;
    var valid := ValidIndexes(inputs, |inputs|);
    forall i | 0 <= i < k ensures Starts(Chosen(inputs, k))[i] == at.Addrs(valid)[i] {
      assert On(inputs[valid[i]], at.Addr(valid[i]), at.span);
    }
    forall l | 0 <= l < |erased| ensures Starts(outputs)[l] == at.Addrs(erased)[l] {
      assert On(outputs[l], at.Addr(erased[l]), at.span);
    }
    assert On(inputs[valid[0]], at.Addr(valid[0]), at.span);
  }

  method InputWindows(at: Placement, chunks: seq<ChunkState>) returns (inputs: seq<ByteBuffer?>)
    ensures Windows(at, chunks, inputs)
    ensures forall b :: b in Present(inputs) ==> fresh(b)
  {
    hide Placement.Addr;
    inputs := [];
    for i := 0 to |chunks|
      invariant |inputs| == i
      invariant forall j :: 0 <= j < i ==> (inputs[j] != null <==> chunks[j] == FETCHED || chunks[j] == ALLZERO)
      invariant forall j :: 0 <= j < i && inputs[j] != null ==> fresh(inputs[j]) && On(inputs[j], at.Addr(j), at.span)
    {
      if chunks[i] == FETCHED || chunks[i] == ALLZERO {
        var b := new ByteBuffer(at.Addr(i), at.span);
        inputs := inputs + [b];
      } else {
        inputs := inputs + [null];
      }
    }
  }

  method OutputWindows(at: Placement, erased: seq<nat>) returns (outputs: seq<ByteBuffer>)
    ensures OutWindows(at, erased, outputs)
    ensures forall b :: b in outputs ==> fresh(b)
  {
    outputs := [];
    for l := 0 to |erased|
      invariant |outputs| == l && forall j :: 0 <= j < l ==> On(outputs[j], at.Addr(erased[j]), at.span)
      invariant forall b :: b in outputs ==> fresh(b)
    {
      var b := new ByteBuffer(at.Addr(erased[l]), at.span);
      outputs := outputs + [b];
    }
  }
}
