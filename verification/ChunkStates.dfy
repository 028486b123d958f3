// The states of the chunks of one aligned stripe, and counting them.

module ChunkStates {
  datatype ChunkState = Null | REQUESTED | PENDING | FETCHED | MISSING | ALLZERO

  // How many of the chunks lo .. hi - 1 are in state st.
  function Num(chunks: seq<ChunkState>, st: ChunkState, lo: nat, hi: nat): (n: nat)
    requires lo <= hi <= |chunks|
    ensures n <= hi - lo
  {
    if lo == hi then 0 else Num(chunks, st, lo, hi - 1) + if chunks[hi - 1] == st then 1 else 0
  }

  lemma {:induction false} NumUpdate(chunks: seq<ChunkState>, st: ChunkState, lo: nat, hi: nat, i: nat, to: ChunkState)
    requires lo <= hi <= |chunks| && i < |chunks|
    ensures Num(chunks[i := to], st, lo, hi) ==
            Num(chunks, st, lo, hi) + if lo <= i < hi then One(to == st) - One(chunks[i] == st) else 0
  {
    if lo < hi { NumUpdate(chunks, st, lo, hi - 1, i, to); }
  }

  function One(b: bool): int {
    if b then 1 else 0
  }

  lemma {:induction false} NumZero(chunks: seq<ChunkState>, st: ChunkState, lo: nat, hi: nat)
    requires lo <= hi <= |chunks|
    ensures Num(chunks, st, lo, hi) == 0 <==> forall i :: lo <= i < hi ==> chunks[i] != st
  {
    if lo < hi { NumZero(chunks, st, lo, hi - 1); }
  }

  // Every chunk is in some state.
  lemma {:induction false} NumTotal(chunks: seq<ChunkState>, lo: nat, hi: nat)
    requires lo <= hi <= |chunks|
    ensures Num(chunks, Null, lo, hi) + Num(chunks, REQUESTED, lo, hi) + Num(chunks, PENDING, lo, hi) +
            Num(chunks, FETCHED, lo, hi) + Num(chunks, MISSING, lo, hi) + Num(chunks, ALLZERO, lo, hi) == hi - lo
  {
    hide Num, One;
    NumStep(chunks, Null, lo, hi);
    NumStep(chunks, REQUESTED, lo, hi);
    NumStep(chunks, PENDING, lo, hi);
    NumStep(chunks, FETCHED, lo, hi);
    NumStep(chunks, MISSING, lo, hi);
    NumStep(chunks, ALLZERO, lo, hi);
    if lo < hi {
      NumTotal(chunks, lo, hi - 1);
      OneState(chunks[hi - 1]);
    }
  }

  lemma NumStep(chunks: seq<ChunkState>, st: ChunkState, lo: nat, hi: nat)
    requires lo <= hi <= |chunks|
    ensures Num(chunks, st, lo, hi) == if lo == hi then 0 else Num(chunks, st, lo, hi - 1) + One(chunks[hi - 1] == st)
  {}

  lemma OneState(st: ChunkState)
    ensures One(st == Null) + One(st == REQUESTED) + One(st == PENDING) + One(st == FETCHED) + One(st == MISSING) +
            One(st == ALLZERO) == 1
  {}

  lemma {:induction false} NumSplit(chunks: seq<ChunkState>, st: ChunkState, lo: nat, mid: nat, hi: nat)
    requires lo <= mid <= hi <= |chunks|
    ensures Num(chunks, st, lo, hi) == Num(chunks, st, lo, mid) + Num(chunks, st, mid, hi)
  {
    if mid < hi { NumSplit(chunks, st, lo, mid, hi - 1); }
  }

  // How far a chunk is from a final state; no step raises it.
  function Rank(st: ChunkState): nat {
    match st
    case Null => 3
    case REQUESTED => 2
    case PENDING => 1
    case FETCHED => 0
    case MISSING => 0
    case ALLZERO => 0
  }

  function TotalRank(chunks: seq<ChunkState>, n: nat): nat
    requires n <= |chunks|
  {
    if n == 0 then 0 else TotalRank(chunks, n - 1) + Rank(chunks[n - 1])
  }

  lemma {:induction false} RankUpdate(chunks: seq<ChunkState>, n: nat, i: nat, to: ChunkState)
    requires n <= |chunks| && i < |chunks|
    ensures TotalRank(chunks[i := to], n) == TotalRank(chunks, n) + if i < n then Rank(to) - Rank(chunks[i]) else 0
  {
    if n != 0 { RankUpdate(chunks, n - 1, i, to); }
  }

  // ----- the balance the reader keeps

  function Missing(chunks: seq<ChunkState>): nat {
    Num(chunks, MISSING, 0, |chunks|)
  }

  function Fetched(chunks: seq<ChunkState>): nat {
    Num(chunks, FETCHED, 0, |chunks|)
  }

  // Data chunks lost, less the parity chunks read or being read in their place.
  function Debt(chunks: seq<ChunkState>, k: nat): int
    requires k <= |chunks|
  {
    Num(chunks, MISSING, 0, k) - Num(chunks, PENDING, k, |chunks|) - Num(chunks, FETCHED, k, |chunks|)
  }

  function Live(st: ChunkState): int {
    One(st == PENDING || st == FETCHED)
  }

  lemma SetState(chunks: seq<ChunkState>, k: nat, i: nat, to: ChunkState)
    requires k <= |chunks| && i < |chunks|
    ensures var c := chunks[i := to];
            && Missing(c) == Missing(chunks) + One(to == MISSING) - One(chunks[i] == MISSING)
            && Fetched(c) == Fetched(chunks) + One(to == FETCHED) - One(chunks[i] == FETCHED)
            && Debt(c, k) == Debt(chunks, k) +
                 (if i < k then One(to == MISSING) - One(chunks[i] == MISSING) else Live(chunks[i]) - Live(to))
            && TotalRank(c, |chunks|) == TotalRank(chunks, |chunks|) + Rank(to) - Rank(chunks[i])
  {
    hide Num, TotalRank;
    var n := |chunks|;
    NumUpdate(chunks, MISSING, 0, n, i, to);
    NumUpdate(chunks, FETCHED, 0, n, i, to);
    NumUpdate(chunks, MISSING, 0, k, i, to);
    NumUpdate(chunks, PENDING, k, n, i, to);
    NumUpdate(chunks, FETCHED, k, n, i, to);
    RankUpdate(chunks, n, i, to);
  }

  // Parity chunks are read or lost, never merely requested or known zero.
  predicate ParityStates(chunks: seq<ChunkState>, k: nat)
    requires k <= |chunks|
  {
    forall i :: k <= i < |chunks| ==> chunks[i] != REQUESTED && chunks[i] != ALLZERO
  }

  // With every parity chunk tried, a debt that remains means too many are lost.
  lemma DebtMeansTooMany(chunks: seq<ChunkState>, k: nat)
    requires k <= |chunks| && ParityStates(chunks, k)
    requires forall i :: k <= i < |chunks| ==> chunks[i] != Null
    ensures Debt(chunks, k) > 0 ==> Missing(chunks) > |chunks| - k
  {
    hide Num;
    NumTotal(chunks, k, |chunks|);
    NumZero(chunks, Null, k, |chunks|);
    NumZero(chunks, REQUESTED, k, |chunks|);
    NumZero(chunks, ALLZERO, k, |chunks|);
    NumSplit(chunks, MISSING, 0, k, |chunks|);
  }

  // With no debt and every data chunk decided, exactly k chunks can be decoded
  // from; when k are fetched nothing is left to wait for.
  lemma LiveChunks(chunks: seq<ChunkState>, k: nat)
    requires k <= |chunks| && ParityStates(chunks, k) && Debt(chunks, k) == 0
    ensures Num(chunks, PENDING, 0, |chunks|) + Fetched(chunks) + Num(chunks, ALLZERO, 0, |chunks|) +
            Num(chunks, Null, 0, k) + Num(chunks, REQUESTED, 0, k) == k
  {
    hide Num;
    NumTotal(chunks, 0, k);
    NumZero(chunks, ALLZERO, k, |chunks|);
    NumSplit(chunks, PENDING, 0, k, |chunks|);
    NumSplit(chunks, FETCHED, 0, k, |chunks|);
    NumSplit(chunks, ALLZERO, 0, k, |chunks|);
  }

  // When every read has ended, what can be decoded from are k chunks.
  lemma SurvivorCount(chunks: seq<ChunkState>, k: nat)
    requires k <= |chunks| && ParityStates(chunks, k) && Debt(chunks, k) == 0
    requires forall i :: 0 <= i < |chunks| ==> chunks[i] != PENDING
    requires forall i :: 0 <= i < k ==> chunks[i] != Null && chunks[i] != REQUESTED
    ensures Num(chunks, FETCHED, 0, |chunks|) + Num(chunks, ALLZERO, 0, |chunks|) == k
  {
    hide Num, Debt;
    LiveChunks(chunks, k);
    NumZero(chunks, PENDING, 0, |chunks|);
    NumZero(chunks, Null, 0, k);
    NumZero(chunks, REQUESTED, 0, k);
  }
}
