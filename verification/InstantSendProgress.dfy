/**
 What InstantSend gets done: a request counts the votes that have been waiting for it, each once, and a transaction with
 enough votes on every input is locked, whatever the order in which its request and its votes come in.
 */
module InstantSendProgress {
  import opened InstantSend
  import opened InstantSendSafety
  import opened Sets

  // ---------------------------------------------------------------- what a replay does to the votes

  predicate VotesFor(v: Vote, h: TxHash, o: OutPoint, m: Tnode) {
    v.txHash == h && v.outpoint == o && v.tnode == m
  }

  predicate SameBallot(v: Vote, w: Vote) {
    v.txHash == w.txHash && v.outpoint == w.outpoint && v.tnode == w.tnode
  }

  /** A waiting vote that can be counted: its transaction is requested, it is in time, and on one of the outpoints. */
  predicate Eligible(s: State, k: nat, env: Env) {
    && k in s.orphans && k !in env.tooLate && Requested(s, s.orphans[k].txHash)
    && s.orphans[k].outpoint in s.candidates[s.orphans[k].txHash].locks
  }

  predicate VotedIn(s: State, v: Vote) {
    v.txHash in s.candidates && HasVoted(s.candidates[v.txHash], v.outpoint, v.tnode)
  }

  /** The vote is the one that is recorded for its tnode. */
  predicate Recorded(s: State, v: Vote) {
    VotedIn(s, v) && s.candidates[v.txHash].locks[v.outpoint].votes[v.tnode] == v
  }

  /** Eligible, and the first such vote of its tnode. */
  predicate First(s: State, keys: set<nat>, k: nat, env: Env) {
    && k in keys && Eligible(s, k, env) && !VotedIn(s, s.orphans[k])
    && forall j :: j in keys && j < k && Eligible(s, j, env) ==> !SameBallot(s.orphans[j], s.orphans[k])
  }

  ghost predicate SomeEligible(s: State, keys: set<nat>, env: Env, h: TxHash, o: OutPoint, m: Tnode) {
    exists k :: k in keys && EligibleFor(s, k, env, h, o, m)
  }

  predicate EligibleFor(s: State, k: nat, env: Env, h: TxHash, o: OutPoint, m: Tnode) {
    Eligible(s, k, env) && VotesFor(s.orphans[k], h, o, m)
  }

  /** Same requests and outpoints; votes that are there stay as they are. */
  predicate CandidateKept(c: Candidate, c': Candidate) {
    && c'.request == c.request && c'.locks.Keys == c.locks.Keys
    && forall o :: o in c.locks ==> VotesKept(c.locks[o].votes, c'.locks[o].votes)
  }

  predicate VotesKept(votes: map<Tnode, Vote>, votes': map<Tnode, Vote>) {
    forall m :: m in votes ==> m in votes' && votes'[m] == votes[m]
  }

  predicate Kept(s: State, r: State) {
    && r.candidates.Keys == s.candidates.Keys && r.locked == s.locked
    && (forall h :: h in s.candidates ==> CandidateKept(s.candidates[h], r.candidates[h]))
    && (forall k :: k in r.orphans ==> k in s.orphans && r.orphans[k] == s.orphans[k])
  }

  lemma KeptTransitive(a: State, b: State, c: State)
    requires Kept(a, b) && Kept(b, c)
    ensures Kept(a, c)
  {
    forall h | h in a.candidates ensures CandidateKept(a.candidates[h], c.candidates[h]) {
      assert CandidateKept(a.candidates[h], b.candidates[h]) && CandidateKept(b.candidates[h], c.candidates[h]);
      forall o | o in a.candidates[h].locks
        ensures VotesKept(a.candidates[h].locks[o].votes, c.candidates[h].locks[o].votes)
      {
        assert VotesKept(a.candidates[h].locks[o].votes, b.candidates[h].locks[o].votes);
        assert VotesKept(b.candidates[h].locks[o].votes, c.candidates[h].locks[o].votes);
      }
    }
  }

  lemma CountKeeps(s: State, v: Vote)
    requires v.txHash in s.candidates
    ensures Kept(s, CountVote(s, v)) && CountVote(s, v).orphans == s.orphans
    ensures Counted(s, v) ==> Recorded(CountVote(s, v), v)
  {
    var r := CountVote(s, v);
    forall h | h in s.candidates ensures CandidateKept(s.candidates[h], r.candidates[h]) {
      CountedCandidate(s, v, h);
    }
  }

  lemma OneKeeps(s: State, k: nat, env: Env)
    ensures Kept(s, ReplayOne(s, k, env))
  {
    hide CountVote;
    if k in s.orphans && Requested(s, s.orphans[k].txHash) && k !in env.tooLate {
      CountKeeps(s, s.orphans[k]);
    } else {
      SelfKept(s);
    }
  }

  lemma SelfKept(s: State)
    ensures Kept(s, s)
  {
  }

  /** One waiting vote: counted, and out of the map, exactly if it is eligible and its tnode has not voted yet. */
  lemma OneCounts(s: State, k: nat, env: Env, h: TxHash, o: OutPoint, m: Tnode)
    requires h in s.candidates
    ensures var r := ReplayOne(s, k, env);
      && h in r.candidates
      && (HasVoted(r.candidates[h], o, m) <==>
            HasVoted(s.candidates[h], o, m) || EligibleFor(s, k, env, h, o, m))
      && (r.orphans == if Eligible(s, k, env) && !VotedIn(s, s.orphans[k]) then s.orphans - {k} else s.orphans)
      && (Eligible(s, k, env) && !VotedIn(s, s.orphans[k]) ==> Recorded(r, s.orphans[k]))
  {
    hide CountVote;
    if k in s.orphans && Requested(s, s.orphans[k].txHash) && k !in env.tooLate {
      CountKeeps(s, s.orphans[k]);
      CountedCandidate(s, s.orphans[k], h);
    }
  }

  lemma StillEligible(s: State, r: State, j: nat, env: Env)
    requires Kept(s, r) && j in r.orphans
    ensures j in s.orphans && r.orphans[j] == s.orphans[j] && (Eligible(r, j, env) <==> Eligible(s, j, env))
  {
    if s.orphans[j].txHash in s.candidates {
      assert CandidateKept(s.candidates[s.orphans[j].txHash], r.candidates[s.orphans[j].txHash]);
    }
  }

  lemma {:induction false} ReplayKeeps(s: State, keys: set<nat>, env: Env)
    ensures Kept(s, Replay(s, keys, env))
    decreases |keys|
  {
    hide Kept, ReplayOne;
    if keys == {} {
      SelfKept(s);
    } else {
      var k := Least(keys);
      OneKeeps(s, k, env);
      ReplayKeeps(ReplayOne(s, k, env), keys - {k}, env);
      KeptTransitive(s, ReplayOne(s, k, env), Replay(ReplayOne(s, k, env), keys - {k}, env));
    }
  }

  /** After the replay a tnode has voted exactly if it had voted before or one of its waiting votes was eligible. */
  lemma {:induction false} ReplayVotes(s: State, keys: set<nat>, env: Env, h: TxHash, o: OutPoint, m: Tnode)
    requires h in s.candidates
    ensures var r := Replay(s, keys, env);
      && h in r.candidates
      && (HasVoted(r.candidates[h], o, m) <==> HasVoted(s.candidates[h], o, m) || SomeEligible(s, keys, env, h, o, m))
    decreases |keys|
  {
    hide ReplayOne, EligibleFor, HasVoted, Kept, IsLeast;
    if keys == {} {
    } else {
      var k := Least(keys);
      assert k in keys by { LeastIn(keys, k); }
      var s1 := ReplayOne(s, k, env);
      OneCounts(s, k, env, h, o, m);
      OneKeeps(s, k, env);
      ReplayVotes(s1, keys - {k}, env, h, o, m);
      RestEligible(s, keys, k, env, h, o, m);
    }
  }

  lemma LeastIn(keys: set<nat>, k: int)
    requires IsLeast(keys, k)
    ensures k in keys && forall j :: j in keys - {k} ==> k < j
  {
  }

  lemma RestEligible(s: State, keys: set<nat>, k: nat, env: Env, h: TxHash, o: OutPoint, m: Tnode)
    requires k in keys && Kept(s, ReplayOne(s, k, env)) && h in s.candidates
    ensures SomeEligible(s, keys, env, h, o, m) <==>
      EligibleFor(s, k, env, h, o, m) || SomeEligible(ReplayOne(s, k, env), keys - {k}, env, h, o, m)
  {
    hide ReplayOne, Kept;
    var s1 := ReplayOne(s, k, env);
    OneCounts(s, k, env, h, o, m);
    forall j | j in keys - {k} ensures EligibleFor(s, j, env, h, o, m) <==> EligibleFor(s1, j, env, h, o, m) {
      OthersStay(s, s1, k, j, env);
    }
  }

  lemma OthersStay(s: State, s1: State, k: nat, j: nat, env: Env)
    requires Kept(s, s1) && (s1.orphans == s.orphans || s1.orphans == s.orphans - {k}) && j != k
    ensures Eligible(s1, j, env) <==> Eligible(s, j, env)
    ensures j in s1.orphans <==> j in s.orphans
    ensures j in s.orphans ==> s1.orphans[j] == s.orphans[j]
  {
    if j in s.orphans { StillEligible(s, s1, j, env); }
  }

  /** A waiting vote leaves the map exactly if it is the first eligible one of a tnode that had not voted, and then it
      is the vote that is recorded. */
  lemma {:induction false} ReplayOrphans(s: State, keys: set<nat>, env: Env, k: nat)
    requires k in s.orphans
    ensures var r := Replay(s, keys, env);
      && (k !in r.orphans <==> First(s, keys, k, env))
      && (k !in r.orphans ==> Recorded(r, s.orphans[k]))
    decreases |keys|
  {
    hide ReplayOne, Kept, First, VotedIn, Recorded, IsLeast;
    if keys == {} {
      assert !First(s, keys, k, env) by { NobodyFirst(s, keys, k, env); }
    } else {
      var n := Least(keys);
      LeastIn(keys, n);
      var s1 := ReplayOne(s, n, env);
      OneKeeps(s, n, env);
      OneOrphan(s, n, env);
      if k in s1.orphans {
        ReplayOrphans(s1, keys - {n}, env, k);
        FirstOfRest(s, keys, n, k, env);
        assert s1.orphans[k] == s.orphans[k] by { OthersSame(s, s1, k); }
      } else {
        ReplayKeeps(s1, keys - {n}, env);
        RecordStays(s1, Replay(s1, keys - {n}, env), s.orphans[k]);
        NotAgain(s1, Replay(s1, keys - {n}, env), k);
        assert k == n && Eligible(s, k, env) && !VotedIn(s, s.orphans[k]);
        forall j | j in keys ensures k <= j { assert j == n || j in keys - {n}; }
        LeastIsFirst(s, keys, k, env);
      }
    }
  }

  lemma NobodyFirst(s: State, keys: set<nat>, k: nat, env: Env)
    requires keys == {}
    ensures !First(s, keys, k, env)
  {
  }

  lemma OneOrphan(s: State, n: nat, env: Env)
    ensures var s1 := ReplayOne(s, n, env);
      && (s1.orphans == if Eligible(s, n, env) && !VotedIn(s, s.orphans[n]) then s.orphans - {n} else s.orphans)
      && (Eligible(s, n, env) && !VotedIn(s, s.orphans[n]) ==> Recorded(s1, s.orphans[n]))
  {
    hide ReplayOne;
    if Eligible(s, n, env) {
      var v := s.orphans[n];
      OneCounts(s, n, env, v.txHash, v.outpoint, v.tnode);
    } else {
      OneIdle(s, n, env);
    }
  }

  lemma OneIdle(s: State, n: nat, env: Env)
    requires !Eligible(s, n, env)
    ensures ReplayOne(s, n, env).orphans == s.orphans
  {
  }

  lemma OthersSame(s: State, s1: State, k: nat)
    requires Kept(s, s1) && k in s1.orphans
    ensures k in s.orphans && s1.orphans[k] == s.orphans[k]
  {
  }

  lemma NotAgain(s1: State, r: State, k: nat)
    requires Kept(s1, r) && k !in s1.orphans
    ensures k !in r.orphans
  {
  }

  lemma RecordStays(s1: State, r: State, v: Vote)
    requires Kept(s1, r) && Recorded(s1, v)
    ensures Recorded(r, v)
  {
    assert CandidateKept(s1.candidates[v.txHash], r.candidates[v.txHash]);
    assert VotesKept(s1.candidates[v.txHash].locks[v.outpoint].votes, r.candidates[v.txHash].locks[v.outpoint].votes);
  }

  lemma LeastIsFirst(s: State, keys: set<nat>, k: nat, env: Env)
    requires k in keys && Eligible(s, k, env) && !VotedIn(s, s.orphans[k]) && forall j :: j in keys ==> k <= j
    ensures First(s, keys, k, env)
  {
  }

  lemma FirstOfRest(s: State, keys: set<nat>, n: nat, k: nat, env: Env)
    requires n in keys && (forall j :: j in keys - {n} ==> n < j) && k in s.orphans
    requires k in ReplayOne(s, n, env).orphans && Kept(s, ReplayOne(s, n, env))
    ensures First(s, keys, k, env) <==> First(ReplayOne(s, n, env), keys - {n}, k, env)
  {
    hide ReplayOne, Kept;
    var s1 := ReplayOne(s, n, env);
    var v := s.orphans[k];
    OneOrphan(s, n, env);
    forall j | j != n ensures
      (Eligible(s1, j, env) <==> Eligible(s, j, env)) && (j in s1.orphans <==> j in s.orphans) &&
      (j in s.orphans ==> s1.orphans[j] == s.orphans[j])
    {
      OthersStay(s, s1, n, j, env);
    }
    OthersSame(s, s1, k);
    if v.txHash in s.candidates { OneCounts(s, n, env, v.txHash, v.outpoint, v.tnode); }
    StillEligible(s, s1, k, env);
    assert VotedIn(s1, v) <==> VotedIn(s, v) || (Eligible(s, n, env) && SameBallot(s.orphans[n], v)) by {
      KeptKeys(s, s1);
      if Eligible(s, n, env) { assert s.orphans[n].txHash in s.candidates; }
    }
  }

  lemma KeptKeys(s: State, r: State)
    requires Kept(s, r)
    ensures r.candidates.Keys == s.candidates.Keys
  {
  }

  // ---------------------------------------------------------------- what a request does to the waiting votes

  /** The vote has been waiting for a transaction that is requested now, is in time, and on one of its outpoints. */
  predicate Due(s: State, s': State, k: nat, env: Env) {
    && k in s.orphans && k !in env.tooLate && Requested(s', s.orphans[k].txHash)
    && s.orphans[k].outpoint in s'.candidates[s.orphans[k].txHash].locks
  }

  /** The first due vote of a tnode that had not voted yet. */
  predicate FirstDue(s: State, s': State, k: nat, env: Env) {
    && Due(s, s', k, env) && !VotedIn(s, s.orphans[k])
    && forall j :: j in s.orphans && j < k && Due(s, s', j, env) ==> !SameBallot(s.orphans[j], s.orphans[k])
  }

  /** No candidate has been opened by an early vote that has timed out. */
  predicate Timely(s: State, tx: Tx, timedOut: bool) {
    timedOut && tx.hash in s.candidates ==> s.candidates[tx.hash].request.Some?
  }

  lemma CreatedVotes(s: State, tx: Tx, timedOut: bool, h: TxHash, o: OutPoint, m: Tnode)
    requires Shaped(s) && h in Create(s, tx, timedOut).candidates
    ensures HasVoted(Create(s, tx, timedOut).candidates[h], o, m) <==>
      h in s.candidates && HasVoted(s.candidates[h], o, m)
  {
    if h in s.candidates { assert CandidateOk(h, s.candidates[h]); }
  }

  /** What is left of a candidate and of the waiting votes after the attempt to finalize. */
  lemma FinalizedVotes(r: State, h: TxHash, env: Env, required: int)
    requires Requested(r, h)
    ensures var s' := Finalize(r, h, env, required);
      && s'.orphans == r.orphans
      && forall g :: g in s'.candidates ==> g in r.candidates && s'.candidates[g] == r.candidates[g]
  {
    hide Resolve, AllOutPointsReady, FullyLocked;
  }

  /** The state in which a timely request is finalized. */
  lemma RequestIs(s: State, tx: Tx, timedOut: bool, env: Env, required: int) returns (s1: State, r: State)
    requires Shaped(s) && Timely(s, tx, timedOut)
    ensures s1 == Create(s, tx, timedOut) && r == Replay(s1, s1.orphans.Keys, env) && Kept(s1, r)
    ensures Requested(s1, tx.hash) && s1.orphans == s.orphans && Requested(r, tx.hash)
    ensures Step(s, Request(tx, true, timedOut, env), required) == Finalize(r, tx.hash, env, required)
  {
    hide Finalize, Replay;
    s1 := Create(s, tx, timedOut);
    ReplayKeeps(s1, s1.orphans.Keys, env);
    r := Replay(s1, s1.orphans.Keys, env);
    assert CandidateKept(s1.candidates[tx.hash], r.candidates[tx.hash]);
  }

  lemma DueIsEligible(s: State, s1: State, r: State, s': State, k: nat, env: Env)
    requires Kept(s1, r) && s1.orphans == s.orphans && k in s.orphans && s.orphans[k].txHash in s'.candidates
    requires forall g :: g in s'.candidates ==> g in r.candidates && s'.candidates[g] == r.candidates[g]
    ensures Due(s, s', k, env) <==> Eligible(s1, k, env)
  {
    var h := s.orphans[k].txHash;
    assert CandidateKept(s1.candidates[h], r.candidates[h]);
  }

  /** After a timely request, every waiting vote that is due is among the votes of its candidate.  A waiting vote leaves
      the map exactly if it is due, its tnode had not voted yet, and no other due vote of that tnode comes before it in
      the map; then it is the vote that is recorded. */
  lemma RequestCounts(s: State, tx: Tx, timedOut: bool, env: Env, required: int, k: nat)
    requires Shaped(s) && Timely(s, tx, timedOut) && k in s.orphans
    requires s.orphans[k].txHash in Step(s, Request(tx, true, timedOut, env), required).candidates
    ensures var s', v := Step(s, Request(tx, true, timedOut, env), required), s.orphans[k];
      && (Due(s, s', k, env) ==> VotedIn(s', v))
      && (k !in s'.orphans <==> FirstDue(s, s', k, env))
      && (k !in s'.orphans ==> Recorded(s', v))
  {
    hide Step, Finalize, Create, Replay, Kept, Shaped, Due, Eligible, HasVoted, SomeEligible;
    var s', v := Step(s, Request(tx, true, timedOut, env), required), s.orphans[k];
    var s1, r := RequestIs(s, tx, timedOut, env, required);
    FinalizedVotes(r, tx.hash, env, required);
    KeptKeys(s1, r);
    ReplayOrphans(s1, s1.orphans.Keys, env, k);
    ReplayVotes(s1, s1.orphans.Keys, env, v.txHash, v.outpoint, v.tnode);
    CreatedVotes(s, tx, timedOut, v.txHash, v.outpoint, v.tnode);
    DueIsEligible(s, s1, r, s', k, env);
    forall j | j in s.orphans && SameBallot(s.orphans[j], v) ensures Due(s, s', j, env) <==> Eligible(s1, j, env) {
      DueIsEligible(s, s1, r, s', j, env);
    }
    if Due(s, s', k, env) {
      assert EligibleFor(s1, k, env, v.txHash, v.outpoint, v.tnode);
      assert SomeEligible(s1, s1.orphans.Keys, env, v.txHash, v.outpoint, v.tnode) by {
        Witness(s1, s1.orphans.Keys, k, env, v.txHash, v.outpoint, v.tnode);
      }
    }
  }

  lemma Witness(s: State, keys: set<nat>, k: nat, env: Env, h: TxHash, o: OutPoint, m: Tnode)
    requires k in keys && EligibleFor(s, k, env, h, o, m)
    ensures SomeEligible(s, keys, env, h, o, m)
  {
  }

  // ---------------------------------------------------------------- one transaction, in any order

  /** Nothing outside stands in the way of the transaction. */
  predicate Clear(env: Env, tx: Tx) {
    && env.enabled && env.tooLate == {}
    && forall i :: 0 <= i < |tx.vin| ==>
         tx.vin[i] in env.unspent && (tx.vin[i] in env.spending ==> env.spending[tx.vin[i]] == tx.hash)
  }

  /** A request of the transaction or a vote for it. */
  predicate About(e: Event, tx: Tx) {
    match e
    case Request(t, valid, timedOut, env) => t == tx && valid && !timedOut && Clear(env, tx)
    case NewVote(v, valid, env) => v.txHash == tx.hash && valid && Clear(env, tx)
  }

  function VotesIn(events: seq<Event>): set<Vote> {
    set i | 0 <= i < |events| && events[i].NewVote? :: events[i].vote
  }

  predicate Asked(events: seq<Event>) {
    exists i :: 0 <= i < |events| && events[i].Request?
  }

  /** The hash of a vote identifies it. */
  predicate Identified(votes: set<Vote>) {
    forall v, w :: v in votes && w in votes && v.hash == w.hash ==> v == w
  }

  function Voters(votes: set<Vote>, o: OutPoint): set<Tnode> {
    set v | v in votes && v.outpoint == o :: v.tnode
  }

  predicate Enough(votes: set<Vote>, tx: Tx, required: int) {
    forall o :: o in Inputs(tx) ==> |Voters(votes, o)| >= required
  }

  function LocksOf(tx: Tx): map<OutPoint, TxHash> {
    map o | o in Inputs(tx) :: tx.hash
  }

  /** The candidate of a requested transaction with these votes. */
  predicate Gathered(c: Candidate, tx: Tx, votes: set<Vote>) {
    && c.request == Some(tx) && c.locks.Keys == Inputs(tx)
    && forall o :: o in c.locks ==> !c.locks[o].attacked && c.locks[o].votes.Keys == Voters(votes, o)
  }

  /** Only this transaction has been heard of: by these votes, and by a request if `asked`. */
  predicate Solo(s: State, tx: Tx, votes: set<Vote>, asked: bool, required: int) {
    && s.candidates.Keys == (if asked || votes != {} then {tx.hash} else {})
    && (forall k :: k in s.orphans ==> s.orphans[k] in votes && s.orphans[k].hash == k)
    && s.locked == (if asked && Enough(votes, tx, required) then LocksOf(tx) else map[])
    && (if asked then Gathered(s.candidates[tx.hash], tx, votes)
        else
          && (votes != {} ==> s.candidates[tx.hash] == Candidate(None, map[]))
          && (forall v :: v in votes ==> v.hash in s.orphans && s.orphans[v.hash] == v))
  }

  lemma GatheredReady(c: Candidate, tx: Tx, votes: set<Vote>, required: int)
    requires Gathered(c, tx, votes) && tx.vin != []
    ensures AllOutPointsReady(c, required) <==> Enough(votes, tx, required)
  {
    assert tx.vin[0] in Inputs(tx);
    assert c.locks != map[];
    forall o | o in c.locks ensures IsReady(c.locks[o], required) <==> |Voters(votes, o)| >= required {
      assert |c.locks[o].votes.Keys| == |c.locks[o].votes|;
    }
  }

  lemma {:induction false} ScanClear(s: State, h: TxHash, vin: seq<OutPoint>, env: Env)
    requires forall i :: 0 <= i < |vin| ==>
      (vin[i] in s.locked ==> s.locked[vin[i]] == h) && (vin[i] in env.spending ==> env.spending[vin[i]] == h)
    ensures Scan(s, h, vin, env) == Go
  {
    if vin != [] { ScanClear(s, h, vin[1..], env); }
  }

  lemma SoloGo(s: State, tx: Tx, env: Env)
    requires Clear(env, tx) && tx.hash in s.candidates && s.candidates[tx.hash].request == Some(tx)
    requires forall o :: o in s.locked ==> s.locked[o] == tx.hash
    ensures Resolve(s, tx.hash, env) == Go
  {
    ScanClear(s, tx.hash, tx.vin, env);
  }

  lemma SoloLock(s: State, tx: Tx, votes: set<Vote>)
    requires tx.hash in s.candidates && Gathered(s.candidates[tx.hash], tx, votes)
    requires s.locked == map[] || s.locked == LocksOf(tx)
    ensures LockInputs(s, tx.hash) == s.(locked := LocksOf(tx))
    ensures FullyLocked(s, tx.hash) && tx.vin != [] ==> s.locked == LocksOf(tx)
  {
    if tx.vin != [] { assert tx.vin[0] in Inputs(tx); }
    assert (map o | o in s.candidates[tx.hash].locks :: tx.hash) + s.locked == LocksOf(tx);
  }

  /** Finalizing locks the transaction exactly if it has enough votes. */
  lemma SoloFinal(s: State, tx: Tx, votes: set<Vote>, env: Env, required: int)
    requires tx.vin != [] && Clear(env, tx) && s.candidates.Keys == {tx.hash}
    requires Gathered(s.candidates[tx.hash], tx, votes)
    requires s.locked == map[] || (s.locked == LocksOf(tx) && Enough(votes, tx, required))
    ensures var s' := Finalize(s, tx.hash, env, required);
      s' == s.(locked := if Enough(votes, tx, required) then LocksOf(tx) else map[])
  {
    hide Gathered, Enough, Resolve, FullyLocked, LockInputs, AllOutPointsReady, Clear;
    assert env.enabled by { IsEnabled(env, tx); }
    Asks(s.candidates[tx.hash], tx, votes);
    GatheredReady(s.candidates[tx.hash], tx, votes, required);
    SoloGo(s, tx, env);
    SoloLock(s, tx, votes);
  }

  lemma IsEnabled(env: Env, tx: Tx)
    requires Clear(env, tx)
    ensures env.enabled && env.tooLate == {}
  {
  }

  /** Counting a vote for the only candidate spoils nothing. */
  lemma SoloCount(s: State, tx: Tx, votes: set<Vote>, v: Vote)
    requires s.candidates.Keys == {tx.hash} && Gathered(s.candidates[tx.hash], tx, votes) && v.txHash == tx.hash
    ensures var r := CountVote(s, v);
      && r.candidates.Keys == {tx.hash} && Gathered(r.candidates[tx.hash], tx, votes + {v})
      && r.orphans == s.orphans && r.locked == s.locked
      && (!Counted(s, v) ==> forall o :: o in Inputs(tx) ==> Voters(votes + {v}, o) == Voters(votes, o))
  {
    assert DoubleVoted(s, v) == {};
    var c, c' := s.candidates[tx.hash], CountVote(s, v).candidates[tx.hash];
    assert c' == WithVote(c, v);
    forall o ensures Voters(votes + {v}, o) == Voters(votes, o) + if o == v.outpoint then {v.tnode} else {} {
      MoreVoters(votes, v, o);
    }
  }

  lemma MoreVoters(votes: set<Vote>, v: Vote, o: OutPoint)
    ensures Voters(votes + {v}, o) == Voters(votes, o) + if o == v.outpoint then {v.tnode} else {}
  {
  }

  lemma {:induction false} SoloReplay(s: State, keys: set<nat>, tx: Tx, votes: set<Vote>, env: Env)
    requires s.candidates.Keys == {tx.hash} && Gathered(s.candidates[tx.hash], tx, votes) && env.tooLate == {}
    requires forall k :: k in s.orphans ==> s.orphans[k].txHash == tx.hash
    ensures var r := Replay(s, keys, env);
      && r.candidates.Keys == {tx.hash}
      && Gathered(r.candidates[tx.hash], tx, votes + Waiting(s.orphans, keys))
    decreases |keys|
  {
    hide Gathered, CountVote, IsLeast;
    if keys == {} {
      assert votes + Waiting(s.orphans, keys) == votes;
    } else {
      var k := Least(keys);
      LeastIn(keys, k);
      var s1 := ReplayOne(s, k, env);
      if k in s.orphans {
        var v := s.orphans[k];
        Asks(s.candidates[tx.hash], tx, votes);
        SoloCount(s, tx, votes, v);
        SoloReplay(s1, keys - {k}, tx, votes + {v}, env);
        WaitingRest(s.orphans, s1.orphans, keys, k);
        assert votes + {v} + Waiting(s1.orphans, keys - {k}) == votes + Waiting(s.orphans, keys);
      } else {
        SoloReplay(s1, keys - {k}, tx, votes, env);
        assert Waiting(s.orphans, keys) == Waiting(s.orphans, keys - {k});
      }
    }
  }

  lemma Asks(c: Candidate, tx: Tx, votes: set<Vote>)
    requires Gathered(c, tx, votes)
    ensures c.request == Some(tx)
  {
  }

  function Waiting(orphans: map<nat, Vote>, keys: set<nat>): set<Vote> {
    set k | k in keys && k in orphans :: orphans[k]
  }

  lemma WaitingRest(orphans: map<nat, Vote>, orphans': map<nat, Vote>, keys: set<nat>, k: nat)
    requires k in keys && k in orphans && (orphans' == orphans || orphans' == orphans - {k})
    ensures {orphans[k]} + Waiting(orphans', keys - {k}) == Waiting(orphans, keys)
  {
    forall v | v in Waiting(orphans, keys) ensures v in {orphans[k]} + Waiting(orphans', keys - {k}) {
      var j :| j in keys && j in orphans && orphans[j] == v;
      if j != k { assert j in keys - {k} && j in orphans' && orphans'[j] == v; }
    }
  }

  lemma SoloRequest(s: State, tx: Tx, votes: set<Vote>, asked: bool, env: Env, required: int)
    requires tx.vin != [] && Solo(s, tx, votes, asked, required) && Clear(env, tx)
    requires forall v :: v in votes ==> v.txHash == tx.hash
    ensures Solo(Step(s, Request(tx, true, false, env), required), tx, votes, true, required)
  {
    hide Replay, Finalize, Gathered, Enough, Clear;
    IsEnabled(env, tx);
    var s1 := Create(s, tx, false);
    SoloCreate(s, tx, votes, asked, required);
    var had := if asked then votes else {};
    SoloReplay(s1, s1.orphans.Keys, tx, had, env);
    ReplayKeeps(s1, s1.orphans.Keys, env);
    var r := Replay(s1, s1.orphans.Keys, env);
    assert had + Waiting(s1.orphans, s1.orphans.Keys) == votes;
    Asks(r.candidates[tx.hash], tx, votes);
    SoloFinal(r, tx, votes, env, required);
  }

  lemma SoloCreate(s: State, tx: Tx, votes: set<Vote>, asked: bool, required: int)
    requires tx.vin != [] && Solo(s, tx, votes, asked, required)
    ensures var s1 := Create(s, tx, false);
      && s1.candidates.Keys == {tx.hash} && s1.orphans == s.orphans && s1.locked == s.locked
      && Gathered(s1.candidates[tx.hash], tx, if asked then votes else {})
  {
    if !asked {
      var c := Create(s, tx, false).candidates[tx.hash];
      assert c.locks == FreshLocks(tx);
      forall o ensures Voters({}, o) == {} {}
    }
  }

  lemma SoloVote(s: State, tx: Tx, votes: set<Vote>, asked: bool, v: Vote, env: Env, required: int)
    requires tx.vin != [] && Solo(s, tx, votes, asked, required) && Clear(env, tx)
    requires v.txHash == tx.hash && Identified(votes + {v})
    ensures Solo(Step(s, NewVote(v, true, env), required), tx, votes + {v}, asked, required)
  {
    hide Finalize, CountVote, Gathered, Enough, Clear;
    IsEnabled(env, tx);
    if asked {
      Asks(s.candidates[tx.hash], tx, votes);
      SoloCount(s, tx, votes, v);
      var r := CountVote(s, v);
      if Enough(votes, tx, required) { EnoughStays(votes, v, tx, required); }
      if Counted(s, v) {
        SoloFinal(r, tx, votes + {v}, env, required);
      } else {
        EnoughSame(votes, votes + {v}, tx, required);
      }
    } else {
      SoloOrphan(s, tx, votes, v, env, required);
    }
  }

  lemma SoloOrphan(s: State, tx: Tx, votes: set<Vote>, v: Vote, env: Env, required: int)
    requires Solo(s, tx, votes, false, required) && v.txHash == tx.hash && Identified(votes + {v})
    ensures Solo(VoteStep(s, v, env, required), tx, votes + {v}, false, required)
  {
    hide Finalize, CountVote, Gathered, Enough;
    var s' := VoteStep(s, v, env, required);
    assert v in votes + {v};
    if v.hash in s.orphans { assert s.orphans[v.hash] in votes + {v}; }
    forall w | w in votes + {v} ensures w.hash in s'.orphans && s'.orphans[w.hash] == w {
      if w != v { assert w in votes; }
    }
  }

  lemma EnoughStays(votes: set<Vote>, v: Vote, tx: Tx, required: int)
    requires Enough(votes, tx, required)
    ensures Enough(votes + {v}, tx, required)
  {
    forall o | o in Inputs(tx) ensures |Voters(votes + {v}, o)| >= required {
      MoreVoters(votes, v, o);
      SubsetSize(Voters(votes, o), Voters(votes + {v}, o));
    }
  }

  lemma EnoughSame(votes: set<Vote>, votes': set<Vote>, tx: Tx, required: int)
    requires forall o :: o in Inputs(tx) ==> Voters(votes', o) == Voters(votes, o)
    ensures Enough(votes', tx, required) <==> Enough(votes, tx, required)
  {
  }

  lemma {:induction false} SoloRun(s: State, events: seq<Event>, tx: Tx, votes: set<Vote>, asked: bool, required: int)
    requires tx.vin != [] && Solo(s, tx, votes, asked, required) && Identified(votes + VotesIn(events))
    requires (forall i :: 0 <= i < |events| ==> About(events[i], tx)) && forall v :: v in votes ==> v.txHash == tx.hash
    ensures Solo(Run(s, events, required), tx, votes + VotesIn(events), asked || Asked(events), required)
    decreases |events|
  {
    hide Solo, Step, Clear;
    if events == [] {
      assert votes + VotesIn(events) == votes;
    } else {
      var e := events[0];
      assert About(e, tx);
      TailVotes(events);
      var votes' := if e.NewVote? then votes + {e.vote} else votes;
      assert votes' + VotesIn(events[1..]) == votes + VotesIn(events);
      if e.Request? {
        SoloRequest(s, tx, votes, asked, e.env, required);
      } else {
        assert votes + {e.vote} <= votes + VotesIn(events);
        SoloVote(s, tx, votes, asked, e.vote, e.env, required);
      }
      SoloRun(Step(s, e, required), events[1..], tx, votes', asked || e.Request?, required);
    }
  }

  lemma TailVotes(events: seq<Event>)
    requires events != []
    ensures VotesIn(events) == (if events[0].NewVote? then {events[0].vote} else {}) + VotesIn(events[1..])
    ensures Asked(events) <==> events[0].Request? || Asked(events[1..])
  {
    forall i | 0 <= i < |events| - 1 ensures events[1..][i] == events[i + 1] {}
    forall v | v in VotesIn(events) && !(events[0].NewVote? && events[0].vote == v) ensures v in VotesIn(events[1..]) {
      var i :| 0 <= i < |events| && events[i].NewVote? && events[i].vote == v;
      assert events[1..][i - 1] == events[i];
    }
    forall v | v in VotesIn(events[1..]) ensures v in VotesIn(events) {
      var i :| 0 <= i < |events[1..]| && events[1..][i].NewVote? && events[1..][i].vote == v;
      assert events[i + 1] == events[1..][i];
    }
    if Asked(events) && !events[0].Request? {
      var i :| 0 <= i < |events| && events[i].Request?;
      assert events[1..][i - 1] == events[i];
    }
    if Asked(events[1..]) {
      var i :| 0 <= i < |events[1..]| && events[1..][i].Request?;
      assert events[i + 1] == events[1..][i];
    }
  }

  /** Whatever the order in which requests of a transaction and votes for it come in, and whoever votes twice: if
      nothing outside stands in the way, the transaction is locked in the end exactly if it has been requested and on
      each of its inputs at least `required` tnodes have voted. */
  lemma LocksExactly(events: seq<Event>, tx: Tx, required: int)
    requires tx.vin != [] && Identified(VotesIn(events)) && forall i :: 0 <= i < |events| ==> About(events[i], tx)
    ensures FullyLocked(Run(Empty, events, required), tx.hash) <==>
      Asked(events) && Enough(VotesIn(events), tx, required)
    ensures forall o :: o in Run(Empty, events, required).locked ==> Run(Empty, events, required).locked[o] == tx.hash
  {
    assert {} + VotesIn(events) == VotesIn(events);
    SoloRun(Empty, events, tx, {}, false, required);
    hide VotesIn, Asked, Run, Enough;
    var s := Run(Empty, events, required);
    if Asked(events) {
      assert tx.vin[0] in Inputs(tx);
    }
  }

  // ---------------------------------------------------------------- what stops a lock

  /** Neither a lock nor a transaction in the mempool takes the outpoint away from h. */
  predicate Free(s: State, h: TxHash, o: OutPoint, env: Env) {
    (o in s.locked ==> s.locked[o] == h) && (o in env.spending ==> env.spending[o] == h)
  }

  /** The first input that is not free is locked for g, which is a candidate. */
  predicate FirstLockedFor(s: State, h: TxHash, vin: seq<OutPoint>, env: Env, g: TxHash, i: nat)
    requires i < |vin|
  {
    && (forall j :: 0 <= j < i ==> Free(s, h, vin[j], env))
    && vin[i] in s.locked && s.locked[vin[i]] == g != h && g in s.candidates
  }

  lemma {:induction false} ScanExactly(s: State, h: TxHash, vin: seq<OutPoint>, env: Env, g: TxHash)
    ensures Scan(s, h, vin, env) == Go <==> forall i :: 0 <= i < |vin| ==> Free(s, h, vin[i], env)
    ensures Scan(s, h, vin, env) == DropBoth(g) <==> exists i :: 0 <= i < |vin| && FirstLockedFor(s, h, vin, env, g, i)
  {
    if vin != [] {
      ScanExactly(s, h, vin[1..], env, g);
      if Free(s, h, vin[0], env) {
        forall i | 0 <= i < |vin| - 1
          ensures FirstLockedFor(s, h, vin[1..], env, g, i) <==> FirstLockedFor(s, h, vin, env, g, i + 1)
        {
          ShiftLocked(s, h, vin, env, g, i);
        }
        assert Scan(s, h, vin, env) == Scan(s, h, vin[1..], env);
        if i :| 0 <= i < |vin| && FirstLockedFor(s, h, vin, env, g, i) {
          assert FirstLockedFor(s, h, vin[1..], env, g, i - 1);
        }
      } else {
        if i :| 0 <= i < |vin| && FirstLockedFor(s, h, vin, env, g, i) { assert i == 0; }
        if Scan(s, h, vin, env) == DropBoth(g) { assert FirstLockedFor(s, h, vin, env, g, 0); }
      }
    }
  }

  lemma ShiftLocked(s: State, h: TxHash, vin: seq<OutPoint>, env: Env, g: TxHash, i: nat)
    requires i < |vin| - 1 && Free(s, h, vin[0], env)
    ensures FirstLockedFor(s, h, vin[1..], env, g, i) <==> FirstLockedFor(s, h, vin, env, g, i + 1)
  {
    hide Free;
    assert forall j :: 0 <= j < |vin| - 1 ==> vin[1..][j] == vin[j + 1];
    if FirstLockedFor(s, h, vin, env, g, i + 1) {
      forall j | 0 <= j < i ensures Free(s, h, vin[1..][j], env) { assert Free(s, h, vin[j + 1], env); }
    }
    if FirstLockedFor(s, h, vin[1..], env, g, i) {
      forall j | 0 <= j < i + 1 ensures Free(s, h, vin[j], env) {
        if j > 0 { assert Free(s, h, vin[1..][j - 1], env); }
      }
    }
  }

  /** A ready candidate is let through exactly if all its inputs are free and, unless it is mined, unspent; it is
      dropped together with another one exactly if the first input that is not free is locked for that one. */
  lemma ResolveExactly(s: State, h: TxHash, env: Env, g: TxHash)
    requires Requested(s, h)
    ensures var vin := s.candidates[h].request.value.vin;
      && (Resolve(s, h, env) == Go <==>
            forall i :: 0 <= i < |vin| ==> Free(s, h, vin[i], env) && (h in env.mined || vin[i] in env.unspent))
      && (Resolve(s, h, env) == DropBoth(g) <==>
            exists i :: 0 <= i < |vin| && FirstLockedFor(s, h, vin, env, g, i))
  {
    ScanExactly(s, h, s.candidates[h].request.value.vin, env, g);
  }

  /** Dropping two candidates forgets both, and every lock and list on any outpoint of either, and nothing else. */
  lemma DropForgets(s: State, h: TxHash, g: TxHash, x: TxHash, o: OutPoint)
    requires h in s.candidates && g in s.candidates
    ensures var r := Drop(s, h, g);
      && (x in r.candidates <==> x in s.candidates && x != h && x != g)
      && (x in r.candidates ==> r.candidates[x] == s.candidates[x])
      && (if o in s.candidates[h].locks || o in s.candidates[g].locks then o !in r.locked && o !in r.voted
          else
            && (o in r.locked <==> o in s.locked) && (o in s.locked ==> r.locked[o] == s.locked[o])
            && (o in r.voted <==> o in s.voted) && (o in s.voted ==> r.voted[o] == s.voted[o]))
      && r.orphans == s.orphans
  {
  }

  /** Whatever the message, an outpoint that is newly locked is locked for a requested transaction that is ready, has
      all its inputs locked, and finds none of them spent by another transaction in the mempool or, unless it is mined,
      on the chain. */
  lemma NewLockIsClear(s: State, e: Event, required: int, o: OutPoint)
    requires Shaped(s) && o !in s.locked && o in Step(s, e, required).locked
    ensures var s', env := Step(s, e, required), e.env; var h := s'.locked[o];
      && env.enabled && Requested(s', h) && o in s'.candidates[h].locks
      && AllOutPointsReady(s'.candidates[h], required) && FullyLocked(s', h)
      && forall i :: 0 <= i < |s'.candidates[h].request.value.vin| ==>
           var p := s'.candidates[h].request.value.vin[i];
           && (p in env.spending ==> env.spending[p] == h)
           && (h in env.mined || p in env.unspent)
  {
    hide Create, Replay, CountVote, Resolve, FullyLocked, AllOutPointsReady, Shaped;
    match e
    case Request(tx, valid, timedOut, env) =>
      if Timely(s, tx, timedOut) {
        var s1, r := RequestIs(s, tx, timedOut, env, required);
        CreateLocks(s, tx, timedOut);
        KeptOk(s1, r, tx.hash);
        FinalLock(r, tx.hash, env, required, o);
      } else {
        CreateLocks(s, tx, timedOut);
      }
    case NewVote(v, valid, env) =>
      if Requested(s, v.txHash) {
        CountKeeps(s, v);
        ShapedAt(s, v.txHash);
        KeptOk(s, CountVote(s, v), v.txHash);
        FinalLock(CountVote(s, v), v.txHash, env, required, o);
      }
  }

  lemma CreateLocks(s: State, tx: Tx, timedOut: bool)
    requires Shaped(s)
    ensures Create(s, tx, timedOut).locked == s.locked
    ensures CandidateOk(tx.hash, Create(s, tx, timedOut).candidates[tx.hash])
  {
    if tx.hash in s.candidates { assert CandidateOk(tx.hash, s.candidates[tx.hash]); }
    assert FreshLocks(tx) + map[] == FreshLocks(tx);
  }

  lemma ShapedAt(s: State, h: TxHash)
    requires Shaped(s) && h in s.candidates
    ensures CandidateOk(h, s.candidates[h])
  {
  }

  lemma KeptOk(s: State, r: State, h: TxHash)
    requires Kept(s, r) && h in s.candidates && CandidateOk(h, s.candidates[h])
    ensures h in r.candidates && CandidateOk(h, r.candidates[h]) && r.candidates[h].request == s.candidates[h].request
  {
    assert CandidateKept(s.candidates[h], r.candidates[h]);
    if s.candidates[h].locks == map[] { assert r.candidates[h].locks == map[]; }
  }

  lemma FinalLock(r: State, h: TxHash, env: Env, required: int, o: OutPoint)
    requires Requested(r, h) && CandidateOk(h, r.candidates[h])
    requires o !in r.locked && o in Finalize(r, h, env, required).locked
    ensures var s' := Finalize(r, h, env, required);
      && s'.locked[o] == h && env.enabled && Requested(s', h) && o in s'.candidates[h].locks
      && AllOutPointsReady(s'.candidates[h], required) && FullyLocked(s', h)
      && forall i :: 0 <= i < |s'.candidates[h].request.value.vin| ==>
           var p := s'.candidates[h].request.value.vin[i];
           && (p in env.spending ==> env.spending[p] == h)
           && (h in env.mined || p in env.unspent)
  {
    ResolveExactly(r, h, env, h);
    var vin := r.candidates[h].request.value.vin;
    forall p | p in r.candidates[h].locks && p in r.locked ensures r.locked[p] == h {
      var i :| 0 <= i < |vin| && vin[i] == p;
      assert Free(r, h, vin[i], env);
    }
  }

  // ---------------------------------------------------------------- requests that come too late

  /** The transaction is requested but has no outpoint to vote on, and nothing is locked for it. */
  predicate Dead(s: State, h: TxHash) {
    Requested(s, h) && s.candidates[h].locks == map[] && forall o :: o in s.locked ==> s.locked[o] != h
  }

  lemma DeadFinal(s: State, h: TxHash, g: TxHash, env: Env, required: int)
    requires Dead(s, h) && Requested(s, g)
    ensures Dead(Finalize(s, g, env, required), h)
  {
    if g != h && env.enabled && AllOutPointsReady(s.candidates[g], required) {
      var r := Resolve(s, g, env);
      if r.DropBoth? {
        ResolveExactly(s, g, env, r.other);
      }
    }
  }

  lemma DeadKept(s: State, r: State, h: TxHash)
    requires Dead(s, h) && Kept(s, r)
    ensures Dead(r, h)
  {
    assert CandidateKept(s.candidates[h], r.candidates[h]);
    assert r.candidates[h].locks == map[];
  }

  lemma DeadStep(s: State, e: Event, h: TxHash, required: int)
    requires Dead(s, h)
    ensures Dead(Step(s, e, required), h)
  {
    hide Finalize, Replay, CountVote, Kept;
    match e
    case Request(tx, valid, timedOut, env) =>
      var s1 := Create(s, tx, timedOut);
      assert Dead(s1, h);
      ReplayKeeps(s1, s1.orphans.Keys, env);
      var r := Replay(s1, s1.orphans.Keys, env);
      DeadKept(s1, r, h);
      if Requested(r, tx.hash) { DeadFinal(r, h, tx.hash, env, required); }
    case NewVote(v, valid, env) =>
      if Requested(s, v.txHash) {
        CountKeeps(s, v);
        DeadKept(s, CountVote(s, v), h);
        if Requested(CountVote(s, v), v.txHash) { DeadFinal(CountVote(s, v), h, v.txHash, env, required); }
        CountedCandidate(s, v, v.txHash);
      }
  }

  lemma {:induction false} DeadRun(s: State, events: seq<Event>, h: TxHash, required: int)
    requires Dead(s, h)
    ensures Dead(Run(s, events, required), h)
    decreases |events|
  {
    hide Dead, Step;
    if events != [] {
      DeadStep(s, events[0], h, required);
      DeadRun(Step(s, events[0], required), events[1..], h, required);
    }
  }

  /** A request for a transaction whose early votes have waited too long is remembered, and the transaction is never
      locked, whatever comes after. */
  lemma TooLateNeverLocks(s: State, tx: Tx, env: Env, events: seq<Event>, required: int)
    requires Shaped(s) && tx.hash in s.candidates && s.candidates[tx.hash].request.None?
    requires forall o :: o in s.locked ==> s.locked[o] != tx.hash
    ensures var s' := Run(Step(s, Request(tx, true, true, env), required), events, required);
      Requested(s', tx.hash) && !FullyLocked(s', tx.hash) && forall o :: o in s'.locked ==> s'.locked[o] != tx.hash
  {
    assert CandidateOk(tx.hash, s.candidates[tx.hash]);
    var s1 := Step(s, Request(tx, true, true, env), required);
    assert Dead(s1, tx.hash);
    DeadRun(s1, events, tx.hash, required);
  }
}
