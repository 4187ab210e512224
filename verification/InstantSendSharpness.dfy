/**
 The quorum condition 2 * required > total is exact: without it a completed lock can be dropped,
 even though every tnode votes once and honestly follows the protocol.
 */
module InstantSendSharpness {
  import opened InstantSend
  import opened InstantSendSafety

  const OPEN: Env := Env({}, true, map[], {}, {0}, true, true)

  /** Two transactions, 1 and 2, that spend outpoint 0. */
  function Spender(h: TxHash): Tx { Tx(h, [0]) }

  function Ballot(h: TxHash, m: Tnode): Vote { Vote(m, h, 0, m) }

  function Ballots(h: TxHash, lo: nat, hi: nat): map<Tnode, Vote> {
    map m | lo <= m < hi :: Ballot(h, m)
  }

  function Voting(h: TxHash, lo: nat, hi: nat): seq<Event>
    decreases hi - lo
  {
    if lo >= hi then [] else [NewVote(Ballot(h, lo), true, OPEN)] + Voting(h, lo + 1, hi)
  }

  /** Candidate h with exactly the votes of tnodes lo..hi, not attacked. */
  predicate Polled(s: State, h: TxHash, lo: nat, hi: nat) {
    h in s.candidates &&
      s.candidates[h] == Candidate(Some(Spender(h)), map[0 := OutPointLock(Ballots(h, lo, hi), false)])
  }

  /** From s to s1 nothing but candidate h and the vote index has changed. */
  predicate Only(s: State, s1: State, h: TxHash) {
    && s1.locked == s.locked && s1.orphans == s.orphans
    && s1.candidates.Keys == s.candidates.Keys
    && forall g :: g in s.candidates && g != h ==> s1.candidates[g] == s.candidates[g]
  }

  predicate Aloof(s: State, h: TxHash, m: nat) {
    forall g :: g in s.candidates && g != h ==> !HasVoted(s.candidates[g], 0, m)
  }

  lemma {:induction false} BallotsSize(h: TxHash, lo: nat, hi: nat)
    requires lo <= hi
    ensures |Ballots(h, lo, hi)| == hi - lo
  {
    if lo < hi {
      BallotsSize(h, lo, hi - 1);
      assert Ballots(h, lo, hi) == Ballots(h, lo, hi - 1)[hi - 1 := Ballot(h, hi - 1)];
    } else {
      assert Ballots(h, lo, hi) == map[];
    }
  }

  /** An honest vote is counted and touches nothing else. */
  lemma HonestVote(s: State, h: TxHash, lo: nat, m: nat)
    requires lo <= m && Polled(s, h, lo, m) && Aloof(s, h, m)
    ensures Counted(s, Ballot(h, m))
    ensures var s1 := CountVote(s, Ballot(h, m));
      Polled(s1, h, lo, m + 1) && Only(s, s1, h)
  {
    assert DoubleVoted(s, Ballot(h, m)) == {};
    assert Ballots(h, lo, m + 1) == Ballots(h, lo, m)[m := Ballot(h, m)];
  }

  lemma {:induction false} Campaign(s: State, h: TxHash, lo: nat, m: nat, hi: nat, required: int)
    requires lo <= m <= hi && hi - lo < required
    requires Polled(s, h, lo, m)
    requires forall j :: m <= j < hi ==> Aloof(s, h, j)
    ensures var s1 := Run(s, Voting(h, m, hi), required);
      Polled(s1, h, lo, hi) && Only(s, s1, h)
    decreases hi - m
  {
    if m < hi {
      EarlyVote(s, h, lo, m, required);
      var s1 := Step(s, NewVote(Ballot(h, m), true, OPEN), required);
      assert Voting(h, m, hi)[1..] == Voting(h, m + 1, hi);
      forall j | m + 1 <= j < hi ensures Aloof(s1, h, j) { StillAloof(s, s1, h, j); }
      Campaign(s1, h, lo, m + 1, hi, required);
    }
  }

  lemma StillAloof(s: State, s1: State, h: TxHash, j: nat)
    requires Only(s, s1, h) && Aloof(s, h, j)
    ensures Aloof(s1, h, j)
  {
  }

  /** A vote short of the required number only gets counted. */
  lemma EarlyVote(s: State, h: TxHash, lo: nat, m: nat, required: int)
    requires lo <= m && m + 1 - lo < required && Polled(s, h, lo, m) && Aloof(s, h, m)
    ensures var s1 := Step(s, NewVote(Ballot(h, m), true, OPEN), required); Polled(s1, h, lo, m + 1) && Only(s, s1, h)
  {
    HonestVote(s, h, lo, m);
    BallotsSize(h, lo, m + 1);
    var s1 := CountVote(s, Ballot(h, m));
    assert !IsReady(s1.candidates[h].locks[0], required);
    CountedVote(s, Ballot(h, m), required);
  }

  function Opened(s: State, h: TxHash): State {
    s.(candidates := s.candidates[h := Candidate(Some(Spender(h)), map[0 := OutPointLock(map[], false)])])
  }

  lemma Opening(s: State, h: TxHash, required: int)
    requires h !in s.candidates && s.orphans == map[] && required >= 1
    ensures Step(s, Request(Spender(h), true, false, OPEN), required) == Opened(s, h)
  {
    assert Inputs(Spender(h)) == {0} by { assert Spender(h).vin[0] == 0; }
    assert FreshLocks(Spender(h)) == map[0 := OutPointLock(map[], false)];
    var s1 := Create(s, Spender(h), false);
    assert Replay(s1, s1.orphans.Keys, OPEN) == s1;
    assert !IsReady(s1.candidates[h].locks[0], required);
  }

  lemma {:induction false} RunConcat(s: State, a: seq<Event>, b: seq<Event>, required: int)
    ensures Run(s, a + b, required) == Run(Run(s, a, required), b, required)
    decreases |a|
  {
    if a == [] {
      assert a + b == b;
    } else {
      assert (a + b)[0] == a[0] && (a + b)[1..] == a[1..] + b;
      RunConcat(Step(s, a[0], required), a[1..], b, required);
    }
  }

  lemma RunOne(s: State, e: Event, required: int)
    ensures Run(s, [e], required) == Step(s, e, required)
  {
    assert Run(s, [e], required) == Run(Step(s, e, required), [e][1..], required);
  }

  /** Up to the vote that decides for h. */
  function Contest(h: TxHash, lo: nat, required: nat): seq<Event>
    requires required >= 1
  {
    [Request(Spender(h), true, false, OPEN)] + Voting(h, lo, lo + required - 1)
  }

  lemma OpenedAloof(s: State, h: TxHash, j: nat)
    requires Aloof(s, h, j)
    ensures Aloof(Opened(s, h), h, j)
  {
  }

  lemma ContestPolls(s: State, h: TxHash, lo: nat, required: nat)
    requires required >= 1 && h !in s.candidates && s.orphans == map[]
    requires forall j :: lo <= j < lo + required ==> Aloof(s, h, j)
    ensures var s1 := Run(s, Contest(h, lo, required), required);
      Polled(s1, h, lo, lo + required - 1) && Only(Opened(s, h), s1, h)
  {
    hide Step;
    var opening := Request(Spender(h), true, false, OPEN);
    RunConcat(s, [opening], Voting(h, lo, lo + required - 1), required);
    RunOne(s, opening, required);
    Opening(s, h, required);
    var s0 := Opened(s, h);
    assert Ballots(h, lo, lo) == map[];
    forall j | lo <= j < lo + required ensures Aloof(s0, h, j) { OpenedAloof(s, h, j); }
    Campaign(s0, h, lo, lo, lo + required - 1, required);
  }

  lemma PolledReady(s: State, h: TxHash, lo: nat, hi: nat, required: int)
    requires lo <= hi && required <= hi - lo && Polled(s, h, lo, hi)
    ensures AllOutPointsReady(s.candidates[h], required)
  {
    assert 0 in s.candidates[h].locks;
    BallotsSize(h, lo, hi);
  }

  lemma CountedVote(s: State, v: Vote, required: int)
    requires Requested(s, v.txHash) && Counted(s, v)
    ensures Requested(CountVote(s, v), v.txHash)
    ensures Step(s, NewVote(v, true, OPEN), required) == Finalize(CountVote(s, v), v.txHash, OPEN, required)
  {
    CountedCandidate(s, v, v.txHash);
  }

  /** The deciding vote makes the candidate ready. */
  lemma Deciding(s: State, h: TxHash, lo: nat, required: nat)
    requires required >= 1 && Polled(s, h, lo, lo + required - 1) && Aloof(s, h, lo + required - 1)
    ensures var v := Ballot(h, lo + required - 1); var s1 := CountVote(s, v);
      && Polled(s1, h, lo, lo + required) && AllOutPointsReady(s1.candidates[h], required) && Only(s, s1, h)
      && Step(s, NewVote(v, true, OPEN), required) == Finalize(s1, h, OPEN, required)
  {
    var v := Ballot(h, lo + required - 1);
    HonestVote(s, h, lo, lo + required - 1);
    PolledReady(CountVote(s, v), h, lo, lo + required, required);
    CountedVote(s, v, required);
  }

  function FirstHalf(required: nat): seq<Event>
    requires required >= 1
  {
    Contest(1, 0, required) + [NewVote(Ballot(1, required - 1), true, OPEN)]
  }

  lemma {:induction false} RunLast(s: State, a: seq<Event>, e: Event, required: int)
    ensures Run(s, a + [e], required) == Step(Run(s, a, required), e, required)
  {
    RunConcat(s, a, [e], required);
    RunOne(Run(s, a, required), e, required);
  }

  lemma FinalizeLocks(s: State, hi: nat, required: int)
    requires Polled(s, 1, 0, hi) && AllOutPointsReady(s.candidates[1], required) && s.locked == map[]
    ensures Finalize(s, 1, OPEN, required) == s.(locked := map[0 := 1])
  {
    var vin := Spender(1).vin;
    assert vin == [0] && vin[1..] == [];
    assert Scan(s, 1, vin, OPEN) == Go;
    assert LockInputs(s, 1).locked == map[0 := 1];
  }

  /** The deciding vote for the first transaction locks the outpoint. */
  lemma FirstLocks(s: State, required: nat)
    requires required >= 1 && Polled(s, 1, 0, required - 1) && s.candidates.Keys == {1} && s.locked == map[] &&
      s.orphans == map[]
    ensures var s1 := Step(s, NewVote(Ballot(1, required - 1), true, OPEN), required);
      && FullyLocked(s1, 1) && Polled(s1, 1, 0, required) && s1.locked == map[0 := 1]
      && s1.orphans == map[] && s1.candidates.Keys == {1}
  {
    Deciding(s, 1, 0, required);
    FinalizeLocks(CountVote(s, Ballot(1, required - 1)), required, required);
  }

  lemma FinalizeDrops(s: State, lo: nat, hi: nat, required: int)
    requires Polled(s, 2, lo, hi) && AllOutPointsReady(s.candidates[2], required)
    requires 1 in s.candidates && s.locked == map[0 := 1]
    ensures Finalize(s, 2, OPEN, required) == Drop(s, 2, 1)
  {
    assert Spender(2).vin == [0];
    assert !FullyLocked(s, 2);
    assert Resolve(s, 2, OPEN) == DropBoth(1);
  }

  lemma RivalAloof(s: State, required: nat)
    requires required >= 1 && Polled(s, 1, 0, required) && s.candidates.Keys == {1, 2}
    ensures Aloof(s, 2, required + required - 1)
  {
  }

  lemma DropLoses(s: State)
    requires 1 in s.candidates && 2 in s.candidates
    ensures 1 !in Drop(s, 2, 1).candidates
  {
  }

  /** The deciding vote for the second drops both. */
  lemma SecondDrops(s: State, lo: nat, required: nat)
    requires required >= 1 && Aloof(s, 2, lo + required - 1) && Polled(s, 2, lo, lo + required - 1)
    requires 1 in s.candidates && s.locked == map[0 := 1]
    ensures 1 !in Step(s, NewVote(Ballot(2, lo + required - 1), true, OPEN), required).candidates
  {
    hide Step, Finalize, CountVote, Drop, Aloof;
    Deciding(s, 2, lo, required);
    var s1 := CountVote(s, Ballot(2, lo + required - 1));
    FinalizeDrops(s1, lo, lo + required, required);
    DropLoses(s1);
  }

  function Later(required: nat): seq<Event>
    requires required >= 1
  {
    Contest(2, required, required) + [NewVote(Ballot(2, required + required - 1), true, OPEN)]
  }

  lemma FirstRun(required: nat)
    requires required >= 1
    ensures var s := Run(Empty, FirstHalf(required), required);
      && FullyLocked(s, 1) && Polled(s, 1, 0, required) && s.locked == map[0 := 1]
      && s.orphans == map[] && s.candidates.Keys == {1}
  {
    ContestPolls(Empty, 1, 0, required);
    RunLast(Empty, Contest(1, 0, required), NewVote(Ballot(1, required - 1), true, OPEN), required);
    FirstLocks(Run(Empty, Contest(1, 0, required), required), required);
  }

  lemma SecondState(s: State, s1: State, required: nat)
    requires Polled(s, 1, 0, required) && s.locked == map[0 := 1] && s.candidates.Keys == {1}
    requires Only(Opened(s, 2), s1, 2)
    ensures Polled(s1, 1, 0, required) && s1.candidates.Keys == {1, 2} && s1.locked == map[0 := 1]
  {
    assert 1 in Opened(s, 2).candidates && Opened(s, 2).candidates[1] == s.candidates[1];
    assert Opened(s, 2).candidates.Keys == {1, 2};
  }

  lemma AloofRange(s: State, required: nat)
    requires Polled(s, 1, 0, required) && s.candidates.Keys == {1}
    ensures forall j :: required <= j < 2 * required ==> Aloof(s, 2, j)
  {
  }

  lemma SecondPolls(s: State, required: nat)
    requires required >= 1 && Polled(s, 1, 0, required) && s.locked == map[0 := 1] && s.orphans == map[] &&
      s.candidates.Keys == {1}
    ensures var s1 := Run(s, Contest(2, required, required), required);
      && Polled(s1, 1, 0, required) && Polled(s1, 2, required, required + required - 1)
      && s1.candidates.Keys == {1, 2} && s1.locked == map[0 := 1]
  {
    AloofRange(s, required);
    ContestPolls(s, 2, required, required);
    SecondState(s, Run(s, Contest(2, required, required), required), required);
  }

  lemma SecondRun(s: State, required: nat)
    requires required >= 1 && Polled(s, 1, 0, required) && s.locked == map[0 := 1] && s.orphans == map[] &&
      s.candidates.Keys == {1}
    ensures 1 !in Run(s, Later(required), required).candidates
  {
    SecondPolls(s, required);
    RivalAloof(Run(s, Contest(2, required, required), required), required);
    RunLast(s, Contest(2, required, required), NewVote(Ballot(2, required + required - 1), true, OPEN), required);
    SecondDrops(Run(s, Contest(2, required, required), required), required, required);
  }

  /** A validated run in which a transaction is completely locked and later its candidate is gone. */
  ghost predicate LosesLock(q: Quorum, now: seq<Event>, later: seq<Event>, h: TxHash, required: int, total: int) {
    && Bounded(q, total) && AllValidated(now, q) && AllValidated(later, q)
    && FullyLocked(Run(Empty, now, required), h)
    && h !in Run(Run(Empty, now, required), later, required).candidates
  }

  lemma HalvesValidated(required: nat, q: Quorum)
    requires required >= 1 && forall m :: 0 <= m < 2 * required ==> m in q(0)
    ensures AllValidated(FirstHalf(required), q) && AllValidated(Later(required), q)
  {
    VotingValidated(1, 0, required - 1, q);
    VotingValidated(2, required, required + required - 1, q);
  }

  function EverywhereSame(tnodes: set<Tnode>): Quorum { _ => tnodes }

  lemma HalvesLoseLock(q: Quorum, required: nat, total: int)
    requires required >= 1 && Bounded(q, total)
    requires AllValidated(FirstHalf(required), q) && AllValidated(Later(required), q)
    ensures LosesLock(q, FirstHalf(required), Later(required), 1, required, total)
  {
    FirstRun(required);
    SecondRun(Run(Empty, FirstHalf(required), required), required);
  }

  /** With a quorum of no votes a request is ready at once: the first one locks, the second one drops both. */
  lemma NoVotesLoseLock(required: int, total: int)
    requires required <= 0 <= total
    ensures LosesLock(EverywhereSame({}), [Demand(1)], [Demand(2)], 1, required, total)
  {
    hide Step, Finalize, Run, Drop;
    RunOne(Empty, Demand(1), required);
    AtOnceLocks(required);
    var s := Run(Empty, [Demand(1)], required);
    RunOne(s, Demand(2), required);
    AtOnceDrops(s, required);
  }

  function Demand(h: TxHash): Event { Request(Spender(h), true, false, OPEN) }

  lemma AtOnceLocks(required: int)
    requires required <= 0
    ensures var s := Step(Empty, Demand(1), required);
      FullyLocked(s, 1) && s.locked == map[0 := 1] && s.candidates.Keys == {1} && s.orphans == map[]
  {
    hide Step, Finalize;
    ReadyAtOnce(Empty, 1, required);
    FinalizeLocks(Opened(Empty, 1), 0, required);
  }

  lemma AtOnceDrops(s: State, required: int)
    requires required <= 0 && s.locked == map[0 := 1] && s.candidates.Keys == {1} && s.orphans == map[]
    ensures 1 !in Step(s, Demand(2), required).candidates
  {
    hide Step, Finalize, Drop;
    ReadyAtOnce(s, 2, required);
    FinalizeDrops(Opened(s, 2), 0, 0, required);
    DropLoses(Opened(s, 2));
  }

  lemma ReadyAtOnce(s: State, h: TxHash, required: int)
    requires h !in s.candidates && s.orphans == map[] && required <= 0
    ensures Polled(Opened(s, h), h, 0, 0) && AllOutPointsReady(Opened(s, h).candidates[h], required)
    ensures Step(s, Request(Spender(h), true, false, OPEN), required) == Finalize(Opened(s, h), h, OPEN, required)
  {
    assert Inputs(Spender(h)) == {0} by { assert Spender(h).vin[0] == 0; }
    assert FreshLocks(Spender(h)) == map[0 := OutPointLock(map[], false)];
    assert Ballots(h, 0, 0) == map[];
    var s1 := Create(s, Spender(h), false);
    assert Replay(s1, s1.orphans.Keys, OPEN) == s1;
    assert 0 in s1.candidates[h].locks;
  }

  /** If 2 * required <= total the guarantee is lost, whatever `required` is: two disjoint halves of a quorum,
      every tnode voting once, complete the lock of 1 and then drop it together with its rival. */
  lemma OverlapIsNeeded(required: int, total: int)
    requires 0 <= total && 2 * required <= total
    ensures exists q, now, later, h :: LosesLock(q, now, later, h, required, total)
  {
    if required <= 0 {
      NoVotesLoseLock(required, total);
    } else {
      var q := EverywhereSame(Range(2 * required));
      HalvesValidated(required, q);
      HalvesLoseLock(q, required, total);
    }
  }

  /** With overlapping quorums nobody loses a lock. */
  lemma OverlapSuffices(q: Quorum, now: seq<Event>, later: seq<Event>, h: TxHash, required: int, total: int)
    requires 2 * required > total
    ensures !LosesLock(q, now, later, h, required, total)
  {
    if Bounded(q, total) && AllValidated(now, q) && AllValidated(later, q) {
      RunKeepsInv(Empty, now, q, required, total);
      RunKeepsInv(Run(Empty, now, required), later, q, required, total);
    }
  }

  /** A completed lock can be lost exactly if two quorums need not overlap. */
  lemma OverlapIsExact(required: int, total: int)
    requires 0 <= total
    ensures (exists q, now, later, h :: LosesLock(q, now, later, h, required, total)) <==> 2 * required <= total
  {
    if 2 * required <= total {
      OverlapIsNeeded(required, total);
    } else {
      forall q, now, later, h ensures !LosesLock(q, now, later, h, required, total) {
        OverlapSuffices(q, now, later, h, required, total);
      }
    }
  }

  function Range(n: nat): (r: set<nat>)
    ensures |r| == n && forall m: nat :: m in r <==> m < n
  {
    if n == 0 then {} else Range(n - 1) + {n - 1}
  }

  lemma {:induction false} VotingValidated(h: TxHash, lo: nat, hi: nat, q: Quorum)
    requires forall m :: lo <= m < hi ==> m in q(0)
    ensures AllValidated(Voting(h, lo, hi), q)
    decreases hi - lo
  {
    if lo < hi { VotingValidated(h, lo + 1, hi, q); }
  }
}
