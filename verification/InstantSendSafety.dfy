/**
 Safety of InstantSend over whole runs.  At most `total` tnodes may vote on an outpoint, a lock needs
 `required` of them and 2 * required > total: then no two transactions that spend a common outpoint
 are ever locked, at the same or at different times of a run.
 */
module InstantSendSafety {
  import opened InstantSend
  import opened Sets

  /** The tnodes whose votes on an outpoint pass validation. */
  type Quorum = OutPoint -> set<Tnode>

  ghost predicate Bounded(q: Quorum, total: int) {
    forall o :: |q(o)| <= total
  }

  /** Validation lets a vote through only if its tnode is in the outpoint's quorum. */
  ghost predicate Validated(e: Event, q: Quorum) {
    e.NewVote? && e.valid ==> e.vote.tnode in q(e.vote.outpoint)
  }

  ghost predicate AllValidated(events: seq<Event>, q: Quorum) {
    forall i :: 0 <= i < |events| ==> Validated(events[i], q)
  }

  // ---------------------------------------------------------------- the invariant

  /** A candidate belongs to its request, and locks no outpoint or all inputs of it. */
  predicate CandidateOk(h: TxHash, c: Candidate) {
    match c.request
    case None => c.locks == map[]
    case Some(tx) => tx.hash == h && (c.locks == map[] || c.locks.Keys == Inputs(tx))
  }

  predicate Shaped(s: State) {
    forall h :: h in s.candidates ==> CandidateOk(h, s.candidates[h])
  }

  ghost predicate FromQuorum(s: State, q: Quorum) {
    && (forall h, o, m :: h in s.candidates && HasVoted(s.candidates[h], o, m) ==> m in q(o))
    && (forall k :: k in s.orphans ==> s.orphans[k].tnode in q(s.orphans[k].outpoint))
  }

  /** Whoever has a vote on an outpoint is listed for it. */
  ghost predicate Indexed(s: State) {
    forall h, o, m :: h in s.candidates && HasVoted(s.candidates[h], o, m) ==> o in s.voted && h in s.voted[o]
  }

  predicate Attacked(c: Candidate, o: OutPoint) {
    o in c.locks && c.locks[o].attacked
  }

  /** A tnode that voted on one outpoint for two candidates has spoiled both there. */
  ghost predicate NoDoubleVote(s: State) {
    forall g, h, o, m ::
      g in s.candidates && h in s.candidates && g != h &&
      HasVoted(s.candidates[g], o, m) && HasVoted(s.candidates[h], o, m) ==>
        Attacked(s.candidates[g], o)
  }

  predicate LockBacked(s: State, o: OutPoint, h: TxHash, required: int) {
    && FullyLocked(s, h)
    && o in s.candidates[h].locks
    && |s.candidates[h].locks[o].votes| >= required
  }

  /** A locked outpoint belongs to a candidate that has locked all its inputs, with enough votes on it. */
  predicate LocksBacked(s: State, required: int) {
    forall o :: o in s.locked ==> LockBacked(s, o, s.locked[o], required)
  }

  ghost predicate Inv(s: State, q: Quorum, required: int) {
    Shaped(s) && FromQuorum(s, q) && Indexed(s) && NoDoubleVote(s) && LocksBacked(s, required)
  }

  // ---------------------------------------------------------------- quorum intersection

  lemma Intersect<T>(a: set<T>, b: set<T>, q: set<T>)
    requires a <= q && b <= q && |a| + |b| > |q|
    ensures exists m :: m in a && m in b
  {
    if a * b == {} {
      assert |a + b| == |a| + |b|;
      SubsetSize(a + b, q);
    } else {
      var m :| m in a * b;
    }
  }

  /** Two candidates cannot both have `required` votes on one outpoint without both being spoiled there. */
  lemma Spoiled(s: State, g: TxHash, h: TxHash, o: OutPoint, q: Quorum, required: int, total: int)
    requires Bounded(q, total) && 2 * required > total
    requires FromQuorum(s, q) && NoDoubleVote(s)
    requires g in s.candidates && h in s.candidates && g != h
    requires o in s.candidates[g].locks && |s.candidates[g].locks[o].votes| >= required
    requires o in s.candidates[h].locks && |s.candidates[h].locks[o].votes| >= required
    ensures Attacked(s.candidates[g], o) && Attacked(s.candidates[h], o)
  {
    var a, b := s.candidates[g].locks[o].votes.Keys, s.candidates[h].locks[o].votes.Keys;
    forall m | m in a ensures m in q(o) { assert HasVoted(s.candidates[g], o, m); }
    forall m | m in b ensures m in q(o) { assert HasVoted(s.candidates[h], o, m); }
    Intersect(a, b, q(o));
    var m :| m in a && m in b;
    assert HasVoted(s.candidates[g], o, m) && HasVoted(s.candidates[h], o, m);
  }

  /** Two candidates with a common outpoint are never ready together. */
  lemma NeverBothReady(s: State, g: TxHash, h: TxHash, o: OutPoint, q: Quorum, required: int, total: int)
    requires Bounded(q, total) && 2 * required > total && Inv(s, q, required)
    requires g in s.candidates && h in s.candidates && g != h
    requires o in s.candidates[g].locks && o in s.candidates[h].locks
    ensures !(AllOutPointsReady(s.candidates[g], required) && AllOutPointsReady(s.candidates[h], required))
  {
    if AllOutPointsReady(s.candidates[g], required) && AllOutPointsReady(s.candidates[h], required) {
      assert IsReady(s.candidates[g].locks[o], required) && IsReady(s.candidates[h].locks[o], required);
      Spoiled(s, g, h, o, q, required, total);
    }
  }

  /** A candidate that is ready finds no input locked for another transaction. */
  lemma ReadyIsUnopposed(s: State, h: TxHash, o: OutPoint, q: Quorum, required: int, total: int)
    requires Bounded(q, total) && 2 * required > total && Inv(s, q, required)
    requires h in s.candidates && AllOutPointsReady(s.candidates[h], required)
    requires o in s.candidates[h].locks && o in s.locked
    ensures s.locked[o] == h
  {
    assert IsReady(s.candidates[h].locks[o], required);
    if s.locked[o] != h {
      assert LockBacked(s, o, s.locked[o], required);
      Spoiled(s, s.locked[o], h, o, q, required, total);
    }
  }

  lemma {:induction false} ScanUnopposed(s: State, h: TxHash, vin: seq<OutPoint>, env: Env)
    requires forall i :: 0 <= i < |vin| && vin[i] in s.locked ==> s.locked[vin[i]] == h
    ensures !Scan(s, h, vin, env).DropBoth?
  {
    if vin != [] { ScanUnopposed(s, h, vin[1..], env); }
  }

  /** The branch that drops two completed locks is dead. */
  lemma NeverDropsBoth(s: State, h: TxHash, env: Env, q: Quorum, required: int, total: int)
    requires Bounded(q, total) && 2 * required > total && Inv(s, q, required)
    requires Requested(s, h) && AllOutPointsReady(s.candidates[h], required)
    ensures !Resolve(s, h, env).DropBoth?
  {
    var vin := s.candidates[h].request.value.vin;
    assert CandidateOk(h, s.candidates[h]);
    forall i | 0 <= i < |vin| && vin[i] in s.locked ensures s.locked[vin[i]] == h {
      assert vin[i] in Inputs(s.candidates[h].request.value);
      ReadyIsUnopposed(s, h, vin[i], q, required, total);
    }
    ScanUnopposed(s, h, vin, env);
  }

  // ---------------------------------------------------------------- every step keeps the invariant

  /** Nothing that has happened is undone: locks stay, votes stay, and a candidate's outpoints are final. */
  predicate CandidateGrows(a: Candidate, b: Candidate) {
    && (a.locks != map[] ==> a.locks.Keys == b.locks.Keys)
    && forall o :: o in a.locks && o in b.locks ==> a.locks[o].votes.Keys <= b.locks[o].votes.Keys
  }

  predicate Grows(s: State, s': State) {
    && (forall h :: h in s.candidates ==> h in s'.candidates && CandidateGrows(s.candidates[h], s'.candidates[h]))
    && (forall o :: o in s.locked ==> o in s'.locked && s'.locked[o] == s.locked[o])
  }

  lemma GrowsTransitive(a: State, b: State, c: State)
    requires Grows(a, b) && Grows(b, c)
    ensures Grows(a, c)
  {
    forall h | h in a.candidates ensures h in c.candidates && CandidateGrows(a.candidates[h], c.candidates[h]) {
      assert CandidateGrows(a.candidates[h], b.candidates[h]);
      assert CandidateGrows(b.candidates[h], c.candidates[h]);
    }
  }

  lemma GrownLock(s: State, s': State, h: TxHash)
    requires Grows(s, s') && FullyLocked(s, h)
    ensures FullyLocked(s', h)
  {
    assert CandidateGrows(s.candidates[h], s'.candidates[h]);
  }

  lemma GrownLocks(s: State, s': State, required: int)
    requires Grows(s, s') && LocksBacked(s, required) && s'.locked == s.locked
    ensures LocksBacked(s', required)
  {
    forall o | o in s'.locked ensures LockBacked(s', o, s'.locked[o], required) {
      var h := s.locked[o];
      assert LockBacked(s, o, h, required);
      GrownLock(s, s', h);
      assert CandidateGrows(s.candidates[h], s'.candidates[h]);
      SubsetSize(s.candidates[h].locks[o].votes.Keys, s'.candidates[h].locks[o].votes.Keys);
    }
  }

  /** What counting a vote does to one candidate. */
  lemma CountedCandidate(s: State, v: Vote, h: TxHash)
    requires v.txHash in s.candidates && h in s.candidates
    ensures var c, c' := s.candidates[h], CountVote(s, v).candidates[h];
      && c'.request == c.request
      && c'.locks.Keys == c.locks.Keys
      && (forall o :: Attacked(c, o) ==> Attacked(c', o))
      && (h in DoubleVoted(s, v) ==> Attacked(c', v.outpoint))
      && (h == v.txHash && DoubleVoted(s, v) != {} && v.outpoint in c.locks ==> Attacked(c', v.outpoint))
      && (forall o, m :: HasVoted(c', o, m) <==>
           HasVoted(c, o, m) || (h == v.txHash && o == v.outpoint && m == v.tnode && o in c.locks))
  {
  }

  lemma CountKeepsShape(s: State, v: Vote, required: int)
    requires v.txHash in s.candidates && Shaped(s) && LocksBacked(s, required)
    ensures Shaped(CountVote(s, v)) && Grows(s, CountVote(s, v)) && LocksBacked(CountVote(s, v), required)
  {
    var s' := CountVote(s, v);
    forall h | h in s'.candidates
      ensures CandidateOk(h, s'.candidates[h]) && CandidateGrows(s.candidates[h], s'.candidates[h])
    {
      CountedCandidate(s, v, h);
      assert CandidateOk(h, s.candidates[h]);
      var c, c' := s.candidates[h], s'.candidates[h];
      if c.locks == map[] { assert c'.locks.Keys == {}; assert c'.locks == map[]; }
      forall o | o in c.locks && o in c'.locks ensures c.locks[o].votes.Keys <= c'.locks[o].votes.Keys {
        forall m | m in c.locks[o].votes
          ensures m in c'.locks[o].votes
        {
          assert HasVoted(c, o, m);
          assert HasVoted(c', o, m);
        }
      }
    }
    GrownLocks(s, s', required);
  }

  lemma CountKeepsQuorum(s: State, v: Vote, q: Quorum)
    requires v.txHash in s.candidates && FromQuorum(s, q)
    requires v.tnode in q(v.outpoint)
    ensures FromQuorum(CountVote(s, v), q)
  {
    var s' := CountVote(s, v);
    forall h, o, m | h in s'.candidates && HasVoted(s'.candidates[h], o, m) ensures m in q(o) {
      CountedCandidate(s, v, h);
    }
  }

  lemma CountKeepsIndex(s: State, v: Vote)
    requires v.txHash in s.candidates && Indexed(s)
    ensures Indexed(CountVote(s, v))
  {
    var s' := CountVote(s, v);
    assert forall o :: o in s.voted ==> o in s'.voted && s.voted[o] <= s'.voted[o];
    forall h, o, m | h in s'.candidates && HasVoted(s'.candidates[h], o, m)
      ensures o in s'.voted && h in s'.voted[o]
    {
      CountedCandidate(s, v, h);
      if HasVoted(s.candidates[h], o, m) { assert h in s.voted[o]; }
    }
  }

  lemma CountKeepsNoDouble(s: State, v: Vote)
    requires v.txHash in s.candidates && Indexed(s) && NoDoubleVote(s)
    ensures NoDoubleVote(CountVote(s, v))
  {
    var s' := CountVote(s, v);
    forall g, h, o, m |
      g in s'.candidates && h in s'.candidates && g != h &&
      HasVoted(s'.candidates[g], o, m) && HasVoted(s'.candidates[h], o, m)
      ensures Attacked(s'.candidates[g], o)
    {
      CountedCandidate(s, v, g);
      CountedCandidate(s, v, h);
      if HasVoted(s.candidates[g], o, m) && HasVoted(s.candidates[h], o, m) {
      } else if HasVoted(s.candidates[h], o, m) {
        assert h in DoubleVoted(s, v);
      } else if HasVoted(s.candidates[g], o, m) {
        assert g in DoubleVoted(s, v);
      }
    }
  }

  lemma CountKeepsInv(s: State, v: Vote, q: Quorum, required: int)
    requires v.txHash in s.candidates && Inv(s, q, required) && v.tnode in q(v.outpoint)
    ensures Inv(CountVote(s, v), q, required) && Grows(s, CountVote(s, v))
  {
    CountKeepsShape(s, v, required);
    CountKeepsQuorum(s, v, q);
    CountKeepsIndex(s, v);
    CountKeepsNoDouble(s, v);
  }

  /** A ready candidate that is let through locks every one of its inputs. */
  lemma LockCoversInputs(s: State, h: TxHash, q: Quorum, required: int, total: int)
    requires Bounded(q, total) && 2 * required > total && Inv(s, q, required)
    requires h in s.candidates && AllOutPointsReady(s.candidates[h], required)
    ensures FullyLocked(LockInputs(s, h), h)
    ensures Inv(LockInputs(s, h), q, required) && Grows(s, LockInputs(s, h))
  {
    var s' := LockInputs(s, h);
    forall o | o in s.candidates[h].locks ensures o in s'.locked && s'.locked[o] == h {
      if o in s.locked { ReadyIsUnopposed(s, h, o, q, required, total); }
    }
    assert FullyLocked(s', h);
    assert Grows(s, s');
    forall o | o in s'.locked ensures LockBacked(s', o, s'.locked[o], required) {
      if o in s.locked {
        assert LockBacked(s, o, s.locked[o], required);
        GrownLock(s, s', s.locked[o]);
      } else {
        assert IsReady(s.candidates[h].locks[o], required);
      }
    }
  }

  lemma FinalizeKeepsInv(s: State, h: TxHash, env: Env, q: Quorum, required: int, total: int)
    requires Bounded(q, total) && 2 * required > total && Inv(s, q, required)
    requires Requested(s, h)
    ensures Inv(Finalize(s, h, env, required), q, required) && Grows(s, Finalize(s, h, env, required))
  {
    if AllOutPointsReady(s.candidates[h], required) {
      NeverDropsBoth(s, h, env, q, required, total);
      LockCoversInputs(s, h, q, required, total);
    }
  }

  /** Replacing one candidate that has no votes yet by another without votes. */
  lemma ReplaceKeepsInv(s: State, h: TxHash, c: Candidate, q: Quorum, required: int)
    requires Inv(s, q, required)
    requires CandidateOk(h, c) && forall o :: o in c.locks ==> c.locks[o].votes == map[]
    requires h in s.candidates ==> s.candidates[h].locks == map[]
    ensures var s' := s.(candidates := s.candidates[h := c]); Inv(s', q, required) && Grows(s, s')
  {
    var s' := s.(candidates := s.candidates[h := c]);
    assert forall o, m :: !HasVoted(c, o, m);
    forall g, o, m | g in s'.candidates && HasVoted(s'.candidates[g], o, m)
      ensures g in s.candidates && g != h && s'.candidates[g] == s.candidates[g]
    {
    }
    assert FromQuorum(s', q) && Indexed(s') && NoDoubleVote(s');
    assert Grows(s, s');
    GrownLocks(s, s', required);
  }

  lemma CreateKeepsInv(s: State, tx: Tx, timedOut: bool, q: Quorum, required: int)
    requires Inv(s, q, required)
    ensures Inv(Create(s, tx, timedOut), q, required) && Grows(s, Create(s, tx, timedOut))
    ensures Requested(Create(s, tx, timedOut), tx.hash)
  {
    var h := tx.hash;
    if h !in s.candidates || s.candidates[h].request.None? {
      if h in s.candidates { assert CandidateOk(h, s.candidates[h]); }
      assert FreshLocks(tx) + map[] == FreshLocks(tx);
      assert FreshLocks(tx).Keys == Inputs(tx);
      ReplaceKeepsInv(s, h, Create(s, tx, timedOut).candidates[h], q, required);
    }
  }

  lemma OrphansKeepInv(s: State, orphans: map<nat, Vote>, q: Quorum, required: int)
    requires Inv(s, q, required)
    requires forall k :: k in orphans ==> orphans[k].tnode in q(orphans[k].outpoint)
    ensures Inv(s.(orphans := orphans), q, required) && Grows(s, s.(orphans := orphans))
  {
    var s' := s.(orphans := orphans);
    assert FromQuorum(s', q);
    GrownLocks(s, s', required);
  }

  ghost predicate SameRequests(s: State, s': State) {
    forall h :: Requested(s, h) ==> Requested(s', h)
  }

  lemma ReplayOneKeepsInv(s: State, k: nat, env: Env, q: Quorum, required: int)
    requires Inv(s, q, required)
    ensures var s' := ReplayOne(s, k, env); Inv(s', q, required) && Grows(s, s') && SameRequests(s, s')
  {
    if k in s.orphans && Requested(s, s.orphans[k].txHash) && k !in env.tooLate {
      var v := s.orphans[k];
      CountKeepsInv(s, v, q, required);
      var s1 := CountVote(s, v);
      forall h | Requested(s, h) ensures Requested(s1, h) { CountedCandidate(s, v, h); }
      OrphansKeepInv(s1, s1.orphans - {k}, q, required);
      GrowsTransitive(s, s1, s1.(orphans := s1.orphans - {k}));
    }
  }

  lemma {:induction false} ReplayKeepsInv(s: State, keys: set<nat>, env: Env, q: Quorum, required: int)
    requires Inv(s, q, required)
    ensures var s' := Replay(s, keys, env); Inv(s', q, required) && Grows(s, s') && SameRequests(s, s')
    decreases |keys|
  {
    if keys != {} {
      var k := Least(keys);
      ReplayOneKeepsInv(s, k, env, q, required);
      var s1 := ReplayOne(s, k, env);
      ReplayKeepsInv(s1, keys - {k}, env, q, required);
      GrowsTransitive(s, s1, Replay(s1, keys - {k}, env));
    }
  }

  lemma RequestKeepsInv(s: State, tx: Tx, timedOut: bool, env: Env, q: Quorum, required: int, total: int)
    requires Bounded(q, total) && 2 * required > total && Inv(s, q, required)
    ensures var s' := RequestStep(s, tx, timedOut, env, required); Inv(s', q, required) && Grows(s, s')
  {
    CreateKeepsInv(s, tx, timedOut, q, required);
    var s1 := Create(s, tx, timedOut);
    ReplayKeepsInv(s1, s1.orphans.Keys, env, q, required);
    var s2 := Replay(s1, s1.orphans.Keys, env);
    FinalizeKeepsInv(s2, tx.hash, env, q, required, total);
    GrowsTransitive(s, s1, s2);
    GrowsTransitive(s, s2, Finalize(s2, tx.hash, env, required));
  }

  lemma OrphanVoteKeepsInv(s: State, v: Vote, env: Env, q: Quorum, required: int)
    requires Inv(s, q, required) && !Requested(s, v.txHash) && v.tnode in q(v.outpoint)
    ensures var s' := VoteStep(s, v, env, required); Inv(s', q, required) && Grows(s, s')
  {
    var s1 := if v.txHash in s.candidates then s
              else s.(candidates := s.candidates[v.txHash := Candidate(None, map[])]);
    if v.txHash !in s.candidates { ReplaceKeepsInv(s, v.txHash, Candidate(None, map[]), q, required); }
    if v.hash !in s1.orphans {
      var orphans := s1.orphans[v.hash := v];
      OrphansKeepInv(s1, orphans, q, required);
      GrowsTransitive(s, s1, s1.(orphans := orphans));
    }
  }

  lemma TimelyVoteKeepsInv(s: State, v: Vote, env: Env, q: Quorum, required: int, total: int)
    requires Bounded(q, total) && 2 * required > total && Inv(s, q, required)
    requires Requested(s, v.txHash) && v.tnode in q(v.outpoint)
    ensures var s1 := CountVote(s, v); Inv(s1, q, required) && Grows(s, s1) && Requested(s1, v.txHash)
    ensures var s' := Finalize(CountVote(s, v), v.txHash, env, required); Inv(s', q, required) && Grows(s, s')
  {
    CountKeepsInv(s, v, q, required);
    var s1 := CountVote(s, v);
    CountedCandidate(s, v, v.txHash);
    FinalizeKeepsInv(s1, v.txHash, env, q, required, total);
    GrowsTransitive(s, s1, Finalize(s1, v.txHash, env, required));
  }

  lemma VoteKeepsInv(s: State, v: Vote, env: Env, q: Quorum, required: int, total: int)
    requires Bounded(q, total) && 2 * required > total && Inv(s, q, required)
    requires v.tnode in q(v.outpoint)
    ensures var s' := VoteStep(s, v, env, required); Inv(s', q, required) && Grows(s, s')
  {
    if !Requested(s, v.txHash) {
      OrphanVoteKeepsInv(s, v, env, q, required);
    } else if v.hash !in env.tooLate {
      TimelyVoteKeepsInv(s, v, env, q, required, total);
    }
  }

  /** Every message keeps the invariant, takes no lock away and moves none. */
  lemma StepKeepsInv(s: State, e: Event, q: Quorum, required: int, total: int)
    requires Bounded(q, total) && 2 * required > total && Inv(s, q, required) && Validated(e, q)
    ensures Inv(Step(s, e, required), q, required) && Grows(s, Step(s, e, required))
  {
    match e
    case Request(tx, valid, timedOut, env) => if valid { RequestKeepsInv(s, tx, timedOut, env, q, required, total); }
    case NewVote(v, valid, env) => if valid { VoteKeepsInv(s, v, env, q, required, total); }
  }

  lemma {:induction false} RunKeepsInv(s: State, events: seq<Event>, q: Quorum, required: int, total: int)
    requires Bounded(q, total) && 2 * required > total && Inv(s, q, required) && AllValidated(events, q)
    ensures Inv(Run(s, events, required), q, required) && Grows(s, Run(s, events, required))
    decreases |events|
  {
    if events != [] {
      assert Validated(events[0], q);
      StepKeepsInv(s, events[0], q, required, total);
      var s1 := Step(s, events[0], required);
      RunKeepsInv(s1, events[1..], q, required, total);
      GrowsTransitive(s, s1, Run(s1, events[1..], required));
    }
  }

  // ---------------------------------------------------------------- whole runs

  /** Two transactions that are locked at some points of a run, `now` and `later`, have no input in common. */
  lemma LocksNeverConflict(now: seq<Event>, later: seq<Event>, g: TxHash, h: TxHash,
                           q: Quorum, required: int, total: int)
    requires Bounded(q, total) && 2 * required > total
    requires AllValidated(now, q) && AllValidated(later, q)
    requires FullyLocked(Run(Empty, now, required), g)
    requires FullyLocked(Run(Run(Empty, now, required), later, required), h)
    requires g != h
    ensures Requested(Run(Empty, now, required), g)
    ensures Requested(Run(Run(Empty, now, required), later, required), h)
    ensures Inputs(Run(Empty, now, required).candidates[g].request.value) !!
            Inputs(Run(Run(Empty, now, required), later, required).candidates[h].request.value)
  {
    var s := Run(Empty, now, required);
    var s' := Run(s, later, required);
    RunKeepsInv(Empty, now, q, required, total);
    RunKeepsInv(s, later, q, required, total);
    GrownLock(s, s', g);
    assert CandidateOk(g, s.candidates[g]) && CandidateOk(h, s'.candidates[h]);
    assert CandidateGrows(s.candidates[g], s'.candidates[g]);
  }

  /** In every reachable state a locked outpoint means that its transaction has locked all of its inputs. */
  lemma LocksAreWhole(events: seq<Event>, o: OutPoint, q: Quorum, required: int, total: int)
    requires Bounded(q, total) && 2 * required > total && AllValidated(events, q)
    requires o in Run(Empty, events, required).locked
    ensures var s := Run(Empty, events, required); var h := s.locked[o];
      Requested(s, h) && o in Inputs(s.candidates[h].request.value) &&
      forall p :: p in Inputs(s.candidates[h].request.value) ==> p in s.locked && s.locked[p] == h
  {
    RunKeepsInv(Empty, events, q, required, total);
    var s := Run(Empty, events, required);
    assert LockBacked(s, o, s.locked[o], required);
    assert CandidateOk(s.locked[o], s.candidates[s.locked[o]]);
  }

  /** Finalizing is the last thing a message does, on the state it has made by then. */
  lemma TriedIsFinalized(s: State, e: Event, q: Quorum, required: int)
    requires Inv(s, q, required) && Validated(e, q) && Tried(s, e).Some?
    ensures var t := Tried(s, e).value;
      && Inv(t.state, q, required) && Requested(t.state, t.hash)
      && Step(s, e, required) == Finalize(t.state, t.hash, e.env, required)
  {
    match e
    case Request(tx, valid, timedOut, env) =>
      CreateKeepsInv(s, tx, timedOut, q, required);
      var s1 := Create(s, tx, timedOut);
      ReplayKeepsInv(s1, s1.orphans.Keys, env, q, required);
    case NewVote(v, valid, env) =>
      CountKeepsInv(s, v, q, required);
      CountedCandidate(s, v, v.txHash);
  }

  /** After every run, whatever the next message tries to finalize, in the state in which it tries, the
      "dropping both" branch is not taken. */
  lemma RunNeverDropsBoth(events: seq<Event>, e: Event, q: Quorum, required: int, total: int)
    requires Bounded(q, total) && 2 * required > total && AllValidated(events, q) && Validated(e, q)
    requires Tried(Run(Empty, events, required), e).Some?
    ensures var s := Run(Empty, events, required); var t := Tried(s, e).value;
      && Requested(t.state, t.hash) && Step(s, e, required) == Finalize(t.state, t.hash, e.env, required)
      && (AllOutPointsReady(t.state.candidates[t.hash], required) ==> !Resolve(t.state, t.hash, e.env).DropBoth?)
  {
    RunKeepsInv(Empty, events, q, required, total);
    var s := Run(Empty, events, required);
    TriedIsFinalized(s, e, q, required);
    var t := Tried(s, e).value;
    if AllOutPointsReady(t.state.candidates[t.hash], required) {
      NeverDropsBoth(t.state, t.hash, e.env, q, required, total);
    }
  }
}
