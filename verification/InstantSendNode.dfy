/** The object that holds the InstantSend maps and updates them in place. */
module InstantSendNode {
  import opened InstantSend
  import opened Sets

  class CInstantSend {
    const required: int                              // nInstantSendSigsRequired

    var candidates: map<TxHash, Candidate>           // mapTxLockCandidates
    var voted: map<OutPoint, set<TxHash>>            // mapVotedOutpoints
    var locked: map<OutPoint, TxHash>                // mapLockedOutpoints
    var orphans: map<nat, Vote>                      // mapTxLockVotesOrphan

    function Snapshot(): State
      reads this
    {
      State(candidates, voted, locked, orphans)
    }

    /** Orphan votes are filed under their own hash. */
    ghost predicate Valid()
      reads this
    {
      forall k :: k in orphans ==> orphans[k].hash == k
    }

    constructor (required: int)
      ensures Valid() && Snapshot() == Empty && this.required == required
    {
      this.required := required;
      candidates, voted, locked, orphans := map[], map[], map[], map[];
    }

    /** Marks the outpoint in the voted-for candidate and in every candidate that already has a vote of the
        same tnode on it, then lists the voted-for candidate under the outpoint. */
    method UpdateVotedOutpoints(v: Vote)
      requires v.txHash in candidates
      modifies this`candidates, this`voted
      ensures Snapshot() == UpdateVoted(old(Snapshot()), v)
    {
      ghost var s := Snapshot();
      if v.outpoint in voted {
        var todo := voted[v.outpoint];
        ghost var seen: set<TxHash> := {};
        assert s.candidates == MarkSome(s, v, {});
        while todo != {}
          invariant todo + seen == s.voted[v.outpoint] && todo !! seen
          invariant voted == s.voted
          invariant candidates == MarkSome(s, v, DoubleVoted(s, v) * seen)
        {
          var hash :| hash in todo;
          if hash != v.txHash {
            if hash in candidates && HasVoted(candidates[hash], v.outpoint, v.tnode) {
              MarkOne(s, v, DoubleVoted(s, v) * seen, hash);
              candidates := candidates[v.txHash := Mark(candidates[v.txHash], v.outpoint)];
              candidates := candidates[hash := Mark(candidates[hash], v.outpoint)];
              assert DoubleVoted(s, v) * (seen + {hash}) == DoubleVoted(s, v) * seen + {hash};
            } else {
              assert DoubleVoted(s, v) * (seen + {hash}) == DoubleVoted(s, v) * seen;
            }
          } else {
            assert DoubleVoted(s, v) * (seen + {hash}) == DoubleVoted(s, v) * seen;
          }
          todo, seen := todo - {hash}, seen + {hash};
        }
        assert DoubleVoted(s, v) * seen == DoubleVoted(s, v);
        voted := voted[v.outpoint := voted[v.outpoint] + {v.txHash}];
      } else {
        assert s.candidates == MarkSome(s, v, {});
        voted := voted[v.outpoint := {v.txHash}];
        assert {} + {v.txHash} == {v.txHash};
      }
    }

    /** Counts a vote for a candidate that has its request. */
    method AddVote(v: Vote) returns (ok: bool)
      requires Requested(Snapshot(), v.txHash)
      modifies this`candidates, this`voted
      ensures Snapshot() == CountVote(old(Snapshot()), v)
      ensures ok == Counted(old(Snapshot()), v)
    {
      UpdateVotedOutpoints(v);
      ok := Accepts(candidates[v.txHash], v);
      candidates := candidates[v.txHash := WithVote(candidates[v.txHash], v)];
    }

    /** A new vote is kept as an orphan, or counted, and may complete the lock; `spamming` is what the rate of
        orphan votes says about its tnode. */
    method ProcessNewTxLockVote(v: Vote, valid: bool, spamming: bool, env: Env) returns (ok: bool)
      requires Valid()
      modifies this
      ensures Valid()
      ensures Snapshot() == Step(old(Snapshot()), NewVote(v, valid, env), required)
      ensures ok == (valid && if Requested(old(Snapshot()), v.txHash)
                              then v.hash !in env.tooLate && Counted(old(Snapshot()), v) else !spamming)
    {
      if !valid { return false; }
      if !(v.txHash in candidates) || candidates[v.txHash].request.None? {
        if v.txHash !in candidates {
          candidates := candidates[v.txHash := Candidate(None, map[])];
        }
        if v.hash !in orphans {
          orphans := orphans[v.hash := v];
        }
        return !spamming;
      }
      if v.hash in env.tooLate { return false; }
      ok := AddVote(v);
      if !ok { return; }
      TryToFinalizeLockCandidate(v.txHash, env);
    }

    method ProcessOrphanTxLockVote(v: Vote, env: Env) returns (ok: bool)
      modifies this`candidates, this`voted
      ensures var s := old(Snapshot());
        if Requested(s, v.txHash) && v.hash !in env.tooLate
        then Snapshot() == CountVote(s, v) && ok == Counted(s, v)
        else Snapshot() == s && !ok
    {
      if v.txHash !in candidates || candidates[v.txHash].request.None? { return false; }
      if v.hash in env.tooLate { return false; }
      ok := AddVote(v);
    }

    /** Replays the orphan votes in map order; those that get counted leave the map. */
    method ProcessOrphanTxLockVotes(env: Env)
      requires Valid()
      modifies this
      ensures Valid()
      ensures Snapshot() == Replay(old(Snapshot()), old(orphans.Keys), env)
    {
      var todo := orphans.Keys;
      while todo != {}
        invariant todo <= orphans.Keys
        invariant Valid()
        invariant Replay(Snapshot(), todo, env) == Replay(old(Snapshot()), old(orphans.Keys), env)
        decreases |todo|
      {
        var k := Least(todo);
        ghost var s := Snapshot();
        var done := ProcessOrphanTxLockVote(orphans[k], env);
        if done {
          orphans := orphans - {k};
        }
        assert Snapshot() == ReplayOne(s, k, env);
        todo := todo - {k};
      }
    }

    /** Creates the candidate, or completes the empty one that early votes have left. */
    method CreateTxLockCandidate(tx: Tx, timedOut: bool) returns (ok: bool)
      modifies this`candidates
      ensures Snapshot() == Create(old(Snapshot()), tx, timedOut)
      ensures ok == Created(old(Snapshot()), tx, timedOut)
    {
      if tx.hash !in candidates {
        var c := AddOutPointLocks(Candidate(Some(tx), map[]), tx);
        assert FreshLocks(tx) + map[] == FreshLocks(tx);
        candidates := candidates[tx.hash := c];
      } else if candidates[tx.hash].request.None? {
        candidates := candidates[tx.hash := candidates[tx.hash].(request := Some(tx))];
        if timedOut { return false; }
        var c := AddOutPointLocks(candidates[tx.hash], tx);
        candidates := candidates[tx.hash := c];
      }
      return true;
    }

    /** One lock per input; an outpoint that has a lock keeps it. */
    static method AddOutPointLocks(c: Candidate, tx: Tx) returns (r: Candidate)
      ensures r == c.(locks := FreshLocks(tx) + c.locks)
    {
      var locks := c.locks;
      for i := 0 to |tx.vin|
        invariant locks.Keys == c.locks.Keys + (set j | 0 <= j < i :: tx.vin[j])
        invariant forall o :: o in locks ==> locks[o] == if o in c.locks then c.locks[o] else OutPointLock(map[], false)
      {
        if tx.vin[i] !in locks {
          locks := locks[tx.vin[i] := OutPointLock(map[], false)];
        }
      }
      r := c.(locks := locks);
      assert locks.Keys == c.locks.Keys + Inputs(tx);
      assert locks == FreshLocks(tx) + c.locks;
    }

    method ProcessTxLockRequest(tx: Tx, valid: bool, timedOut: bool, env: Env) returns (ok: bool)
      requires Valid()
      modifies this
      ensures Valid()
      ensures Snapshot() == Step(old(Snapshot()), Request(tx, valid, timedOut, env), required)
      ensures ok == (valid && Created(old(Snapshot()), tx, timedOut))
    {
      if !valid { return false; }
      ok := CreateTxLockCandidate(tx, timedOut);
      if !ok { return; }
      ghost var s1 := Snapshot();
      ProcessOrphanTxLockVotes(env);
      ReplayKeepsRequest(s1, s1.orphans.Keys, env, tx.hash);
      TryToFinalizeLockCandidate(tx.hash, env);
    }

    method TryToFinalizeLockCandidate(h: TxHash, env: Env)
      requires Requested(Snapshot(), h)
      modifies this`candidates, this`voted, this`locked
      ensures Snapshot() == Finalize(old(Snapshot()), h, env, required)
    {
      if !env.enabled { return; }
      if AllOutPointsReady(candidates[h], required) && !(env.filtering && FullyLocked(Snapshot(), h)) {
        var go := ResolveConflicts(h, env);
        if go {
          LockTransactionInputs(h, env);
        }
      }
    }

    /** Looks for a completed lock or a mempool transaction in the way, then for inputs already spent. */
    method ResolveConflicts(h: TxHash, env: Env) returns (go: bool)
      requires Requested(Snapshot(), h)
      modifies this`candidates, this`voted, this`locked
      ensures go == Resolve(old(Snapshot()), h, env).Go?
      ensures var s := old(Snapshot()); var r := Resolve(s, h, env);
        Snapshot() == if r.DropBoth? && r.other in s.candidates && env.cleaning then Drop(s, h, r.other) else s
    {
      var vin := candidates[h].request.value.vin;
      ghost var s := Snapshot();
      var i := 0;
      assert vin[0..] == vin;
      while i < |vin|
        invariant 0 <= i <= |vin| && Snapshot() == s
        invariant Scan(s, h, vin, env) == Scan(s, h, vin[i..], env)
      {
        assert vin[i..][0] == vin[i] && vin[i..][1..] == vin[i + 1..];
        if vin[i] in locked && locked[vin[i]] != h {
          var other := locked[vin[i]];
          if other in candidates && env.cleaning {
            var outpoints := candidates[h].locks.Keys + candidates[other].locks.Keys;
            locked := locked - outpoints;
            voted := voted - outpoints;
            candidates := candidates - {h, other};
          }
          return false;
        } else if vin[i] in env.spending && env.spending[vin[i]] != h {
          return false;
        }
        i := i + 1;
      }
      assert vin[i..] == [];
      if h in env.mined { return true; }
      i := 0;
      while i < |vin|
        invariant 0 <= i <= |vin|
        invariant forall j :: 0 <= j < i ==> vin[j] in env.unspent
      {
        if vin[i] !in env.unspent { return false; }
        i := i + 1;
      }
      return true;
    }

    method LockTransactionInputs(h: TxHash, env: Env)
      requires h in candidates
      modifies this`locked
      ensures var s := old(Snapshot());
        Snapshot() == if env.enabled && AllOutPointsReady(s.candidates[h], required) then LockInputs(s, h) else s
    {
      if !env.enabled || !AllOutPointsReady(candidates[h], required) { return; }
      var todo := candidates[h].locks.Keys;
      ghost var all := todo;
      while todo != {}
        invariant todo <= all
        invariant locked == (map o | o in all - todo :: h) + old(locked)
      {
        var o :| o in todo;
        if o !in locked {
          locked := locked[o := h];
        }
        todo := todo - {o};
      }
      assert all - todo == all;
      assert locked == (map o | o in candidates[h].locks :: h) + old(locked);
    }
  }

  ghost function MarkSome(s: State, v: Vote, bad: set<TxHash>): map<TxHash, Candidate> {
    map h | h in s.candidates ::
      if h in bad || (bad != {} && h == v.txHash) then Mark(s.candidates[h], v.outpoint) else s.candidates[h]
  }

  lemma MarkOne(s: State, v: Vote, bad: set<TxHash>, h: TxHash)
    requires v.txHash in s.candidates && h in s.candidates
    ensures var c := MarkSome(s, v, bad);
      var c1 := c[v.txHash := Mark(c[v.txHash], v.outpoint)];
      c1[h := Mark(c1[h], v.outpoint)] == MarkSome(s, v, bad + {h})
  {
    var c := MarkSome(s, v, bad);
    var c1 := c[v.txHash := Mark(c[v.txHash], v.outpoint)];
    var c2 := c1[h := Mark(c1[h], v.outpoint)];
    var r := MarkSome(s, v, bad + {h});
    forall g | g in s.candidates ensures c2[g] == r[g] {
      MarkTwice(s.candidates[g], v.outpoint);
    }
    assert c2.Keys == r.Keys;
  }

  lemma MarkTwice(c: Candidate, o: OutPoint)
    ensures Mark(Mark(c, o), o) == Mark(c, o)
  {
    if o in c.locks { assert Mark(Mark(c, o), o).locks == Mark(c, o).locks; }
  }

  lemma {:induction false} ReplayKeepsRequest(s: State, keys: set<nat>, env: Env, h: TxHash)
    requires Requested(s, h)
    ensures Requested(Replay(s, keys, env), h)
    decreases |keys|
  {
    if keys != {} {
      var k := Least(keys);
      ReplayKeepsRequest(ReplayOne(s, k, env), keys - {k}, env, h);
    }
  }
}
