/**
 The verification queue: one master thread adds batches of checks, any number of
 worker threads take them, and the master joins the pool in `Wait` until all of
 them are done.  All threads share one mutex; a section of code that runs with
 the mutex held is one atomic step here, and so is a condition-variable wait
 being entered.  Every interleaving of these steps is a run.
 */
module CheckQueue {

  /** A queued verification; `succeeds` is what its operator() would return. */
  datatype Check = Check(id: nat, succeeds: bool)

  /** Where a thread stands with respect to the mutex. */
  datatype Thread =
    | Outside                                // not in Loop: a worker not yet started, the master between Waits
    | Asleep(notified: bool)                 // inside cond.wait, with or without a notification pending
    | Holding(batch: seq<Check>, ok: bool)   // mutex released, batch not yet executed, ok is the local fOk
    | Executed(batch: seq<Check>, ok: bool)  // batch executed, about to lock again for the clean-up

  /** A completed Wait: its answer and the checks added since the previous Wait. */
  datatype Answer = Answer(value: bool, added: seq<Check>)

  /** The queue object, the threads (index 0 is the master) and the history of the
      current round: `added` since the last Wait returned, `done` after clean-up. */
  datatype State = State(
    queue: seq<Check>,
    nIdle: int,
    nTotal: int,
    fAllOk: bool,
    nTodo: int,
    threads: seq<Thread>,
    added: seq<Check>,
    done: seq<Check>,
    answers: seq<Answer>
  )

  datatype Step =
    | Add(checks: seq<Check>, woken: nat)  // master only; `woken` is the sleeper picked by notify_one
    | Enter(t: nat)                        // first iteration of Loop
    | Wake(t: nat)                         // return from cond.wait, after a notification or spuriously
    | Execute(t: nat)                      // run the batch, outside the mutex
    | CleanUp(t: nat)                      // lock again after a batch

  const MASTER: nat := 0

  // ---------------------------------------------------------------- the code

  predicate Sleeping(th: Thread) { th == Asleep(false) }

  function WakeAllWorkers(threads: seq<Thread>): (r: seq<Thread>)
    ensures |r| == |threads|
  {
    seq(|threads|, i requires 0 <= i < |threads| =>
      if i != MASTER && Sleeping(threads[i]) then Asleep(true) else threads[i])
  }

  predicate SomeWorkerSleeps(threads: seq<Thread>) {
    exists i :: 1 <= i < |threads| && Sleeping(threads[i])
  }

  /** condWorker.notify_one / notify_all, by the number of checks added. */
  function NotifyWorkers(threads: seq<Thread>, count: nat, woken: nat): (r: seq<Thread>)
    requires count == 1 && SomeWorkerSleeps(threads) ==> 1 <= woken < |threads| && Sleeping(threads[woken])
    ensures |r| == |threads|
  {
    if count == 1 then
      if SomeWorkerSleeps(threads) then threads[woken := Asleep(true)] else threads
    else if count > 1 then WakeAllWorkers(threads)
    else threads
  }

  function AddStep(s: State, checks: seq<Check>, woken: nat): State
    requires Enabled(s, Add(checks, woken))
  {
    s.(queue := s.queue + checks,
       nTodo := s.nTodo + |checks|,
       threads := NotifyWorkers(s.threads, |checks|, woken),
       added := s.added + checks)
  }

  /** max(1, min(nBatchSize, queue.size() / (nTotal + nIdle + 1))) */
  function BatchCount(s: State, nBatchSize: nat): (n: nat)
    requires s.queue != []
    ensures 1 <= n <= |s.queue|
  {
    var share := Share(|s.queue|, s.nTotal + s.nIdle + 1);
    var least := if nBatchSize < share then nBatchSize else share;
    if least < 1 then 1 else least
  }

  /** A batch of more than one check is neither larger than nBatchSize nor more than an equal share for every thread
      that works or may start to; and it is no smaller than these two allow. */
  lemma BatchExactly(s: State, nBatchSize: nat)
    requires s.queue != [] && s.nTotal + s.nIdle >= 0
    ensures var n, threads := BatchCount(s, nBatchSize), s.nTotal + s.nIdle + 1;
      && (n > 1 ==> n <= nBatchSize && n * threads <= |s.queue|)
      && (n < nBatchSize ==> |s.queue| < (n + 1) * threads)
  {
  }

  /** The divisor is positive in every reachable state. */
  function Share(size: nat, threads: int): (n: nat)
    ensures n <= size
    ensures threads >= 1 ==> n * threads <= size < (n + 1) * threads
  {
    if threads < 1 then 0 else
    assert size / threads <= size / 1;
    size / threads
  }

  /** Jobs leave the queue from the back, one by one. */
  function BackFirst(queue: seq<Check>, n: nat): (batch: seq<Check>)
    requires n <= |queue|
    ensures |batch| == n
  {
    if n == 0 then [] else [queue[|queue| - 1]] + BackFirst(queue[..|queue| - 1], n - 1)
  }

  /** From "while (queue.empty())" to the end of the lock-held section. */
  function Section(s: State, t: nat, nBatchSize: nat): State
    requires t < |s.threads|
  {
    if s.queue == [] then
      if t == MASTER && s.nTodo == 0 then
        s.(nTotal := s.nTotal - 1,
           fAllOk := true,
           threads := s.threads[t := Outside],
           added := [],
           done := [],
           answers := s.answers + [Answer(s.fAllOk, s.added)])
      else
        s.(nIdle := s.nIdle + 1, threads := s.threads[t := Asleep(false)])
    else
      var n := BatchCount(s, nBatchSize);
      s.(queue := s.queue[..|s.queue| - n],
         threads := s.threads[t := Holding(BackFirst(s.queue, n), s.fAllOk)])
  }

  /** BOOST_FOREACH check: if (fOk) fOk = check(); */
  function RunBatch(batch: seq<Check>, ok: bool): bool {
    if batch == [] then ok else RunBatch(batch[1..], ok && batch[0].succeeds)
  }

  /** condMaster.notify_one() */
  function NotifyMaster(threads: seq<Thread>): (r: seq<Thread>)
    requires threads != []
    ensures |r| == |threads|
  {
    if Sleeping(threads[MASTER]) then threads[MASTER := Asleep(true)] else threads
  }

  /** The clean-up of the previous iteration, before the loop proper. */
  function Retire(s: State, t: nat): State
    requires t < |s.threads| && s.threads[t].Executed?
  {
    var n := |s.threads[t].batch|;
    var s1 := s.(fAllOk := s.fAllOk && s.threads[t].ok,
                 nTodo := s.nTodo - n,
                 done := s.done + s.threads[t].batch);
    if s1.nTodo == 0 && t != MASTER then s1.(threads := NotifyMaster(s1.threads)) else s1
  }

  predicate Enabled(s: State, step: Step) {
    match step
    case Add(checks, woken) =>
      |s.threads| > 0 && s.threads[MASTER].Outside? &&
      (|checks| == 1 && SomeWorkerSleeps(s.threads) ==> 1 <= woken < |s.threads| && Sleeping(s.threads[woken]))
    case Enter(t) => t < |s.threads| && s.threads[t].Outside?
    case Wake(t) => t < |s.threads| && s.threads[t].Asleep?
    case Execute(t) => t < |s.threads| && s.threads[t].Holding?
    case CleanUp(t) => t < |s.threads| && s.threads[t].Executed?
  }

  function Apply(s: State, step: Step, nBatchSize: nat): State
    requires Enabled(s, step)
  {
    match step
    case Add(checks, woken) => AddStep(s, checks, woken)
    case Enter(t) => Section(s.(nTotal := s.nTotal + 1), t, nBatchSize)
    case Wake(t) => Section(s.(nIdle := s.nIdle - 1), t, nBatchSize)
    case Execute(t) =>
      s.(threads := s.threads[t := Executed(s.threads[t].batch, RunBatch(s.threads[t].batch, s.threads[t].ok))])
    case CleanUp(t) => Section(Retire(s, t), t, nBatchSize)
  }

  /** A return from cond.wait that nobody asked for. */
  predicate Spurious(s: State, step: Step)
    requires Enabled(s, step)
  {
    step.Wake? && !s.threads[step.t].notified
  }

  /** The master and the workers, nobody in Loop. */
  function Initial(workers: nat): (s: State)
    ensures |s.threads| == 1 + workers
  {
    State([], 0, 0, true, 0, seq(workers + 1, _ => Outside), [], [], [])
  }

  /** Adding one check wakes one sleeping worker, if there is one, adding more wakes all of them, and adding none wakes
      nobody; whoever is not woken goes on as before. */
  lemma AddWakes(s: State, checks: seq<Check>, woken: nat, nBatchSize: nat, i: nat)
    requires Enabled(s, Add(checks, woken)) && i < |s.threads|
    ensures var before, after := s.threads[i], Apply(s, Add(checks, woken), nBatchSize).threads[i];
      if i != 0 && before == Asleep(false) && (|checks| > 1 || (|checks| == 1 && i == woken))
      then after == Asleep(true) else after == before
    ensures |checks| == 1 && SomeWorkerSleeps(s.threads) ==>
      1 <= woken < |s.threads| && s.threads[woken] == Asleep(false)
  {
    if |checks| == 1 && 1 <= i && Sleeping(s.threads[i]) { assert SomeWorkerSleeps(s.threads); }
  }

  /** A worker that finishes the last outstanding checks wakes the master if it sleeps; no other clean-up wakes
      anybody. */
  lemma CleanUpWakes(s: State, t: nat, nBatchSize: nat, i: nat)
    requires Enabled(s, CleanUp(t)) && i < |s.threads| && i != t
    ensures var before, after := s.threads[i], Apply(s, CleanUp(t), nBatchSize).threads[i];
      if i == 0 && before == Asleep(false) && s.nTodo == |s.threads[t].batch| then after == Asleep(true)
      else after == before
  {
  }

  /** The batch is the end of the queue, last check first. */
  lemma {:induction false} BackFirstAt(queue: seq<Check>, n: nat, i: nat)
    requires i < n <= |queue|
    ensures BackFirst(queue, n)[i] == queue[|queue| - 1 - i]
  {
    if i > 0 { BackFirstAt(queue[..|queue| - 1], n - 1, i - 1); }
  }

  // ---------------------------------------------------------------- counting over threads

  function Batch(th: Thread): seq<Check> {
    if th.Holding? || th.Executed? then th.batch else []
  }

  function Count(c: Check, q: seq<Check>): nat {
    if q == [] then 0 else Count(c, q[..|q| - 1]) + if q[|q| - 1] == c then 1 else 0
  }

  lemma {:induction false} CountConcat(c: Check, a: seq<Check>, b: seq<Check>)
    ensures Count(c, a + b) == Count(c, a) + Count(c, b)
  {
    if b == [] {
      assert a + b == a;
    } else {
      var front := b[..|b| - 1];
      assert (a + b)[..|a + b| - 1] == a + front;
      CountConcat(c, a, front);
    }
  }

  lemma {:induction false} CountMeaning(c: Check, q: seq<Check>)
    ensures Count(c, q) > 0 <==> c in q
  {
    if q != [] {
      CountMeaning(c, q[..|q| - 1]);
      assert q == q[..|q| - 1] + [q[|q| - 1]];
    }
  }

  /** The copies of a check in the threads' own batches. */
  function HeldOf(c: Check, threads: seq<Thread>): nat {
    if threads == [] then 0 else Count(c, Batch(threads[0])) + HeldOf(c, threads[1..])
  }

  function Load(threads: seq<Thread>): nat {
    if threads == [] then 0 else |Batch(threads[0])| + Load(threads[1..])
  }

  function Idle(threads: seq<Thread>): nat {
    if threads == [] then 0 else (if threads[0].Asleep? then 1 else 0) + Idle(threads[1..])
  }

  function Inside(threads: seq<Thread>): nat {
    if threads == [] then 0 else (if threads[0].Outside? then 0 else 1) + Inside(threads[1..])
  }

  /** What one thread contributes to each count. */
  lemma {:induction false} Without(threads: seq<Thread>, t: nat)
    requires t < |threads|
    ensures Load(threads) == Load(threads[t := Outside]) + |Batch(threads[t])|
    ensures Idle(threads) == Idle(threads[t := Outside]) + if threads[t].Asleep? then 1 else 0
    ensures Inside(threads) == Inside(threads[t := Outside]) + if threads[t].Outside? then 0 else 1
  {
    if t > 0 {
      assert threads[t := Outside][1..] == threads[1..][t - 1 := Outside];
      Without(threads[1..], t - 1);
    } else {
      assert threads[t := Outside][1..] == threads[1..];
    }
  }

  lemma {:induction false} HeldWithout(c: Check, threads: seq<Thread>, t: nat)
    requires t < |threads|
    ensures HeldOf(c, threads) == HeldOf(c, threads[t := Outside]) + Count(c, Batch(threads[t]))
  {
    if t > 0 {
      assert threads[t := Outside][1..] == threads[1..][t - 1 := Outside];
      HeldWithout(c, threads[1..], t - 1);
    } else {
      assert threads[t := Outside][1..] == threads[1..];
    }
  }

  lemma {:induction false} NoLoad(threads: seq<Thread>)
    requires Load(threads) == 0
    ensures forall t :: 0 <= t < |threads| ==> Batch(threads[t]) == []
  {
    if threads != [] { NoLoad(threads[1..]); }
  }

  lemma {:induction false} NoneHeld(c: Check, threads: seq<Thread>)
    requires forall t :: 0 <= t < |threads| ==> Batch(threads[t]) == []
    ensures HeldOf(c, threads) == 0
  {
    if threads != [] { NoneHeld(c, threads[1..]); }
  }

  lemma {:induction false} SomeLoad(threads: seq<Thread>)
    requires Load(threads) > 0
    ensures exists t :: 0 <= t < |threads| && Batch(threads[t]) != []
  {
    if Batch(threads[0]) == [] {
      SomeLoad(threads[1..]);
      var t :| 0 <= t < |threads[1..]| && Batch(threads[1..][t]) != [];
      assert threads[t + 1] == threads[1..][t];
    }
  }

  /** Notifications move no work and no thread in or out. */
  predicate SameButNotified(a: seq<Thread>, b: seq<Thread>) {
    |a| == |b| && forall i :: 0 <= i < |a| ==> b[i] == a[i] || (a[i].Asleep? && b[i].Asleep?)
  }

  lemma {:induction false} SameWork(a: seq<Thread>, b: seq<Thread>)
    requires SameButNotified(a, b)
    ensures Load(a) == Load(b) && Idle(a) == Idle(b) && Inside(a) == Inside(b)
  {
    if a != [] { SameWork(a[1..], b[1..]); }
  }

  lemma {:induction false} SameHeld(c: Check, a: seq<Thread>, b: seq<Thread>)
    requires SameButNotified(a, b)
    ensures HeldOf(c, a) == HeldOf(c, b)
  {
    if a != [] { SameHeld(c, a[1..], b[1..]); }
  }

  // ---------------------------------------------------------------- the invariant

  predicate AllSucceed(q: seq<Check>) {
    forall c :: c in q ==> c.succeeds
  }

  /** nTodo is what is queued plus what is in the threads' batches; nIdle and nTotal are head counts. */
  predicate Counts(s: State) {
    s.nTodo == |s.queue| + Load(s.threads) && s.nIdle == Idle(s.threads) && s.nTotal == Inside(s.threads)
  }

  /** Each check added in this round is queued, or in exactly one batch, or done: none lost, none taken twice. */
  ghost predicate Conserved(s: State) {
    forall c :: Copies(s, c) == Count(c, s.added)
  }

  function Copies(s: State, c: Check): nat {
    Count(c, s.queue) + HeldOf(c, s.threads) + Count(c, s.done)
  }

  predicate Verdict(s: State) {
    s.fAllOk <==> AllSucceed(s.done)
  }

  predicate ThreadOk(fAllOk: bool, th: Thread) {
    match th
    case Outside => true
    case Asleep(_) => true
    case Holding(batch, ok) => batch != [] && (!ok ==> !fAllOk)
    case Executed(batch, ok) =>
      batch != [] && (ok ==> AllSucceed(batch)) && (!ok && fAllOk ==> !AllSucceed(batch))
  }

  predicate ThreadsOk(s: State) {
    forall t :: 0 <= t < |s.threads| ==> ThreadOk(s.fAllOk, s.threads[t])
  }

  predicate MasterOk(s: State) {
    && |s.threads| > 0
    && (s.threads[MASTER].Asleep? ==> s.queue == [])
    && (s.threads[MASTER] == Asleep(false) ==> s.nTodo > 0)
  }

  predicate AnswerOk(a: Answer) {
    a.value <==> AllSucceed(a.added)
  }

  predicate AnswersOk(s: State) {
    forall i :: 0 <= i < |s.answers| ==> AnswerOk(s.answers[i])
  }

  ghost predicate Inv(s: State) {
    Counts(s) && Conserved(s) && Verdict(s) && ThreadsOk(s) && MasterOk(s) && AnswersOk(s)
  }

  lemma InitialInv(workers: nat)
    ensures Inv(Initial(workers))
  {
    var s := Initial(workers);
    NobodyInside(s.threads);
    forall c ensures Copies(s, c) == Count(c, s.added) { NoneHeld(c, s.threads); }
  }

  lemma {:induction false} NobodyInside(threads: seq<Thread>)
    requires forall t :: 0 <= t < |threads| ==> threads[t].Outside?
    ensures Load(threads) == 0 && Idle(threads) == 0 && Inside(threads) == 0
  {
    if threads != [] { NobodyInside(threads[1..]); }
  }

  lemma {:induction false} RunBatchMeaning(batch: seq<Check>, ok: bool)
    ensures RunBatch(batch, ok) <==> ok && AllSucceed(batch)
  {
    if batch != [] {
      RunBatchMeaning(batch[1..], ok && batch[0].succeeds);
      assert batch == [batch[0]] + batch[1..];
    }
  }

  lemma {:induction false} BackFirstConserves(c: Check, queue: seq<Check>, n: nat)
    requires n <= |queue|
    ensures Count(c, BackFirst(queue, n)) + Count(c, queue[..|queue| - n]) == Count(c, queue)
  {
    if n > 0 {
      var front, last := queue[..|queue| - 1], queue[|queue| - 1];
      BackFirstConserves(c, front, n - 1);
      assert front[..|front| - (n - 1)] == queue[..|queue| - n];
      CountConcat(c, [last], BackFirst(front, n - 1));
      assert Count(c, [last]) == if last == c then 1 else 0;
    } else {
      assert queue[..|queue|] == queue;
    }
  }

  /** The state with thread t taken out, as it is while t runs inside the mutex. */
  function Aside(s: State, t: nat): State
    requires t < |s.threads|
  {
    s.(threads := s.threads[t := Outside], nTotal := s.nTotal - 1)
  }

  lemma SectionCounts(s: State, t: nat, nBatchSize: nat)
    requires t < |s.threads| && Counts(Aside(s, t))
    ensures Counts(Section(s, t, nBatchSize))
  {
    var r := Section(s, t, nBatchSize);
    assert r.threads[t := Outside] == s.threads[t := Outside];
    Without(r.threads, t);
  }

  lemma TakeCopies(s: State, t: nat, nBatchSize: nat, c: Check)
    requires t < |s.threads| && s.queue != []
    ensures Copies(Section(s, t, nBatchSize), c) == Copies(Aside(s, t), c)
  {
    var n := BatchCount(s, nBatchSize);
    var threads := s.threads[t := Holding(BackFirst(s.queue, n), s.fAllOk)];
    assert threads[t := Outside] == s.threads[t := Outside];
    HeldWithout(c, threads, t);
    BackFirstConserves(c, s.queue, n);
  }

  lemma SleepCopies(s: State, t: nat, nBatchSize: nat, c: Check)
    requires t < |s.threads| && s.queue == [] && !(t == MASTER && s.nTodo == 0)
    ensures Copies(Section(s, t, nBatchSize), c) == Copies(Aside(s, t), c)
  {
    var threads := s.threads[t := Asleep(false)];
    assert threads[t := Outside] == s.threads[t := Outside];
    HeldWithout(c, threads, t);
  }

  lemma SectionConserves(s: State, t: nat, nBatchSize: nat)
    requires t < |s.threads| && Conserved(Aside(s, t)) && !(s.queue == [] && t == MASTER && s.nTodo == 0)
    ensures Conserved(Section(s, t, nBatchSize))
  {
    var r := Section(s, t, nBatchSize);
    forall c ensures Copies(r, c) == Count(c, r.added) {
      assert Copies(Aside(s, t), c) == Count(c, s.added);
      if s.queue != [] { TakeCopies(s, t, nBatchSize, c); } else { SleepCopies(s, t, nBatchSize, c); }
    }
  }

  /** The master returns only when nothing is queued or held, so its answer covers the whole round. */
  lemma ReturnInv(s: State, nBatchSize: nat)
    requires |s.threads| > 0 && s.queue == [] && s.nTodo == 0
    requires Inv(Aside(s, MASTER))
    ensures Inv(Section(s, MASTER, nBatchSize))
  {
    var r := Section(s, MASTER, nBatchSize);
    var e := Aside(s, MASTER);
    NoLoad(e.threads);
    forall c ensures (c in s.done <==> c in s.added) && Copies(r, c) == 0 {
      NoneHeld(c, e.threads);
      assert Copies(e, c) == Count(c, s.added);
      CountMeaning(c, s.done);
      CountMeaning(c, s.added);
    }
    SectionCounts(s, MASTER, nBatchSize);
    forall i | 0 <= i < |r.threads| ensures ThreadOk(r.fAllOk, r.threads[i]) {
      assert ThreadOk(s.fAllOk, e.threads[i]);
    }
  }

  lemma SectionInv(s: State, t: nat, nBatchSize: nat)
    requires t < |s.threads|
    requires Inv(Aside(s, t))
    ensures Inv(Section(s, t, nBatchSize))
  {
    if s.queue == [] && t == MASTER && s.nTodo == 0 {
      ReturnInv(s, nBatchSize);
    } else {
      SectionCounts(s, t, nBatchSize);
      SectionConserves(s, t, nBatchSize);
      var r := Section(s, t, nBatchSize);
      forall i | 0 <= i < |r.threads| ensures ThreadOk(r.fAllOk, r.threads[i]) {
        assert i != t ==> r.threads[i] == Aside(s, t).threads[i];
      }
      assert s.nTodo == |s.queue| + Load(Aside(s, t).threads);
    }
  }

  lemma RetireVerdict(s: State, t: nat)
    requires Verdict(s) && ThreadsOk(s)
    requires t < |s.threads| && s.threads[t].Executed?
    ensures Verdict(Retire(s, t)) && ThreadsOk(Aside(Retire(s, t), t))
  {
    var r := Retire(s, t);
    assert ThreadOk(s.fAllOk, s.threads[t]);
    if !r.fAllOk {
      var c: Check :| !c.succeeds && (c in s.done || c in s.threads[t].batch);
      assert c in r.done;
    }
    forall i | 0 <= i < |r.threads| ensures ThreadOk(r.fAllOk, Aside(r, t).threads[i]) {
      assert ThreadOk(s.fAllOk, s.threads[i]);
    }
  }

  lemma RetireInv(s: State, t: nat)
    requires Inv(s)
    requires t < |s.threads| && s.threads[t].Executed?
    ensures Inv(Aside(Retire(s, t), t))
  {
    var e := Aside(Retire(s, t), t);
    RetireVerdict(s, t);
    Without(s.threads, t);
    SameWork(s.threads[t := Outside], e.threads);
    RetireConserves(s, t);
  }

  lemma RetireConserves(s: State, t: nat)
    requires Conserved(s)
    requires t < |s.threads| && s.threads[t].Executed?
    ensures Conserved(Aside(Retire(s, t), t))
  {
    var e := Aside(Retire(s, t), t);
    forall c ensures Copies(e, c) == Count(c, e.added) {
      assert Copies(s, c) == Count(c, s.added);
      SameHeld(c, s.threads[t := Outside], e.threads);
      HeldWithout(c, s.threads, t);
      CountConcat(c, s.done, s.threads[t].batch);
    }
  }

  lemma CleanUpInv(s: State, t: nat, nBatchSize: nat)
    requires Inv(s) && Enabled(s, CleanUp(t))
    ensures Inv(Apply(s, CleanUp(t), nBatchSize))
  {
    RetireInv(s, t);
    SectionInv(Retire(s, t), t, nBatchSize);
  }

  lemma AddInv(s: State, checks: seq<Check>, woken: nat, nBatchSize: nat)
    requires Inv(s) && Enabled(s, Add(checks, woken))
    ensures Inv(Apply(s, Add(checks, woken), nBatchSize))
  {
    var r := AddStep(s, checks, woken);
    SameWork(s.threads, r.threads);
    forall c ensures Copies(r, c) == Count(c, r.added) {
      assert Copies(s, c) == Count(c, s.added);
      SameHeld(c, s.threads, r.threads);
      CountConcat(c, s.queue, checks);
      CountConcat(c, s.added, checks);
    }
    forall i | 0 <= i < |r.threads| ensures ThreadOk(r.fAllOk, r.threads[i]) {
      assert ThreadOk(s.fAllOk, s.threads[i]);
    }
  }

  lemma WakeInv(s: State, t: nat, nBatchSize: nat)
    requires Inv(s) && Enabled(s, Wake(t))
    ensures Inv(Apply(s, Wake(t), nBatchSize))
  {
    var s1 := s.(nIdle := s.nIdle - 1);
    Without(s.threads, t);
    forall c ensures Copies(Aside(s1, t), c) == Count(c, s.added) {
      assert Copies(s, c) == Count(c, s.added);
      HeldWithout(c, s.threads, t);
    }
    SectionInv(s1, t, nBatchSize);
  }

  lemma EnterInv(s: State, t: nat, nBatchSize: nat)
    requires Inv(s) && Enabled(s, Enter(t))
    ensures Inv(Apply(s, Enter(t), nBatchSize))
  {
    var s1 := s.(nTotal := s.nTotal + 1);
    assert s.threads[t := Outside] == s.threads;
    assert Aside(s1, t) == s;
    SectionInv(s1, t, nBatchSize);
  }

  lemma ExecuteInv(s: State, t: nat, nBatchSize: nat)
    requires Inv(s) && Enabled(s, Execute(t))
    ensures Inv(Apply(s, Execute(t), nBatchSize))
  {
    var r := Apply(s, Execute(t), nBatchSize);
    assert r.threads[t := Outside] == s.threads[t := Outside];
    Without(s.threads, t);
    Without(r.threads, t);
    forall c ensures Copies(r, c) == Count(c, r.added) {
      assert Copies(s, c) == Count(c, s.added);
      HeldWithout(c, s.threads, t);
      HeldWithout(c, r.threads, t);
    }
    RunBatchMeaning(s.threads[t].batch, s.threads[t].ok);
    forall i | 0 <= i < |r.threads| ensures ThreadOk(r.fAllOk, r.threads[i]) {
      assert ThreadOk(s.fAllOk, s.threads[i]);
    }
  }

  /** Every step of every thread keeps the invariant. */
  lemma StepInv(s: State, step: Step, nBatchSize: nat)
    requires Inv(s) && Enabled(s, step)
    ensures Inv(Apply(s, step, nBatchSize))
  {
    match step
    case Add(checks, woken) => AddInv(s, checks, woken, nBatchSize);
    case Enter(t) => EnterInv(s, t, nBatchSize);
    case Wake(t) => WakeInv(s, t, nBatchSize);
    case Execute(t) => ExecuteInv(s, t, nBatchSize);
    case CleanUp(t) => CleanUpInv(s, t, nBatchSize);
  }

  // ---------------------------------------------------------------- runs

  /** A run: each step is enabled where it is taken. */
  predicate ValidRun(s: State, steps: seq<Step>, nBatchSize: nat)
    decreases |steps|
  {
    steps == [] || (Enabled(s, steps[0]) && ValidRun(Apply(s, steps[0], nBatchSize), steps[1..], nBatchSize))
  }

  function After(s: State, steps: seq<Step>, nBatchSize: nat): State
    requires ValidRun(s, steps, nBatchSize)
    decreases |steps|
  {
    if steps == [] then s else After(Apply(s, steps[0], nBatchSize), steps[1..], nBatchSize)
  }

  lemma {:induction false} RunInv(s: State, steps: seq<Step>, nBatchSize: nat)
    requires Inv(s) && ValidRun(s, steps, nBatchSize)
    ensures Inv(After(s, steps, nBatchSize))
    decreases |steps|
  {
    if steps != [] {
      StepInv(s, steps[0], nBatchSize);
      RunInv(Apply(s, steps[0], nBatchSize), steps[1..], nBatchSize);
    }
  }

  /** In every state of every interleaving the counters are exact and the checks are conserved. */
  lemma ReachableInv(workers: nat, steps: seq<Step>, nBatchSize: nat)
    requires ValidRun(Initial(workers), steps, nBatchSize)
    ensures var s := After(Initial(workers), steps, nBatchSize);
      Counts(s) && Conserved(s) && ThreadsOk(s) && s.nTodo >= 0 && s.nTotal >= s.nIdle >= 0
  {
    InitialInv(workers);
    RunInv(Initial(workers), steps, nBatchSize);
    IdleAreInside(After(Initial(workers), steps, nBatchSize).threads);
  }

  lemma {:induction false} IdleAreInside(threads: seq<Thread>)
    ensures Idle(threads) <= Inside(threads)
  {
    if threads != [] { IdleAreInside(threads[1..]); }
  }

  /** All the checks of a run, in the order Add received them. */
  function AddedBy(steps: seq<Step>): seq<Check> {
    if steps == [] then []
    else (if steps[0].Add? then steps[0].checks else []) + AddedBy(steps[1..])
  }

  function Answered(answers: seq<Answer>): seq<Check> {
    if answers == [] then [] else Answered(answers[..|answers| - 1]) + answers[|answers| - 1].added
  }

  function Received(s: State): seq<Check> {
    Answered(s.answers) + s.added
  }

  lemma StepHistory(s: State, step: Step, nBatchSize: nat)
    requires Enabled(s, step)
    ensures Received(Apply(s, step, nBatchSize)) == Received(s) + AddedBy([step])
  {
    var s1 := Apply(s, step, nBatchSize);
    assert AddedBy([step]) == if step.Add? then step.checks else [];
    if s1.answers != s.answers {
      assert s1.answers[..|s1.answers| - 1] == s.answers;
    }
  }

  lemma {:induction false} RunHistory(s: State, steps: seq<Step>, nBatchSize: nat)
    requires ValidRun(s, steps, nBatchSize)
    ensures Received(After(s, steps, nBatchSize)) == Received(s) + AddedBy(steps)
    decreases |steps|
  {
    if steps != [] {
      StepHistory(s, steps[0], nBatchSize);
      RunHistory(Apply(s, steps[0], nBatchSize), steps[1..], nBatchSize);
    }
  }

  /** Wait returns true exactly when every check added since the previous Wait would succeed:
      the rounds are consecutive pieces of everything ever added, and each answer is right for its piece. */
  lemma WaitAnswers(workers: nat, steps: seq<Step>, nBatchSize: nat)
    requires ValidRun(Initial(workers), steps, nBatchSize)
    ensures var s := After(Initial(workers), steps, nBatchSize);
      && (forall i :: 0 <= i < |s.answers| ==>
           (s.answers[i].value <==> forall c :: c in s.answers[i].added ==> c.succeeds))
      && Answered(s.answers) + s.added == AddedBy(steps)
  {
    InitialInv(workers);
    RunInv(Initial(workers), steps, nBatchSize);
    RunHistory(Initial(workers), steps, nBatchSize);
    var s := After(Initial(workers), steps, nBatchSize);
    forall i | 0 <= i < |s.answers|
      ensures s.answers[i].value <==> forall c :: c in s.answers[i].added ==> c.succeeds
    {
      assert AnswerOk(s.answers[i]);
    }
  }

  /** No lost wakeup: while the master sleeps with no notification pending, nothing is queued and some
      worker is at work on a batch, so the notification is still to come. */
  lemma NoLostWakeup(workers: nat, steps: seq<Step>, nBatchSize: nat)
    requires ValidRun(Initial(workers), steps, nBatchSize)
    requires After(Initial(workers), steps, nBatchSize).threads != []
    requires After(Initial(workers), steps, nBatchSize).threads[MASTER] == Asleep(false)
    ensures var s := After(Initial(workers), steps, nBatchSize);
      s.queue == [] && exists t :: 1 <= t < |s.threads| && Batch(s.threads[t]) != []
  {
    InitialInv(workers);
    RunInv(Initial(workers), steps, nBatchSize);
    SleeperHasWorker(After(Initial(workers), steps, nBatchSize));
  }

  /** And it does come to that: the worker takes the only check, and then the master finds nothing to do. */
  lemma MasterMaySleep(workers: nat, c: Check, nBatchSize: nat)
    requires workers >= 1
    ensures var steps := [Add([c], 0), Enter(1), Enter(MASTER)];
      ValidRun(Initial(workers), steps, nBatchSize) && After(Initial(workers), steps, nBatchSize).threads != [] &&
      After(Initial(workers), steps, nBatchSize).threads[MASTER] == Asleep(false)
  {
    var steps := [Add([c], 0), Enter(1), Enter(MASTER)];
    var s0 := Initial(workers);
    assert !SomeWorkerSleeps(s0.threads);
    var s1 := Apply(s0, steps[0], nBatchSize);
    assert s1.queue == [c] && s1.threads == s0.threads;
    var s2 := Apply(s1, steps[1], nBatchSize);
    assert s2.queue == [] && s2.nTodo == 1 && s2.threads[MASTER].Outside?;
    assert steps[1..][0] == steps[1] && steps[1..][1..] == [steps[2]] && [steps[2]][1..] == [];
    assert ValidRun(s2, [steps[2]], nBatchSize);
    assert ValidRun(s1, steps[1..], nBatchSize);
    assert After(s2, [steps[2]], nBatchSize) == Apply(s2, steps[2], nBatchSize);
  }

  lemma SleeperHasWorker(s: State)
    requires Inv(s) && s.threads[MASTER] == Asleep(false)
    ensures s.queue == [] && exists t :: 1 <= t < |s.threads| && Batch(s.threads[t]) != []
  {
    SomeLoad(s.threads);
    var t :| 0 <= t < |s.threads| && Batch(s.threads[t]) != [];
    assert t != MASTER;
  }

  // ---------------------------------------------------------------- Wait always finishes

  /** Steps a thread still has in it before it must sleep or return. */
  function Weight(t: nat, th: Thread): nat {
    match th
    case Outside => if t == MASTER then 0 else 1
    case Asleep(notified) => if notified then 1 else 0
    case Holding(batch, _) => 3 * |batch|
    case Executed(batch, _) => 2 * |batch|
  }

  function Effort(threads: seq<Thread>): nat {
    if threads == [] then 0
    else Effort(threads[..|threads| - 1]) + Weight(|threads| - 1, threads[|threads| - 1])
  }

  function Measure(s: State): nat {
    4 * |s.queue| + Effort(s.threads)
  }

  lemma {:induction false} EffortReplace(threads: seq<Thread>, t: nat, th: Thread)
    requires t < |threads|
    ensures Effort(threads[t := th]) == Effort(threads) - Weight(t, threads[t]) + Weight(t, th)
  {
    var last := |threads| - 1;
    if t < last {
      assert threads[t := th][..last] == threads[..last][t := th];
      EffortReplace(threads[..last], t, th);
    } else {
      assert threads[t := th][..last] == threads[..last];
    }
  }

  predicate InWait(s: State) {
    |s.threads| > 0 && !s.threads[MASTER].Outside?
  }

  lemma SectionMeasure(s: State, t: nat, nBatchSize: nat)
    requires t < |s.threads|
    ensures Measure(Section(s, t, nBatchSize)) <= 4 * |s.queue| + Effort(s.threads) - Weight(t, s.threads[t])
  {
    EffortReplace(s.threads, t, Section(s, t, nBatchSize).threads[t]);
    assert Section(s, t, nBatchSize).threads == s.threads[t := Section(s, t, nBatchSize).threads[t]];
  }

  lemma CleanUpMeasure(s: State, t: nat, nBatchSize: nat)
    requires Inv(s) && Enabled(s, CleanUp(t))
    ensures Measure(Section(Retire(s, t), t, nBatchSize)) < Measure(s)
  {
    assert ThreadOk(s.fAllOk, s.threads[t]);
    var r := Retire(s, t);
    EffortReplace(s.threads, MASTER, Asleep(true));
    assert Effort(r.threads) <= Effort(s.threads) + 1;
    SectionMeasure(r, t, nBatchSize);
  }

  lemma StepMeasure(s: State, step: Step, nBatchSize: nat)
    requires Inv(s) && InWait(s) && Enabled(s, step)
    ensures Measure(Apply(s, step, nBatchSize)) <= Measure(s) - if Spurious(s, step) then 0 else 1
  {
    match step
    case Add(_, _) =>
    case Enter(t) => SectionMeasure(s.(nTotal := s.nTotal + 1), t, nBatchSize);
    case Wake(t) => SectionMeasure(s.(nIdle := s.nIdle - 1), t, nBatchSize);
    case Execute(t) =>
      assert ThreadOk(s.fAllOk, s.threads[t]);
      EffortReplace(s.threads, t, Apply(s, step, nBatchSize).threads[t]);
    case CleanUp(t) =>
      CleanUpMeasure(s, t, nBatchSize);
  }

  /** As long as the master is in Wait some thread can move without a spurious wakeup: no deadlock. */
  lemma WaitNeverStuck(s: State)
    requires Inv(s) && InWait(s)
    ensures exists step :: Enabled(s, step) && !step.Add? && !Spurious(s, step)
  {
    if s.threads[MASTER] == Asleep(false) {
      SleeperHasWorker(s);
      var t :| 1 <= t < |s.threads| && Batch(s.threads[t]) != [];
      assert Enabled(s, Execute(t)) || Enabled(s, CleanUp(t));
    } else {
      assert Enabled(s, Wake(MASTER)) || Enabled(s, Execute(MASTER)) || Enabled(s, CleanUp(MASTER));
    }
  }

  /** The master stays in Wait throughout the run. */
  predicate WaitsThroughout(s: State, steps: seq<Step>, nBatchSize: nat)
    requires ValidRun(s, steps, nBatchSize)
    decreases |steps|
  {
    steps == [] || (InWait(s) && WaitsThroughout(Apply(s, steps[0], nBatchSize), steps[1..], nBatchSize))
  }

  /** The steps of a run that are not spurious wakeups. */
  function Moves(s: State, steps: seq<Step>, nBatchSize: nat): nat
    requires ValidRun(s, steps, nBatchSize)
    decreases |steps|
  {
    if steps == [] then 0
    else (if Spurious(s, steps[0]) then 0 else 1) + Moves(Apply(s, steps[0], nBatchSize), steps[1..], nBatchSize)
  }

  /** Wait finishes under every schedule: however the threads interleave, and however many spurious
      wakeups happen in between, only Measure(s) real steps are possible before Wait has returned. */
  lemma {:induction false} WaitFinishes(s: State, steps: seq<Step>, nBatchSize: nat)
    requires Inv(s) && ValidRun(s, steps, nBatchSize) && WaitsThroughout(s, steps, nBatchSize)
    ensures Moves(s, steps, nBatchSize) <= Measure(s)
    decreases |steps|
  {
    if steps != [] {
      StepMeasure(s, steps[0], nBatchSize);
      StepInv(s, steps[0], nBatchSize);
      WaitFinishes(Apply(s, steps[0], nBatchSize), steps[1..], nBatchSize);
    }
  }
}
