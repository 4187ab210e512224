/**
 InstantSend transaction locks on a node that does not vote itself: lock requests and
 lock votes arrive, votes that come before their request wait as orphans, and a
 candidate whose every input has collected enough votes locks its inputs.

 `State` and the functions on it say what each message does; the class in InstantSendNode.dfy holds
 the maps, works through them in loops, and is proved to do exactly that.
 */
module InstantSend {
  import opened Sets

  type TxHash = nat
  type OutPoint = nat
  type Tnode = nat

  datatype Option<T> = None | Some(value: T)

  datatype Tx = Tx(hash: TxHash, vin: seq<OutPoint>)

  /** `hash` identifies the vote itself, the key of the orphan map. */
  datatype Vote = Vote(hash: nat, txHash: TxHash, outpoint: OutPoint, tnode: Tnode)

  datatype OutPointLock = OutPointLock(votes: map<Tnode, Vote>, attacked: bool)

  /** A candidate created by an early vote has no request yet. */
  datatype Candidate = Candidate(request: Option<Tx>, locks: map<OutPoint, OutPointLock>)

  datatype State = State(
    candidates: map<TxHash, Candidate>,
    voted: map<OutPoint, set<TxHash>>,
    locked: map<OutPoint, TxHash>,
    orphans: map<nat, Vote>
  )

  /** What a handler reads from the clock, the sporks, the mempool and the chain: the votes whose
      candidate has timed out when they are counted, whether locks are being enforced, who spends an
      outpoint in the mempool, which transactions are mined, which outpoints are unspent, whether this kind
      of InstantSend is enabled, and whether expired candidates are cleaned out now. */
  datatype Env = Env(
    tooLate: set<nat>,
    filtering: bool,
    spending: map<OutPoint, TxHash>,
    mined: set<TxHash>,
    unspent: set<OutPoint>,
    enabled: bool,
    cleaning: bool
  )

  datatype Event =
    | Request(tx: Tx, valid: bool, timedOut: bool, env: Env)
    | NewVote(vote: Vote, valid: bool, env: Env)

  // ---------------------------------------------------------------- locks and candidates

  predicate IsReady(l: OutPointLock, required: int) {
    !l.attacked && |l.votes| >= required
  }

  predicate AllOutPointsReady(c: Candidate, required: int) {
    c.locks != map[] && forall o :: o in c.locks ==> IsReady(c.locks[o], required)
  }

  predicate HasVoted(c: Candidate, o: OutPoint, m: Tnode) {
    o in c.locks && m in c.locks[o].votes
  }

  function Mark(c: Candidate, o: OutPoint): Candidate {
    if o in c.locks then c.(locks := c.locks[o := c.locks[o].(attacked := true)]) else c
  }

  /** The vote is new to the candidate and for one of its outpoints. */
  predicate Accepts(c: Candidate, v: Vote) {
    v.outpoint in c.locks && v.tnode !in c.locks[v.outpoint].votes
  }

  function WithVote(c: Candidate, v: Vote): Candidate {
    if Accepts(c, v) then
      var l := c.locks[v.outpoint];
      c.(locks := c.locks[v.outpoint := l.(votes := l.votes[v.tnode := v])])
    else c
  }

  function Inputs(tx: Tx): set<OutPoint> {
    set i | 0 <= i < |tx.vin| :: tx.vin[i]
  }

  function FreshLocks(tx: Tx): map<OutPoint, OutPointLock> {
    map o | o in Inputs(tx) :: OutPointLock(map[], false)
  }

  // ---------------------------------------------------------------- counting a vote

  /** The other candidates for which the same tnode has already voted on this outpoint. */
  function DoubleVoted(s: State, v: Vote): set<TxHash> {
    if v.outpoint in s.voted then
      set h | h in s.voted[v.outpoint] && h != v.txHash && h in s.candidates &&
              HasVoted(s.candidates[h], v.outpoint, v.tnode)
    else {}
  }

  function UpdateVoted(s: State, v: Vote): State {
    var bad := DoubleVoted(s, v);
    var before := if v.outpoint in s.voted then s.voted[v.outpoint] else {};
    s.(candidates := map h | h in s.candidates ::
                       if h in bad || (bad != {} && h == v.txHash) then Mark(s.candidates[h], v.outpoint)
                       else s.candidates[h],
       voted := s.voted[v.outpoint := before + {v.txHash}])
  }

  function CountVote(s: State, v: Vote): State
    requires v.txHash in s.candidates
  {
    var s1 := UpdateVoted(s, v);
    s1.(candidates := s1.candidates[v.txHash := WithVote(s1.candidates[v.txHash], v)])
  }

  predicate Requested(s: State, h: TxHash) {
    h in s.candidates && s.candidates[h].request.Some?
  }

  /** AddVote's answer; marking a candidate as attacked does not change it. */
  predicate Counted(s: State, v: Vote)
    requires v.txHash in s.candidates
  {
    Accepts(s.candidates[v.txHash], v)
  }

  // ---------------------------------------------------------------- finalizing

  predicate FullyLocked(s: State, h: TxHash) {
    && h in s.candidates
    && s.candidates[h].locks != map[]
    && forall o :: o in s.candidates[h].locks ==> o in s.locked && s.locked[o] == h
  }

  datatype Resolution = Go | Refuse | DropBoth(other: TxHash)

  /** The scan over the inputs for a completed lock or a mempool transaction in the way. */
  function Scan(s: State, h: TxHash, vin: seq<OutPoint>, env: Env): Resolution {
    if vin == [] then Go
    else if vin[0] in s.locked && s.locked[vin[0]] != h then
      if s.locked[vin[0]] in s.candidates then DropBoth(s.locked[vin[0]]) else Refuse
    else if vin[0] in env.spending && env.spending[vin[0]] != h then Refuse
    else Scan(s, h, vin[1..], env)
  }

  function Resolve(s: State, h: TxHash, env: Env): Resolution
    requires Requested(s, h)
  {
    var tx := s.candidates[h].request.value;
    var r := Scan(s, h, tx.vin, env);
    if r.Go? && h !in env.mined && exists i :: 0 <= i < |tx.vin| && tx.vin[i] !in env.unspent then Refuse else r
  }

  /** Both candidates are expired and cleaned out, with everything recorded for their outpoints. */
  function Drop(s: State, h: TxHash, other: TxHash): State
    requires h in s.candidates && other in s.candidates
  {
    var outpoints := s.candidates[h].locks.Keys + s.candidates[other].locks.Keys;
    s.(candidates := s.candidates - {h, other},
       locked := s.locked - outpoints,
       voted := s.voted - outpoints)
  }

  /** An outpoint that is locked already keeps its lock. */
  function LockInputs(s: State, h: TxHash): State
    requires h in s.candidates
  {
    s.(locked := (map o | o in s.candidates[h].locks :: h) + s.locked)
  }

  function Finalize(s: State, h: TxHash, env: Env, required: int): State
    requires Requested(s, h)
  {
    if env.enabled && AllOutPointsReady(s.candidates[h], required) && !(env.filtering && FullyLocked(s, h)) then
      match Resolve(s, h, env)
      case Go => LockInputs(s, h)
      case Refuse => s
      case DropBoth(other) => if other in s.candidates && env.cleaning then Drop(s, h, other) else s
    else s
  }

  // ---------------------------------------------------------------- the handlers

  function Create(s: State, tx: Tx, timedOut: bool): State {
    if tx.hash !in s.candidates then
      s.(candidates := s.candidates[tx.hash := Candidate(Some(tx), FreshLocks(tx))])
    else
      var c := s.candidates[tx.hash];
      if c.request.None? then
        var locks := if timedOut then c.locks else FreshLocks(tx) + c.locks;
        s.(candidates := s.candidates[tx.hash := Candidate(Some(tx), locks)])
      else s
  }

  /** A request for an early-voted candidate that has timed out is remembered but not pursued. */
  predicate Created(s: State, tx: Tx, timedOut: bool) {
    !(tx.hash in s.candidates && s.candidates[tx.hash].request.None? && timedOut)
  }

  function ReplayOne(s: State, k: nat, env: Env): State {
    if k in s.orphans && Requested(s, s.orphans[k].txHash) && k !in env.tooLate then
      var v := s.orphans[k];
      var s1 := CountVote(s, v);
      if Counted(s, v) then s1.(orphans := s1.orphans - {k}) else s1
    else s
  }

  /** The orphan votes in the order of the map. */
  function Replay(s: State, keys: set<nat>, env: Env): State
    decreases |keys|
  {
    if keys == {} then s
    else
      var k := Least(keys);
      Replay(ReplayOne(s, k, env), keys - {k}, env)
  }

  function RequestStep(s: State, tx: Tx, timedOut: bool, env: Env, required: int): State {
    var s1 := Create(s, tx, timedOut);
    if Created(s, tx, timedOut) then
      var s2 := Replay(s1, s1.orphans.Keys, env);
      if Requested(s2, tx.hash) then Finalize(s2, tx.hash, env, required) else s2
    else s1
  }

  function VoteStep(s: State, v: Vote, env: Env, required: int): State {
    if !Requested(s, v.txHash) then
      var s1 := if v.txHash in s.candidates then s
                else s.(candidates := s.candidates[v.txHash := Candidate(None, map[])]);
      if v.hash in s1.orphans then s1 else s1.(orphans := s1.orphans[v.hash := v])
    else if v.hash in env.tooLate then s
    else if Counted(s, v) then Finalize(CountVote(s, v), v.txHash, env, required)
    else CountVote(s, v)
  }

  function Step(s: State, e: Event, required: int): State {
    match e
    case Request(tx, valid, timedOut, env) => if valid then RequestStep(s, tx, timedOut, env, required) else s
    case NewVote(v, valid, env) => if valid then VoteStep(s, v, env, required) else s
  }

  /** A candidate that a handler tries to finalize, and the state in which it does so. */
  datatype Try = Try(state: State, hash: TxHash)

  /** What the next message tries to finalize, in the middle of being handled. */
  function Tried(s: State, e: Event): Option<Try> {
    match e
    case Request(tx, valid, timedOut, env) =>
      if valid && Created(s, tx, timedOut) then
        var s1 := Create(s, tx, timedOut);
        Some(Try(Replay(s1, s1.orphans.Keys, env), tx.hash))
      else None
    case NewVote(v, valid, env) =>
      if valid && Requested(s, v.txHash) && v.hash !in env.tooLate && Counted(s, v) then
        Some(Try(CountVote(s, v), v.txHash))
      else None
  }

  const Empty: State := State(map[], map[], map[], map[])

  function Run(s: State, events: seq<Event>, required: int): State
    decreases |events|
  {
    if events == [] then s else Run(Step(s, events[0], required), events[1..], required)
  }
}
