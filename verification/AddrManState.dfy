/**
 The address manager's tables as values: what its consistency check demands of them, and what each of the
 primitive changes (create, refer, unrefer, try, delete, swap) keeps of it.  The manager itself is in AddrMan.dfy.
 */
module AddrManState {

  const NEW_BUCKET_COUNT: nat := 1024
  const TRIED_BUCKET_COUNT: nat := 256
  const BUCKET_SIZE: nat := 64
  const NEW_BUCKETS_PER_ADDRESS: nat := 8

  type NetAddr = nat
  type Slot = (nat, nat)

  datatype Service = Service(ip: NetAddr, port: nat)

  datatype Info = Info(
    addr: Service, source: NetAddr, nTime: int, nServices: set<nat>, nLastSuccess: int, nAttempts: int,
    nLastTry: int, nLastCountAttempt: int,
    nRefCount: int, fInTried: bool, nRandomPos: int)

  /** The keyed hashes that place an address, for one fixed key. */
  datatype Buckets = Buckets(tried: Service -> nat, newer: (Service, NetAddr) -> nat, pos: (bool, nat, Service) -> nat)

  function TriedSlot(bk: Buckets, a: Service): Slot {
    var b := bk.tried(a) % TRIED_BUCKET_COUNT;
    (b, bk.pos(false, b, a) % BUCKET_SIZE)
  }

  /** The one position an address can have in a given "new" bucket. */
  function NewPosition(bk: Buckets, b: nat, a: Service): nat {
    bk.pos(true, b, a) % BUCKET_SIZE
  }

  function NewSlot(bk: Buckets, a: Service, source: NetAddr): Slot {
    var b := bk.newer(a, source) % NEW_BUCKET_COUNT;
    (b, NewPosition(bk, b, a))
  }

  ghost predicate Congruent(x: nat, r: nat, n: nat) {
    r < n && exists k: nat :: x == n * k + r
  }

  /** Where the hashes put an address: into one of 256 "tried" buckets, or one of 1024 "new" ones which depends on the
      source too, and there at one of 64 positions which depends on the table and the bucket. */
  lemma SlotsExactly(bk: Buckets, a: Service, source: NetAddr)
    ensures var slot := TriedSlot(bk, a);
      Congruent(bk.tried(a), slot.0, 256) && Congruent(bk.pos(false, slot.0, a), slot.1, 64)
    ensures var slot := NewSlot(bk, a, source);
      Congruent(bk.newer(a, source), slot.0, 1024) && Congruent(bk.pos(true, slot.0, a), slot.1, 64)
  {
    assert bk.tried(a) == 256 * (bk.tried(a) / 256) + TriedSlot(bk, a).0;
    assert bk.newer(a, source) == 1024 * (bk.newer(a, source) / 1024) + NewSlot(bk, a, source).0;
    var t, n := bk.pos(false, TriedSlot(bk, a).0, a), bk.pos(true, NewSlot(bk, a, source).0, a);
    assert t == 64 * (t / 64) + TriedSlot(bk, a).1;
    assert n == 64 * (n / 64) + NewSlot(bk, a, source).1;
  }

  /** `newTab` and `triedTab` hold the occupied places of vvNew and vvTried. */
  datatype State = State(
    nIdCount: int,
    mapInfo: map<int, Info>,
    mapAddr: map<NetAddr, int>,
    vRandom: seq<int>,
    nTried: int,
    nNew: int,
    newTab: map<Slot, int>,
    triedTab: map<Slot, int>)

  const Nothing: State := State(0, map[], map[], [], 0, 0, map[], map[])

  // ---------------------------------------------------------------- consistency

  function Refs(newTab: map<Slot, int>, id: int): set<Slot> {
    set slot | slot in newTab && newTab[slot] == id
  }

  function TriedIds(m: map<int, Info>): set<int> {
    set id | id in m && m[id].fInTried
  }

  /** mapInfo and mapAddr are inverse to each other, and ids are handed out once. */
  predicate IdsOk(s: State) {
    && 0 <= s.nIdCount
    && (forall id :: id in s.mapInfo ==>
         0 <= id < s.nIdCount && s.mapInfo[id].addr.ip in s.mapAddr && s.mapAddr[s.mapInfo[id].addr.ip] == id)
    && (forall a :: a in s.mapAddr ==> s.mapAddr[a] in s.mapInfo && s.mapInfo[s.mapAddr[a]].addr.ip == a)
  }

  /** vRandom lists each id once, and every entry knows where. */
  predicate RandomOk(s: State) {
    && |s.vRandom| == |s.mapInfo|
    && (forall id :: id in s.mapInfo ==>
         0 <= s.mapInfo[id].nRandomPos < |s.vRandom| && s.vRandom[s.mapInfo[id].nRandomPos] == id)
    && (forall i :: 0 <= i < |s.vRandom| ==> s.vRandom[i] in s.mapInfo && s.mapInfo[s.vRandom[i]].nRandomPos == i)
  }

  predicate NewSlotOk(bk: Buckets, m: map<int, Info>, slot: Slot, id: int) {
    && slot.0 < NEW_BUCKET_COUNT
    && id in m && !m[id].fInTried
    && slot.1 == NewPosition(bk, slot.0, m[id].addr)
  }

  predicate NewOk(bk: Buckets, m: map<int, Info>, newTab: map<Slot, int>) {
    && (forall slot :: slot in newTab ==> NewSlotOk(bk, m, slot, newTab[slot]))
    && (forall id :: id in m ==> m[id].nRefCount == |Refs(newTab, id)|)
  }

  predicate TriedSlotOk(bk: Buckets, m: map<int, Info>, slot: Slot, id: int) {
    id in m && m[id].fInTried && slot == TriedSlot(bk, m[id].addr)
  }

  predicate InTriedTable(bk: Buckets, a: Service, triedTab: map<Slot, int>, id: int) {
    TriedSlot(bk, a) in triedTab && triedTab[TriedSlot(bk, a)] == id
  }

  predicate TriedOk(bk: Buckets, m: map<int, Info>, triedTab: map<Slot, int>) {
    && (forall slot :: slot in triedTab ==> TriedSlotOk(bk, m, slot, triedTab[slot]))
    && (forall id :: id in m && m[id].fInTried ==> InTriedTable(bk, m[id].addr, triedTab, id))
  }

  /** Entries are tried, or referred to from one to eight places, or in limbo: neither, for the moment. */
  predicate StatusOk(m: map<int, Info>, limbo: set<int>) {
    && limbo <= m.Keys
    && (forall id :: id in limbo ==> !m[id].fInTried && m[id].nRefCount == 0)
    && (forall id :: id in m && !m[id].fInTried && id !in limbo ==> 1 <= m[id].nRefCount <= NEW_BUCKETS_PER_ADDRESS)
  }

  /** The counters; `k` is how many of the entries that are not tried nNew leaves out at the moment. */
  predicate CountsOk(s: State, k: int) {
    s.nTried == |TriedIds(s.mapInfo)| && s.nNew + s.nTried + k == |s.mapInfo|
  }

  predicate WF(bk: Buckets, s: State, limbo: set<int>, k: int) {
    && IdsOk(s) && RandomOk(s)
    && NewOk(bk, s.mapInfo, s.newTab) && TriedOk(bk, s.mapInfo, s.triedTab)
    && StatusOk(s.mapInfo, limbo) && CountsOk(s, k)
  }

  /** The structural part of what Check_ checks: all but the time stamps and the key. */
  predicate Consistent(bk: Buckets, s: State) {
    WF(bk, s, {}, 0)
  }

  // ---------------------------------------------------------------- what leaves which part alone

  predicate SameAddr(m: map<int, Info>, m': map<int, Info>) {
    m.Keys == m'.Keys && forall id :: id in m ==> m'[id].addr == m[id].addr
  }

  predicate SamePos(m: map<int, Info>, m': map<int, Info>) {
    m.Keys == m'.Keys && forall id :: id in m ==> m'[id].nRandomPos == m[id].nRandomPos
  }

  predicate SameTried(m: map<int, Info>, m': map<int, Info>) {
    m.Keys == m'.Keys && forall id :: id in m ==> m'[id].fInTried == m[id].fInTried
  }

  predicate SameRef(m: map<int, Info>, m': map<int, Info>) {
    m.Keys == m'.Keys && forall id :: id in m ==> m'[id].nRefCount == m[id].nRefCount
  }

  lemma IdsFrame(s: State, s': State)
    requires IdsOk(s) && SameAddr(s.mapInfo, s'.mapInfo) && s'.mapAddr == s.mapAddr && s'.nIdCount == s.nIdCount
    ensures IdsOk(s')
  {
  }

  lemma SizeFrame<K, V>(m: map<K, V>, m': map<K, V>)
    requires m.Keys == m'.Keys
    ensures |m| == |m'|
  {
    assert |m.Keys| == |m| && |m'.Keys| == |m'|;
  }

  lemma RandomFrame(s: State, s': State)
    requires RandomOk(s) && SamePos(s.mapInfo, s'.mapInfo) && s'.vRandom == s.vRandom
    ensures RandomOk(s')
  {
    SizeFrame(s.mapInfo, s'.mapInfo);
  }

  lemma NewFrame(bk: Buckets, m: map<int, Info>, m': map<int, Info>, newTab: map<Slot, int>)
    requires NewOk(bk, m, newTab) && SameAddr(m, m') && SameTried(m, m') && SameRef(m, m')
    ensures NewOk(bk, m', newTab)
  {
    forall slot | slot in newTab ensures NewSlotOk(bk, m', slot, newTab[slot]) {
      assert NewSlotOk(bk, m, slot, newTab[slot]);
    }
  }

  lemma TriedFrame(bk: Buckets, m: map<int, Info>, m': map<int, Info>, triedTab: map<Slot, int>)
    requires TriedOk(bk, m, triedTab) && SameAddr(m, m') && SameTried(m, m')
    ensures TriedOk(bk, m', triedTab)
  {
    forall slot | slot in triedTab ensures TriedSlotOk(bk, m', slot, triedTab[slot]) {
      assert TriedSlotOk(bk, m, slot, triedTab[slot]);
    }
    forall id | id in m' && m'[id].fInTried ensures InTriedTable(bk, m'[id].addr, triedTab, id) {
      assert id in m && InTriedTable(bk, m[id].addr, triedTab, id);
    }
  }

  lemma StatusFrame(m: map<int, Info>, m': map<int, Info>, limbo: set<int>)
    requires StatusOk(m, limbo) && SameTried(m, m') && SameRef(m, m')
    ensures StatusOk(m', limbo)
  {
  }

  lemma CountsFrame(s: State, s': State, k: int)
    requires CountsOk(s, k) && SameTried(s.mapInfo, s'.mapInfo) && s'.nTried == s.nTried && s'.nNew == s.nNew
    ensures CountsOk(s', k)
  {
    forall id ensures id in TriedIds(s.mapInfo) <==> id in TriedIds(s'.mapInfo) {}
    assert TriedIds(s.mapInfo) == TriedIds(s'.mapInfo);
    SizeFrame(s.mapInfo, s'.mapInfo);
  }

  lemma MoreCounted(bk: Buckets, s: State, limbo: set<int>, k: int, d: int)
    requires WF(bk, s, limbo, k)
    ensures WF(bk, s.(nNew := s.nNew + d), limbo, k - d)
  {
    var s' := s.(nNew := s.nNew + d);
    assert CountsOk(s', k - d);
    hide NewOk, TriedOk, StatusOk;
    IdsFrame(s, s');
    RandomFrame(s, s');
  }

  // ---------------------------------------------------------------- touching an entry

  /** Changing only what Check_ does not look at. */
  predicate Touched(i: Info, j: Info) {
    i.addr == j.addr && i.nRefCount == j.nRefCount && i.fInTried == j.fInTried && i.nRandomPos == j.nRandomPos
  }

  lemma TouchOk(bk: Buckets, s: State, limbo: set<int>, k: int, id: int, j: Info)
    requires WF(bk, s, limbo, k) && id in s.mapInfo && Touched(s.mapInfo[id], j)
    ensures WF(bk, s.(mapInfo := s.mapInfo[id := j]), limbo, k)
  {
    var s' := s.(mapInfo := s.mapInfo[id := j]);
    var m, m' := s.mapInfo, s'.mapInfo;
    assert SameAddr(m, m') && SamePos(m, m') && SameTried(m, m') && SameRef(m, m');
    hide IdsOk, RandomOk, NewOk, TriedOk, StatusOk, CountsOk;
    IdsFrame(s, s');
    RandomFrame(s, s');
    NewFrame(bk, m, m', s.newTab);
    TriedFrame(bk, m, m', s.triedTab);
    StatusFrame(m, m', limbo);
    CountsFrame(s, s', k);
  }

  // ---------------------------------------------------------------- swapping two places of vRandom

  function Swap(s: State, i: nat, j: nat): State
    requires i < |s.vRandom| && j < |s.vRandom|
    requires s.vRandom[i] in s.mapInfo && s.vRandom[j] in s.mapInfo
  {
    var a, b := s.vRandom[i], s.vRandom[j];
    var m := s.mapInfo[a := s.mapInfo[a].(nRandomPos := j)];
    s.(mapInfo := m[b := m[b].(nRandomPos := i)], vRandom := s.vRandom[i := b][j := a])
  }

  lemma SwapOk(bk: Buckets, s: State, limbo: set<int>, k: int, i: nat, j: nat)
    requires WF(bk, s, limbo, k) && i < |s.vRandom| && j < |s.vRandom|
    ensures WF(bk, Swap(s, i, j), limbo, k)
  {
    var s' := Swap(s, i, j);
    var m, m' := s.mapInfo, s'.mapInfo;
    SwapRandomOk(s, i, j);
    assert SameAddr(m, m') && SameTried(m, m') && SameRef(m, m');
    hide IdsOk, RandomOk, NewOk, TriedOk, StatusOk, CountsOk;
    IdsFrame(s, s');
    NewFrame(bk, m, m', s.newTab);
    TriedFrame(bk, m, m', s.triedTab);
    StatusFrame(m, m', limbo);
    CountsFrame(s, s', k);
  }

  lemma SwapRandomOk(s: State, i: nat, j: nat)
    requires RandomOk(s) && i < |s.vRandom| && j < |s.vRandom|
    ensures RandomOk(Swap(s, i, j)) && SameAddr(s.mapInfo, Swap(s, i, j).mapInfo)
  {
    var s' := Swap(s, i, j);
    assert s'.mapInfo.Keys == s.mapInfo.Keys;
    SizeFrame(s.mapInfo, s'.mapInfo);
  }

  // ---------------------------------------------------------------- creating and removing an entry

  function Create(s: State, info: Info): State {
    s.(nIdCount := s.nIdCount + 1,
       mapInfo := s.mapInfo[s.nIdCount := info.(nRefCount := 0, fInTried := false, nRandomPos := |s.vRandom|)],
       mapAddr := s.mapAddr[info.addr.ip := s.nIdCount],
       vRandom := s.vRandom + [s.nIdCount])
  }

  lemma CreateOk(bk: Buckets, s: State, limbo: set<int>, k: int, info: Info)
    requires WF(bk, s, limbo, k) && info.addr.ip !in s.mapAddr
    ensures WF(bk, Create(s, info), limbo + {s.nIdCount}, k + 1)
  {
    var s' := Create(s, info);
    var id := s.nIdCount;
    var m, m' := s.mapInfo, s'.mapInfo;
    assert id !in m;
    AddedIds(s, s', id);
    AddedRandom(s, s', id);
    AddedNew(bk, m, m', id, s.newTab);
    AddedTried(bk, m, m', id, s.triedTab);
    AddedStatus(m, m', id, limbo);
    AddedCounts(s, s', id, k);
  }

  predicate Added(m: map<int, Info>, m': map<int, Info>, id: int) {
    id !in m && m'.Keys == m.Keys + {id} && (forall i :: i in m ==> m'[i] == m[i]) &&
    !m'[id].fInTried && m'[id].nRefCount == 0
  }

  lemma AddedIds(s: State, s': State, id: int)
    requires IdsOk(s) && Added(s.mapInfo, s'.mapInfo, id) && id == s.nIdCount && s'.nIdCount == id + 1
    requires var a := s'.mapInfo[id].addr.ip; a !in s.mapAddr && s'.mapAddr == s.mapAddr[a := id]
    ensures IdsOk(s')
  {
  }

  lemma AddedSize(m: map<int, Info>, m': map<int, Info>, id: int)
    requires Added(m, m', id)
    ensures |m'| == |m| + 1
  {
    assert |m.Keys| == |m| && |m'.Keys| == |m'|;
  }

  lemma AddedRandom(s: State, s': State, id: int)
    requires RandomOk(s) && Added(s.mapInfo, s'.mapInfo, id)
    requires s'.vRandom == s.vRandom + [id] && s'.mapInfo[id].nRandomPos == |s.vRandom|
    ensures RandomOk(s')
  {
    AddedSize(s.mapInfo, s'.mapInfo, id);
  }

  lemma AddedNew(bk: Buckets, m: map<int, Info>, m': map<int, Info>, id: int, newTab: map<Slot, int>)
    requires NewOk(bk, m, newTab) && Added(m, m', id)
    ensures NewOk(bk, m', newTab)
  {
    forall slot | slot in newTab ensures NewSlotOk(bk, m', slot, newTab[slot]) && newTab[slot] != id {
      assert NewSlotOk(bk, m, slot, newTab[slot]);
    }
    assert Refs(newTab, id) == {};
  }

  lemma AddedTried(bk: Buckets, m: map<int, Info>, m': map<int, Info>, id: int, triedTab: map<Slot, int>)
    requires TriedOk(bk, m, triedTab) && Added(m, m', id)
    ensures TriedOk(bk, m', triedTab)
  {
    forall slot | slot in triedTab ensures TriedSlotOk(bk, m', slot, triedTab[slot]) {
      assert TriedSlotOk(bk, m, slot, triedTab[slot]);
    }
    forall id | id in m' && m'[id].fInTried ensures InTriedTable(bk, m'[id].addr, triedTab, id) {
      assert id in m && InTriedTable(bk, m[id].addr, triedTab, id);
    }
  }

  lemma AddedStatus(m: map<int, Info>, m': map<int, Info>, id: int, limbo: set<int>)
    requires StatusOk(m, limbo) && Added(m, m', id)
    ensures StatusOk(m', limbo + {id})
  {
  }

  lemma AddedCounts(s: State, s': State, id: int, k: int)
    requires CountsOk(s, k) && Added(s.mapInfo, s'.mapInfo, id) && s'.nTried == s.nTried && s'.nNew == s.nNew
    ensures CountsOk(s', k + 1)
  {
    forall i ensures i in TriedIds(s.mapInfo) <==> i in TriedIds(s'.mapInfo) {}
    assert TriedIds(s.mapInfo) == TriedIds(s'.mapInfo);
    AddedSize(s.mapInfo, s'.mapInfo, id);
  }

  /** Drops the last place of vRandom and the entry it names. */
  function Pop(s: State, id: int): State
    requires s.vRandom != [] && id in s.mapInfo
  {
    s.(vRandom := s.vRandom[..|s.vRandom| - 1],
       mapAddr := s.mapAddr - {s.mapInfo[id].addr.ip},
       mapInfo := s.mapInfo - {id},
       nNew := s.nNew - 1)
  }

  /** Delete: the entry first changes places with the last one of vRandom. */
  function Remove(s: State, id: int): State
    requires id in s.mapInfo && 0 <= s.mapInfo[id].nRandomPos < |s.vRandom|
    requires s.vRandom[s.mapInfo[id].nRandomPos] in s.mapInfo && s.vRandom[|s.vRandom| - 1] in s.mapInfo
  {
    Pop(Swap(s, s.mapInfo[id].nRandomPos, |s.vRandom| - 1), id)
  }

  lemma PoppedRandom(s: State, id: int)
    requires RandomOk(s) && id in s.mapInfo && s.vRandom != [] && s.vRandom[|s.vRandom| - 1] == id
    ensures RandomOk(Pop(s, id))
  {
    var s' := Pop(s, id);
    assert s'.mapInfo.Keys == s.mapInfo.Keys - {id};
    assert |s.mapInfo.Keys| == |s.mapInfo| && |s'.mapInfo.Keys| == |s'.mapInfo|;
  }

  lemma PoppedIds(s: State, id: int)
    requires IdsOk(s) && id in s.mapInfo && s.vRandom != []
    ensures IdsOk(Pop(s, id))
  {
  }

  lemma Unreferenced(bk: Buckets, m: map<int, Info>, newTab: map<Slot, int>, id: int)
    requires NewOk(bk, m, newTab) && id in m && m[id].nRefCount == 0
    ensures forall slot :: slot in newTab ==> newTab[slot] != id
  {
    assert Refs(newTab, id) == {};
    forall slot | slot in newTab ensures newTab[slot] != id { assert slot !in Refs(newTab, id); }
  }

  lemma PoppedNew(bk: Buckets, m: map<int, Info>, newTab: map<Slot, int>, id: int)
    requires NewOk(bk, m, newTab) && id in m && m[id].nRefCount == 0
    ensures NewOk(bk, m - {id}, newTab)
  {
    Unreferenced(bk, m, newTab, id);
    forall slot | slot in newTab ensures NewSlotOk(bk, m - {id}, slot, newTab[slot]) {
      assert NewSlotOk(bk, m, slot, newTab[slot]);
    }
  }

  lemma PoppedTried(bk: Buckets, m: map<int, Info>, triedTab: map<Slot, int>, id: int)
    requires TriedOk(bk, m, triedTab) && id in m && !m[id].fInTried
    ensures TriedOk(bk, m - {id}, triedTab)
  {
    forall slot | slot in triedTab ensures TriedSlotOk(bk, m - {id}, slot, triedTab[slot]) {
      assert TriedSlotOk(bk, m, slot, triedTab[slot]);
    }
    forall i | i in m - {id} && (m - {id})[i].fInTried ensures InTriedTable(bk, (m - {id})[i].addr, triedTab, i) {
      assert InTriedTable(bk, m[i].addr, triedTab, i);
    }
  }

  lemma PoppedStatus(m: map<int, Info>, limbo: set<int>, id: int)
    requires StatusOk(m, limbo) && id in limbo
    ensures StatusOk(m - {id}, limbo - {id})
  {
  }

  lemma PoppedCounts(s: State, id: int, k: int)
    requires CountsOk(s, k) && id in s.mapInfo && !s.mapInfo[id].fInTried && s.vRandom != []
    ensures CountsOk(Pop(s, id), k)
  {
    var m, m' := s.mapInfo, Pop(s, id).mapInfo;
    forall i ensures i in TriedIds(m) <==> i in TriedIds(m') {}
    assert TriedIds(m) == TriedIds(m');
    assert m'.Keys == m.Keys - {id};
    assert |m.Keys| == |m| && |m'.Keys| == |m'|;
  }

  lemma PopOk(bk: Buckets, s: State, limbo: set<int>, k: int, id: int)
    requires WF(bk, s, limbo, k) && id in limbo && s.vRandom != [] && s.vRandom[|s.vRandom| - 1] == id
    ensures WF(bk, Pop(s, id), limbo - {id}, k)
  {
    assert !s.mapInfo[id].fInTried && s.mapInfo[id].nRefCount == 0;
    hide IdsOk, RandomOk, NewOk, TriedOk, CountsOk;
    PoppedIds(s, id);
    PoppedRandom(s, id);
    PoppedNew(bk, s.mapInfo, s.newTab, id);
    PoppedTried(bk, s.mapInfo, s.triedTab, id);
    PoppedStatus(s.mapInfo, limbo, id);
    PoppedCounts(s, id, k);
  }

  /** Delete is only ever called on an entry in limbo, and then its assertions hold. */
  lemma RemoveOk(bk: Buckets, s: State, limbo: set<int>, k: int, id: int)
    requires WF(bk, s, limbo, k) && id in limbo
    ensures 0 <= s.mapInfo[id].nRandomPos < |s.vRandom|
    ensures s.vRandom[s.mapInfo[id].nRandomPos] in s.mapInfo && s.vRandom[|s.vRandom| - 1] in s.mapInfo
    ensures WF(bk, Remove(s, id), limbo - {id}, k)
  {
    var i, j := s.mapInfo[id].nRandomPos, |s.vRandom| - 1;
    SwapOk(bk, s, limbo, k, i, j);
    var s1 := Swap(s, i, j);
    assert s1.vRandom[j] == id;
    hide WF;
    PopOk(bk, s1, limbo, k, id);
  }

  // ---------------------------------------------------------------- references from the "new" table

  function Unref(s: State, slot: Slot): State
    requires slot in s.newTab && s.newTab[slot] in s.mapInfo
  {
    var id := s.newTab[slot];
    s.(mapInfo := s.mapInfo[id := s.mapInfo[id].(nRefCount := s.mapInfo[id].nRefCount - 1)],
      newTab := s.newTab - {slot})
  }

  function Ref(s: State, slot: Slot, id: int): State
    requires id in s.mapInfo
  {
    s.(mapInfo := s.mapInfo[id := s.mapInfo[id].(nRefCount := s.mapInfo[id].nRefCount + 1)],
      newTab := s.newTab[slot := id])
  }

  /** Only the count of one entry and the "new" table differ. */
  predicate Recounted(s: State, s': State, id: int) {
    && id in s.mapInfo && id in s'.mapInfo
    && s' == s.(mapInfo := s'.mapInfo, newTab := s'.newTab)
    && s'.mapInfo == s.mapInfo[id := s.mapInfo[id].(nRefCount := s'.mapInfo[id].nRefCount)]
  }

  lemma RecountOk(bk: Buckets, s: State, s': State, limbo: set<int>, k: int, id: int, limbo': set<int>)
    requires WF(bk, s, limbo, k) && Recounted(s, s', id)
    requires NewOk(bk, s'.mapInfo, s'.newTab) && StatusOk(s'.mapInfo, limbo')
    ensures WF(bk, s', limbo', k)
  {
    var m, m' := s.mapInfo, s'.mapInfo;
    assert SameAddr(m, m') && SamePos(m, m') && SameTried(m, m');
    hide IdsOk, RandomOk, NewOk, TriedOk, StatusOk, CountsOk;
    IdsFrame(s, s');
    RandomFrame(s, s');
    TriedFrame(bk, m, m', s.triedTab);
    CountsFrame(s, s', k);
  }

  lemma UnrefNew(bk: Buckets, s: State, slot: Slot)
    requires NewOk(bk, s.mapInfo, s.newTab) && slot in s.newTab && s.newTab[slot] in s.mapInfo
    ensures NewOk(bk, Unref(s, slot).mapInfo, Unref(s, slot).newTab) && s.mapInfo[s.newTab[slot]].nRefCount >= 1
  {
    var s' := Unref(s, slot);
    var id := s.newTab[slot];
    forall p | p in s'.newTab ensures NewSlotOk(bk, s'.mapInfo, p, s'.newTab[p]) {
      assert NewSlotOk(bk, s.mapInfo, p, s.newTab[p]);
    }
    forall i | i in s'.mapInfo ensures s'.mapInfo[i].nRefCount == |Refs(s'.newTab, i)| {
      if i == id {
        assert slot in Refs(s.newTab, id);
        assert Refs(s'.newTab, id) == Refs(s.newTab, id) - {slot};
      } else {
        assert Refs(s'.newTab, i) == Refs(s.newTab, i);
      }
    }
    assert slot in Refs(s.newTab, id);
  }

  function AfterUnref(s: State, slot: Slot, limbo: set<int>): set<int>
    requires slot in s.newTab && s.newTab[slot] in s.mapInfo
  {
    if s.mapInfo[s.newTab[slot]].nRefCount == 1 then limbo + {s.newTab[slot]} else limbo
  }

  lemma UnrefOk(bk: Buckets, s: State, limbo: set<int>, k: int, slot: Slot)
    requires WF(bk, s, limbo, k) && slot in s.newTab
    ensures s.newTab[slot] in s.mapInfo && s.mapInfo[s.newTab[slot]].nRefCount >= 1 && s.newTab[slot] !in limbo
    ensures WF(bk, Unref(s, slot), AfterUnref(s, slot, limbo), k)
  {
    assert NewSlotOk(bk, s.mapInfo, slot, s.newTab[slot]);
    UnrefNew(bk, s, slot);
    UnrefStatus(bk, s, limbo, slot);
    hide WF;
    RecountOk(bk, s, Unref(s, slot), limbo, k, s.newTab[slot], AfterUnref(s, slot, limbo));
  }

  lemma UnrefStatus(bk: Buckets, s: State, limbo: set<int>, slot: Slot)
    requires StatusOk(s.mapInfo, limbo) && slot in s.newTab && NewSlotOk(bk, s.mapInfo, slot, s.newTab[slot])
    requires s.mapInfo[s.newTab[slot]].nRefCount >= 1
    ensures StatusOk(Unref(s, slot).mapInfo, AfterUnref(s, slot, limbo))
  {
  }

  lemma RefNew(bk: Buckets, s: State, slot: Slot, id: int)
    requires NewOk(bk, s.mapInfo, s.newTab) && slot !in s.newTab && NewSlotOk(bk, s.mapInfo, slot, id)
    ensures NewOk(bk, Ref(s, slot, id).mapInfo, Ref(s, slot, id).newTab)
  {
    var s' := Ref(s, slot, id);
    forall p | p in s'.newTab ensures NewSlotOk(bk, s'.mapInfo, p, s'.newTab[p]) {
      if p != slot { assert NewSlotOk(bk, s.mapInfo, p, s.newTab[p]); }
    }
    forall i | i in s'.mapInfo ensures s'.mapInfo[i].nRefCount == |Refs(s'.newTab, i)| {
      if i == id {
        assert slot !in Refs(s.newTab, id);
        assert Refs(s'.newTab, id) == Refs(s.newTab, id) + {slot};
      } else {
        assert Refs(s'.newTab, i) == Refs(s.newTab, i);
      }
    }
  }

  lemma RefOk(bk: Buckets, s: State, limbo: set<int>, k: int, slot: Slot, id: int)
    requires WF(bk, s, limbo, k) && slot !in s.newTab && NewSlotOk(bk, s.mapInfo, slot, id)
    requires s.mapInfo[id].nRefCount < NEW_BUCKETS_PER_ADDRESS
    ensures WF(bk, Ref(s, slot, id), limbo - {id}, k)
  {
    RefNew(bk, s, slot, id);
    RefStatus(s, limbo, slot, id);
    assert Recounted(s, Ref(s, slot, id), id);
    hide WF;
    RecountOk(bk, s, Ref(s, slot, id), limbo, k, id, limbo - {id});
  }

  lemma RefStatus(s: State, limbo: set<int>, slot: Slot, id: int)
    requires StatusOk(s.mapInfo, limbo) && id in s.mapInfo && !s.mapInfo[id].fInTried
    requires s.mapInfo[id].nRefCount < NEW_BUCKETS_PER_ADDRESS
    ensures StatusOk(Ref(s, slot, id).mapInfo, limbo - {id})
  {
  }

  // ---------------------------------------------------------------- the "tried" table

  function Untry(s: State, slot: Slot): State
    requires slot in s.triedTab && s.triedTab[slot] in s.mapInfo
  {
    var id := s.triedTab[slot];
    s.(mapInfo := s.mapInfo[id := s.mapInfo[id].(fInTried := false)], triedTab := s.triedTab - {slot},
      nTried := s.nTried - 1)
  }

  function Try(s: State, slot: Slot, id: int): State
    requires id in s.mapInfo
  {
    s.(mapInfo := s.mapInfo[id := s.mapInfo[id].(fInTried := true)], triedTab := s.triedTab[slot := id],
      nTried := s.nTried + 1)
  }

  lemma UntryTables(bk: Buckets, s: State, slot: Slot)
    requires slot in s.triedTab && NewOk(bk, s.mapInfo, s.newTab) && TriedOk(bk, s.mapInfo, s.triedTab)
    ensures s.triedTab[slot] in s.mapInfo && s.mapInfo[s.triedTab[slot]].fInTried &&
      s.mapInfo[s.triedTab[slot]].nRefCount == 0
    ensures NewOk(bk, Untry(s, slot).mapInfo, s.newTab) && TriedOk(bk, Untry(s, slot).mapInfo, Untry(s, slot).triedTab)
  {
    assert TriedSlotOk(bk, s.mapInfo, slot, s.triedTab[slot]);
    var id, s' := s.triedTab[slot], Untry(s, slot);
    forall p | p in s.newTab ensures s.newTab[p] != id && NewSlotOk(bk, s'.mapInfo, p, s.newTab[p]) {
      assert NewSlotOk(bk, s.mapInfo, p, s.newTab[p]);
    }
    assert Refs(s.newTab, id) == {};
    forall p | p in s'.triedTab ensures TriedSlotOk(bk, s'.mapInfo, p, s'.triedTab[p]) {
      assert TriedSlotOk(bk, s.mapInfo, p, s.triedTab[p]);
    }
    forall i | i in s'.mapInfo && s'.mapInfo[i].fInTried ensures InTriedTable(bk, s'.mapInfo[i].addr, s'.triedTab, i) {
      assert InTriedTable(bk, s.mapInfo[i].addr, s.triedTab, i);
    }
  }

  lemma TriedCount(m: map<int, Info>, m': map<int, Info>, id: int)
    requires id in m && m'.Keys == m.Keys && m[id].fInTried && !m'[id].fInTried
    requires forall i :: i in m && i != id ==> m'[i].fInTried == m[i].fInTried
    ensures |TriedIds(m)| == |TriedIds(m')| + 1 && |m| == |m'|
  {
    forall i ensures i in TriedIds(m) <==> i in TriedIds(m') + {id} {}
    assert TriedIds(m) == TriedIds(m') + {id};
    SizeFrame(m, m');
  }

  lemma UntryOk(bk: Buckets, s: State, limbo: set<int>, k: int, slot: Slot)
    requires WF(bk, s, limbo, k) && slot in s.triedTab
    ensures s.triedTab[slot] in s.mapInfo && s.triedTab[slot] !in limbo
    ensures WF(bk, Untry(s, slot), limbo + {s.triedTab[slot]}, k + 1)
  {
    hide IdsOk, RandomOk, NewOk, TriedOk, StatusOk, CountsOk;
    UntryTables(bk, s, slot);
    UntryStatus(s, limbo, k, slot);
    var s' := Untry(s, slot);
    var m, m' := s.mapInfo, s'.mapInfo;
    assert SameAddr(m, m') && SamePos(m, m');
    IdsFrame(s, s');
    RandomFrame(s, s');
  }

  lemma UntryStatus(s: State, limbo: set<int>, k: int, slot: Slot)
    requires StatusOk(s.mapInfo, limbo) && CountsOk(s, k) && slot in s.triedTab && s.triedTab[slot] in s.mapInfo
    requires s.mapInfo[s.triedTab[slot]].fInTried && s.mapInfo[s.triedTab[slot]].nRefCount == 0
    ensures s.triedTab[slot] !in limbo && StatusOk(Untry(s, slot).mapInfo, limbo + {s.triedTab[slot]}) &&
      CountsOk(Untry(s, slot), k + 1)
  {
    TriedCount(s.mapInfo, Untry(s, slot).mapInfo, s.triedTab[slot]);
  }

  lemma TryTables(bk: Buckets, s: State, id: int)
    requires NewOk(bk, s.mapInfo, s.newTab) && TriedOk(bk, s.mapInfo, s.triedTab)
    requires id in s.mapInfo && !s.mapInfo[id].fInTried && s.mapInfo[id].nRefCount == 0
    requires TriedSlot(bk, s.mapInfo[id].addr) !in s.triedTab
    ensures var s' := Try(s, TriedSlot(bk, s.mapInfo[id].addr), id);
      NewOk(bk, s'.mapInfo, s.newTab) && TriedOk(bk, s'.mapInfo, s'.triedTab)
  {
    var s' := Try(s, TriedSlot(bk, s.mapInfo[id].addr), id);
    Unreferenced(bk, s.mapInfo, s.newTab, id);
    forall p | p in s.newTab ensures NewSlotOk(bk, s'.mapInfo, p, s.newTab[p]) {
      assert NewSlotOk(bk, s.mapInfo, p, s.newTab[p]);
    }
    forall p | p in s'.triedTab ensures TriedSlotOk(bk, s'.mapInfo, p, s'.triedTab[p]) {
      if p in s.triedTab { assert TriedSlotOk(bk, s.mapInfo, p, s.triedTab[p]); }
    }
    forall i | i in s'.mapInfo && s'.mapInfo[i].fInTried ensures InTriedTable(bk, s'.mapInfo[i].addr, s'.triedTab, i) {
      if i != id { assert InTriedTable(bk, s.mapInfo[i].addr, s.triedTab, i); }
    }
  }

  lemma TryOk(bk: Buckets, s: State, limbo: set<int>, k: int, id: int)
    requires WF(bk, s, limbo, k) && id in limbo && id in s.mapInfo && TriedSlot(bk, s.mapInfo[id].addr) !in s.triedTab
    ensures WF(bk, Try(s, TriedSlot(bk, s.mapInfo[id].addr), id), limbo - {id}, k - 1)
  {
    hide IdsOk, RandomOk, NewOk, TriedOk, StatusOk, CountsOk;
    var s' := Try(s, TriedSlot(bk, s.mapInfo[id].addr), id);
    TryStatus(s, limbo, k, TriedSlot(bk, s.mapInfo[id].addr), id);
    TryTables(bk, s, id);
    var m, m' := s.mapInfo, s'.mapInfo;
    assert SameAddr(m, m') && SamePos(m, m');
    IdsFrame(s, s');
    RandomFrame(s, s');
  }

  lemma TryStatus(s: State, limbo: set<int>, k: int, slot: Slot, id: int)
    requires StatusOk(s.mapInfo, limbo) && CountsOk(s, k) && id in limbo
    ensures id in s.mapInfo && !s.mapInfo[id].fInTried && s.mapInfo[id].nRefCount == 0
    ensures StatusOk(Try(s, slot, id).mapInfo, limbo - {id}) && CountsOk(Try(s, slot, id), k - 1)
  {
    TriedCount(Try(s, slot, id).mapInfo, s.mapInfo, id);
  }
}
