/**
 Reading any stream that the reader accepts, not only one that a consistent manager has written.  The reader checks two
 upper limits; what it then builds is consistent exactly if the announced counts are not negative and no entry that is
 kept shares its address with another entry of the stream that got a number.
 */
module AddrManReader {
  import opened AddrManState
  import opened AddrManBook
  import opened AddrManStore
  import opened AddrManRoundTrip
  import opened Sets

  // ---------------------------------------------------------------- what reading keeps, whatever it reads

  predicate IdRange(s: State) {
    0 <= s.nIdCount && forall id :: id in s.mapInfo ==> 0 <= id < s.nIdCount
  }

  predicate FewRefs(m: map<int, Info>) {
    forall id :: id in m ==> m[id].nRefCount <= NEW_BUCKETS_PER_ADDRESS
  }

  /** Consistency but for the map of addresses, with any entries in limbo and `k` entries not counted yet. */
  predicate Rough(bk: Buckets, s: State, k: int) {
    && IdRange(s) && RandomOk(s)
    && NewOk(bk, s.mapInfo, s.newTab) && TriedOk(bk, s.mapInfo, s.triedTab)
    && FewRefs(s.mapInfo) && CountsOk(s, k)
  }

  /** The map of addresses names the entry that was numbered last. */
  predicate Latest(s: State) {
    && (forall id :: id in s.mapInfo ==> LatestFor(s, id, s.mapInfo[id].addr.ip))
    && (forall a :: a in s.mapAddr ==> s.mapAddr[a] in s.mapInfo && s.mapInfo[s.mapAddr[a]].addr.ip == a)
  }

  predicate LatestFor(s: State, id: int, a: NetAddr) {
    a in s.mapAddr && id <= s.mapAddr[a]
  }

  /** The map of addresses and the entries are inverse to each other. */
  predicate Inverse(s: State) {
    && (forall id :: id in s.mapInfo ==> s.mapInfo[id].addr.ip in s.mapAddr && s.mapAddr[s.mapInfo[id].addr.ip] == id)
    && (forall a :: a in s.mapAddr ==> s.mapAddr[a] in s.mapInfo && s.mapInfo[s.mapAddr[a]].addr.ip == a)
  }

  /** The entries numbered below `news` are the new ones. */
  predicate NewBelow(s: State, news: int) {
    news <= s.nIdCount && forall id :: id in s.mapInfo ==> (s.mapInfo[id].fInTried <==> id >= news)
  }

  predicate Reading(bk: Buckets, s: State, news: int) {
    Rough(bk, s, 0) && Latest(s) && NewBelow(s, news)
  }

  lemma ConsistentIs(bk: Buckets, s: State)
    requires Rough(bk, s, 0) && LimboOf(s.mapInfo) == {}
    ensures Consistent(bk, s) <==> Inverse(s)
  {
    hide RandomOk, TriedOk, CountsOk;
    forall id | id in s.mapInfo && !s.mapInfo[id].fInTried ensures 1 <= s.mapInfo[id].nRefCount {
      assert id !in LimboOf(s.mapInfo);
    }
  }

  // ---------------------------------------------------------------- the entries

  /** An entry whose address may be known already. */
  lemma CreateRough(bk: Buckets, s: State, info: Info)
    requires Rough(bk, s, 0)
    ensures Rough(bk, Create(s, info), 1)
  {
    hide RandomOk, NewOk, TriedOk, CountsOk, FewRefs, IdRange;
    var s', id := Create(s, info), s.nIdCount;
    var m, m' := s.mapInfo, s'.mapInfo;
    CreateAdds(s, info);
    AddedFew(m, m', id);
    AddedRandom(s, s', id);
    AddedNew(bk, m, m', id, s.newTab);
    AddedTried(bk, m, m', id, s.triedTab);
    AddedCounts(s, s', id, 0);
  }

  lemma CreateAdds(s: State, info: Info)
    requires IdRange(s)
    ensures Added(s.mapInfo, Create(s, info).mapInfo, s.nIdCount) && IdRange(Create(s, info))
  {
  }

  lemma AddedFew(m: map<int, Info>, m': map<int, Info>, id: int)
    requires FewRefs(m) && Added(m, m', id)
    ensures FewRefs(m')
  {
  }

  lemma CountRough(bk: Buckets, s: State)
    requires Rough(bk, s, 1)
    ensures Rough(bk, s.(nNew := s.nNew + 1), 0)
  {
    assert CountsOk(s.(nNew := s.nNew + 1), 0);
    hide NewOk, TriedOk;
    RandomFrame(s, s.(nNew := s.nNew + 1));
  }

  lemma CreateLatest(s: State, info: Info)
    requires IdRange(s) && Latest(s)
    ensures Latest(Create(s, info))
  {
    var s' := Create(s, info);
    forall id | id in s'.mapInfo ensures LatestFor(s', id, s'.mapInfo[id].addr.ip) {
      if id in s.mapInfo { assert LatestFor(s, id, s.mapInfo[id].addr.ip); }
    }
  }

  lemma LatestFrame(s: State, s': State)
    requires Latest(s) && SameAddr(s.mapInfo, s'.mapInfo) && s'.mapAddr == s.mapAddr
    ensures Latest(s')
  {
    forall id | id in s'.mapInfo ensures LatestFor(s', id, s'.mapInfo[id].addr.ip) {
      assert LatestFor(s, id, s.mapInfo[id].addr.ip);
    }
  }

  lemma RefReading(bk: Buckets, s: State, news: int, slot: Slot, id: int)
    requires Reading(bk, s, news) && slot !in s.newTab && NewSlotOk(bk, s.mapInfo, slot, id)
    requires s.mapInfo[id].nRefCount < NEW_BUCKETS_PER_ADDRESS
    ensures Reading(bk, Ref(s, slot, id), news)
  {
    hide RandomOk, NewOk, TriedOk, CountsOk, Latest;
    var s' := Ref(s, slot, id);
    var m, m' := s.mapInfo, s'.mapInfo;
    assert SameAddr(m, m') && SamePos(m, m') && SameTried(m, m');
    RefNew(bk, s, slot, id);
    RandomFrame(s, s');
    TriedFrame(bk, m, m', s.triedTab);
    CountsFrame(s, s', 0);
    LatestFrame(s, s');
  }

  lemma NewReading(bk: Buckets, s: State, r: Record, usable: bool)
    requires Reading(bk, s, s.nIdCount)
    ensures Reading(bk, LoadNew(bk, s, r, usable), s.nIdCount + 1)
    ensures LoadNew(bk, s, r, usable).nIdCount == s.nIdCount + 1 && LoadNew(bk, s, r, usable).nNew == s.nNew + 1
  {
    hide Rough, Latest, NewSlot;
    var s0 := Create(s, FromRecord(r));
    var s1 := s0.(nNew := s.nNew + 1);
    CreateRough(bk, s, FromRecord(r));
    CountRough(bk, s0);
    assert IdRange(s) by { RoughRange(bk, s); }
    CreateLatest(s, FromRecord(r));
    LatestFrame(s0, s1);
    var slot := NewSlot(bk, r.addr, r.source);
    if !usable && slot !in s1.newTab {
      PrimarySlot(bk, s1.mapInfo, r.addr, r.source, s.nIdCount);
      RefReading(bk, s1, s.nIdCount + 1, slot, s.nIdCount);
    }
  }

  lemma RoughRange(bk: Buckets, s: State)
    requires Rough(bk, s, 0)
    ensures IdRange(s)
  {
  }

  lemma PrimarySlot(bk: Buckets, m: map<int, Info>, addr: Service, source: NetAddr, id: int)
    requires id in m && !m[id].fInTried && m[id].addr == addr
    ensures NewSlotOk(bk, m, NewSlot(bk, addr, source), id)
  {
  }

  lemma {:induction false} AllNewReading(bk: Buckets, rs: seq<Record>, usable: bool)
    ensures var r := LoadAllNew(bk, Nothing, rs, usable);
      Reading(bk, r, |rs|) && r.nIdCount == r.nNew == |rs|
  {
    hide Reading, LoadNew;
    if rs == [] {
      NothingReading(bk);
    } else {
      AllNewReading(bk, rs[..|rs| - 1], usable);
      NewReading(bk, LoadAllNew(bk, Nothing, rs[..|rs| - 1], usable), rs[|rs| - 1], usable);
    }
  }

  lemma NothingReading(bk: Buckets)
    ensures Reading(bk, Nothing, 0)
  {
    hide WF, Reading;
    NothingWF(bk);
    NothingOk(bk, Nothing);
  }

  lemma NothingOk(bk: Buckets, s: State)
    requires WF(bk, s, {}, 0) && s.mapInfo == map[] && s.nIdCount == 0
    ensures Reading(bk, s, 0)
  {
  }

  lemma TriedReading(bk: Buckets, s: State, news: int, r: Record)
    requires Reading(bk, s, news)
    ensures Reading(bk, LoadTried(bk, s, r), news)
  {
    hide RandomOk, NewOk, TriedOk, CountsOk, Latest, FewRefs, TriedSlot;
    var info, id, slot := FromRecord(r), s.nIdCount, TriedSlot(bk, r.addr);
    if slot !in s.triedTab {
      CreateRough(bk, s, info);
      CreateLatest(s, info);
      var s0 := Create(s, info);
      var s' := Try(s0, slot, id);
      var m, m' := s0.mapInfo, s'.mapInfo;
      assert SameAddr(m, m') && SamePos(m, m') && SameRef(m, m');
      TryTables(bk, s0, id);
      RandomFrame(s0, s');
      LatestFrame(s0, s');
      TryCounts(s0, slot, id);
      FewFrame(m, m');
    }
  }

  lemma FewFrame(m: map<int, Info>, m': map<int, Info>)
    requires FewRefs(m) && SameRef(m, m')
    ensures FewRefs(m')
  {
  }

  lemma TryCounts(s: State, slot: Slot, id: int)
    requires CountsOk(s, 1) && id in s.mapInfo && !s.mapInfo[id].fInTried
    ensures CountsOk(Try(s, slot, id), 0)
  {
    TriedCount(Try(s, slot, id).mapInfo, s.mapInfo, id);
  }

  lemma {:induction false} AllTriedReading(bk: Buckets, s: State, news: int, rs: seq<Record>)
    requires Reading(bk, s, news)
    ensures Reading(bk, LoadAllTried(bk, s, rs), news)
    decreases |rs|
  {
    hide Reading, LoadTried;
    if rs != [] {
      AllTriedReading(bk, s, news, rs[..|rs| - 1]);
      TriedReading(bk, LoadAllTried(bk, s, rs[..|rs| - 1]), news, rs[|rs| - 1]);
    }
  }

  // ---------------------------------------------------------------- the places

  lemma IndexReading(bk: Buckets, s: State, news: int, b: nat, index: int, usable: bool)
    requires Reading(bk, s, news) && (usable ==> b < NEW_BUCKET_COUNT)
    ensures Reading(bk, LoadIndex(bk, s, b, index, news, usable), news)
  {
    hide Rough, Latest;
    if 0 <= index < news && index in s.mapInfo {
      var slot: Slot := (b, NewPosition(bk, b, s.mapInfo[index].addr));
      if usable && slot !in s.newTab && s.mapInfo[index].nRefCount < NEW_BUCKETS_PER_ADDRESS {
        RefReading(bk, s, news, slot, index);
      }
    }
  }

  lemma {:induction false} BucketReading(bk: Buckets, s: State, news: int, b: nat, list: seq<int>, usable: bool)
    requires Reading(bk, s, news) && (usable ==> b < NEW_BUCKET_COUNT)
    ensures Reading(bk, LoadBucket(bk, s, b, list, news, usable), news)
    decreases |list|
  {
    hide Reading, LoadIndex;
    if list != [] {
      var last := |list| - 1;
      BucketReading(bk, s, news, b, list[..last], usable);
      IndexReading(bk, LoadBucket(bk, s, b, list[..last], news, usable), news, b, list[last], usable);
    }
  }

  lemma {:induction false} BucketsReading(bk: Buckets, s: State, news: int, buckets: seq<seq<int>>, usable: bool)
    requires Reading(bk, s, news) && (usable ==> |buckets| <= NEW_BUCKET_COUNT)
    ensures Reading(bk, LoadBuckets(bk, s, buckets, news, usable), news)
    decreases |buckets|
  {
    hide Reading, LoadBucket;
    if buckets != [] {
      var last := |buckets| - 1;
      BucketsReading(bk, s, news, buckets[..last], usable);
      BucketReading(bk, LoadBuckets(bk, s, buckets[..last], news, usable), news, last, buckets[last], usable);
    }
  }

  lemma TablesReading(bk: Buckets, d: Dump)
    requires Readable(d) && d.nNew >= 0 && d.nTried >= 0
    ensures Reading(bk, ReadTables(bk, d), d.nNew)
  {
    hide Reading, LoadAllNew, LoadAllTried, LoadBuckets, Flip;
    AllNewReading(bk, d.newer, Usable(d));
    var s1 := LoadAllNew(bk, Nothing, d.newer, Usable(d));
    assert NewRead(s1, d) == s1;
    AllTriedReading(bk, s1, d.nNew, d.tried);
    var s2 := LoadAllTried(bk, s1, d.tried);
    assert TriedRead(s2, d) == s2;
    BucketsReading(bk, s2, d.nNew, d.buckets, Usable(d));
  }

  // ---------------------------------------------------------------- pruning

  function Ips(m: map<int, Info>, ids: set<int>): set<NetAddr> {
    set id | id in ids && id in m :: m[id].addr.ip
  }

  predicate SameEntry(i: Info, j: Info) {
    i.addr == j.addr && i.nRefCount == j.nRefCount && i.fInTried == j.fInTried
  }

  /** The entries in `gone` have been pruned, and with each of them what the map of addresses had for its address. */
  predicate Pruned(s0: State, s: State, gone: set<int>) {
    && s.mapInfo.Keys == s0.mapInfo.Keys - gone
    && (forall id :: id in s.mapInfo ==> SameEntry(s0.mapInfo[id], s.mapInfo[id]))
    && s.mapAddr == s0.mapAddr - Ips(s0.mapInfo, gone)
  }

  lemma RemoveRough(bk: Buckets, s: State, id: int)
    requires Rough(bk, s, 0) && id in LimboOf(s.mapInfo)
    ensures 0 <= s.mapInfo[id].nRandomPos < |s.vRandom|
    ensures s.vRandom[s.mapInfo[id].nRandomPos] in s.mapInfo && s.vRandom[|s.vRandom| - 1] in s.mapInfo
    ensures Rough(bk, Remove(s, id), 0)
  {
    var i, j := s.mapInfo[id].nRandomPos, |s.vRandom| - 1;
    assert s.vRandom[i] == id && s.vRandom[j] in s.mapInfo;
    SwapRough(bk, s, i, j);
    var s1 := Swap(s, i, j);
    assert s1.vRandom[j] == id;
    hide Rough, RandomOk, NewOk, TriedOk, CountsOk;
    PopRough(bk, s1, id);
  }

  lemma SwapRough(bk: Buckets, s: State, i: nat, j: nat)
    requires Rough(bk, s, 0) && i < |s.vRandom| && j < |s.vRandom|
    ensures Rough(bk, Swap(s, i, j), 0)
  {
    var s' := Swap(s, i, j);
    var m, m' := s.mapInfo, s'.mapInfo;
    SwapRandomOk(s, i, j);
    assert SameAddr(m, m') && SameTried(m, m') && SameRef(m, m');
    hide RandomOk, NewOk, TriedOk, CountsOk, FewRefs;
    NewFrame(bk, m, m', s.newTab);
    TriedFrame(bk, m, m', s.triedTab);
    FewFrame(m, m');
    CountsFrame(s, s', 0);
  }

  lemma PopRough(bk: Buckets, s: State, id: int)
    requires Rough(bk, s, 0) && s.vRandom != [] && s.vRandom[|s.vRandom| - 1] == id
    requires id in s.mapInfo && !s.mapInfo[id].fInTried && s.mapInfo[id].nRefCount == 0
    ensures Rough(bk, Pop(s, id), 0)
  {
    hide RandomOk, NewOk, TriedOk, CountsOk;
    PoppedRandom(s, id);
    PoppedNew(bk, s.mapInfo, s.newTab, id);
    PoppedTried(bk, s.mapInfo, s.triedTab, id);
    PoppedCounts(s, id, 0);
  }

  lemma RemovePruned(s0: State, s: State, gone: set<int>, id: int)
    requires Pruned(s0, s, gone) && id in s.mapInfo && 0 <= s.mapInfo[id].nRandomPos < |s.vRandom|
    requires s.vRandom[s.mapInfo[id].nRandomPos] in s.mapInfo && s.vRandom[|s.vRandom| - 1] in s.mapInfo
    ensures Pruned(s0, Remove(s, id), gone + {id})
  {
    var s' := Remove(s, id);
    assert Ips(s0.mapInfo, gone + {id}) == Ips(s0.mapInfo, gone) + {s0.mapInfo[id].addr.ip};
    assert s'.mapAddr == s.mapAddr - {s0.mapInfo[id].addr.ip};
  }

  function InLimbo(m: map<int, Info>, ids: seq<int>): (r: set<int>)
    ensures forall id :: id in r <==> id in ids && id in LimboOf(m)
  {
    set id | id in ids && id in LimboOf(m)
  }

  lemma {:induction false} PrunedAll(bk: Buckets, s0: State, ids: seq<int>)
    requires Rough(bk, s0, 0) && Ascending(ids)
    ensures Rough(bk, Prune(s0, ids), 0) && Pruned(s0, Prune(s0, ids), InLimbo(s0.mapInfo, ids))
    decreases |ids|
  {
    hide Rough, Ascending, InLimbo, PruneOne, Pruned;
    if ids == [] {
      NothingPruned(s0, InLimbo(s0.mapInfo, ids));
    } else {
      var front, last := ids[..|ids| - 1], ids[|ids| - 1];
      assert ids == front + [last];
      LastIsNew(ids);
      PrunedAll(bk, s0, front);
      PruneStep(bk, s0, Prune(s0, front), InLimbo(s0.mapInfo, front), last);
      if last in LimboOf(s0.mapInfo) {
        assert InLimbo(s0.mapInfo, ids) == InLimbo(s0.mapInfo, front) + {last};
      } else {
        assert InLimbo(s0.mapInfo, ids) == InLimbo(s0.mapInfo, front);
      }
    }
  }

  lemma LastIsNew(ids: seq<int>)
    requires Ascending(ids) && ids != []
    ensures Ascending(ids[..|ids| - 1]) && ids[|ids| - 1] !in ids[..|ids| - 1]
  {
  }

  lemma NothingPruned(s: State, gone: set<int>)
    requires gone == {}
    ensures Pruned(s, s, gone)
  {
    assert Ips(s.mapInfo, gone) == {};
  }

  lemma PruneStep(bk: Buckets, s0: State, s: State, gone: set<int>, id: int)
    requires Rough(bk, s, 0) && Pruned(s0, s, gone) && id !in gone
    ensures Rough(bk, PruneOne(s, id), 0)
    ensures Pruned(s0, PruneOne(s, id), if id in LimboOf(s0.mapInfo) then gone + {id} else gone)
  {
    hide Rough, Pruned, Remove;
    PrunedEntry(s0, s, gone, id);
    if id in LimboOf(s.mapInfo) {
      RemoveRough(bk, s, id);
      RemovePruned(s0, s, gone, id);
    }
  }

  lemma PrunedEntry(s0: State, s: State, gone: set<int>, id: int)
    requires Pruned(s0, s, gone) && id !in gone
    ensures id in LimboOf(s.mapInfo) <==> id in LimboOf(s0.mapInfo)
  {
  }

  // ---------------------------------------------------------------- when the result is consistent

  /** An entry shares its address with another one only if both are pruned. */
  predicate NoClash(m: map<int, Info>) {
    forall i, j :: i in m && j in m && i != j && m[i].addr.ip == m[j].addr.ip ==> i in LimboOf(m) && j in LimboOf(m)
  }

  lemma NoClashIsInverse(s0: State, s: State)
    requires Latest(s0) && NoClash(s0.mapInfo) && Pruned(s0, s, LimboOf(s0.mapInfo))
    ensures Inverse(s)
  {
    var m, limbo := s0.mapInfo, LimboOf(s0.mapInfo);
    forall id | id in s.mapInfo
      ensures s.mapInfo[id].addr.ip in s.mapAddr && s.mapAddr[s.mapInfo[id].addr.ip] == id
    {
      assert SameEntry(m[id], s.mapInfo[id]);
      assert LatestFor(s0, id, m[id].addr.ip);
    }
    forall a | a in s.mapAddr ensures s.mapAddr[a] in s.mapInfo && s.mapInfo[s.mapAddr[a]].addr.ip == a {
      var j := s0.mapAddr[a];
      assert a !in Ips(m, limbo);
      assert j in m && m[j].addr.ip == a;
      assert SameEntry(m[j], s.mapInfo[j]);
    }
  }

  lemma InverseIsNoClash(s0: State, s: State)
    requires Inverse(s) && Pruned(s0, s, LimboOf(s0.mapInfo))
    ensures NoClash(s0.mapInfo)
  {
    var m := s0.mapInfo;
    forall i, j | i in m && j in m && i != j && m[i].addr.ip == m[j].addr.ip
      ensures i in LimboOf(m) && j in LimboOf(m)
    {
      if i !in LimboOf(m) { Unshared(s0, s, i, j); }
      if j !in LimboOf(m) { Unshared(s0, s, j, i); }
    }
  }

  /** In a consistent result a kept entry has its address for itself. */
  lemma Unshared(s0: State, s: State, i: int, j: int)
    requires Inverse(s) && Pruned(s0, s, LimboOf(s0.mapInfo))
    requires i in s0.mapInfo && i !in LimboOf(s0.mapInfo) && j in s0.mapInfo && i != j
    ensures s0.mapInfo[i].addr.ip != s0.mapInfo[j].addr.ip
  {
    var m := s0.mapInfo;
    assert i in s.mapInfo && SameEntry(m[i], s.mapInfo[i]);
    var a := m[i].addr.ip;
    assert a in s.mapAddr && s.mapAddr[a] == i;
    if j in LimboOf(m) {
      assert m[j].addr.ip in Ips(m, LimboOf(m));
    } else {
      assert j in s.mapInfo && SameEntry(m[j], s.mapInfo[j]);
    }
  }

  lemma NobodyLeft(s0: State, s: State)
    requires Pruned(s0, s, LimboOf(s0.mapInfo))
    ensures LimboOf(s.mapInfo) == {}
  {
    forall id ensures id !in LimboOf(s.mapInfo) {
      if id in s.mapInfo { assert SameEntry(s0.mapInfo[id], s.mapInfo[id]); }
    }
  }

  lemma ReadCounts(bk: Buckets, d: Dump)
    requires Readable(d) && d.nNew >= 0 && d.nTried >= 0
    ensures Consistent(bk, Decode(bk, d)) <==> NoClash(ReadTables(bk, d).mapInfo)
  {
    hide Rough, Latest, NewBelow, Consistent, Sorted, Prune, ReadTables, NoClash, Inverse, Pruned, LimboOf, Readable;
    TablesReading(bk, d);
    var s0 := ReadTables(bk, d);
    var ids := Sorted(s0.mapInfo.Keys);
    PrunedAll(bk, s0, ids);
    assert InLimbo(s0.mapInfo, ids) == LimboOf(s0.mapInfo) by { LimboListed(s0.mapInfo, ids); }
    var s := Decode(bk, d);
    NobodyLeft(s0, s);
    ConsistentIs(bk, s);
    if NoClash(s0.mapInfo) {
      NoClashIsInverse(s0, s);
    }
    if Inverse(s) {
      InverseIsNoClash(s0, s);
    }
  }

  lemma LimboListed(m: map<int, Info>, ids: seq<int>)
    requires forall id :: id in m ==> id in ids
    ensures InLimbo(m, ids) == LimboOf(m)
  {
    forall id ensures id in InLimbo(m, ids) <==> id in LimboOf(m) {}
  }

  // ---------------------------------------------------------------- counts below zero

  lemma NeverNegative(bk: Buckets, s: State)
    requires Consistent(bk, s)
    ensures s.nNew >= 0 && s.nTried >= 0
  {
    hide IdsOk, RandomOk, NewOk, TriedOk, StatusOk;
    assert TriedIds(s.mapInfo) <= s.mapInfo.Keys;
    SubsetSize(TriedIds(s.mapInfo), s.mapInfo.Keys);
    assert |s.mapInfo.Keys| == |s.mapInfo|;
  }

  lemma {:induction false} TriedKeepsNew(bk: Buckets, s: State, rs: seq<Record>)
    ensures LoadAllTried(bk, s, rs).nNew == s.nNew && (rs == [] ==> LoadAllTried(bk, s, rs).nTried == s.nTried)
  {
    hide TriedSlot;
    if rs != [] { TriedKeepsNew(bk, s, rs[..|rs| - 1]); }
  }

  lemma {:induction false} BucketKeepsCounts(bk: Buckets, s: State, b: nat, list: seq<int>, nNew: int, usable: bool)
    ensures var r := LoadBucket(bk, s, b, list, nNew, usable); r.nNew == s.nNew && r.nTried == s.nTried
  {
    hide NewPosition;
    if list != [] { BucketKeepsCounts(bk, s, b, list[..|list| - 1], nNew, usable); }
  }

  lemma {:induction false} BucketsKeepCounts(bk: Buckets, s: State, buckets: seq<seq<int>>, nNew: int, usable: bool)
    ensures var r := LoadBuckets(bk, s, buckets, nNew, usable); r.nNew == s.nNew && r.nTried == s.nTried
  {
    hide LoadBucket;
    if buckets != [] {
      var last := |buckets| - 1;
      BucketsKeepCounts(bk, s, buckets[..last], nNew, usable);
      BucketKeepsCounts(bk, LoadBuckets(bk, s, buckets[..last], nNew, usable), last, buckets[last], nNew, usable);
    }
  }

  lemma {:induction false} PruneCounts(s: State, ids: seq<int>)
    ensures Prune(s, ids).nNew <= s.nNew && Prune(s, ids).nTried == s.nTried
  {
    if ids != [] { PruneCounts(s, ids[..|ids| - 1]); }
  }

  lemma NegativeStays(bk: Buckets, d: Dump)
    requires Readable(d)
    ensures Decode(bk, d).nNew <= d.nNew
    ensures d.nTried < 0 ==> Decode(bk, d).nTried < 0
  {
    hide LoadAllNew, LoadAllTried, LoadBuckets, Prune, Sorted, Usable, Flip;
    var s0 := LoadAllNew(bk, Nothing, d.newer, Usable(d));
    NewUntried(bk, d.newer, Usable(d));
    var s1 := NewRead(s0, d);
    TriedKeepsNew(bk, s1, d.tried);
    BucketsKeepCounts(bk, ReadEntries(bk, d), d.buckets, d.nNew, Usable(d));
    var s3 := ReadTables(bk, d);
    PruneCounts(s3, Sorted(s3.mapInfo.Keys));
  }

  lemma {:induction false} NewUntried(bk: Buckets, rs: seq<Record>, usable: bool)
    ensures LoadAllNew(bk, Nothing, rs, usable).nTried == 0
  {
    hide NewSlot;
    if rs != [] { NewUntried(bk, rs[..|rs| - 1], usable); }
  }

  /** What the reader builds of an accepted stream is consistent exactly if neither count is below zero
      and no entry that is kept shares its address with another one. */
  lemma ReadIsConsistent(bk: Buckets, d: Dump)
    requires Readable(d)
    ensures Consistent(bk, Decode(bk, d)) <==>
      d.nNew >= 0 && d.nTried >= 0 && NoClash(ReadTables(bk, d).mapInfo)
  {
    hide Consistent, Decode, ReadTables, NoClash, Readable;
    if d.nNew >= 0 && d.nTried >= 0 {
      ReadCounts(bk, d);
    } else {
      NegativeStays(bk, d);
      if Consistent(bk, Decode(bk, d)) { NeverNegative(bk, Decode(bk, d)); }
    }
  }
}
