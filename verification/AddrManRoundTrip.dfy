/** Reading back what was written: nothing is lost and nothing moves. */
module AddrManRoundTrip {
  import opened AddrManState
  import opened AddrManBook
  import opened AddrManStore
  import opened Sets

  function Upto(n: nat): (r: set<int>)
    ensures forall x :: x in r <==> 0 <= x < n
  {
    if n == 0 then {} else Upto(n - 1) + {n - 1}
  }

  /** The entries of s listed in `order` have been read, in this order; those from `news` on are tried. */
  predicate Loaded(cur: State, s: State, order: seq<int>, news: nat) {
    && cur.nIdCount == |order| && cur.mapInfo.Keys == Upto(|order|) && news <= |order|
    && (forall i :: 0 <= i < |order| ==> order[i] in s.mapInfo)
    && (forall i :: 0 <= i < |order| ==> LoadedAs(cur, s, i, order[i], news))
  }

  predicate LoadedAs(cur: State, s: State, i: int, id: int, news: nat) {
    && i in cur.mapInfo && id in s.mapInfo
    && ToRecord(cur.mapInfo[i]) == ToRecord(s.mapInfo[id])
    && (cur.mapInfo[i].fInTried <==> i >= news)
  }

  /** `order` lists the entries of one kind, each once. */
  predicate Kind(s: State, order: seq<int>, tried: bool) {
    && Ascending(order)
    && (forall i :: 0 <= i < |order| ==> order[i] in s.mapInfo && s.mapInfo[order[i]].fInTried == tried)
    && (forall x :: x in s.mapInfo && s.mapInfo[x].fInTried == tried ==> x in order)
  }

  lemma TriedIffUnreferenced(bk: Buckets, s: State, x: int)
    requires Consistent(bk, s) && x in s.mapInfo
    ensures s.mapInfo[x].nRefCount != 0 <==> !s.mapInfo[x].fInTried
  {
    if s.mapInfo[x].fInTried {
      forall slot | slot in s.newTab
        ensures s.newTab[slot] != x
      {
        assert NewSlotOk(bk, s.mapInfo, slot, s.newTab[slot]);
      }
      assert Refs(s.newTab, x) == {};
    }
  }

  lemma KindOf(bk: Buckets, s: State, ids: seq<int>, tried: bool)
    requires Consistent(bk, s) && Ascending(ids) && forall x :: x in s.mapInfo ==> x in ids
    ensures Kind(s, Select(s.mapInfo, ids, tried), tried)
  {
    hide WF, Select;
    var order := Select(s.mapInfo, ids, tried);
    forall x | x in s.mapInfo
      ensures Selected(s.mapInfo[x], tried) <==> s.mapInfo[x].fInTried == tried
    {
      TriedIffUnreferenced(bk, s, x);
    }
    forall i | 0 <= i < |order|
      ensures order[i] in s.mapInfo && s.mapInfo[order[i]].fInTried == tried
    {
      assert order[i] in order;
    }
  }

  lemma OrderFacts(bk: Buckets, s: State)
    requires Consistent(bk, s)
    ensures Kind(s, NewOrder(s), false) && Kind(s, TriedOrder(s), true)
  {
    hide WF, Kind, Select, Sorted;
    KindOf(bk, s, Sorted(s.mapInfo.Keys), false);
    KindOf(bk, s, Sorted(s.mapInfo.Keys), true);
  }

  /** An address that is known has been read from the entry that s knows it by. */
  lemma ReadIp(bk: Buckets, s: State, cur: State, limbo: set<int>, order: seq<int>, news: nat, ip: NetAddr)
    requires Consistent(bk, s) && WF(bk, cur, limbo, 0) && Loaded(cur, s, order, news) && ip in cur.mapAddr
    ensures ip in s.mapAddr && s.mapAddr[ip] in order
  {
    var i := cur.mapAddr[ip];
    assert i in cur.mapInfo && cur.mapInfo[i].addr.ip == ip;
    assert LoadedAs(cur, s, i, order[i], news);
    assert order[i] in order;
  }

  lemma UnreadIp(bk: Buckets, s: State, cur: State, limbo: set<int>, order: seq<int>, news: nat, x: int)
    requires Consistent(bk, s) && WF(bk, cur, limbo, 0) && Loaded(cur, s, order, news) && x in s.mapInfo && x !in order
    ensures s.mapInfo[x].addr.ip !in cur.mapAddr
  {
    var ip := s.mapInfo[x].addr.ip;
    assert s.mapAddr[ip] == x;
    if ip in cur.mapAddr {
      ReadIp(bk, s, cur, limbo, order, news, ip);
    }
  }

  lemma CreatedLoaded(s: State, cur: State, cur': State, order: seq<int>, x: int, news: nat, news': nat)
    requires Loaded(cur, s, order, news) && x in s.mapInfo && (news' == news || (news == |order| && news' == news + 1))
    requires cur'.nIdCount == cur.nIdCount + 1 && cur'.mapInfo.Keys == cur.mapInfo.Keys + {cur.nIdCount}
    requires forall i :: i in cur.mapInfo ==> cur'.mapInfo[i] == cur.mapInfo[i]
    requires ToRecord(cur'.mapInfo[cur.nIdCount]) == ToRecord(s.mapInfo[x]) &&
      (cur'.mapInfo[cur.nIdCount].fInTried <==> news' == news)
    ensures Loaded(cur', s, order + [x], news')
  {
    var order' := order + [x];
    assert cur'.mapInfo.Keys == Upto(|order'|);
    forall i | 0 <= i < |order'| ensures LoadedAs(cur', s, i, order'[i], news') {
      if i < |order| { assert LoadedAs(cur, s, i, order[i], news); }
    }
  }

  // ---------------------------------------------------------------- the entries

  lemma NewStep(bk: Buckets, s: State, cur: State, order: seq<int>, x: int)
    requires Consistent(bk, s) && WF(bk, cur, Upto(|order|), 0) && Loaded(cur, s, order, |order|)
    requires x in s.mapInfo && x !in order && cur.newTab == map[]
    ensures var r := LoadNew(bk, cur, ToRecord(s.mapInfo[x]), true);
      WF(bk, r, Upto(|order| + 1), 0) && Loaded(r, s, order + [x], |order| + 1) && r.newTab == map[]
  {
    hide WF, Loaded;
    var info := FromRecord(ToRecord(s.mapInfo[x]));
    UnreadIp(bk, s, cur, Upto(|order|), order, |order|, x);
    LoadedFacts(cur, s, order, |order|);
    var r0 := Create(cur, info);
    CreatedLoaded(s, cur, r0, order, x, |order|, |order| + 1);
    assert Upto(|order|) + {cur.nIdCount} == Upto(|order| + 1);
    CreateOk(bk, cur, Upto(|order|), 0, info);
    MoreCounted(bk, r0, Upto(|order| + 1), 1, 1);
    LoadedCount(r0, s, order + [x], |order| + 1, cur.nNew + 1);
  }

  lemma LoadedFacts(cur: State, s: State, order: seq<int>, news: nat)
    requires Loaded(cur, s, order, news)
    ensures cur.nIdCount == |order| && news <= |order| && forall i :: i in cur.mapInfo <==> 0 <= i < |order|
  {
  }

  lemma LoadedCount(cur: State, s: State, order: seq<int>, news: nat, nNew: int)
    requires Loaded(cur, s, order, news)
    ensures Loaded(cur.(nNew := nNew), s, order, news)
  {
    var cur' := cur.(nNew := nNew);
    forall i | 0 <= i < |order|
      ensures LoadedAs(cur', s, i, order[i], news)
    {
      assert LoadedAs(cur, s, i, order[i], news);
    }
  }

  /** `rs` are the records of the entries in `order`, all of one kind. */
  predicate Listed(s: State, order: seq<int>, rs: seq<Record>, tried: bool) {
    && Ascending(order) && |rs| == |order|
    && forall i :: 0 <= i < |order| ==>
         order[i] in s.mapInfo && s.mapInfo[order[i]].fInTried == tried && rs[i] == ToRecord(s.mapInfo[order[i]])
  }

  lemma {:induction false} AllNew(bk: Buckets, s: State, order: seq<int>, rs: seq<Record>, n: nat)
    requires Consistent(bk, s) && Listed(s, order, rs, false) && n <= |order|
    ensures var r := LoadAllNew(bk, Nothing, rs[..n], true);
      WF(bk, r, Upto(n), 0) && Loaded(r, s, order[..n], n) && r.newTab == map[]
  {
    hide WF, Loaded, LoadNew;
    if n == 0 {
      EmptyOk(bk);
      NothingLoaded(s);
      assert rs[..0] == [] && order[..0] == [];
    } else {
      AllNew(bk, s, order, rs, n - 1);
      assert rs[..n][..n - 1] == rs[..n - 1];
      assert order[..n] == order[..n - 1] + [order[n - 1]];
      Unread(order, n - 1);
      NewStep(bk, s, LoadAllNew(bk, Nothing, rs[..n - 1], true), order[..n - 1], order[n - 1]);
    }
  }

  lemma Unread(order: seq<int>, n: nat)
    requires Ascending(order) && n < |order|
    ensures order[n] !in order[..n]
  {
  }

  lemma EmptyOk(bk: Buckets)
    ensures WF(bk, Nothing, Upto(0), 0)
  {
    hide WF;
    NothingWF(bk);
    assert Upto(0) == {};
  }

  lemma NothingLoaded(s: State)
    ensures Loaded(Nothing, s, [], 0)
  {
    assert Upto(0) == {};
  }

  lemma NothingWF(bk: Buckets)
    ensures WF(bk, Nothing, {}, 0)
  {
    assert TriedIds(map[]) == {};
  }

  lemma ReadSlot(bk: Buckets, s: State, cur: State, limbo: set<int>, order: seq<int>, news: nat, slot: Slot)
    requires Consistent(bk, s) && WF(bk, cur, limbo, 0) && Loaded(cur, s, order, news)
    requires forall i :: news <= i < |order| ==> order[i] in s.mapInfo && s.mapInfo[order[i]].fInTried
    requires slot in cur.triedTab
    ensures slot in s.triedTab && s.triedTab[slot] in order
  {
    var i := cur.triedTab[slot];
    assert TriedSlotOk(bk, cur.mapInfo, slot, i);
    assert LoadedAs(cur, s, i, order[i], news);
    assert InTriedTable(bk, s.mapInfo[order[i]].addr, s.triedTab, order[i]);
    assert order[i] in order;
  }

  lemma FreeTriedSlot(bk: Buckets, s: State, cur: State, limbo: set<int>, order: seq<int>, news: nat, x: int)
    requires Consistent(bk, s) && WF(bk, cur, limbo, 0) && Loaded(cur, s, order, news)
    requires forall i :: news <= i < |order| ==> order[i] in s.mapInfo && s.mapInfo[order[i]].fInTried
    requires x in s.mapInfo && s.mapInfo[x].fInTried && x !in order
    ensures TriedSlot(bk, s.mapInfo[x].addr) !in cur.triedTab
  {
    var slot := TriedSlot(bk, s.mapInfo[x].addr);
    assert InTriedTable(bk, s.mapInfo[x].addr, s.triedTab, x);
    if slot in cur.triedTab {
      ReadSlot(bk, s, cur, limbo, order, news, slot);
    }
  }

  lemma TriedStep(bk: Buckets, s: State, cur: State, order: seq<int>, news: nat, x: int)
    requires Consistent(bk, s) && WF(bk, cur, Upto(news), 0) && Loaded(cur, s, order, news) && cur.newTab == map[]
    requires forall i :: news <= i < |order| ==> order[i] in s.mapInfo && s.mapInfo[order[i]].fInTried
    requires x in s.mapInfo && s.mapInfo[x].fInTried && x !in order
    ensures var r := LoadTried(bk, cur, ToRecord(s.mapInfo[x]));
      WF(bk, r, Upto(news), 0) && Loaded(r, s, order + [x], news) && r.newTab == map[]
  {
    hide WF, Loaded;
    var info := FromRecord(ToRecord(s.mapInfo[x]));
    var slot, id := TriedSlot(bk, info.addr), cur.nIdCount;
    LoadedFacts(cur, s, order, news);
    UnreadIp(bk, s, cur, Upto(news), order, news, x);
    FreeTriedSlot(bk, s, cur, Upto(news), order, news, x);
    var r0 := Create(cur, info);
    CreateOk(bk, cur, Upto(news), 0, info);
    CreatedLoaded(s, cur, Try(r0, slot, id), order, x, news, news);
    TryOk(bk, r0, Upto(news) + {id}, 1, id);
    assert Upto(news) + {id} - {id} == Upto(news);
  }

  lemma {:induction false} AllTried(bk: Buckets, s: State, order: seq<int>, tried: seq<int>, rs: seq<Record>, r0: State,
    n: nat)
    requires Consistent(bk, s) && Listed(s, tried, rs, true) && n <= |tried|
    requires WF(bk, r0, Upto(|order|), 0) && Loaded(r0, s, order, |order|) && r0.newTab == map[]
    requires forall i :: 0 <= i < |tried| ==> tried[i] !in order
    ensures var r := LoadAllTried(bk, r0, rs[..n]);
      WF(bk, r, Upto(|order|), 0) && Loaded(r, s, order + tried[..n], |order|) && r.newTab == map[]
  {
    hide WF, Loaded, LoadTried;
    if n == 0 {
      assert rs[..0] == [] && order + tried[..0] == order;
    } else {
      AllTried(bk, s, order, tried, rs, r0, n - 1);
      assert rs[..n][..n - 1] == rs[..n - 1];
      var read := order + tried[..n - 1];
      assert order + tried[..n] == read + [tried[n - 1]];
      UnreadTried(order, tried, n - 1);
      TriedStep(bk, s, LoadAllTried(bk, r0, rs[..n - 1]), read, |order|, tried[n - 1]);
    }
  }

  lemma UnreadTried(order: seq<int>, tried: seq<int>, n: nat)
    requires Ascending(tried) && n < |tried| && tried[n] !in order
    ensures tried[n] !in order + tried[..n]
  {
  }

  // ---------------------------------------------------------------- the places in the "new" table

  function LimboOf(m: map<int, Info>): set<int> {
    set id | id in m && !m[id].fInTried && m[id].nRefCount == 0
  }

  predicate Before(slot: Slot, b: nat, i: nat) {
    slot.0 < b || (slot.0 == b && slot.1 < i)
  }

  /** The places before (b, i), with entry numbers for ids. */
  function Part(newTab: map<Slot, int>, order: seq<int>, b: nat, i: nat): map<Slot, int> {
    map slot: Slot | slot in newTab && Before(slot, b, i) && newTab[slot] in order :: Index(order, newTab[slot])
  }

  /** All entries are read, and the places before (b, i) filled. */
  predicate Filled(bk: Buckets, cur: State, s: State, order: seq<int>, all: seq<int>, b: nat, i: nat) {
    && WF(bk, cur, LimboOf(cur.mapInfo), 0)
    && Loaded(cur, s, all, |order|) && order <= all
    && cur.newTab == Part(s.newTab, order, b, i)
  }

  lemma {:induction false} SlotOf(bk: Buckets, s: State, slot: Slot)
    requires Consistent(bk, s) && slot in s.newTab
    ensures var id := s.newTab[slot];
      && slot.0 < NEW_BUCKET_COUNT && slot.1 < BUCKET_SIZE
      && id in s.mapInfo && !s.mapInfo[id].fInTried && slot.1 == NewPosition(bk, slot.0, s.mapInfo[id].addr)
      && slot in Refs(s.newTab, id) && |Refs(s.newTab, id)| <= NEW_BUCKETS_PER_ADDRESS
  {
    assert NewSlotOk(bk, s.mapInfo, slot, s.newTab[slot]);
  }

  /** An entry has been given fewer places than it had, as long as one of them is missing. */
  lemma FewerRefs(newTab: map<Slot, int>, order: seq<int>, b: nat, i: nat, slot: Slot)
    requires slot in newTab && newTab[slot] in order && !Before(slot, b, i)
    ensures |Refs(Part(newTab, order, b, i), Index(order, newTab[slot]))| < |Refs(newTab, newTab[slot])|
  {
    var id := newTab[slot];
    var part := Refs(Part(newTab, order, b, i), Index(order, id));
    var whole := Refs(newTab, id);
    forall p | p in part ensures p in whole && p != slot {
      assert order[Index(order, newTab[p])] == order[Index(order, id)];
    }
    assert slot in whole;
    assert part <= whole - {slot};
    SubsetSize(part, whole - {slot});
  }

  lemma RefFacts(bk: Buckets, cur: State, limbo: set<int>, id: int)
    requires WF(bk, cur, limbo, 0) && id in cur.mapInfo
    ensures cur.mapInfo[id].nRefCount == |Refs(cur.newTab, id)| >= 0
  {
  }

  lemma PartNext(newTab: map<Slot, int>, order: seq<int>, b: nat, i: nat)
    ensures Part(newTab, order, b, i + 1) ==
      if (b, i) in newTab && newTab[(b, i)] in order then
        Part(newTab, order, b, i)[(b, i) := Index(order, newTab[(b, i)])]
      else Part(newTab, order, b, i)
  {
    forall slot: Slot ensures Before(slot, b, i + 1) <==> Before(slot, b, i) || slot == (b, i) {}
  }

  lemma RefLimbo(cur: State, slot: Slot, id: int)
    requires id in cur.mapInfo && cur.mapInfo[id].nRefCount >= 0
    ensures LimboOf(Ref(cur, slot, id).mapInfo) == LimboOf(cur.mapInfo) - {id}
  {
  }

  lemma RefLoaded(cur: State, s: State, all: seq<int>, news: nat, slot: Slot, id: int)
    requires Loaded(cur, s, all, news) && id in cur.mapInfo
    ensures Loaded(Ref(cur, slot, id), s, all, news)
  {
    var cur' := Ref(cur, slot, id);
    assert cur'.mapInfo.Keys == cur.mapInfo.Keys;
    forall i | 0 <= i < |all| ensures LoadedAs(cur', s, i, all[i], news) { assert LoadedAs(cur, s, i, all[i], news); }
  }

  lemma LoadedEntry(cur: State, s: State, all: seq<int>, news: nat, i: nat)
    requires Loaded(cur, s, all, news) && i < |all|
    ensures i in cur.mapInfo && all[i] in s.mapInfo && ToRecord(cur.mapInfo[i]) == ToRecord(s.mapInfo[all[i]]) &&
      (cur.mapInfo[i].fInTried <==> i >= news)
  {
    assert LoadedAs(cur, s, i, all[i], news);
  }

  lemma IndexStep(bk: Buckets, cur: State, s: State, order: seq<int>, all: seq<int>, b: nat, i: nat)
    requires Consistent(bk, s) && Kind(s, order, false) && Filled(bk, cur, s, order, all, b, i) && (b, i) in s.newTab
    ensures s.newTab[(b, i)] in order
    ensures Filled(bk, LoadIndex(bk, cur, b, Index(order, s.newTab[(b, i)]), |order|, true), s, order, all, b, i + 1)
  {
    hide WF, Loaded;
    var slot: Slot := (b, i);
    var id := s.newTab[slot];
    SlotOf(bk, s, slot);
    var index := Index(order, id);
    LoadedEntry(cur, s, all, |order|, index);
    assert all[index] == id;
    RefFacts(bk, cur, LimboOf(cur.mapInfo), index);
    FewerRefs(s.newTab, order, b, i, slot);
    RefOk(bk, cur, LimboOf(cur.mapInfo), 0, slot, index);
    RefLimbo(cur, slot, index);
    RefLoaded(cur, s, all, |order|, slot, index);
    PartNext(s.newTab, order, b, i);
  }

  lemma {:induction false} BucketOk(bk: Buckets, cur: State, s: State, order: seq<int>, all: seq<int>, b: nat, i: nat)
    requires Consistent(bk, s) && Kind(s, order, false) && Filled(bk, cur, s, order, all, b, 0)
    ensures Filled(bk, LoadBucket(bk, cur, b, BucketList(s.newTab, order, b, i), |order|, true), s, order, all, b, i)
  {
    hide Filled, LoadIndex, Kind, Consistent;
    if i > 0 {
      BucketOk(bk, cur, s, order, all, b, i - 1);
      var list := BucketList(s.newTab, order, b, i - 1);
      var r := LoadBucket(bk, cur, b, list, |order|, true);
      if (b, i - 1) in s.newTab {
        IndexStep(bk, r, s, order, all, b, i - 1);
        var full := BucketList(s.newTab, order, b, i);
        assert full == list + [Index(order, s.newTab[(b, i - 1)])];
        assert full[..|full| - 1] == list;
      } else {
        SkipPlace(bk, r, s, order, all, b, i - 1);
        assert BucketList(s.newTab, order, b, i) == list;
      }
    }
  }

  lemma SkipPlace(bk: Buckets, cur: State, s: State, order: seq<int>, all: seq<int>, b: nat, i: nat)
    requires Filled(bk, cur, s, order, all, b, i) && (b, i) !in s.newTab
    ensures Filled(bk, cur, s, order, all, b, i + 1)
  {
    hide WF, Loaded;
    PartNext(s.newTab, order, b, i);
  }

  lemma NextBucket(bk: Buckets, cur: State, s: State, order: seq<int>, all: seq<int>, b: nat)
    requires Consistent(bk, s) && Filled(bk, cur, s, order, all, b, BUCKET_SIZE)
    ensures Filled(bk, cur, s, order, all, b + 1, 0)
  {
    hide WF, Loaded;
    forall slot: Slot | slot in s.newTab
      ensures Before(slot, b, BUCKET_SIZE) <==> Before(slot, b + 1, 0)
    {
      SlotOf(bk, s, slot);
    }
    assert Part(s.newTab, order, b, BUCKET_SIZE) == Part(s.newTab, order, b + 1, 0);
  }

  predicate BucketsOf(s: State, order: seq<int>, buckets: seq<seq<int>>) {
    forall b :: 0 <= b < |buckets| ==> buckets[b] == BucketList(s.newTab, order, b, BUCKET_SIZE)
  }

  lemma {:induction false} BucketsOk(bk: Buckets, cur: State, s: State, order: seq<int>, all: seq<int>,
    buckets: seq<seq<int>>)
    requires Consistent(bk, s) && Kind(s, order, false) && BucketsOf(s, order, buckets) &&
      Filled(bk, cur, s, order, all, 0, 0)
    ensures Filled(bk, LoadBuckets(bk, cur, buckets, |order|, true), s, order, all, |buckets|, 0)
    decreases |buckets|
  {
    hide Filled, LoadBucket, Kind, Consistent;
    if buckets != [] {
      var last := |buckets| - 1;
      BucketsOk(bk, cur, s, order, all, buckets[..last]);
      var r := LoadBuckets(bk, cur, buckets[..last], |order|, true);
      BucketOk(bk, r, s, order, all, last, BUCKET_SIZE);
      NextBucket(bk, LoadBucket(bk, r, last, buckets[last], |order|, true), s, order, all, last);
    }
  }

  // ---------------------------------------------------------------- all together

  lemma StartFilled(bk: Buckets, cur: State, s: State, order: seq<int>, all: seq<int>)
    requires WF(bk, cur, Upto(|order|), 0) && Loaded(cur, s, all, |order|) && order <= all && cur.newTab == map[]
    ensures Filled(bk, cur, s, order, all, 0, 0)
  {
    hide IdsOk, RandomOk, TriedOk, CountsOk;
    forall i | i in cur.mapInfo ensures i in LimboOf(cur.mapInfo) <==> i in Upto(|order|) {
      assert Refs(cur.newTab, i) == {};
      LoadedEntry(cur, s, all, |order|, i);
    }
    assert LimboOf(cur.mapInfo) == Upto(|order|);
    assert Part(s.newTab, order, 0, 0) == map[];
  }

  /** The same places, renumbered. */
  predicate Renumbered(s: State, cur: State, order: seq<int>) {
    && cur.newTab.Keys == s.newTab.Keys
    && forall slot :: slot in s.newTab ==> s.newTab[slot] in order && cur.newTab[slot] == Index(order, s.newTab[slot])
  }

  lemma WholeTable(bk: Buckets, cur: State, s: State, order: seq<int>, all: seq<int>)
    requires Consistent(bk, s) && Kind(s, order, false) && Filled(bk, cur, s, order, all, NEW_BUCKET_COUNT, 0)
    ensures Renumbered(s, cur, order)
  {
    hide WF, Loaded;
    forall slot: Slot | slot in s.newTab
      ensures Before(slot, NEW_BUCKET_COUNT, 0) && s.newTab[slot] in order
    {
      SlotOf(bk, s, slot);
    }
  }

  lemma SamePlaces(s: State, cur: State, order: seq<int>, i: nat)
    requires Renumbered(s, cur, order) && Ascending(order) && i < |order|
    ensures Refs(cur.newTab, i) == Refs(s.newTab, order[i])
  {
    forall slot: Slot ensures slot in Refs(cur.newTab, i) <==> slot in Refs(s.newTab, order[i]) {
      if slot in s.newTab && s.newTab[slot] == order[i] { assert Index(order, s.newTab[slot]) == i; }
    }
  }

  /** Entry i of the result is entry all[i] of the source. */
  lemma SameCounts(bk: Buckets, cur: State, s: State, order: seq<int>, all: seq<int>, i: nat)
    requires Consistent(bk, s) && Kind(s, order, false) && Renumbered(s, cur, order) && order <= all && i < |all|
    requires WF(bk, cur, LimboOf(cur.mapInfo), 0) && Loaded(cur, s, all, |order|)
    requires all[i] in s.mapInfo && (i >= |order| ==> s.mapInfo[all[i]].fInTried)
    ensures i in cur.mapInfo && cur.mapInfo[i].nRefCount == s.mapInfo[all[i]].nRefCount
    ensures cur.mapInfo[i].fInTried == s.mapInfo[all[i]].fInTried &&
      ToRecord(cur.mapInfo[i]) == ToRecord(s.mapInfo[all[i]])
  {
    hide WF, Loaded;
    LoadedEntry(cur, s, all, |order|, i);
    RefFacts(bk, cur, LimboOf(cur.mapInfo), i);
    RefFacts(bk, s, {}, all[i]);
    if i < |order| {
      assert order[i] in order;
      SamePlaces(s, cur, order, i);
    } else {
      TriedUnreferenced(bk, s, {}, all[i]);
      TriedUnreferenced(bk, cur, LimboOf(cur.mapInfo), i);
    }
  }

  lemma TriedUnreferenced(bk: Buckets, s: State, limbo: set<int>, id: int)
    requires WF(bk, s, limbo, 0) && id in s.mapInfo && s.mapInfo[id].fInTried
    ensures Refs(s.newTab, id) == {}
  {
    forall slot | slot in s.newTab
      ensures s.newTab[slot] != id
    {
      assert NewSlotOk(bk, s.mapInfo, slot, s.newTab[slot]);
    }
  }

  /** All entries of s, once each: first the new ones, then the tried ones. */
  ghost predicate Complete(s: State, order: seq<int>, all: seq<int>) {
    && Kind(s, order, false) && order <= all
    && (forall i :: 0 <= i < |all| ==> all[i] in s.mapInfo && (i >= |order| ==> s.mapInfo[all[i]].fInTried))
    && (forall x :: x in s.mapInfo ==> x in all)
  }

  /** Entry by entry the same as s, under new numbers. */
  predicate Copied(cur: State, s: State, all: seq<int>) {
    && cur.mapInfo.Keys == Upto(|all|)
    && forall i :: 0 <= i < |all| ==> CopiedAs(cur, s, i, all[i])
  }

  predicate CopiedAs(cur: State, s: State, i: int, id: int) {
    && i in cur.mapInfo && id in s.mapInfo
    && ToRecord(cur.mapInfo[i]) == ToRecord(s.mapInfo[id])
    && cur.mapInfo[i].nRefCount == s.mapInfo[id].nRefCount && cur.mapInfo[i].fInTried == s.mapInfo[id].fInTried
  }

  lemma AllCopied(bk: Buckets, cur: State, s: State, order: seq<int>, all: seq<int>)
    requires Consistent(bk, s) && Complete(s, order, all) && Renumbered(s, cur, order)
    requires WF(bk, cur, LimboOf(cur.mapInfo), 0) && Loaded(cur, s, all, |order|)
    ensures Copied(cur, s, all)
  {
    hide WF;
    forall i | 0 <= i < |all| ensures CopiedAs(cur, s, i, all[i]) { SameCounts(bk, cur, s, order, all, i); }
  }

  lemma NobodyInLimbo(bk: Buckets, cur: State, s: State, all: seq<int>)
    requires Consistent(bk, s) && Copied(cur, s, all)
    ensures LimboOf(cur.mapInfo) == {}
  {
    forall i | i in cur.mapInfo ensures i !in LimboOf(cur.mapInfo) { assert CopiedAs(cur, s, i, all[i]); }
  }

  lemma {:induction false} NothingToPrune(cur: State, ids: seq<int>)
    requires LimboOf(cur.mapInfo) == {}
    ensures Prune(cur, ids) == cur
  {
    if ids != [] {
      var id := ids[|ids| - 1];
      NothingToPrune(cur, ids[..|ids| - 1]);
      assert id !in LimboOf(cur.mapInfo);
    }
  }

  lemma CopiedNewBook(bk: Buckets, cur: State, s: State, order: seq<int>, all: seq<int>)
    requires Consistent(bk, s) && Complete(s, order, all) && Renumbered(s, cur, order) && Copied(cur, s, all)
    ensures NewBook(cur) == NewBook(s)
  {
    hide WF, NewBook;
    forall slot | slot in s.newTab ensures IpOf(cur.mapInfo, cur.newTab[slot]) == IpOf(s.mapInfo, s.newTab[slot]) {
      var i := Index(order, s.newTab[slot]);
      assert all[i] == order[i];
      assert CopiedAs(cur, s, i, all[i]);
    }
    EqualNewBooks(cur, s);
  }

  lemma EqualNewBooks(cur: State, s: State)
    requires cur.newTab.Keys == s.newTab.Keys
    requires forall slot :: slot in s.newTab ==> IpOf(cur.mapInfo, cur.newTab[slot]) == IpOf(s.mapInfo, s.newTab[slot])
    ensures NewBook(cur) == NewBook(s)
  {
    assert NewBook(cur).Keys == NewBook(s).Keys;
  }

  lemma CopiedTriedBook(bk: Buckets, cur: State, s: State, order: seq<int>, all: seq<int>)
    requires Consistent(bk, s) && Consistent(bk, cur) && Complete(s, order, all) && Copied(cur, s, all)
    ensures TriedBook(cur) == TriedBook(s)
  {
    hide IdsOk, RandomOk, NewOk, StatusOk, CountsOk;
    forall slot | slot in s.triedTab
      ensures slot in cur.triedTab && IpOf(cur.mapInfo, cur.triedTab[slot]) == IpOf(s.mapInfo, s.triedTab[slot])
    {
      var id := s.triedTab[slot];
      assert TriedSlotOk(bk, s.mapInfo, slot, id);
      assert id in all;
      var i :| 0 <= i < |all| && all[i] == id;
      assert CopiedAs(cur, s, i, all[i]);
      assert InTriedTable(bk, cur.mapInfo[i].addr, cur.triedTab, i);
    }
    forall slot | slot in cur.triedTab ensures slot in s.triedTab {
      var i := cur.triedTab[slot];
      assert TriedSlotOk(bk, cur.mapInfo, slot, i);
      assert CopiedAs(cur, s, i, all[i]);
      assert InTriedTable(bk, s.mapInfo[all[i]].addr, s.triedTab, all[i]);
    }
    assert TriedBook(cur).Keys == TriedBook(s).Keys;
  }

  /** Address by address: known to the one iff known to the other, with the same record, count and table. */
  predicate SameEntries(s: State, r: State) {
    && r.mapAddr.Keys == s.mapAddr.Keys
    && forall ip :: ip in s.mapAddr ==> CopiedAs(r, s, r.mapAddr[ip], s.mapAddr[ip])
  }

  lemma CopiedEntries(bk: Buckets, cur: State, s: State, order: seq<int>, all: seq<int>)
    requires Consistent(bk, s) && Consistent(bk, cur) && Complete(s, order, all) && Copied(cur, s, all)
    ensures SameEntries(s, cur)
  {
    hide RandomOk, NewOk, TriedOk, StatusOk, CountsOk;
    forall ip | ip in s.mapAddr ensures ip in cur.mapAddr && CopiedAs(cur, s, cur.mapAddr[ip], s.mapAddr[ip]) {
      var id := s.mapAddr[ip];
      assert id in all;
      var i :| 0 <= i < |all| && all[i] == id;
      assert CopiedAs(cur, s, i, all[i]);
    }
    forall ip | ip in cur.mapAddr ensures ip in s.mapAddr {
      var i := cur.mapAddr[ip];
      assert i in cur.mapInfo;
      assert CopiedAs(cur, s, i, all[i]);
    }
  }

  lemma CopiedSizes(bk: Buckets, cur: State, s: State)
    requires Consistent(bk, s) && Consistent(bk, cur) && SameEntries(s, cur)
    ensures cur.nTried == s.nTried && cur.nNew == s.nNew
  {
    SizeByAddr(bk, s);
    SizeByAddr(bk, cur);
    TriedByAddr(bk, s, cur);
  }

  function TriedAddrs(s: State): set<NetAddr> {
    set ip | ip in s.mapAddr && s.mapAddr[ip] in s.mapInfo && s.mapInfo[s.mapAddr[ip]].fInTried
  }

  lemma SizeByAddr(bk: Buckets, s: State)
    requires Consistent(bk, s)
    ensures |s.mapInfo| == |s.mapAddr| && s.nTried == |TriedAddrs(s)| && s.nNew + s.nTried == |s.mapInfo|
  {
    hide IdsOk, RandomOk, NewOk, TriedOk, StatusOk;
    InfoSize(s);
    TriedSize(s);
  }

  lemma OneToOne(s: State)
    requires IdsOk(s)
    ensures forall x, y :: x in s.mapInfo && y in s.mapInfo && IpOf(s.mapInfo, x) == IpOf(s.mapInfo, y) ==> x == y
    ensures forall x :: x in s.mapInfo ==> IpOf(s.mapInfo, x) in s.mapAddr
    ensures forall a :: a in s.mapAddr ==> s.mapAddr[a] in s.mapInfo && IpOf(s.mapInfo, s.mapAddr[a]) == a
  {
  }

  lemma InfoSize(s: State)
    requires IdsOk(s)
    ensures |s.mapInfo| == |s.mapAddr|
  {
    OneToOne(s);
    hide IdsOk, IpOf;
    var f := (id: int) => IpOf(s.mapInfo, id);
    var ids, ips := s.mapInfo.Keys, s.mapAddr.Keys;
    forall a | a in ips ensures exists x :: x in ids && f(x) == a {
      var x := s.mapAddr[a];
      assert x in ids && f(x) == a;
    }
    ImageSize(ids, ips, f);
    assert |ids| == |s.mapInfo| && |ips| == |s.mapAddr|;
  }

  lemma TriedSize(s: State)
    requires IdsOk(s)
    ensures |TriedIds(s.mapInfo)| == |TriedAddrs(s)|
  {
    var f := (id: int) => IpOf(s.mapInfo, id);
    forall a | a in TriedAddrs(s) ensures exists x :: x in TriedIds(s.mapInfo) && f(x) == a {
      assert s.mapAddr[a] in TriedIds(s.mapInfo) && f(s.mapAddr[a]) == a;
    }
    ImageSize(TriedIds(s.mapInfo), TriedAddrs(s), f);
  }

  /** A one-to-one correspondence keeps the size. */
  lemma {:induction false} ImageSize(ids: set<int>, ips: set<NetAddr>, f: int -> NetAddr)
    requires forall x, y :: x in ids && y in ids && f(x) == f(y) ==> x == y
    requires forall x :: x in ids ==> f(x) in ips
    requires forall a :: a in ips ==> exists x :: x in ids && f(x) == a
    ensures |ids| == |ips|
    decreases |ids|
  {
    if ids == {} {
      assert ips == {};
    } else {
      Inhabited(ids);
      var x :| x in ids;
      var ids', ips' := ids - {x}, ips - {f(x)};
      forall a | a in ips' ensures exists y :: y in ids' && f(y) == a {
        var y :| y in ids && f(y) == a;
        assert y in ids';
      }
      ImageSize(ids', ips', f);
    }
  }

  lemma TriedByAddr(bk: Buckets, s: State, cur: State)
    requires SameEntries(s, cur)
    ensures TriedAddrs(s) == TriedAddrs(cur) && |s.mapAddr| == |cur.mapAddr|
  {
    forall ip | ip in s.mapAddr ensures ip in TriedAddrs(s) <==> ip in TriedAddrs(cur) {
      assert CopiedAs(cur, s, cur.mapAddr[ip], s.mapAddr[ip]);
    }
    assert |s.mapAddr.Keys| == |s.mapAddr| && |cur.mapAddr.Keys| == |cur.mapAddr|;
  }

  lemma ListOf(s: State, order: seq<int>, tried: bool)
    requires Kind(s, order, tried)
    ensures Listed(s, order, Records(s.mapInfo, order), tried)
  {
  }

  lemma CompleteOf(s: State, order: seq<int>, tried: seq<int>)
    requires Kind(s, order, false) && Kind(s, tried, true)
    ensures Complete(s, order, order + tried)
    ensures forall i :: 0 <= i < |tried| ==> tried[i] !in order
  {
    forall x | x in s.mapInfo ensures x in order + tried { assert x in order || x in tried; }
  }

  lemma Lists(bk: Buckets, s: State)
    requires Consistent(bk, s)
    ensures Listed(s, NewOrder(s), Encode(s, 0).newer, false)
    ensures Listed(s, TriedOrder(s), Encode(s, 0).tried, true)
    ensures Complete(s, NewOrder(s), NewOrder(s) + TriedOrder(s))
    ensures forall i :: 0 <= i < |TriedOrder(s)| ==> TriedOrder(s)[i] !in NewOrder(s)
  {
    hide WF, Consistent, Select, Sorted, NewOrder, TriedOrder, Listed, Complete, Records;
    OrderFacts(bk, s);
    ListOf(s, NewOrder(s), false);
    ListOf(s, TriedOrder(s), true);
    CompleteOf(s, NewOrder(s), TriedOrder(s));
  }

  /** Entries and tables as read, before pruning. */
  lemma ReadBack(bk: Buckets, s: State, order: seq<int>, tried: seq<int>, d: Dump)
    requires Consistent(bk, s) && Complete(s, order, order + tried) && Usable(d)
    requires Listed(s, order, d.newer, false) && Listed(s, tried, d.tried, true)
    requires forall i :: 0 <= i < |tried| ==> tried[i] !in order
    requires BucketsOf(s, order, d.buckets) && |d.buckets| == NEW_BUCKET_COUNT
    requires d.nNew == |order| && d.nTried == |tried|
    ensures Filled(bk, ReadTables(bk, d), s, order, order + tried, NEW_BUCKET_COUNT, 0)
  {
    hide *;
    ListedSize(s, order, d.newer, false);
    ListedSize(s, tried, d.tried, true);
    assert d.newer[..|order|] == d.newer && order[..|order|] == order;
    AllNew(bk, s, order, d.newer, |order|);
    var r1 := LoadAllNew(bk, Nothing, d.newer, true);
    assert d.tried[..|tried|] == d.tried && tried[..|tried|] == tried;
    AllTried(bk, s, order, tried, d.tried, r1, |tried|);
    var r2 := LoadAllTried(bk, r1, d.tried);
    CountersRead(bk, s, r1, r2, order, tried, d);
    StartFilled(bk, r2, s, order, order + tried);
    assert Kind(s, order, false) by { CompleteIn(s, order, order + tried); }
    BucketsOk(bk, r2, s, order, order + tried, d.buckets);
    AsRead(bk, d, r1, r2);
  }

  lemma AsRead(bk: Buckets, d: Dump, r1: State, r2: State)
    requires Usable(d) && r1 == LoadAllNew(bk, Nothing, d.newer, true) && NewRead(r1, d) == r1
    requires r2 == LoadAllTried(bk, r1, d.tried) && TriedRead(r2, d) == r2
    ensures ReadTables(bk, d) == LoadBuckets(bk, r2, d.buckets, d.nNew, true)
  {
  }

  /** The counters that the stream announces are the ones that have been counted. */
  lemma CountersRead(bk: Buckets, s: State, r1: State, r2: State, order: seq<int>, tried: seq<int>, d: Dump)
    requires WF(bk, r1, Upto(|order|), 0) && Loaded(r1, s, order, |order|)
    requires WF(bk, r2, Upto(|order|), 0) && Loaded(r2, s, order + tried, |order|)
    requires d.nNew == |order| && d.nTried == |tried| == |d.tried|
    ensures NewRead(r1, d) == r1 && TriedRead(r2, d) == r2
  {
    hide IdsOk, RandomOk, NewOk, TriedOk, StatusOk, Loaded;
    TriedFrom(r1, s, order, |order|);
    TriedFrom(r2, s, order + tried, |order|);
    LoadedFacts(r1, s, order, |order|);
  }

  lemma TriedFrom(cur: State, s: State, all: seq<int>, news: nat)
    requires Loaded(cur, s, all, news)
    ensures |TriedIds(cur.mapInfo)| == |all| - news && |cur.mapInfo| == |all|
  {
    forall i ensures i in TriedIds(cur.mapInfo) <==> i in Upto(|all|) - Upto(news) {
      if 0 <= i < |all| { LoadedEntry(cur, s, all, news, i); }
    }
    assert TriedIds(cur.mapInfo) == Upto(|all|) - Upto(news);
    assert Upto(news) <= Upto(|all|);
    UptoSize(|all|);
    UptoSize(news);
    assert |cur.mapInfo.Keys| == |cur.mapInfo|;
  }

  lemma {:induction false} UptoSize(n: nat)
    ensures |Upto(n)| == n
  {
    if n > 0 { UptoSize(n - 1); }
  }

  lemma ListedSize(s: State, order: seq<int>, rs: seq<Record>, tried: bool)
    requires Listed(s, order, rs, tried)
    ensures |rs| == |order|
  {
  }

  lemma CompleteIn(s: State, order: seq<int>, all: seq<int>)
    requires Complete(s, order, all)
    ensures Kind(s, order, false) && order <= all
  {
  }

  lemma FilledParts(bk: Buckets, cur: State, s: State, order: seq<int>, all: seq<int>, b: nat, i: nat)
    requires Filled(bk, cur, s, order, all, b, i)
    ensures WF(bk, cur, LimboOf(cur.mapInfo), 0) && Loaded(cur, s, all, |order|)
  {
  }

  /** A completely filled manager is a consistent copy. */
  lemma FilledIsCopy(bk: Buckets, r: State, s: State, order: seq<int>, all: seq<int>)
    requires Consistent(bk, s) && Complete(s, order, all) && Filled(bk, r, s, order, all, NEW_BUCKET_COUNT, 0)
    ensures LimboOf(r.mapInfo) == {} && Consistent(bk, r)
    ensures SameBook(s, r) && SameEntries(s, r) && r.nNew == s.nNew && r.nTried == s.nTried
  {
    hide *;
    CompleteIn(s, order, all);
    FilledParts(bk, r, s, order, all, NEW_BUCKET_COUNT, 0);
    WholeTable(bk, r, s, order, all);
    AllCopied(bk, r, s, order, all);
    NobodyInLimbo(bk, r, s, all);
    IsConsistent(bk, r);
    CopiedNewBook(bk, r, s, order, all);
    CopiedTriedBook(bk, r, s, order, all);
    BooksAgree(s, r);
    CopiedEntries(bk, r, s, order, all);
    CopiedSizes(bk, r, s);
  }

  lemma IsConsistent(bk: Buckets, r: State)
    requires WF(bk, r, {}, 0)
    ensures Consistent(bk, r)
  {
  }

  lemma BooksAgree(s: State, r: State)
    requires NewBook(r) == NewBook(s) && TriedBook(r) == TriedBook(s)
    ensures SameBook(s, r)
  {
  }

  lemma EncodedBuckets(s: State, key: nat)
    ensures BucketsOf(s, NewOrder(s), Encode(s, key).buckets) && |Encode(s, key).buckets| == NEW_BUCKET_COUNT
    ensures Usable(Encode(s, key))
  {
    hide Select, Sorted, Records, BucketList;
  }

  // ---------------------------------------------------------------- the reader's limits

  /** All places of a table. */
  function Grid(buckets: nat): set<Slot> {
    if buckets == 0 then {} else Grid(buckets - 1) + Row(buckets - 1, BUCKET_SIZE)
  }

  function Row(b: nat, n: nat): (r: set<Slot>)
    ensures |r| <= n
  {
    if n == 0 then {} else Row(b, n - 1) + {(b, n - 1)}
  }

  lemma {:induction false} InRow(b: nat, n: nat, p: nat)
    requires p < n
    ensures (b, p) in Row(b, n)
  {
    if p < n - 1 { InRow(b, n - 1, p); }
  }

  lemma {:induction false} InGrid(buckets: nat, b: nat, p: nat)
    requires b < buckets && p < BUCKET_SIZE
    ensures (b, p) in Grid(buckets)
  {
    hide Row;
    if b < buckets - 1 {
      InGrid(buckets - 1, b, p);
    } else {
      InRow(b, BUCKET_SIZE, p);
    }
  }

  lemma {:induction false} GridSize(buckets: nat)
    ensures |Grid(buckets)| <= buckets * BUCKET_SIZE
  {
    hide Row;
    if buckets > 0 { GridSize(buckets - 1); }
  }

  /** Entries that all have a place are no more than the places. */
  lemma {:induction false} PlacedSize(ids: set<int>, tab: map<Slot, int>)
    requires ids <= tab.Values
    ensures |ids| <= |tab|
    decreases |ids|
  {
    if ids != {} {
      Inhabited(ids);
      var id :| id in ids;
      var slot :| slot in tab && tab[slot] == id;
      var tab' := tab - {slot};
      forall x | x in ids - {id} ensures x in tab'.Values {
        var p :| p in tab && tab[p] == x;
        assert p in tab' && tab'[p] == x;
      }
      PlacedSize(ids - {id}, tab');
      assert tab'.Keys == tab.Keys - {slot};
      assert |tab.Keys| == |tab| && |tab'.Keys| == |tab'|;
    }
  }

  lemma TableSize(ids: set<int>, tab: map<Slot, int>, buckets: nat)
    requires ids <= tab.Values && tab.Keys <= Grid(buckets)
    ensures |ids| <= buckets * BUCKET_SIZE
  {
    PlacedSize(ids, tab);
    SubsetSize(tab.Keys, Grid(buckets));
    GridSize(buckets);
    assert |tab.Keys| == |tab|;
  }

  lemma TriedFits(bk: Buckets, s: State)
    requires Consistent(bk, s)
    ensures s.nTried <= TRIED_BUCKET_COUNT * BUCKET_SIZE
  {
    hide IdsOk, RandomOk, NewOk, StatusOk, Grid;
    forall id | id in TriedIds(s.mapInfo) ensures id in s.triedTab.Values {
      assert InTriedTable(bk, s.mapInfo[id].addr, s.triedTab, id);
    }
    forall slot | slot in s.triedTab ensures slot in Grid(TRIED_BUCKET_COUNT) {
      assert TriedSlotOk(bk, s.mapInfo, slot, s.triedTab[slot]);
      InGrid(TRIED_BUCKET_COUNT, slot.0, slot.1);
    }
    TableSize(TriedIds(s.mapInfo), s.triedTab, TRIED_BUCKET_COUNT);
  }

  lemma NewPlaced(bk: Buckets, s: State)
    requires Consistent(bk, s)
    ensures s.mapInfo.Keys - TriedIds(s.mapInfo) <= s.newTab.Values
  {
    hide IdsOk, RandomOk, TriedOk, CountsOk;
    forall id | id in s.mapInfo.Keys - TriedIds(s.mapInfo) ensures id in s.newTab.Values {
      assert |Refs(s.newTab, id)| >= 1;
      var slot :| slot in Refs(s.newTab, id);
    }
  }

  lemma NewFits(bk: Buckets, s: State)
    requires Consistent(bk, s)
    ensures s.nNew <= NEW_BUCKET_COUNT * BUCKET_SIZE
  {
    hide IdsOk, RandomOk, TriedOk, StatusOk, Grid;
    var ids := s.mapInfo.Keys - TriedIds(s.mapInfo);
    NewPlaced(bk, s);
    forall slot | slot in s.newTab ensures slot in Grid(NEW_BUCKET_COUNT) {
      assert NewSlotOk(bk, s.mapInfo, slot, s.newTab[slot]);
      InGrid(NEW_BUCKET_COUNT, slot.0, slot.1);
    }
    TableSize(ids, s.newTab, NEW_BUCKET_COUNT);
    assert TriedIds(s.mapInfo) <= s.mapInfo.Keys;
    assert |s.mapInfo.Keys| == |s.mapInfo|;
  }

  /** What a consistent manager writes is within the reader's limits, and as long as the reader expects. */
  lemma WrittenIsAccepted(bk: Buckets, s: State, key: nat)
    requires Consistent(bk, s)
    ensures Accepted(Encode(s, key)) && Readable(Encode(s, key))
  {
    hide WF, Consistent, Select, Sorted, Records, BucketList;
    OrderSizes(bk, s);
    NewFits(bk, s);
    TriedFits(bk, s);
  }

  // ---------------------------------------------------------------- the round trip

  /** The round trip: what a consistent manager writes is accepted, and read back as a consistent manager with the same
      addresses in the same places of both tables, the same records and reference counts, and the same counters; no
      entry is lost. */
  lemma RoundTrip(bk: Buckets, s: State, key: nat)
    requires Consistent(bk, s)
    ensures Accepted(Encode(s, key)) && Readable(Encode(s, key))
    ensures var r := Decode(bk, Encode(s, key));
      && Consistent(bk, r) && SameBook(s, r) && SameEntries(s, r)
      && r.nNew == s.nNew && r.nTried == s.nTried
  {
    hide WF, Consistent, Complete, Filled, Listed, BucketsOf, SameBook, SameEntries, Select, Sorted, BucketList,
         Records, ReadTables, Prune, Usable, LimboOf, Accepted, Readable;
    WrittenIsAccepted(bk, s, key);
    Lists(bk, s);
    OrderSizes(bk, s);
    EncodedBuckets(s, key);
    var d := Encode(s, key);
    var order, tried := NewOrder(s), TriedOrder(s);
    assert d.newer == Encode(s, 0).newer && d.tried == Encode(s, 0).tried;
    ReadBack(bk, s, order, tried, d);
    var r := ReadTables(bk, d);
    FilledIsCopy(bk, r, s, order, order + tried);
    NothingToPrune(r, Sorted(r.mapInfo.Keys));
  }
}
