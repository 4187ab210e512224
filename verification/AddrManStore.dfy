/**
 Writing the address manager to disk and reading it back.  Ids are not written: entries are numbered in the order of
 the id map, the "tried" table is recomputed, the "new" table is written as entry numbers per bucket.  Reading what a
 consistent manager has written gives back the same tables, addresses and counts.
 */
module AddrManStore {
  import opened AddrManState
  import opened AddrManBook
  import opened Sets

  /** The serialized part of an entry. */
  datatype Record = Record(
    addr: Service, source: NetAddr, nTime: int, nServices: set<nat>, nLastSuccess: int, nAttempts: int)

  /** The stream, field by field; a bucket list stands for its length and its entry numbers. */
  datatype Dump = Dump(
    nVersion: nat, nKeySize: nat, nKey: nat, nNew: int, nTried: int, nUBuckets: int,
    newer: seq<Record>, tried: seq<Record>, buckets: seq<seq<int>>)

  datatype Result<T> = Failure(message: string) | Success(value: T)

  const BIT30: int := 0x4000_0000

  /** x ^ (1 << 30) */
  function Flip(x: int): int {
    if (x / BIT30) % 2 == 0 then x + BIT30 else x - BIT30
  }

  /** Flipping the bit twice is nothing; below 2^30 it adds 2^30, so no bucket count that small passes for another. */
  lemma FlipTwice(x: int)
    ensures Flip(Flip(x)) == x && Flip(x) != x
    ensures 0 <= x < 0x4000_0000 ==> Flip(x) == x + 0x4000_0000
  {
    NextUp(x);
    NextUp(x - BIT30);
  }

  lemma NextUp(x: int)
    ensures (x + BIT30) / BIT30 == x / BIT30 + 1
  {
  }

  function ToRecord(i: Info): Record {
    Record(i.addr, i.source, i.nTime, i.nServices, i.nLastSuccess, i.nAttempts)
  }

  /** The memory-only fields start afresh. */
  function FromRecord(r: Record): Info {
    Info(r.addr, r.source, r.nTime, r.nServices, r.nLastSuccess, r.nAttempts, 0, 0, 0, false, -1)
  }

  /** Of an entry that is written and read, only what is kept in memory alone starts afresh. */
  lemma RecordKeeps(i: Info)
    ensures FromRecord(ToRecord(i)) ==
      i.(nLastTry := 0, nLastCountAttempt := 0, nRefCount := 0, fInTried := false, nRandomPos := -1)
  {
  }

  // ---------------------------------------------------------------- map order

  predicate Ascending(q: seq<int>) {
    forall i, j :: 0 <= i < j < |q| ==> q[i] < q[j]
  }

  /** The ids in the order in which a std::map is walked. */
  function Sorted(ids: set<int>): (q: seq<int>)
    ensures Ascending(q) && |q| == |ids| && forall x :: x in q <==> x in ids
    decreases |ids|
  {
    if ids == {} then []
    else
      var m := Least(ids);
      var rest := Sorted(ids - {m});
      assert forall x :: x in [m] + rest <==> x == m || x in rest;
      [m] + rest
  }

  /** The entries of one kind, in map order: those with references, or those in the "tried" table. */
  function Select(m: map<int, Info>, ids: seq<int>, tried: bool): (r: seq<int>)
    ensures forall x :: x in r <==> x in ids && x in m && Selected(m[x], tried)
    ensures Ascending(ids) ==> Ascending(r)
  {
    if ids == [] then []
    else
      var front, last := ids[..|ids| - 1], ids[|ids| - 1];
      assert ids == front + [last];
      var r := Select(m, front, tried);
      assert Ascending(ids) ==> Ascending(r + [last]) by { if Ascending(ids) { AscendingAppend(ids, r); } }
      if last in m && Selected(m[last], tried) then r + [last] else r
  }

  lemma AscendingAppend(ids: seq<int>, r: seq<int>)
    requires ids != [] && Ascending(ids) && Ascending(r) && forall x :: x in r ==> x in ids[..|ids| - 1]
    ensures Ascending(r + [ids[|ids| - 1]])
  {
    forall i | 0 <= i < |r| ensures r[i] < ids[|ids| - 1] { assert r[i] in r; }
  }

  predicate Selected(i: Info, tried: bool) {
    if tried then i.fInTried else i.nRefCount != 0
  }

  function NewOrder(s: State): seq<int> { Select(s.mapInfo, Sorted(s.mapInfo.Keys), false) }

  function TriedOrder(s: State): seq<int> { Select(s.mapInfo, Sorted(s.mapInfo.Keys), true) }

  function Index(q: seq<int>, x: int): (r: nat)
    requires x in q
    ensures r < |q| && q[r] == x
  {
    if q[|q| - 1] == x then |q| - 1
    else
      assert q == q[..|q| - 1] + [q[|q| - 1]];
      Index(q[..|q| - 1], x)
  }

  // ---------------------------------------------------------------- writing

  function RecordAt(m: map<int, Info>, id: int): Record {
    if id in m then ToRecord(m[id]) else Record(Service(0, 0), 0, 0, {}, 0, 0)
  }

  function Records(m: map<int, Info>, ids: seq<int>): (r: seq<Record>)
    ensures |r| == |ids| && forall i :: 0 <= i < |r| ==> r[i] == RecordAt(m, ids[i])
  {
    if ids == [] then [] else Records(m, ids[..|ids| - 1]) + [RecordAt(m, ids[|ids| - 1])]
  }

  /** The entry numbers in the first `n` places of a bucket. */
  function BucketList(newTab: map<Slot, int>, order: seq<int>, b: nat, n: nat): seq<int> {
    if n == 0 then []
    else
      var here := if (b, n - 1) in newTab && newTab[(b, n - 1)] in order then [Index(order, newTab[(b, n - 1)])]
        else [];
      BucketList(newTab, order, b, n - 1) + here
  }

  function Encode(s: State, key: nat): Dump {
    Dump(1, 32, key, s.nNew, s.nTried, Flip(NEW_BUCKET_COUNT),
         Records(s.mapInfo, NewOrder(s)), Records(s.mapInfo, TriedOrder(s)),
         seq(NEW_BUCKET_COUNT, b requires 0 <= b < NEW_BUCKET_COUNT =>
           BucketList(s.newTab, NewOrder(s), b, BUCKET_SIZE)))
  }

  // ---------------------------------------------------------------- reading

  /** An entry of the "new" list; if the bucket lists cannot be used it gets its primary place if that is free. */
  function LoadNew(bk: Buckets, s: State, r: Record, usable: bool): State {
    var s1 := Create(s, FromRecord(r)).(nNew := s.nNew + 1);
    var slot := NewSlot(bk, r.addr, r.source);
    if !usable && slot !in s1.newTab then Ref(s1, slot, s.nIdCount) else s1
  }

  /** An entry of the "tried" list; it is lost if its place is taken.  A place that holds -1 counts as free. */
  function LoadTried(bk: Buckets, s: State, r: Record): State {
    var slot := TriedSlot(bk, r.addr);
    if slot in s.triedTab then s
    else
      var s1 := Try(Create(s, FromRecord(r)), slot, s.nIdCount);
      if s.nIdCount == -1 then s1.(triedTab := s.triedTab) else s1
  }

  function LoadIndex(bk: Buckets, s: State, b: nat, index: int, nNew: int, usable: bool): State {
    if 0 <= index < nNew && index in s.mapInfo then
      var slot: Slot := (b, NewPosition(bk, b, s.mapInfo[index].addr));
      if usable && slot !in s.newTab && s.mapInfo[index].nRefCount < NEW_BUCKETS_PER_ADDRESS then Ref(s, slot, index)
      else s
    else s
  }

  /** An entry nobody refers to is dropped. */
  function PruneOne(s: State, id: int): State {
    if id in s.mapInfo && !s.mapInfo[id].fInTried && s.mapInfo[id].nRefCount == 0 &&
       0 <= s.mapInfo[id].nRandomPos < |s.vRandom| &&
       s.vRandom[s.mapInfo[id].nRandomPos] in s.mapInfo && s.vRandom[|s.vRandom| - 1] in s.mapInfo
    then Remove(s, id) else s
  }

  function LoadAllNew(bk: Buckets, s: State, rs: seq<Record>, usable: bool): State {
    if rs == [] then s else LoadNew(bk, LoadAllNew(bk, s, rs[..|rs| - 1], usable), rs[|rs| - 1], usable)
  }

  function LoadAllTried(bk: Buckets, s: State, rs: seq<Record>): State {
    if rs == [] then s else LoadTried(bk, LoadAllTried(bk, s, rs[..|rs| - 1]), rs[|rs| - 1])
  }

  function LoadBucket(bk: Buckets, s: State, b: nat, list: seq<int>, nNew: int, usable: bool): State {
    if list == [] then s
    else
      var last := |list| - 1;
      LoadIndex(bk, LoadBucket(bk, s, b, list[..last], nNew, usable), b, list[last], nNew, usable)
  }

  function LoadBuckets(bk: Buckets, s: State, buckets: seq<seq<int>>, nNew: int, usable: bool): State {
    if buckets == [] then s
    else
      var last := |buckets| - 1;
      LoadBucket(bk, LoadBuckets(bk, s, buckets[..last], nNew, usable), last, buckets[last], nNew, usable)
  }

  function Prune(s: State, ids: seq<int>): State {
    if ids == [] then s else PruneOne(Prune(s, ids[..|ids| - 1]), ids[|ids| - 1])
  }

  predicate Usable(d: Dump) {
    d.nVersion == 1 && BucketLists(d) == NEW_BUCKET_COUNT
  }

  /** The bucket lists that the stream announces. */
  function BucketLists(d: Dump): int {
    if d.nVersion != 0 then Flip(d.nUBuckets) else d.nUBuckets
  }

  /** How often a loop up to `n` goes round. */
  function Rounds(n: int): nat {
    if n > 0 then n else 0
  }

  /** The counts that the reader does not refuse. */
  predicate Accepted(d: Dump) {
    d.nKeySize == 32 && d.nNew <= NEW_BUCKET_COUNT * BUCKET_SIZE && d.nTried <= TRIED_BUCKET_COUNT * BUCKET_SIZE
  }

  /** The stream goes on for as long as the reader reads. */
  predicate Readable(d: Dump) {
    |d.newer| == Rounds(d.nNew) && |d.tried| == Rounds(d.nTried) && |d.buckets| == Rounds(BucketLists(d))
  }

  /** Ids go on from the number of new entries that the stream announces. */
  function NewRead(s: State, d: Dump): State {
    s.(nNew := d.nNew, nIdCount := d.nNew)
  }

  /** What is lost is taken from the number of tried entries that the stream announces. */
  function TriedRead(s: State, d: Dump): State {
    s.(nTried := d.nTried - (|d.tried| - s.nTried))
  }

  /** The entries of the stream, read into an empty manager. */
  function ReadEntries(bk: Buckets, d: Dump): State {
    TriedRead(LoadAllTried(bk, NewRead(LoadAllNew(bk, Nothing, d.newer, Usable(d)), d), d.tried), d)
  }

  /** The entries and their places. */
  function ReadTables(bk: Buckets, d: Dump): State {
    LoadBuckets(bk, ReadEntries(bk, d), d.buckets, d.nNew, Usable(d))
  }

  /** The state read into an empty manager. */
  function Decode(bk: Buckets, d: Dump): State {
    var s := ReadTables(bk, d);
    Prune(s, Sorted(s.mapInfo.Keys))
  }

  // ---------------------------------------------------------------- the loops

  lemma {:induction false} AscendingSize(q: seq<int>, ids: set<int>)
    requires Ascending(q) && forall x :: x in q <==> x in ids
    ensures |q| == |ids|
  {
    if q == [] {
      if ids != {} { Inhabited(ids); }
    } else {
      var front, last := q[..|q| - 1], q[|q| - 1];
      assert q == front + [last];
      assert last in q;
      forall x ensures x in front <==> x in ids - {last} {
        assert x in q <==> x in front || x == last;
      }
      AscendingSize(front, ids - {last});
    }
  }

  /** Serialize's two assertions on the counters. */
  lemma OrderSizes(bk: Buckets, s: State)
    requires Consistent(bk, s)
    ensures |NewOrder(s)| == s.nNew && |TriedOrder(s)| == s.nTried
  {
    hide IdsOk, RandomOk, TriedOk;
    var m := s.mapInfo;
    forall id | id in m ensures m[id].nRefCount != 0 <==> !m[id].fInTried {
      if m[id].fInTried {
        forall slot | slot in s.newTab ensures s.newTab[slot] != id { assert NewSlotOk(bk, m, slot, s.newTab[slot]); }
        assert Refs(s.newTab, id) == {};
      }
    }
    KindSizes(s);
  }

  lemma KindSizes(s: State)
    requires CountsOk(s, 0)
    requires forall id :: id in s.mapInfo ==> (s.mapInfo[id].nRefCount != 0 <==> !s.mapInfo[id].fInTried)
    ensures |NewOrder(s)| == s.nNew && |TriedOrder(s)| == s.nTried
  {
    hide Sorted, Select;
    var m := s.mapInfo;
    var tried := TriedIds(m);
    SelectedIds(m, Sorted(m.Keys), true, tried);
    SelectedIds(m, Sorted(m.Keys), false, m.Keys - tried);
    assert tried + (m.Keys - tried) == m.Keys;
    assert |m.Keys| == |tried| + |m.Keys - tried|;
    assert |m.Keys| == |m|;
  }

  lemma SelectedIds(m: map<int, Info>, ids: seq<int>, tried: bool, which: set<int>)
    requires Ascending(ids) && forall x :: x in m ==> x in ids
    requires forall x :: x in which <==> x in m && Selected(m[x], tried)
    ensures |Select(m, ids, tried)| == |which|
  {
    hide Select;
    AscendingSize(Select(m, ids, tried), which);
  }

  method Serialize(s: State, key: nat, ghost bk: Buckets) returns (d: Dump)
    requires Consistent(bk, s)
    ensures d == Encode(s, key)
  {
    hide WF, Consistent, Sorted, Select, Records, BucketList;
    OrderSizes(bk, s);
    TableListed(bk, s);
    var ids := Sorted(s.mapInfo.Keys);
    var newer, numbers := WriteNew(s, ids);
    var tried := WriteTried(s, ids);
    assert ids[..|ids|] == ids;
    var buckets := WriteBuckets(s.newTab, NewOrder(s), numbers);
    d := Dump(1, 32, key, s.nNew, s.nTried, Flip(NEW_BUCKET_COUNT), newer, tried, buckets);
    assert d.buckets == Encode(s, key).buckets;
  }

  /** Each listed id has the number of its place in the list. */
  predicate Numbered(numbers: map<int, nat>, order: seq<int>) {
    forall x :: x in order ==> x in numbers && numbers[x] == Index(order, x)
  }

  method WriteBuckets(newTab: map<Slot, int>, ghost order: seq<int>, numbers: map<int, nat>)
    returns (buckets: seq<seq<int>>)
    requires Numbered(numbers, order) && forall slot :: slot in newTab ==> newTab[slot] in order
    ensures |buckets| == NEW_BUCKET_COUNT
    ensures forall b :: 0 <= b < NEW_BUCKET_COUNT ==> buckets[b] == BucketList(newTab, order, b, BUCKET_SIZE)
  {
    buckets := [];
    for bucket := 0 to NEW_BUCKET_COUNT
      invariant |buckets| == bucket &&
        forall b :: 0 <= b < bucket ==> buckets[b] == BucketList(newTab, order, b, BUCKET_SIZE)
    {
      var list: seq<int> := [];
      for i := 0 to BUCKET_SIZE
        invariant list == BucketList(newTab, order, bucket, i)
      {
        if (bucket, i) in newTab {
          var id := newTab[(bucket, i)];
          assert id in order;
          list := list + [numbers[id]];
        }
      }
      buckets := buckets + [list];
    }
  }

  /** Every place of the table holds an entry that gets a number. */
  lemma TableListed(bk: Buckets, s: State)
    requires Consistent(bk, s)
    ensures forall slot :: slot in s.newTab ==> s.newTab[slot] in NewOrder(s)
  {
    hide IdsOk, RandomOk, TriedOk, Sorted;
    forall slot | slot in s.newTab ensures s.newTab[slot] in NewOrder(s) {
      assert NewSlotOk(bk, s.mapInfo, slot, s.newTab[slot]);
      assert slot in Refs(s.newTab, s.newTab[slot]);
    }
  }

  /** What WriteNew has after the first `i` ids. */
  predicate NewSoFar(m: map<int, Info>, ids: seq<int>, i: nat, newer: seq<Record>, numbers: map<int, nat>)
    requires i <= |ids|
  {
    var order := Select(m, ids[..i], false);
    newer == Records(m, order) && Numbered(numbers, order)
  }

  predicate TriedSoFar(m: map<int, Info>, ids: seq<int>, i: nat, tried: seq<Record>)
    requires i <= |ids|
  {
    tried == Records(m, Select(m, ids[..i], true))
  }

  /** The entries with references, and the number each of them gets. */
  method WriteNew(s: State, ids: seq<int>) returns (newer: seq<Record>, numbers: map<int, nat>)
    requires Ascending(ids) && |Select(s.mapInfo, ids, false)| <= s.nNew
    requires forall i :: 0 <= i < |ids| ==> ids[i] in s.mapInfo
    ensures NewSoFar(s.mapInfo, ids, |ids|, newer, numbers)
  {
    hide NewSoFar, Ascending, Select;
    newer, numbers := [], map[];
    var nIds := 0;
    NothingSoFar(s.mapInfo, ids);
    for i := 0 to |ids|
      invariant nIds == |newer| && NewSoFar(s.mapInfo, ids, i, newer, numbers)
    {
      NewSoFarNext(s.mapInfo, ids, i, newer, numbers);
      numbers := numbers[ids[i] := nIds];
      if s.mapInfo[ids[i]].nRefCount != 0 {
        assert nIds != s.nNew;
        newer := newer + [ToRecord(s.mapInfo[ids[i]])];
        nIds := nIds + 1;
      }
    }
  }

  method WriteTried(s: State, ids: seq<int>) returns (tried: seq<Record>)
    requires |Select(s.mapInfo, ids, true)| <= s.nTried
    requires forall i :: 0 <= i < |ids| ==> ids[i] in s.mapInfo
    ensures TriedSoFar(s.mapInfo, ids, |ids|, tried)
  {
    hide TriedSoFar, Select;
    tried := [];
    var nIds := 0;
    NothingSoFar(s.mapInfo, ids);
    for i := 0 to |ids|
      invariant nIds == |tried| && TriedSoFar(s.mapInfo, ids, i, tried)
    {
      TriedSoFarNext(s.mapInfo, ids, i, tried);
      if s.mapInfo[ids[i]].fInTried {
        assert nIds != s.nTried;
        tried := tried + [ToRecord(s.mapInfo[ids[i]])];
        nIds := nIds + 1;
      }
    }
  }

  lemma NothingSoFar(m: map<int, Info>, ids: seq<int>)
    ensures NewSoFar(m, ids, 0, [], map[]) && TriedSoFar(m, ids, 0, [])
  {
  }

  lemma NewSoFarNext(m: map<int, Info>, ids: seq<int>, i: nat, newer: seq<Record>, numbers: map<int, nat>)
    requires Ascending(ids) && i < |ids| && ids[i] in m && NewSoFar(m, ids, i, newer, numbers)
    ensures var numbers' := numbers[ids[i] := |newer|];
            if m[ids[i]].nRefCount != 0 then
              |newer| < |Select(m, ids, false)| && NewSoFar(m, ids, i + 1, newer + [ToRecord(m[ids[i]])], numbers')
            else NewSoFar(m, ids, i + 1, newer, numbers')
  {
    hide Numbered, Index, Records, Select;
    var before := Select(m, ids[..i], false);
    SelectNext(m, ids, i, false);
    NumberNext(ids, i, before, numbers);
    RecordsNext(m, before, ids[i]);
    if m[ids[i]].nRefCount != 0 { SelectShorter(m, ids, i, false); }
  }

  lemma TriedSoFarNext(m: map<int, Info>, ids: seq<int>, i: nat, tried: seq<Record>)
    requires i < |ids| && ids[i] in m && TriedSoFar(m, ids, i, tried)
    ensures if m[ids[i]].fInTried then
              |tried| < |Select(m, ids, true)| && TriedSoFar(m, ids, i + 1, tried + [ToRecord(m[ids[i]])])
            else TriedSoFar(m, ids, i + 1, tried)
  {
    hide Records, Select;
    SelectNext(m, ids, i, true);
    RecordsNext(m, Select(m, ids[..i], true), ids[i]);
    if m[ids[i]].fInTried { SelectShorter(m, ids, i, true); }
  }

  lemma RecordsNext(m: map<int, Info>, ids: seq<int>, x: int)
    ensures Records(m, ids + [x]) == Records(m, ids) + [RecordAt(m, x)]
  {
    assert (ids + [x])[..|ids|] == ids;
  }

  lemma SelectNext(m: map<int, Info>, ids: seq<int>, i: nat, tried: bool)
    requires i < |ids|
    ensures Select(m, ids[..i + 1], tried) ==
            if ids[i] in m && Selected(m[ids[i]], tried) then Select(m, ids[..i], tried) + [ids[i]]
            else Select(m, ids[..i], tried)
  {
    assert ids[..i + 1][..i] == ids[..i];
  }

  lemma {:induction false} SelectShorter(m: map<int, Info>, ids: seq<int>, i: nat, tried: bool)
    requires i < |ids| && ids[i] in m && Selected(m[ids[i]], tried)
    ensures |Select(m, ids[..i], tried)| < |Select(m, ids, tried)|
    decreases |ids|
  {
    var last := |ids| - 1;
    assert ids == ids[..last] + [ids[last]];
    if i < last {
      assert ids[..last][..i] == ids[..i];
      SelectShorter(m, ids[..last], i, tried);
    }
  }

  lemma NumberNext(ids: seq<int>, i: nat, before: seq<int>, numbers: map<int, nat>)
    requires i < |ids| && Ascending(ids) && Numbered(numbers, before) && forall y :: y in before ==> y in ids[..i]
    ensures Numbered(numbers[ids[i] := |before|], before) && Numbered(numbers[ids[i] := |before|], before + [ids[i]])
  {
    var after := before + [ids[i]];
    assert after[..|before|] == before;
    assert forall k :: 0 <= k < i ==> ids[k] < ids[i];
    assert ids[i] !in ids[..i];
  }

  method ReadBuckets(bk: Buckets, s0: State, buckets: seq<seq<int>>, nNew: int, usable: bool) returns (s: State)
    ensures s == LoadBuckets(bk, s0, buckets, nNew, usable)
  {
    hide LoadIndex;
    s := s0;
    for bucket := 0 to |buckets|
      invariant s == LoadBuckets(bk, s0, buckets[..bucket], nNew, usable)
    {
      var list := buckets[bucket];
      ghost var before := s;
      for n := 0 to |list|
        invariant s == LoadBucket(bk, before, bucket, list[..n], nNew, usable)
      {
        assert list[..n + 1][..n] == list[..n];
        s := LoadIndex(bk, s, bucket, list[n], nNew, usable);
      }
      assert list[..|list|] == list;
      assert buckets[..bucket + 1][..bucket] == buckets[..bucket];
    }
    assert buckets[..|buckets|] == buckets;
  }

  method ReadNew(bk: Buckets, rs: seq<Record>, nNew: int, usable: bool) returns (s: State)
    requires |rs| == Rounds(nNew)
    ensures s == LoadAllNew(bk, Nothing, rs, usable)
  {
    hide LoadNew;
    s := Nothing;
    for n := 0 to Rounds(nNew)
      invariant s == LoadAllNew(bk, Nothing, rs[..n], usable)
    {
      assert rs[..n + 1][..n] == rs[..n];
      s := LoadNew(bk, s, rs[n], usable);
    }
    assert rs[..|rs|] == rs;
  }

  method ReadTried(bk: Buckets, s0: State, rs: seq<Record>, nTried: int) returns (s: State)
    requires |rs| == Rounds(nTried)
    ensures s == LoadAllTried(bk, s0, rs)
  {
    hide LoadTried;
    s := s0;
    for n := 0 to Rounds(nTried)
      invariant s == LoadAllTried(bk, s0, rs[..n])
    {
      assert rs[..n + 1][..n] == rs[..n];
      s := LoadTried(bk, s, rs[n]);
    }
    assert rs[..|rs|] == rs;
  }

  method PruneAll(s0: State) returns (s: State)
    ensures s == Prune(s0, Sorted(s0.mapInfo.Keys))
  {
    hide Sorted, PruneOne;
    s := s0;
    var ids := Sorted(s.mapInfo.Keys);
    for i := 0 to |ids|
      invariant s == Prune(s0, ids[..i])
    {
      assert ids[..i + 1][..i] == ids[..i];
      s := PruneOne(s, ids[i]);
    }
    assert ids[..|ids|] == ids;
  }

  /** Reads a stream into an empty manager. */
  method Unserialize(hasher: nat -> Buckets, d: Dump) returns (r: Result<State>)
    requires Accepted(d) ==> Readable(d)
    ensures r.Success? <==> Accepted(d)
    ensures r.Success? ==> r.value == Decode(hasher(d.nKey), d)
  {
    hide Sorted, LoadAllNew, LoadAllTried, LoadBuckets, Prune, Rounds;
    if d.nKeySize != 32 {
      return Failure("Incorrect keysize in addrman deserialization");
    }
    if d.nNew > NEW_BUCKET_COUNT * BUCKET_SIZE {
      return Failure("Corrupt CAddrMan serialization, nNew exceeds limit.");
    }
    if d.nTried > TRIED_BUCKET_COUNT * BUCKET_SIZE {
      return Failure("Corrupt CAddrMan serialization, nTried exceeds limit.");
    }
    var bk := hasher(d.nKey);
    var usable := d.nVersion == 1 && BucketLists(d) == NEW_BUCKET_COUNT;
    var s := ReadNew(bk, d.newer, d.nNew, usable);
    s := s.(nNew := d.nNew, nIdCount := d.nNew);
    s := ReadTried(bk, s, d.tried, d.nTried);
    var nLost := |d.tried| - s.nTried;
    s := s.(nTried := d.nTried - nLost);
    s := ReadBuckets(bk, s, d.buckets, d.nNew, usable);
    s := PruneAll(s);
    return Success(s);
  }
}
