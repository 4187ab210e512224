/**
 Which streams are read into a consistent manager, said of the stream itself: which of its records get a number, which
 of these are kept, and what follows if addresses occur twice.
 */
module AddrManStream {
  import opened AddrManState
  import opened AddrManBook
  import opened AddrManStore
  import opened AddrManRoundTrip
  import opened AddrManReader

  // ---------------------------------------------------------------- which records get a number

  /** No earlier "tried" record has the same place. */
  predicate FirstTried(bk: Buckets, rs: seq<Record>, n: nat)
    requires n < |rs|
  {
    forall j :: 0 <= j < n ==> TriedSlot(bk, rs[j].addr) != TriedSlot(bk, rs[n].addr)
  }

  /** The "tried" records that are not lost. */
  function KeptTried(bk: Buckets, rs: seq<Record>): seq<Record> {
    if rs == [] then []
    else
      var last := |rs| - 1;
      KeptTried(bk, rs[..last]) + if FirstTried(bk, rs, last) then [rs[last]] else []
  }

  /** The records that get a number, in the order of their numbers. */
  function Numbered(bk: Buckets, d: Dump): seq<Record> {
    d.newer + KeptTried(bk, d.tried)
  }

  /** Entry i has the address of record i. */
  predicate AddrsOf(s: State, all: seq<Record>) {
    && s.nIdCount == |all| && s.mapInfo.Keys == Upto(|all|)
    && forall i :: 0 <= i < |all| ==> s.mapInfo[i].addr == all[i].addr
  }

  lemma CreateAddrs(s: State, all: seq<Record>, r: Record)
    requires AddrsOf(s, all)
    ensures AddrsOf(Create(s, FromRecord(r)), all + [r])
  {
    assert Create(s, FromRecord(r)).mapInfo.Keys == Upto(|all| + 1);
  }

  lemma AddrsFrame(s: State, s': State, all: seq<Record>)
    requires AddrsOf(s, all) && SameAddr(s.mapInfo, s'.mapInfo) && s'.nIdCount == s.nIdCount
    ensures AddrsOf(s', all)
  {
  }

  lemma {:induction false} NewAddrs(bk: Buckets, rs: seq<Record>, usable: bool)
    ensures var s := LoadAllNew(bk, Nothing, rs, usable);
      AddrsOf(s, rs) && s.triedTab == map[]
  {
    hide AddrsOf, NewSlot;
    if rs == [] {
      NothingNumbered(rs);
    } else {
      var front, last := rs[..|rs| - 1], rs[|rs| - 1];
      assert rs == front + [last];
      NewAddrs(bk, front, usable);
      var s := LoadAllNew(bk, Nothing, front, usable);
      CreateAddrs(s, front, last);
      AddrsFrame(Create(s, FromRecord(last)), LoadNew(bk, s, last, usable), rs);
    }
  }

  lemma NothingNumbered(rs: seq<Record>)
    requires rs == []
    ensures AddrsOf(Nothing, rs)
  {
  }

  /** The places that are taken are those of the records. */
  predicate PlacesOf(bk: Buckets, tab: map<Slot, int>, rs: seq<Record>) {
    && (forall j :: 0 <= j < |rs| ==> TriedSlot(bk, rs[j].addr) in tab)
    && (forall slot :: slot in tab ==> exists j :: 0 <= j < |rs| && TriedSlot(bk, rs[j].addr) == slot)
  }

  lemma TakenIffLater(bk: Buckets, tab: map<Slot, int>, rs: seq<Record>)
    requires rs != [] && PlacesOf(bk, tab, rs[..|rs| - 1])
    ensures TriedSlot(bk, rs[|rs| - 1].addr) !in tab <==> FirstTried(bk, rs, |rs| - 1)
  {
    var front := rs[..|rs| - 1];
    forall j | 0 <= j < |front| ensures TriedSlot(bk, rs[j].addr) in tab { assert front[j] == rs[j]; }
    if TriedSlot(bk, rs[|rs| - 1].addr) in tab {
      var j :| 0 <= j < |front| && TriedSlot(bk, front[j].addr) == TriedSlot(bk, rs[|rs| - 1].addr);
      assert rs[j] == front[j];
    }
  }

  lemma PlacesNext(bk: Buckets, tab: map<Slot, int>, rs: seq<Record>, id: int)
    requires rs != [] && PlacesOf(bk, tab, rs[..|rs| - 1])
    ensures PlacesOf(bk, tab[TriedSlot(bk, rs[|rs| - 1].addr) := id], rs)
    ensures TriedSlot(bk, rs[|rs| - 1].addr) in tab ==> PlacesOf(bk, tab, rs)
  {
    hide TriedSlot;
    var front, last := rs[..|rs| - 1], TriedSlot(bk, rs[|rs| - 1].addr);
    forall j | 0 <= j < |front| ensures TriedSlot(bk, rs[j].addr) in tab { assert front[j] == rs[j]; }
    forall slot | slot in tab ensures exists j :: 0 <= j < |rs| && TriedSlot(bk, rs[j].addr) == slot {
      var j :| 0 <= j < |front| && TriedSlot(bk, front[j].addr) == slot;
      assert rs[j] == front[j];
    }
  }

  lemma {:induction false} TriedAddrs(bk: Buckets, s: State, newer: seq<Record>, rs: seq<Record>)
    requires AddrsOf(s, newer) && s.triedTab == map[]
    ensures var r := LoadAllTried(bk, s, rs);
      AddrsOf(r, newer + KeptTried(bk, rs)) && PlacesOf(bk, r.triedTab, rs)
    decreases |rs|
  {
    hide AddrsOf, PlacesOf, FirstTried, TriedSlot;
    if rs == [] {
      assert newer + KeptTried(bk, rs) == newer;
      NoPlaces(bk, rs);
    } else {
      var front, last := rs[..|rs| - 1], rs[|rs| - 1];
      TriedAddrs(bk, s, newer, front);
      var s1 := LoadAllTried(bk, s, front);
      var all := newer + KeptTried(bk, front);
      TakenIffLater(bk, s1.triedTab, rs);
      PlacesNext(bk, s1.triedTab, rs, s1.nIdCount);
      if FirstTried(bk, rs, |rs| - 1) {
        CreateAddrs(s1, all, last);
        Counted(s1, all);
        AddrsFrame(Create(s1, FromRecord(last)), LoadTried(bk, s1, last), all + [last]);
        assert newer + KeptTried(bk, rs) == all + [last];
      } else {
        assert newer + KeptTried(bk, rs) == all;
      }
    }
  }

  lemma NoPlaces(bk: Buckets, rs: seq<Record>)
    requires rs == []
    ensures PlacesOf(bk, map[], rs)
  {
  }

  lemma Counted(s: State, all: seq<Record>)
    requires AddrsOf(s, all)
    ensures s.nIdCount == |all| && forall i :: i in s.mapInfo <==> 0 <= i < |all|
  {
  }

  lemma {:induction false} BucketKeepsAddrs(bk: Buckets, s: State, b: nat, list: seq<int>, nNew: int, usable: bool)
    ensures var r := LoadBucket(bk, s, b, list, nNew, usable);
      SameAddr(s.mapInfo, r.mapInfo) && r.nIdCount == s.nIdCount && (!usable ==> r == s)
  {
    hide NewPosition;
    if list != [] { BucketKeepsAddrs(bk, s, b, list[..|list| - 1], nNew, usable); }
  }

  lemma {:induction false} BucketsKeepAddrs(bk: Buckets, s: State, buckets: seq<seq<int>>, nNew: int, usable: bool)
    ensures var r := LoadBuckets(bk, s, buckets, nNew, usable);
      SameAddr(s.mapInfo, r.mapInfo) && r.nIdCount == s.nIdCount && (!usable ==> r == s)
  {
    hide LoadBucket;
    if buckets != [] {
      var last := |buckets| - 1;
      BucketsKeepAddrs(bk, s, buckets[..last], nNew, usable);
      BucketKeepsAddrs(bk, LoadBuckets(bk, s, buckets[..last], nNew, usable), last, buckets[last], nNew, usable);
    }
  }

  lemma AddrsRead(bk: Buckets, d: Dump)
    requires Readable(d) && d.nNew >= 0 && d.nTried >= 0
    ensures AddrsOf(ReadTables(bk, d), Numbered(bk, d))
  {
    hide LoadAllNew, LoadAllTried, LoadBuckets, AddrsOf, Usable, KeptTried, Flip, PlacesOf;
    NewAddrs(bk, d.newer, Usable(d));
    var s0 := LoadAllNew(bk, Nothing, d.newer, Usable(d));
    Counted(s0, d.newer);
    AddrsFrame(s0, NewRead(s0, d), d.newer);
    TriedAddrs(bk, NewRead(s0, d), d.newer, d.tried);
    var s1, s2 := LoadAllTried(bk, NewRead(s0, d), d.tried), ReadEntries(bk, d);
    AddrsFrame(s1, s2, Numbered(bk, d));
    BucketsKeepAddrs(bk, s2, d.buckets, d.nNew, Usable(d));
    AddrsFrame(s2, ReadTables(bk, d), Numbered(bk, d));
  }

  /** After reading, the entries are all new records and the first "tried" record of each place. */
  lemma NumberedIsRead(bk: Buckets, d: Dump)
    requires Readable(d) && d.nNew >= 0 && d.nTried >= 0
    ensures AddrsOf(ReadTables(bk, d), Numbered(bk, d))
    ensures forall i :: 0 <= i < |Numbered(bk, d)| ==> (ReadTables(bk, d).mapInfo[i].fInTried <==> i >= |d.newer|)
  {
    hide ReadTables, AddrsOf, Numbered, Rough, Latest, Flip, Usable;
    AddrsRead(bk, d);
    TablesReading(bk, d);
    Counted(ReadTables(bk, d), Numbered(bk, d));
  }

  // ---------------------------------------------------------------- streams whose bucket lists are not used

  /** No earlier "new" record has the same primary place. */
  predicate FirstNew(bk: Buckets, rs: seq<Record>, n: nat)
    requires n < |rs|
  {
    forall j :: 0 <= j < n ==> NewSlot(bk, rs[j].addr, rs[j].source) != NewSlot(bk, rs[n].addr, rs[n].source)
  }

  /** The primary places that are taken are those of the records. */
  predicate PrimariesOf(bk: Buckets, tab: map<Slot, int>, rs: seq<Record>) {
    && (forall j :: 0 <= j < |rs| ==> NewSlot(bk, rs[j].addr, rs[j].source) in tab)
    && (forall slot :: slot in tab ==> exists j :: 0 <= j < |rs| && NewSlot(bk, rs[j].addr, rs[j].source) == slot)
  }

  /** The first record of each primary place has it. */
  predicate RefsOf(bk: Buckets, s: State, rs: seq<Record>) {
    && s.nIdCount == |rs| && s.mapInfo.Keys == Upto(|rs|)
    && forall i :: 0 <= i < |rs| ==> s.mapInfo[i].nRefCount == if FirstNew(bk, rs, i) then 1 else 0
  }

  lemma PrimariesNext(bk: Buckets, tab: map<Slot, int>, rs: seq<Record>, id: int)
    requires rs != [] && PrimariesOf(bk, tab, rs[..|rs| - 1])
    ensures var slot := NewSlot(bk, rs[|rs| - 1].addr, rs[|rs| - 1].source);
      && (slot !in tab <==> FirstNew(bk, rs, |rs| - 1))
      && PrimariesOf(bk, tab[slot := id], rs) && (slot in tab ==> PrimariesOf(bk, tab, rs))
  {
    hide NewSlot;
    var front, last := rs[..|rs| - 1], rs[|rs| - 1];
    forall j | 0 <= j < |front| ensures NewSlot(bk, rs[j].addr, rs[j].source) in tab { assert front[j] == rs[j]; }
    forall slot | slot in tab ensures exists j :: 0 <= j < |front| && NewSlot(bk, rs[j].addr, rs[j].source) == slot {
      var j :| 0 <= j < |front| && NewSlot(bk, front[j].addr, front[j].source) == slot;
      assert rs[j] == front[j];
    }
  }

  lemma RefsNext(bk: Buckets, s: State, rs: seq<Record>)
    requires rs != [] && RefsOf(bk, s, rs[..|rs| - 1])
    requires NewSlot(bk, rs[|rs| - 1].addr, rs[|rs| - 1].source) !in s.newTab <==> FirstNew(bk, rs, |rs| - 1)
    ensures RefsOf(bk, LoadNew(bk, s, rs[|rs| - 1], false), rs)
  {
    hide NewSlot, FirstNew;
    var front := rs[..|rs| - 1];
    forall i | 0 <= i < |front| ensures FirstNew(bk, front, i) <==> FirstNew(bk, rs, i) { FirstInFront(bk, rs, i); }
    assert LoadNew(bk, s, rs[|rs| - 1], false).mapInfo.Keys == Upto(|rs|);
  }

  lemma FirstInFront(bk: Buckets, rs: seq<Record>, i: nat)
    requires rs != [] && i < |rs| - 1
    ensures FirstNew(bk, rs[..|rs| - 1], i) <==> FirstNew(bk, rs, i)
  {
    hide NewSlot;
    var front := rs[..|rs| - 1];
    assert forall j :: 0 <= j < |front| ==> front[j] == rs[j];
  }

  lemma {:induction false} NewPrimary(bk: Buckets, rs: seq<Record>)
    ensures var s := LoadAllNew(bk, Nothing, rs, false); RefsOf(bk, s, rs) && PrimariesOf(bk, s.newTab, rs)
  {
    if rs != [] {
      hide RefsOf, PrimariesOf, FirstNew, NewSlot;
      NewPrimary(bk, rs[..|rs| - 1]);
      var s := LoadAllNew(bk, Nothing, rs[..|rs| - 1], false);
      PrimariesNext(bk, s.newTab, rs, s.nIdCount);
      RefsNext(bk, s, rs);
    }
  }

  lemma {:induction false} TriedKeepsRefs(bk: Buckets, s: State, rs: seq<Record>)
    requires IdRange(s)
    ensures var r := LoadAllTried(bk, s, rs);
      && IdRange(r)
      && forall id :: id in s.mapInfo ==> id in r.mapInfo && r.mapInfo[id].nRefCount == s.mapInfo[id].nRefCount
    decreases |rs|
  {
    hide TriedSlot;
    if rs != [] { TriedKeepsRefs(bk, s, rs[..|rs| - 1]); }
  }

  lemma PrimaryIsRead(bk: Buckets, d: Dump)
    requires Readable(d) && d.nNew >= 0 && !Usable(d)
    ensures var m := ReadTables(bk, d).mapInfo;
      forall i :: 0 <= i < |d.newer| ==> i in m && m[i].nRefCount == if FirstNew(bk, d.newer, i) then 1 else 0
  {
    hide LoadAllNew, LoadAllTried, LoadBuckets, Usable, FirstNew, PrimariesOf, Flip;
    NewPrimary(bk, d.newer);
    var s0 := LoadAllNew(bk, Nothing, d.newer, false);
    TriedKeepsRefs(bk, NewRead(s0, d), d.tried);
    BucketsKeepAddrs(bk, ReadEntries(bk, d), d.buckets, d.nNew, false);
  }

  /** Record i is given a number but no place. */
  predicate Placeless(bk: Buckets, newer: seq<Record>, i: nat) {
    i < |newer| && !FirstNew(bk, newer, i)
  }

  /** Two numbered records share an address only if neither has a place. */
  predicate StreamClashFree(bk: Buckets, d: Dump) {
    var all := Numbered(bk, d);
    forall i, j :: 0 <= i < |all| && 0 <= j < |all| && i != j && all[i].addr.ip == all[j].addr.ip ==>
      Placeless(bk, d.newer, i) && Placeless(bk, d.newer, j)
  }

  lemma LimboIsPlaceless(bk: Buckets, d: Dump, i: nat)
    requires Readable(d) && d.nNew >= 0 && d.nTried >= 0 && !Usable(d) && i < |Numbered(bk, d)|
    ensures i in LimboOf(ReadTables(bk, d).mapInfo) <==> Placeless(bk, d.newer, i)
  {
    hide ReadTables, KeptTried, Usable, Readable, FirstNew;
    NumberedIsRead(bk, d);
    PrimaryIsRead(bk, d);
  }

  lemma ClashOnStream(bk: Buckets, d: Dump)
    requires Readable(d) && d.nNew >= 0 && d.nTried >= 0 && !Usable(d)
    ensures NoClash(ReadTables(bk, d).mapInfo) <==> StreamClashFree(bk, d)
  {
    hide ReadTables, KeptTried, Usable, Readable, Placeless, LimboOf;
    NumberedIsRead(bk, d);
    var m, all := ReadTables(bk, d).mapInfo, Numbered(bk, d);
    forall i | 0 <= i < |all| ensures i in LimboOf(m) <==> Placeless(bk, d.newer, i) { LimboIsPlaceless(bk, d, i); }
    assert forall i :: i in m <==> 0 <= i < |all|;
    assert forall i :: 0 <= i < |all| ==> m[i].addr == all[i].addr;
    hide AddrsOf, Numbered;
  }

  /** A stream whose bucket lists are not used is read into a consistent manager exactly if neither count is below zero
      and two numbered records share an address only if both have lost their primary place to an earlier record. */
  lemma UnusedListsExactly(bk: Buckets, d: Dump)
    requires Readable(d) && !Usable(d)
    ensures Consistent(bk, Decode(bk, d)) <==> d.nNew >= 0 && d.nTried >= 0 && StreamClashFree(bk, d)
  {
    hide Consistent, Decode, ReadTables, NoClash, StreamClashFree, Readable, Usable;
    ReadIsConsistent(bk, d);
    if d.nNew >= 0 && d.nTried >= 0 { ClashOnStream(bk, d); }
  }

  // ---------------------------------------------------------------- addresses that occur once, and twice

  predicate NoIpTwice(rs: seq<Record>) {
    forall i, j :: 0 <= i < j < |rs| ==> rs[i].addr.ip != rs[j].addr.ip
  }

  lemma {:induction false} KeptOnce(bk: Buckets, newer: seq<Record>, rs: seq<Record>)
    requires NoIpTwice(newer + rs)
    ensures NoIpTwice(newer + KeptTried(bk, rs))
    ensures forall x :: x in KeptTried(bk, rs) ==> x in rs
    decreases |rs|
  {
    if rs != [] {
      hide FirstTried;
      var front, last := rs[..|rs| - 1], rs[|rs| - 1];
      assert rs == front + [last];
      assert newer + rs == newer + front + [last];
      assert (newer + front + [last])[..|newer + front|] == newer + front;
      LastIsAlone(newer + front, last);
      KeptOnce(bk, newer, front);
      var kept := newer + KeptTried(bk, front);
      forall x | x in kept ensures x.addr.ip != last.addr.ip {
        assert x in newer + front;
      }
      assert NoIpTwice(kept + [last]);
      assert FirstTried(bk, rs, |rs| - 1) ==> newer + KeptTried(bk, rs) == kept + [last];
      assert !FirstTried(bk, rs, |rs| - 1) ==> newer + KeptTried(bk, rs) == kept;
    }
  }

  lemma LastIsAlone(rs: seq<Record>, r: Record)
    requires NoIpTwice(rs + [r])
    ensures NoIpTwice(rs) && forall x :: x in rs ==> x.addr.ip != r.addr.ip
  {
    assert forall i :: 0 <= i < |rs| ==> (rs + [r])[i] == rs[i];
    assert (rs + [r])[|rs|] == r;
  }

  /** A stream that names no address twice is read into a consistent manager, whatever its bucket lists say. */
  lemma NoAddressTwice(bk: Buckets, d: Dump)
    requires Readable(d) && d.nNew >= 0 && d.nTried >= 0 && NoIpTwice(d.newer + d.tried)
    ensures Consistent(bk, Decode(bk, d))
  {
    hide Consistent, Decode, ReadTables, KeptTried, Readable, LimboOf;
    KeptOnce(bk, d.newer, d.tried);
    NumberedIsRead(bk, d);
    ReadIsConsistent(bk, d);
  }

  /** The same address as a new and as a tried entry. */
  function TwiceNamed(r: Record, key: nat): Dump {
    Dump(0, 32, key, 1, 1, 0, [r], [r], [])
  }

  /** The reader accepts such a stream, and what it builds is not consistent. */
  lemma TwiceNamedFails(bk: Buckets, r: Record, key: nat)
    ensures Accepted(TwiceNamed(r, key)) && Readable(TwiceNamed(r, key))
    ensures !Consistent(bk, Decode(bk, TwiceNamed(r, key)))
  {
    hide Consistent, Decode, NewSlot, TriedSlot;
    var d := TwiceNamed(r, key);
    assert KeptTried(bk, d.tried) == [r];
    assert Numbered(bk, d) == [r, r];
    UnusedListsExactly(bk, d);
    var all := Numbered(bk, d);
    assert all[0].addr.ip == all[1].addr.ip && !Placeless(bk, d.newer, 1);
  }
}
