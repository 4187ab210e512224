/**
 What the two scans of a compact block find, said of the lists alone: which transactions match a short id, what becomes
 of its slot, and how far each list is read.
 */
module CompactScan {
  import opened CompactBlock

  // ---------------------------------------------------------------- matches

  /** The listed transactions with the short id, in order. */
  function Hits(list: seq<Listed>, shortId: nat -> nat, id: nat): seq<Tx> {
    if list == [] then []
    else
      var last := |list| - 1;
      Hits(list[..last], shortId, id) + if shortId(list[last].hash) == id then [list[last].tx] else []
  }

  /** What a slot holds, given its matches in the pool and in the extra list: the first match of all, provided that no
      other one came from the pool and that all others have its witness hash. */
  predicate Settles(p: seq<Tx>, e: seq<Tx>, slot: Option<Tx>) {
    var all := p + e;
    if all != [] && |p| <= 1 && Agree(all) then slot == Some(all[0]) else slot == None
  }

  predicate Agree(all: seq<Tx>) {
    forall i :: 0 <= i < |all| ==> all[i].witnessHash == all[0].witnessHash
  }

  lemma AgreeNext(all: seq<Tx>, tx: Tx)
    requires all != []
    ensures Agree(all + [tx]) <==> Agree(all) && tx.witnessHash == all[0].witnessHash
  {
    assert (all + [tx])[|all|] == tx && forall i :: 0 <= i < |all| ==> (all + [tx])[i] == all[i];
  }

  lemma HitsNext(list: seq<Listed>, x: Listed, shortId: nat -> nat, id: nat)
    ensures Hits(list + [x], shortId, id) ==
      if shortId(x.hash) == id then Hits(list, shortId, id) + [x.tx] else Hits(list, shortId, id)
  {
    assert (list + [x])[..|list|] == list;
  }

  lemma {:induction false} HitsPrefix(list: seq<Listed>, m: nat, shortId: nat -> nat, id: nat)
    requires m <= |list|
    ensures Hits(list[..m], shortId, id) <= Hits(list, shortId, id)
    decreases |list|
  {
    if m < |list| {
      var last := |list| - 1;
      assert list[..last][..m] == list[..m];
      HitsPrefix(list[..last], m, shortId, id);
    } else {
      assert list[..m] == list;
    }
  }

  // ---------------------------------------------------------------- what a scan keeps

  /** After `p` of the pool and `e` of the extra list, every slot is as its matches settle it. */
  ghost predicate Settled(slots: map<nat, nat>, s: Scan, p: seq<Listed>, e: seq<Listed>, shortId: nat -> nat) {
    && |s.avail| == |s.have|
    && (forall id :: id in slots ==> slots[id] < |s.avail|)
    && forall id :: id in slots ==> SettledAt(s, slots[id], Hits(p, shortId, id), Hits(e, shortId, id))
  }

  predicate SettledAt(s: Scan, k: nat, p: seq<Tx>, e: seq<Tx>)
    requires k < |s.avail| == |s.have|
  {
    (s.have[k] <==> p + e != []) && Settles(p, e, s.avail[k])
  }

  /** The count is the number of slots filled by matching. */
  predicate CountOk(layout: seq<Option<Tx>>, s: Scan) {
    && |s.avail| == |s.have| == |layout|
    && (forall k :: 0 <= k < |layout| && layout[k].Some? ==> s.avail[k] == layout[k])
    && (forall k :: 0 <= k < |layout| && layout[k].None? && s.avail[k].Some? ==> s.have[k])
    && s.count == CountEmpty(layout, |layout|) - CountEmpty(s.avail, |layout|)
  }

  lemma OneCount(slots: map<nat, nat>, s: Scan, id: nat, tx: Tx, layout: seq<Option<Tx>>, extra: bool)
    requires SlotsOk(layout, slots) && CountOk(layout, s)
    ensures CountOk(layout, One(s, slots, id, tx, extra))
  {
    if id in slots {
      var k := slots[id];
      if !s.have[k] {
        CountEmptyPut(s.avail, k, tx, |layout|);
      } else if s.avail[k].Some? {
        CountEmptyReset(s.avail, k, |layout|);
      }
    }
  }

  lemma PoolHit(s: Scan, slots: map<nat, nat>, id: nat, tx: Tx, p: seq<Tx>)
    requires |s.avail| == |s.have| && (forall x :: x in slots ==> slots[x] < |s.avail|) && id in slots
    requires SettledAt(s, slots[id], p, [])
    ensures SettledAt(One(s, slots, id, tx, false), slots[id], p + [tx], [])
  {
    assert p + [] == p && p + [tx] + [] == p + [tx];
    if p != [] { assert |p + [tx]| > 1; }
  }

  lemma ExtraHit(s: Scan, slots: map<nat, nat>, id: nat, tx: Tx, p: seq<Tx>, e: seq<Tx>)
    requires |s.avail| == |s.have| && (forall x :: x in slots ==> slots[x] < |s.avail|) && id in slots
    requires SettledAt(s, slots[id], p, e)
    ensures SettledAt(One(s, slots, id, tx, true), slots[id], p, e + [tx])
  {
    var all, all' := p + e, p + (e + [tx]);
    assert all' == all + [tx];
    if all != [] { AgreeNext(all, tx); }
  }

  lemma OneSettles(slots: map<nat, nat>, s: Scan, p: seq<Listed>, e: seq<Listed>, x: Listed, shortId: nat -> nat,
    layout: seq<Option<Tx>>, extra: bool)
    requires SlotsOk(layout, slots) && Settled(slots, s, p, e, shortId) && (!extra ==> e == [])
    ensures var s' := One(s, slots, shortId(x.hash), x.tx, extra);
            if extra then Settled(slots, s', p, e + [x], shortId) else Settled(slots, s', p + [x], e, shortId)
  {
    hide SettledAt, One;
    var hit := shortId(x.hash);
    var s' := One(s, slots, hit, x.tx, extra);
    var p', e' := if extra then p else p + [x], if extra then e + [x] else e;
    forall id | id in slots
      ensures SettledAt(s', slots[id], Hits(p', shortId, id), Hits(e', shortId, id))
    {
      assert SettledAt(s, slots[id], Hits(p, shortId, id), Hits(e, shortId, id));
      HitsNext(p, x, shortId, id);
      HitsNext(e, x, shortId, id);
      if id != hit {
        OneElsewhere(s, slots, hit, x.tx, extra, id);
      } else if extra {
        ExtraHit(s, slots, hit, x.tx, Hits(p, shortId, id), Hits(e, shortId, id));
      } else {
        assert Hits(e, shortId, id) == [];
        PoolHit(s, slots, hit, x.tx, Hits(p, shortId, id));
      }
    }
  }

  lemma OneElsewhere(s: Scan, slots: map<nat, nat>, hit: nat, tx: Tx, extra: bool, id: nat)
    requires |s.avail| == |s.have| && (forall x :: x in slots ==> slots[x] < |s.avail|) && id in slots && id != hit
    requires hit in slots ==> slots[hit] != slots[id]
    ensures var s' := One(s, slots, hit, tx, extra);
            s'.avail[slots[id]] == s.avail[slots[id]] && s'.have[slots[id]] == s.have[slots[id]]
    ensures forall p, e :: SettledAt(s, slots[id], p, e) ==> SettledAt(One(s, slots, hit, tx, extra), slots[id], p, e)
  {
  }

  lemma NoneEmpty(avail: seq<Option<Tx>>, k: nat)
    requires CountEmpty(avail, |avail|) == 0 && k < |avail|
    ensures avail[k].Some?
  {
    CountEmptySplit(avail, k + 1, |avail|);
  }

  /** One list, read up to a point: to its end, or until everything was found. */
  lemma {:induction false} AllSettles(layout: seq<Option<Tx>>, slots: map<nat, nat>, s: Scan, p: seq<Listed>,
    e: seq<Listed>, list: seq<Listed>, shortId: nat -> nat, extra: bool) returns (m: nat)
    requires SlotsOk(layout, slots) && |slots| == CountEmpty(layout, |layout|)
    requires CountOk(layout, s) && Settled(slots, s, p, e, shortId) && (!extra ==> e == [])
    ensures m <= |list| && (list != [] ==> m >= 1)
    ensures var r := All(s, slots, list, shortId, extra);
            && CountOk(layout, r) && (m < |list| ==> r.count == |slots|)
            && if extra then Settled(slots, r, p, e + list[..m], shortId)
               else Settled(slots, r, p + list[..m], e, shortId)
    ensures forall n :: 1 <= n < m ==> All(s, slots, list[..n], shortId, extra).count != |slots|
    decreases |list|
  {
    hide CountOk, Settled, One, SlotsOk, CountEmpty, Hits, Settles;
    CountShape(layout, s);
    SlotsShape(layout, slots);
    if list == [] {
      m := 0;
      assert e + list[..0] == e && p + list[..0] == p;
    } else {
      var x := list[0];
      var s1 := One(s, slots, shortId(x.hash), x.tx, extra);
      OneSettles(slots, s, p, e, x, shortId, layout, extra);
      OneCount(slots, s, shortId(x.hash), x.tx, layout, extra);
      if s1.count == |slots| {
        m := 1;
        assert list[..1] == [x];
      } else {
        var p', e' := if extra then p else p + [x], if extra then e + [x] else e;
        var m' := AllSettles(layout, slots, s1, p', e', list[1..], shortId, extra);
        m := m' + 1;
        assert list[..m] == [x] + list[1..][..m'];
        assert p + list[..m] == p + [x] + list[1..][..m'] && e + list[..m] == e + [x] + list[1..][..m'];
        forall n | 1 <= n < m ensures All(s, slots, list[..n], shortId, extra).count != |slots| {
          assert list[..n][1..] == list[1..][..n - 1] && list[..n][0] == x;
          if n == 1 { assert list[..n][1..] == []; }
        }
      }
    }
  }

  lemma CountShape(layout: seq<Option<Tx>>, s: Scan)
    requires CountOk(layout, s)
    ensures |s.avail| == |s.have| == |layout|
  {
  }

  lemma StartSettled(layout: seq<Option<Tx>>, slots: map<nat, nat>, shortId: nat -> nat)
    requires SlotsOk(layout, slots)
    ensures Settled(slots, Start(layout), [], [], shortId) && CountOk(layout, Start(layout))
  {
  }

  // ---------------------------------------------------------------- both scans

  /** The slot of the n-th short id. */
  function SlotOf(a: Announcement, n: nat): (k: nat)
    requires PlacesOk(a, |a.prefilled|) && n < |a.shortIds|
    ensures k < |a.shortIds| + |a.prefilled| && Layout(a, |a.prefilled|)[k].None?
    ensures CountEmpty(Layout(a, |a.prefilled|), k) == n
  {
    OneSlotEach(a);
    NoneBefore(Layout(a, |a.prefilled|));
    EmptySlot(Layout(a, |a.prefilled|), n, 0)
  }

  /** Every short id is settled by its matches in `pool` and `extra`. */
  ghost predicate SettledBy(a: Announcement, shortId: nat -> nat, pool: seq<Listed>, extra: seq<Listed>,
    avail: seq<Option<Tx>>)
    requires PlacesOk(a, |a.prefilled|) && |avail| == |a.shortIds| + |a.prefilled|
  {
    forall n :: 0 <= n < |a.shortIds| ==>
      Settles(Hits(pool, shortId, a.shortIds[n]), Hits(extra, shortId, a.shortIds[n]), avail[SlotOf(a, n)])
  }

  ghost predicate Full(avail: seq<Option<Tx>>) {
    forall k :: 0 <= k < |avail| ==> avail[k].Some?
  }

  /** A slot of the map is the slot of its short id, and every empty slot is one. */
  lemma SlotsAre(a: Announcement)
    requires PlacesOk(a, |a.prefilled|) && Distinct(a.shortIds) && |a.shortIds| + |a.prefilled| <= SLOT_LIMIT
    ensures CountEmpty(Layout(a, |a.prefilled|), |Layout(a, |a.prefilled|)|) == |a.shortIds|
    ensures var layout := Layout(a, |a.prefilled|);
            var slots := StoredSlots(layout, a.shortIds, |a.shortIds|);
            && SlotsOk(layout, slots) && |slots| == |a.shortIds|
            && (forall n :: 0 <= n < |a.shortIds| ==> a.shortIds[n] in slots && slots[a.shortIds[n]] == SlotOf(a, n))
            && (forall id :: id in slots ==> id in a.shortIds)
  {
    hide Layout, StoredSlots, SlotMap, CountEmpty, EmptySlot, PlacesOk;
    OneSlotEach(a);
    StoredExact(a);
    var layout := Layout(a, |a.prefilled|);
    var slots := StoredSlots(layout, a.shortIds, |a.shortIds|);
    SlotMapOk(layout, a.shortIds);
    StoredSize(layout, a.shortIds);
    forall n | 0 <= n < |a.shortIds| ensures a.shortIds[n] in slots && slots[a.shortIds[n]] == SlotOf(a, n) {
      SlotMapAt(layout, a.shortIds, |a.shortIds|, n);
    }
    forall id | id in slots ensures id in a.shortIds {
      var n := IdFrom(a.shortIds, |a.shortIds|, id);
    }
  }

  /** Everything is found in the pool alone: each short id has exactly one match. */
  predicate PoolHasAll(a: Announcement, shortId: nat -> nat, pool: seq<Listed>) {
    forall n :: 0 <= n < |a.shortIds| ==> |Hits(pool, shortId, a.shortIds[n])| == 1
  }

  /** Everything is found: the matches of each short id settle its slot on a transaction. */
  ghost predicate ListsHaveAll(a: Announcement, shortId: nat -> nat, pool: seq<Listed>, extra: seq<Listed>) {
    forall n :: 0 <= n < |a.shortIds| ==>
      !Settles(Hits(pool, shortId, a.shortIds[n]), Hits(extra, shortId, a.shortIds[n]), None)
  }

  /** Every slot after both scans, for an announcement whose slots fit into 16 bits: prefilled ones are as sent, and the
      others are settled by the matches in the first `i` transactions of the pool and the first `j` of the extra list.
      Each list is read to its end, or up to the first transaction with which everything is found. */
  lemma KnownExactly(a: Announcement, shortId: nat -> nat, pool: seq<Listed>, extra: seq<Listed>)
    returns (i: nat, j: nat)
    requires PlacesOk(a, |a.prefilled|) && Distinct(a.shortIds) && |a.shortIds| + |a.prefilled| <= SLOT_LIMIT
    ensures i <= |pool| && (i < |pool| ==> i >= 1 && PoolHasAll(a, shortId, pool[..i]))
    ensures forall n :: 1 <= n < i ==> !PoolHasAll(a, shortId, pool[..n])
    ensures j <= |extra| && (j < |extra| ==> j >= 1 && ListsHaveAll(a, shortId, pool[..i], extra[..j]))
    ensures forall n :: 1 <= n < j ==> !ListsHaveAll(a, shortId, pool[..i], extra[..n])
    ensures var r := Known(a, shortId, pool, extra);
            && SettledBy(a, shortId, pool[..i], extra[..j], r.avail)
            && (forall k :: 0 <= k < |r.avail| && Layout(a, |a.prefilled|)[k].Some? ==>
                  r.avail[k] == Layout(a, |a.prefilled|)[k])
  {
    hide *;
    SlotsAre(a);
    var layout := Layout(a, |a.prefilled|);
    var slots := StoredSlots(layout, a.shortIds, |a.shortIds|);
    StartSettled(layout, slots, shortId);
    i := ListRead(a, shortId, Start(layout), [], [], pool, false);
    var s1 := All(Start(layout), slots, pool, shortId, false);
    assert [] + pool[..i] == pool[..i];
    forall n | 1 <= n <= i
      ensures ReadSoFar(a, shortId, [], [], pool[..n], false) <==> PoolHasAll(a, shortId, pool[..n])
    {
      PoolRead(a, shortId, pool[..n]);
    }
    j := ListRead(a, shortId, s1, pool[..i], [], extra, true);
    assert [] + extra[..j] == extra[..j];
    forall n | 1 <= n <= j
      ensures ReadSoFar(a, shortId, pool[..i], [], extra[..n], true) <==>
        ListsHaveAll(a, shortId, pool[..i], extra[..n])
    {
      ExtraRead(a, shortId, pool[..i], extra[..n]);
    }
    var r := All(s1, slots, extra, shortId, true);
    KnownIs(a, shortId, pool, extra);
    FullIfCounted(layout, r);
    Translate(a, shortId, slots, r, pool[..i], extra[..j]);
  }

  lemma KnownIs(a: Announcement, shortId: nat -> nat, pool: seq<Listed>, extra: seq<Listed>)
    requires PlacesOk(a, |a.prefilled|)
    ensures CountEmpty(Layout(a, |a.prefilled|), |Layout(a, |a.prefilled|)|) == |a.shortIds|
    ensures var layout := Layout(a, |a.prefilled|);
            var slots := StoredSlots(layout, a.shortIds, |a.shortIds|);
            && |Start(layout).avail| == |Start(layout).have| && (forall x :: x in slots ==> slots[x] < |layout|)
            && Known(a, shortId, pool, extra) ==
               All(All(Start(layout), slots, pool, shortId, false), slots, extra, shortId, true)
  {
    hide StoredSlots, Layout, PlacesOk;
    OneSlotEach(a);
    StoredInRange(Layout(a, |a.prefilled|), a.shortIds, |a.shortIds|);
  }

  lemma ExtraRead(a: Announcement, shortId: nat -> nat, pool: seq<Listed>, extra: seq<Listed>)
    ensures ReadSoFar(a, shortId, pool, [], extra, true) <==> ListsHaveAll(a, shortId, pool, extra)
  {
    assert [] + extra == extra;
  }

  lemma PoolRead(a: Announcement, shortId: nat -> nat, pool: seq<Listed>)
    ensures ReadSoFar(a, shortId, [], [], pool, false) <==> PoolHasAll(a, shortId, pool)
  {
    assert [] + pool == pool;
    forall n | 0 <= n < |a.shortIds|
      ensures |Hits(pool, shortId, a.shortIds[n])| == 1 <==>
        !Settles(Hits(pool, shortId, a.shortIds[n]), Hits([], shortId, a.shortIds[n]), None)
    {
      assert Hits(pool, shortId, a.shortIds[n]) + [] == Hits(pool, shortId, a.shortIds[n]);
    }
  }

  /** AllSettles, with "everything found" said of the lists. */
  lemma ListRead(a: Announcement, shortId: nat -> nat, s: Scan, p: seq<Listed>, e: seq<Listed>, list: seq<Listed>,
    extra: bool) returns (m: nat)
    requires PlacesOk(a, |a.prefilled|) && Distinct(a.shortIds) && |a.shortIds| + |a.prefilled| <= SLOT_LIMIT
    requires CountEmpty(Layout(a, |a.prefilled|), |Layout(a, |a.prefilled|)|) == |a.shortIds|
    requires CountOk(Layout(a, |a.prefilled|), s)
    requires Settled(StoredSlots(Layout(a, |a.prefilled|), a.shortIds, |a.shortIds|), s, p, e, shortId)
    requires !extra ==> e == []
    ensures m <= |list| && (m < |list| ==> m >= 1 && ReadSoFar(a, shortId, p, e, list[..m], extra))
    ensures forall n :: 1 <= n < m ==> !ReadSoFar(a, shortId, p, e, list[..n], extra)
    ensures var slots := StoredSlots(Layout(a, |a.prefilled|), a.shortIds, |a.shortIds|);
            && |s.avail| == |s.have| && (forall x :: x in slots ==> slots[x] < |s.avail|)
            && var r := All(s, slots, list, shortId, extra);
               && CountOk(Layout(a, |a.prefilled|), r)
               && if extra then Settled(slots, r, p, e + list[..m], shortId)
                  else Settled(slots, r, p + list[..m], e, shortId)
  {
    hide *;
    SlotsAre(a);
    var layout := Layout(a, |a.prefilled|);
    var slots := StoredSlots(layout, a.shortIds, |a.shortIds|);
    CountShape(layout, s);
    SlotsShape(layout, slots);
    m := AllSettles(layout, slots, s, p, e, list, shortId, extra);
    var r := All(s, slots, list, shortId, extra);
    FoundAll(a, shortId, r, p, e, list[..m], extra);
    forall n | 1 <= n < m ensures !ReadSoFar(a, shortId, p, e, list[..n], extra) {
      var m' := AllSettles(layout, slots, s, p, e, list[..n], shortId, extra);
      assert list[..n][..m'] == list[..n];
      FoundAll(a, shortId, All(s, slots, list[..n], shortId, extra), p, e, list[..n], extra);
    }
  }

  ghost predicate ReadSoFar(a: Announcement, shortId: nat -> nat, p: seq<Listed>, e: seq<Listed>, list: seq<Listed>,
    extra: bool)
  {
    if extra then ListsHaveAll(a, shortId, p, e + list) else ListsHaveAll(a, shortId, p + list, e)
  }

  /** The count tells whether everything has been found. */
  lemma FoundAll(a: Announcement, shortId: nat -> nat, s: Scan, p: seq<Listed>, e: seq<Listed>, list: seq<Listed>,
    extra: bool)
    requires PlacesOk(a, |a.prefilled|) && Distinct(a.shortIds) && |a.shortIds| + |a.prefilled| <= SLOT_LIMIT
    requires CountEmpty(Layout(a, |a.prefilled|), |Layout(a, |a.prefilled|)|) == |a.shortIds|
    requires CountOk(Layout(a, |a.prefilled|), s)
    requires var slots := StoredSlots(Layout(a, |a.prefilled|), a.shortIds, |a.shortIds|);
             if extra then Settled(slots, s, p, e + list, shortId) else Settled(slots, s, p + list, e, shortId)
    ensures s.count == |a.shortIds| <==> ReadSoFar(a, shortId, p, e, list, extra)
  {
    hide Layout, StoredSlots, PlacesOk, CountEmpty, Settled, Settles, SlotOf, Hits, CountOk;
    SlotsAre(a);
    var layout := Layout(a, |a.prefilled|);
    var slots := StoredSlots(layout, a.shortIds, |a.shortIds|);
    CountShape(layout, s);
    var p', e' := if extra then p else p + list, if extra then e + list else e;
    Translate(a, shortId, slots, s, p', e');
    forall n | 0 <= n < |a.shortIds|
      ensures s.avail[SlotOf(a, n)].None? <==>
        Settles(Hits(p', shortId, a.shortIds[n]), Hits(e', shortId, a.shortIds[n]), None)
    {
      OneAnswer(Hits(p', shortId, a.shortIds[n]), Hits(e', shortId, a.shortIds[n]), s.avail[SlotOf(a, n)]);
    }
    FullIfCounted(layout, s);
    if ReadSoFar(a, shortId, p, e, list, extra) { FullCounts(a, s); }
  }

  lemma OneAnswer(p: seq<Tx>, e: seq<Tx>, slot: Option<Tx>)
    requires Settles(p, e, slot)
    ensures slot.None? <==> Settles(p, e, None)
  {
  }

  lemma FullCounts(a: Announcement, s: Scan)
    requires PlacesOk(a, |a.prefilled|) && CountOk(Layout(a, |a.prefilled|), s)
    requires CountEmpty(Layout(a, |a.prefilled|), |Layout(a, |a.prefilled|)|) == |a.shortIds|
    requires forall n :: 0 <= n < |a.shortIds| ==> s.avail[SlotOf(a, n)].Some?
    ensures s.count == |a.shortIds|
  {
    hide Layout, PlacesOk, EmptySlot;
    var layout := Layout(a, |a.prefilled|);
    forall k | 0 <= k < |layout| ensures s.avail[k].Some? {
      if layout[k].None? {
        EmptyBefore(layout, k, |layout|);
        SlotUnique(layout, k, SlotOf(a, CountEmpty(layout, k)));
      }
    }
    NoneCounted(s.avail, |layout|);
  }

  lemma Translate(a: Announcement, shortId: nat -> nat, slots: map<nat, nat>, s: Scan, p: seq<Listed>, e: seq<Listed>)
    requires PlacesOk(a, |a.prefilled|) && |s.avail| == |a.shortIds| + |a.prefilled|
    requires forall n :: 0 <= n < |a.shortIds| ==> a.shortIds[n] in slots && slots[a.shortIds[n]] == SlotOf(a, n)
    requires Settled(slots, s, p, e, shortId)
    ensures SettledBy(a, shortId, p, e, s.avail)
  {
    hide Settles, SlotOf, Hits;
    forall n | 0 <= n < |a.shortIds|
      ensures Settles(Hits(p, shortId, a.shortIds[n]), Hits(e, shortId, a.shortIds[n]), s.avail[SlotOf(a, n)])
    {
      var id := a.shortIds[n];
      assert SettledAt(s, slots[id], Hits(p, shortId, id), Hits(e, shortId, id));
    }
  }

  lemma FullIfCounted(layout: seq<Option<Tx>>, s: Scan)
    requires CountOk(layout, s)
    ensures s.count == CountEmpty(layout, |layout|) ==> Full(s.avail)
    ensures forall k :: 0 <= k < |layout| && layout[k].Some? ==> s.avail[k] == layout[k]
  {
    if s.count == CountEmpty(layout, |layout|) {
      forall k | 0 <= k < |s.avail| ensures s.avail[k].Some? { NoneEmpty(s.avail, k); }
    }
  }

  // ---------------------------------------------------------------- what is found

  /** Every transaction whose short id has exactly one match in the pool is found there; and unless the scan
      has stopped because nothing was missing any more, no other one is. */
  lemma PoolFinds(layout: seq<Option<Tx>>, slots: map<nat, nat>, pool: seq<Listed>, shortId: nat -> nat, id: nat)
    requires SlotsOk(layout, slots) && |slots| == CountEmpty(layout, |layout|) && id in slots
    ensures var s := All(Start(layout), slots, pool, shortId, false);
            && 0 <= s.count <= |slots|
            && (|Hits(pool, shortId, id)| == 1 ==> s.avail[slots[id]].Some?)
            && (s.count < |slots| && s.avail[slots[id]].Some? ==> |Hits(pool, shortId, id)| == 1)
  {
    hide All, Start, Hits, SlotsOk, CountEmpty, SettledAt;
    SlotsShape(layout, slots);
    StartSettled(layout, slots, shortId);
    CountShape(layout, Start(layout));
    var m := AllSettles(layout, slots, Start(layout), [], [], pool, shortId, false);
    assert [] + pool[..m] == pool[..m] && pool[..|pool|] == pool;
    var s := All(Start(layout), slots, pool, shortId, false);
    NoHits(shortId, id);
    assert SettledAt(s, slots[id], Hits(pool[..m], shortId, id), Hits([], shortId, id));
    OneMatchOnly(s, slots[id], Hits(pool[..m], shortId, id));
    FewerEmpty(layout, s.avail, |layout|);
    if s.count == |slots| { NoneEmpty(s.avail, slots[id]); }
  }

  lemma NoHits(shortId: nat -> nat, id: nat)
    ensures Hits([], shortId, id) == []
  {
  }

  lemma OneMatchOnly(s: Scan, k: nat, p: seq<Tx>)
    requires k < |s.avail| == |s.have| && SettledAt(s, k, p, [])
    ensures s.avail[k].Some? <==> |p| == 1
  {
    assert p + [] == p;
  }

  /** A transaction that the pool does not have and the extra list has once is found there. */
  lemma ExtraFinds(a: Announcement, shortId: nat -> nat, pool: seq<Listed>, extra: seq<Listed>, n: nat, tx: Tx)
    requires PlacesOk(a, |a.prefilled|) && Distinct(a.shortIds) && |a.shortIds| + |a.prefilled| <= SLOT_LIMIT
    requires n < |a.shortIds| && Hits(pool, shortId, a.shortIds[n]) == [] && Hits(extra, shortId, a.shortIds[n]) == [tx]
    ensures Known(a, shortId, pool, extra).avail[SlotOf(a, n)] == Some(tx)
  {
    hide Layout, PlacesOk, Known, Hits, SlotOf;
    var id := a.shortIds[n];
    var i, j := KnownExactly(a, shortId, pool, extra);
    HitsPrefix(pool, i, shortId, id);
    HitsPrefix(extra, j, shortId, id);
    assert pool[..|pool|] == pool && extra[..|extra|] == extra;
    assert Settles([], Hits(extra[..j], shortId, id), Known(a, shortId, pool, extra).avail[SlotOf(a, n)]);
  }

  /** A transaction that the pool has once stays, if every match in the extra list has its witness hash. */
  lemma PoolMatchStays(a: Announcement, shortId: nat -> nat, pool: seq<Listed>, extra: seq<Listed>, n: nat, tx: Tx)
    requires PlacesOk(a, |a.prefilled|) && Distinct(a.shortIds) && |a.shortIds| + |a.prefilled| <= SLOT_LIMIT
    requires n < |a.shortIds| && Hits(pool, shortId, a.shortIds[n]) == [tx]
    requires forall t :: t in Hits(extra, shortId, a.shortIds[n]) ==> t.witnessHash == tx.witnessHash
    ensures Known(a, shortId, pool, extra).avail[SlotOf(a, n)] == Some(tx)
  {
    hide Layout, PlacesOk, Known, Hits, SlotOf, Settles;
    var id := a.shortIds[n];
    var i, j := KnownExactly(a, shortId, pool, extra);
    HitsPrefix(pool, i, shortId, id);
    HitsPrefix(extra, j, shortId, id);
    assert pool[..|pool|] == pool;
    assert Settles([tx], Hits(extra[..j], shortId, id), Known(a, shortId, pool, extra).avail[SlotOf(a, n)]);
    StaysSettled(tx, Hits(extra[..j], shortId, id), Known(a, shortId, pool, extra).avail[SlotOf(a, n)]);
  }

  lemma StaysSettled(tx: Tx, e: seq<Tx>, slot: Option<Tx>)
    requires Settles([tx], e, slot) && forall t :: t in e ==> t.witnessHash == tx.witnessHash
    ensures slot == Some(tx)
  {
    var all := [tx] + e;
    forall i | 0 <= i < |all| ensures all[i].witnessHash == tx.witnessHash {
      if i > 0 { assert all[i] == e[i - 1]; }
    }
  }

  /** A slot with two matches in the pool, or with matches that differ in their witness hash, is left empty, unless a
      scan has stopped before the end of its list because everything was found. */
  lemma AmbiguousIsEmpty(a: Announcement, shortId: nat -> nat, pool: seq<Listed>, extra: seq<Listed>, n: nat)
    requires PlacesOk(a, |a.prefilled|) && Distinct(a.shortIds) && |a.shortIds| + |a.prefilled| <= SLOT_LIMIT
    requires n < |a.shortIds|
    requires var p, e := Hits(pool, shortId, a.shortIds[n]), Hits(extra, shortId, a.shortIds[n]);
             |p| >= 2 || !Agree(p + e)
    requires forall i :: 1 <= i < |pool| ==> !PoolHasAll(a, shortId, pool[..i])
    requires forall j :: 1 <= j < |extra| ==> !ListsHaveAll(a, shortId, pool, extra[..j])
    ensures Known(a, shortId, pool, extra).avail[SlotOf(a, n)] == None
  {
    hide Layout, PlacesOk, Known, Hits, SlotOf, PoolHasAll, ListsHaveAll;
    var id := a.shortIds[n];
    var i, j := KnownExactly(a, shortId, pool, extra);
    assert pool[..|pool|] == pool && extra[..|extra|] == extra;
    assert Settles(Hits(pool, shortId, id), Hits(extra, shortId, id),
      Known(a, shortId, pool, extra).avail[SlotOf(a, n)]);
  }
}
