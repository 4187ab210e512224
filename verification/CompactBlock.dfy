/**
 Compact blocks (BIP 152): a block is announced as short ids of its transactions and a few transactions in full; the
 receiver puts it together from the latter, its memory pool and a list of extra transactions, and asks for the rest.
 */
module CompactBlock {

  datatype Option<T> = None | Some(value: T)

  /** `empty` is a transaction without inputs and outputs. */
  datatype Tx = Tx(hash: nat, witnessHash: nat, empty: bool)

  /** The index counts from the previous prefilled transaction; it is read as 16 bits. */
  datatype Prefilled = Prefilled(index: nat, tx: Tx)

  /** No header stands for a null one. */
  datatype Announcement = Announcement(header: Option<nat>, shortIds: seq<nat>, prefilled: seq<Prefilled>)

  datatype ReadStatus = OK | INVALID | FAILED | CHECKBLOCK_FAILED

  /** MAX_BLOCK_BASE_SIZE / MIN_TRANSACTION_BASE_SIZE */
  const MAX_TX_COUNT: nat := 2000000 / 10
  const MAX_INDEX: nat := 0xFFFF
  /** Slots are kept as 16-bit numbers. */
  const SLOT_LIMIT: nat := 0x1_0000

  // ---------------------------------------------------------------- slots

  function CountEmpty(avail: seq<Option<Tx>>, n: nat): nat
    requires n <= |avail|
  {
    if n == 0 then 0 else CountEmpty(avail, n - 1) + if avail[n - 1].None? then 1 else 0
  }

  lemma {:induction false} CountEmptySplit(avail: seq<Option<Tx>>, m: nat, n: nat)
    requires m <= n <= |avail|
    ensures CountEmpty(avail, m) <= CountEmpty(avail, n) <= CountEmpty(avail, m) + n - m
  {
    if m < n { CountEmptySplit(avail, m, n - 1); }
  }

  /** Filling an empty slot leaves one less. */
  lemma {:induction false} CountEmptyPut(avail: seq<Option<Tx>>, k: nat, tx: Tx, n: nat)
    requires k < |avail| && n <= |avail| && avail[k].None?
    ensures CountEmpty(avail[k := Some(tx)], n) == CountEmpty(avail, n) - if k < n then 1 else 0
  {
    if n > 0 { CountEmptyPut(avail, k, tx, n - 1); }
  }

  lemma {:induction false} CountEmptyAll(n: nat, m: nat)
    requires m <= n
    ensures CountEmpty(seq(n, i => None), m) == m
  {
    if m > 0 { CountEmptyAll(n, m - 1); }
  }

  /** The place of the i-th empty slot, looked for from `p` on. */
  function EmptySlot(avail: seq<Option<Tx>>, i: nat, p: nat): (k: nat)
    requires p <= |avail| && CountEmpty(avail, p) <= i < CountEmpty(avail, |avail|)
    ensures p <= k < |avail| && avail[k].None? && CountEmpty(avail, k) == i
    decreases |avail| - p
  {
    if avail[p].None? && CountEmpty(avail, p) == i then p else EmptySlot(avail, i, p + 1)
  }

  lemma EmptyBefore(avail: seq<Option<Tx>>, k: nat, m: nat)
    requires k < m <= |avail| && avail[k].None?
    ensures CountEmpty(avail, k) < CountEmpty(avail, m)
  {
    CountEmptySplit(avail, k + 1, m);
  }

  lemma SlotUnique(avail: seq<Option<Tx>>, k: nat, m: nat)
    requires k < |avail| && m < |avail| && avail[k].None? && avail[m].None? &&
      CountEmpty(avail, k) == CountEmpty(avail, m)
    ensures k == m
  {
    if k < m { EmptyBefore(avail, k, m); } else if m < k { EmptyBefore(avail, m, k); }
  }

  // ---------------------------------------------------------------- prefilled transactions

  /** The place of the n-th prefilled transaction; -1 before the first. */
  function Place(prefilled: seq<Prefilled>, n: nat): int
    requires n <= |prefilled|
  {
    if n == 0 then -1 else Place(prefilled, n - 1) + prefilled[n - 1].index + 1
  }

  /** The first `n` prefilled transactions are acceptable. */
  predicate PlacesOk(a: Announcement, n: nat)
    requires n <= |a.prefilled|
  {
    forall i :: 0 <= i < n ==> PlaceOk(a, i)
  }

  predicate PlaceOk(a: Announcement, i: nat)
    requires i < |a.prefilled|
  {
    && !a.prefilled[i].tx.empty
    && Place(a.prefilled, i + 1) <= MAX_INDEX && Place(a.prefilled, i + 1) <= |a.shortIds| + i
  }

  lemma {:induction false} PlacesApart(prefilled: seq<Prefilled>, m: nat, n: nat)
    requires m <= n <= |prefilled|
    ensures Place(prefilled, n) >= Place(prefilled, m) + (n - m)
  {
    if m < n { PlacesApart(prefilled, m, n - 1); }
  }

  /** The prefilled transactions are accepted exactly if none is empty and the last one has a place in the block that 16
      bits can name. */
  lemma PlacesExactly(a: Announcement)
    ensures PlacesOk(a, |a.prefilled|) <==>
      && (forall i :: 0 <= i < |a.prefilled| ==> !a.prefilled[i].tx.empty)
      && Place(a.prefilled, |a.prefilled|) < |a.shortIds| + |a.prefilled|
      && Place(a.prefilled, |a.prefilled|) < 65_536
  {
    var n := |a.prefilled|;
    if n > 0 {
      if PlacesOk(a, n) { assert PlaceOk(a, n - 1); }
      if forall i :: 0 <= i < n ==> !a.prefilled[i].tx.empty {
        if !PlacesOk(a, n) {
          var i :| 0 <= i < n && !PlaceOk(a, i);
          PlacesApart(a.prefilled, i + 1, n);
        } else {
          assert PlaceOk(a, n - 1);
        }
      } else {
        var i :| 0 <= i < n && a.prefilled[i].tx.empty;
        assert !PlaceOk(a, i);
      }
    }
  }

  /** The place of a prefilled transaction is the sum of the distances sent, and one for each before it. */
  lemma {:induction false} PlaceIsSum(prefilled: seq<Prefilled>, n: nat)
    requires n <= |prefilled|
    ensures Place(prefilled, n) == Distances(prefilled[..n]) + n - 1
  {
    if n > 0 {
      PlaceIsSum(prefilled, n - 1);
      assert prefilled[..n][..n - 1] == prefilled[..n - 1];
    }
  }

  function Distances(prefilled: seq<Prefilled>): nat {
    if prefilled == [] then 0 else Distances(prefilled[..|prefilled| - 1]) + prefilled[|prefilled| - 1].index
  }

  function Layout(a: Announcement, n: nat): (avail: seq<Option<Tx>>)
    requires n <= |a.prefilled| && PlacesOk(a, n)
    ensures |avail| == |a.shortIds| + |a.prefilled|
  {
    if n == 0 then seq(|a.shortIds| + |a.prefilled|, i => None)
    else
      PlaceRises(a.prefilled, n - 1);
      assert PlaceOk(a, n - 1);
      Layout(a, n - 1)[Place(a.prefilled, n) := Some(a.prefilled[n - 1].tx)]
  }

  lemma {:induction false} PlaceRises(prefilled: seq<Prefilled>, n: nat)
    requires n < |prefilled|
    ensures n - 1 <= Place(prefilled, n) < Place(prefilled, n + 1)
  {
    if n > 0 { PlaceRises(prefilled, n - 1); }
  }

  lemma {:induction false} LayoutEmpty(a: Announcement, n: nat)
    requires n <= |a.prefilled| && PlacesOk(a, n)
    ensures CountEmpty(Layout(a, n), |Layout(a, n)|) == |a.shortIds| + |a.prefilled| - n
    ensures forall k: nat :: Place(a.prefilled, n) < k < |Layout(a, n)| ==> Layout(a, n)[k].None?
  {
    if n == 0 {
      CountEmptyAll(|a.shortIds| + |a.prefilled|, |a.shortIds| + |a.prefilled|);
    } else {
      LayoutEmpty(a, n - 1);
      PlaceRises(a.prefilled, n - 1);
      assert PlaceOk(a, n - 1);
      CountEmptyPut(Layout(a, n - 1), Place(a.prefilled, n), a.prefilled[n - 1].tx, |Layout(a, n - 1)|);
    }
  }

  /** With every prefilled transaction in place there is one empty slot for each short id. */
  lemma OneSlotEach(a: Announcement)
    requires PlacesOk(a, |a.prefilled|)
    ensures CountEmpty(Layout(a, |a.prefilled|), |a.shortIds| + |a.prefilled|) == |a.shortIds|
  {
    LayoutEmpty(a, |a.prefilled|);
  }

  // ---------------------------------------------------------------- short ids

  predicate Distinct(ids: seq<nat>) {
    forall i, j :: 0 <= i < j < |ids| ==> ids[i] != ids[j]
  }

  function IdSet(ids: seq<nat>, n: nat): set<nat>
    requires n <= |ids|
  {
    if n == 0 then {} else IdSet(ids, n - 1) + {ids[n - 1]}
  }

  lemma {:induction false} IdIn(ids: seq<nat>, n: nat, i: nat)
    requires i < n <= |ids|
    ensures ids[i] in IdSet(ids, n)
  {
    if i < n - 1 { IdIn(ids, n - 1, i); }
  }

  lemma {:induction false} IdFrom(ids: seq<nat>, n: nat, id: nat) returns (i: nat)
    requires n <= |ids| && id in IdSet(ids, n)
    ensures i < n && ids[i] == id
  {
    if ids[n - 1] == id { i := n - 1; } else { i := IdFrom(ids, n - 1, id); }
  }

  predicate DistinctUpTo(ids: seq<nat>, n: nat)
    requires n <= |ids|
  {
    forall i, j :: 0 <= i < j < n ==> ids[i] != ids[j]
  }

  lemma DistinctNext(ids: seq<nat>, n: nat)
    requires 0 < n <= |ids|
    ensures DistinctUpTo(ids, n) <==> DistinctUpTo(ids, n - 1) && ids[n - 1] !in IdSet(ids, n - 1)
  {
    hide IdSet;
    if ids[n - 1] in IdSet(ids, n - 1) {
      var i := IdFrom(ids, n - 1, ids[n - 1]);
    } else {
      forall i | 0 <= i < n - 1 ensures ids[i] != ids[n - 1] { IdIn(ids, n - 1, i); }
    }
  }

  lemma {:induction false} IdSetSize(ids: seq<nat>, n: nat)
    requires n <= |ids|
    ensures |IdSet(ids, n)| <= n && (|IdSet(ids, n)| == n <==> DistinctUpTo(ids, n))
  {
    if n > 0 {
      DistinctNext(ids, n);
      hide DistinctUpTo;
      IdSetSize(ids, n - 1);
      if ids[n - 1] in IdSet(ids, n - 1) { assert IdSet(ids, n) == IdSet(ids, n - 1); }
    }
  }

  /** The slots of the first `n` short ids; of equal ids the last one counts. */
  function SlotMap(layout: seq<Option<Tx>>, ids: seq<nat>, n: nat): (m: map<nat, nat>)
    requires n <= |ids| && CountEmpty(layout, |layout|) == |ids|
    ensures m.Keys == IdSet(ids, n)
  {
    if n == 0 then map[] else SlotMap(layout, ids, n - 1)[ids[n - 1] := EmptySlot(layout, n - 1, 0)]
  }

  /** The slots as they are stored: cut to 16 bits. */
  function StoredSlots(layout: seq<Option<Tx>>, ids: seq<nat>, n: nat): (m: map<nat, nat>)
    requires n <= |ids| && CountEmpty(layout, |layout|) == |ids|
    ensures m.Keys == IdSet(ids, n)
  {
    if n == 0 then map[] else StoredSlots(layout, ids, n - 1)[ids[n - 1] := EmptySlot(layout, n - 1, 0) % SLOT_LIMIT]
  }

  lemma NothingStored(layout: seq<Option<Tx>>, ids: seq<nat>)
    requires CountEmpty(layout, |layout|) == |ids|
    ensures StoredSlots(layout, ids, 0) == map[]
  {
  }

  lemma StoredNext(layout: seq<Option<Tx>>, ids: seq<nat>, i: nat, slot: nat)
    requires i < |ids| && CountEmpty(layout, |layout|) == |ids|
    requires slot < |layout| && layout[slot].None? && CountEmpty(layout, slot) == i
    ensures StoredSlots(layout, ids, i + 1) == StoredSlots(layout, ids, i)[ids[i] := slot % SLOT_LIMIT]
    ensures CountEmpty(layout, slot + 1) == i + 1
  {
    hide EmptySlot;
    NoneBefore(layout);
    SlotUnique(layout, EmptySlot(layout, i, 0), slot);
  }

  /** The check on the size of the map finds equal ids. */
  lemma StoredSize(layout: seq<Option<Tx>>, ids: seq<nat>)
    requires CountEmpty(layout, |layout|) == |ids|
    ensures |StoredSlots(layout, ids, |ids|)| == |ids| <==> Distinct(ids)
  {
    hide CountEmpty, IdSet, StoredSlots;
    IdSetSize(ids, |ids|);
    var m := StoredSlots(layout, ids, |ids|);
    assert |m.Keys| == |m|;
  }

  lemma {:induction false} StoredInRange(layout: seq<Option<Tx>>, ids: seq<nat>, n: nat)
    requires n <= |ids| && CountEmpty(layout, |layout|) == |ids|
    ensures forall x :: x in StoredSlots(layout, ids, n) ==> StoredSlots(layout, ids, n)[x] < |layout|
  {
    if n > 0 {
      NoneBefore(layout);
      hide EmptySlot, CountEmpty;
      StoredInRange(layout, ids, n - 1);
    }
  }

  lemma {:induction false} StoredSame(layout: seq<Option<Tx>>, ids: seq<nat>, n: nat)
    requires n <= |ids| && CountEmpty(layout, |layout|) == |ids| && |layout| <= SLOT_LIMIT
    ensures StoredSlots(layout, ids, n) == SlotMap(layout, ids, n)
  {
    if n > 0 {
      NoneBefore(layout);
      hide EmptySlot, CountEmpty;
      StoredSame(layout, ids, n - 1);
    }
  }

  /** With more slots than 16 bits can tell apart, the last id has the last slot, and it is cut. */
  lemma StoredWrong(layout: seq<Option<Tx>>, ids: seq<nat>)
    requires CountEmpty(layout, |layout|) == |ids| && |layout| > SLOT_LIMIT && layout[|layout| - 1].None?
    ensures ids != [] && ids[|ids| - 1] in StoredSlots(layout, ids, |ids|)
    ensures StoredSlots(layout, ids, |ids|)[ids[|ids| - 1]] == (|layout| - 1) % SLOT_LIMIT
    ensures StoredSlots(layout, ids, |ids|) != SlotMap(layout, ids, |ids|)
  {
    var n := |layout|;
    NoneBefore(layout);
    SlotUnique(layout, EmptySlot(layout, |ids| - 1, 0), n - 1);
    var last := ids[|ids| - 1];
    assert SlotMap(layout, ids, |ids|)[last] == n - 1;
  }

  /** Every id has its own empty slot. */
  predicate SlotsOk(layout: seq<Option<Tx>>, slots: map<nat, nat>) {
    && (forall id :: id in slots ==> slots[id] < |layout| && layout[slots[id]].None?)
    && (forall x, y :: x in slots && y in slots && slots[x] == slots[y] ==> x == y)
  }

  lemma {:induction false} SlotMapAt(layout: seq<Option<Tx>>, ids: seq<nat>, n: nat, i: nat)
    requires i < n <= |ids| && CountEmpty(layout, |layout|) == |ids| && Distinct(ids)
    ensures ids[i] in SlotMap(layout, ids, n) && CountEmpty(layout, 0) == 0
    ensures SlotMap(layout, ids, n)[ids[i]] == EmptySlot(layout, i, 0)
  {
    NoneBefore(layout);
    hide EmptySlot, CountEmpty;
    if i < n - 1 { SlotMapAt(layout, ids, n - 1, i); }
  }

  lemma SlotMapOk(layout: seq<Option<Tx>>, ids: seq<nat>)
    requires CountEmpty(layout, |layout|) == |ids| && Distinct(ids)
    ensures SlotsOk(layout, SlotMap(layout, ids, |ids|))
  {
    NoneBefore(layout);
    hide IdSet, SlotMap, CountEmpty, EmptySlot;
    var m := SlotMap(layout, ids, |ids|);
    forall id | id in m ensures m[id] < |layout| && layout[m[id]].None? {
      var i := IdFrom(ids, |ids|, id);
      SlotMapAt(layout, ids, |ids|, i);
    }
    forall x, y | x in m && y in m && m[x] == m[y] ensures x == y {
      var i := IdFrom(ids, |ids|, x);
      var j := IdFrom(ids, |ids|, y);
      SlotMapAt(layout, ids, |ids|, i);
      SlotMapAt(layout, ids, |ids|, j);
      assert CountEmpty(layout, EmptySlot(layout, i, 0)) == i && CountEmpty(layout, EmptySlot(layout, j, 0)) == j;
    }
  }

  // ---------------------------------------------------------------- known transactions

  /** A transaction and the hash under which it is listed. */
  datatype Listed = Listed(hash: nat, tx: Tx)

  /** What is available, which slots have been matched, and how many were filled by matching. */
  datatype Scan = Scan(avail: seq<Option<Tx>>, have: seq<bool>, count: int)

  function PoolOne(s: Scan, slots: map<nat, nat>, id: nat, tx: Tx): Scan
    requires |s.avail| == |s.have| && forall x :: x in slots ==> slots[x] < |s.avail|
  {
    if id !in slots then s
    else
      var k := slots[id];
      if !s.have[k] then Scan(s.avail[k := Some(tx)], s.have[k := true], s.count + 1)
      else if s.avail[k].Some? then s.(avail := s.avail[k := None], count := s.count - 1)
      else s
  }

  /** A transaction that is known from the pool already is not a second match. */
  function ExtraOne(s: Scan, slots: map<nat, nat>, id: nat, tx: Tx): Scan
    requires |s.avail| == |s.have| && forall x :: x in slots ==> slots[x] < |s.avail|
  {
    if id !in slots then s
    else
      var k := slots[id];
      if !s.have[k] then Scan(s.avail[k := Some(tx)], s.have[k := true], s.count + 1)
      else if s.avail[k].Some? && s.avail[k].value.witnessHash != tx.witnessHash then
        s.(avail := s.avail[k := None], count := s.count - 1)
      else s
  }

  function One(s: Scan, slots: map<nat, nat>, id: nat, tx: Tx, extra: bool): (r: Scan)
    requires |s.avail| == |s.have| && forall x :: x in slots ==> slots[x] < |s.avail|
    ensures |r.avail| == |r.have| == |s.avail|
  {
    if extra then ExtraOne(s, slots, id, tx) else PoolOne(s, slots, id, tx)
  }

  /** A list is scanned until everything has been found. */
  function All(s: Scan, slots: map<nat, nat>, list: seq<Listed>, shortId: nat -> nat, extra: bool): (r: Scan)
    requires |s.avail| == |s.have| && forall x :: x in slots ==> slots[x] < |s.avail|
    ensures |r.avail| == |r.have| == |s.avail|
    decreases |list|
  {
    if list == [] then s
    else
      var s1 := One(s, slots, shortId(list[0].hash), list[0].tx, extra);
      if s1.count == |slots| then s1 else All(s1, slots, list[1..], shortId, extra)
  }

  function Start(layout: seq<Option<Tx>>): Scan {
    Scan(layout, seq(|layout|, i => false), 0)
  }

  /** What the receiver has after scanning its pool and then the extra transactions. */
  function Known(a: Announcement, shortId: nat -> nat, pool: seq<Listed>, extra: seq<Listed>): (r: Scan)
    requires PlacesOk(a, |a.prefilled|)
    ensures |r.avail| == |a.shortIds| + |a.prefilled|
  {
    OneSlotEach(a);
    var layout := Layout(a, |a.prefilled|);
    var slots := StoredSlots(layout, a.shortIds, |a.shortIds|);
    StoredInRange(layout, a.shortIds, |a.shortIds|);
    All(All(Start(layout), slots, pool, shortId, false), slots, extra, shortId, true)
  }

  /** The stored slots are right exactly if there are no more than 65536 transactions. */
  lemma StoredExact(a: Announcement)
    requires PlacesOk(a, |a.prefilled|)
    ensures CountEmpty(Layout(a, |a.prefilled|), |a.shortIds| + |a.prefilled|) == |a.shortIds|
    ensures var layout := Layout(a, |a.prefilled|);
            StoredSlots(layout, a.shortIds, |a.shortIds|) == SlotMap(layout, a.shortIds, |a.shortIds|) <==>
            |a.shortIds| + |a.prefilled| <= SLOT_LIMIT
  {
    hide StoredSlots, SlotMap, CountEmpty;
    OneSlotEach(a);
    var n := |a.prefilled|;
    var layout := Layout(a, n);
    if |layout| <= SLOT_LIMIT {
      StoredSame(layout, a.shortIds, |a.shortIds|);
    } else {
      LayoutTop(a);
      StoredWrong(layout, a.shortIds);
    }
  }

  /** Beyond the first 65536 slots all are empty. */
  lemma LayoutTop(a: Announcement)
    requires PlacesOk(a, |a.prefilled|)
    ensures forall k :: SLOT_LIMIT <= k < |a.shortIds| + |a.prefilled| ==> Layout(a, |a.prefilled|)[k].None?
  {
    hide Layout, CountEmpty;
    LayoutEmpty(a, |a.prefilled|);
    if a.prefilled != [] { assert PlaceOk(a, |a.prefilled| - 1); }
  }

  // ---------------------------------------------------------------- what a scan keeps

  /** Prefilled transactions stay, the rest is right or missing, and the count is the number of slots filled. */
  ghost predicate ScanOk(layout: seq<Option<Tx>>, block: seq<Tx>, s: Scan) {
    && |s.avail| == |s.have| == |layout| == |block|
    && (forall k :: 0 <= k < |layout| && layout[k].Some? ==> s.avail[k] == layout[k] && !s.have[k])
    && (forall k :: 0 <= k < |layout| && s.avail[k].Some? ==> s.avail[k].value == block[k])
    && (forall k :: 0 <= k < |layout| && layout[k].None? && s.avail[k].Some? ==> s.have[k])
    && s.count == CountEmpty(layout, |layout|) - CountEmpty(s.avail, |layout|)
  }

  lemma {:induction false} CountEmptyReset(avail: seq<Option<Tx>>, k: nat, n: nat)
    requires k < |avail| && n <= |avail| && avail[k].Some?
    ensures CountEmpty(avail[k := None], n) == CountEmpty(avail, n) + if k < n then 1 else 0
  {
    if n > 0 { CountEmptyReset(avail, k, n - 1); }
  }

  lemma OneOk(layout: seq<Option<Tx>>, block: seq<Tx>, s: Scan, slots: map<nat, nat>, id: nat, tx: Tx, extra: bool)
    requires ScanOk(layout, block, s) && SlotsOk(layout, slots) && (id in slots ==> tx == block[slots[id]])
    ensures ScanOk(layout, block, One(s, slots, id, tx, extra))
  {
    if id in slots {
      var k := slots[id];
      if !s.have[k] {
        CountEmptyPut(s.avail, k, tx, |layout|);
      } else if s.avail[k].Some? {
        CountEmptyReset(s.avail, k, |layout|);
      }
    }
  }

  /** No listed transaction shares a short id with another transaction of the block. */
  predicate Honest(list: seq<Listed>, slots: map<nat, nat>, block: seq<Tx>, shortId: nat -> nat)
    requires forall x :: x in slots ==> slots[x] < |block|
  {
    forall i :: 0 <= i < |list| && shortId(list[i].hash) in slots ==> list[i].tx == block[slots[shortId(list[i].hash)]]
  }

  lemma {:induction false} AllOk(layout: seq<Option<Tx>>, block: seq<Tx>, s: Scan, slots: map<nat, nat>,
    list: seq<Listed>, shortId: nat -> nat, extra: bool)
    requires ScanOk(layout, block, s) && SlotsOk(layout, slots) && Honest(list, slots, block, shortId)
    ensures ScanOk(layout, block, All(s, slots, list, shortId, extra))
    decreases |list|
  {
    hide ScanOk, SlotsOk;
    ScanShape(layout, block, s);
    SlotsShape(layout, slots);
    if list != [] {
      OneOk(layout, block, s, slots, shortId(list[0].hash), list[0].tx, extra);
      AllOk(layout, block, One(s, slots, shortId(list[0].hash), list[0].tx, extra), slots, list[1..], shortId, extra);
    }
  }

  lemma ScanShape(layout: seq<Option<Tx>>, block: seq<Tx>, s: Scan)
    requires ScanOk(layout, block, s)
    ensures |s.avail| == |s.have| == |layout| == |block|
  {
  }

  lemma SlotsShape(layout: seq<Option<Tx>>, slots: map<nat, nat>)
    requires SlotsOk(layout, slots)
    ensures forall x :: x in slots ==> slots[x] < |layout|
  {
  }

  // ---------------------------------------------------------------- reconstruction

  /** The block with the gaps filled from a list, in order, as far as it goes. */
  function Filled(avail: seq<Option<Tx>>, missing: seq<Tx>, n: nat): (vtx: seq<Tx>)
    requires n <= |avail| && CountEmpty(avail, n) <= |missing|
    ensures |vtx| == n
  {
    if n == 0 then []
    else
      var tx := if avail[n - 1].Some? then avail[n - 1].value else missing[CountEmpty(avail, n - 1)];
      Filled(avail, missing, n - 1) + [tx]
  }

  /** The transactions that have to be asked for. */
  function Missing(avail: seq<Option<Tx>>, block: seq<Tx>, n: nat): (q: seq<Tx>)
    requires n <= |avail| == |block|
    ensures |q| == CountEmpty(avail, n)
  {
    if n == 0 then [] else Missing(avail, block, n - 1) + if avail[n - 1].None? then [block[n - 1]] else []
  }

  lemma {:induction false} MissingPrefix(avail: seq<Option<Tx>>, block: seq<Tx>, m: nat, n: nat)
    requires m <= n <= |avail| == |block|
    ensures Missing(avail, block, m) <= Missing(avail, block, n)
  {
    if m < n { MissingPrefix(avail, block, m, n - 1); }
  }

  lemma {:induction false} FilledIsBlock(avail: seq<Option<Tx>>, block: seq<Tx>, n: nat)
    requires n <= |avail| == |block|
    requires forall k :: 0 <= k < |avail| && avail[k].Some? ==> avail[k].value == block[k]
    ensures CountEmpty(avail, n) <= |Missing(avail, block, |avail|)|
    ensures Filled(avail, Missing(avail, block, |avail|), n) == block[..n]
  {
    CountEmptySplit(avail, n, |avail|);
    if n > 0 {
      FilledIsBlock(avail, block, n - 1);
      MissingPrefix(avail, block, n, |avail|);
      assert avail[n - 1].None? ==> Missing(avail, block, n)[CountEmpty(avail, n - 1)] == block[n - 1];
      assert block[..n] == block[..n - 1] + [block[n - 1]];
    }
  }

  /** An announcement stands for a block: prefilled transactions are where they say, and the ids
      are those of the rest. */
  ghost predicate Describes(a: Announcement, block: seq<Tx>, shortId: nat -> nat, hashOf: Tx -> nat) {
    && PlacesOk(a, |a.prefilled|) && Distinct(a.shortIds) && |block| == |a.shortIds| + |a.prefilled|
    && CountEmpty(Layout(a, |a.prefilled|), |block|) == |a.shortIds|
    && var layout := Layout(a, |a.prefilled|);
       && (forall k :: 0 <= k < |block| && layout[k].Some? ==> layout[k].value == block[k])
       && (forall i :: 0 <= i < |a.shortIds| ==> a.shortIds[i] == shortId(hashOf(block[EmptySlot(layout, i, 0)])))
  }

  /** No listed transaction has the short id of a block transaction without being that transaction. */
  ghost predicate NoImpostors(list: seq<Listed>, block: seq<Tx>, shortId: nat -> nat, hashOf: Tx -> nat) {
    forall i, k :: 0 <= i < |list| && 0 <= k < |block| && shortId(list[i].hash) == shortId(hashOf(block[k])) ==>
      list[i].tx == block[k]
  }

  lemma HonestLists(a: Announcement, block: seq<Tx>, shortId: nat -> nat, hashOf: Tx -> nat, list: seq<Listed>)
    requires Describes(a, block, shortId, hashOf) && NoImpostors(list, block, shortId, hashOf)
    ensures var slots := SlotMap(Layout(a, |a.prefilled|), a.shortIds, |a.shortIds|);
            SlotsOk(Layout(a, |a.prefilled|), slots) && Honest(list, slots, block, shortId)
  {
    hide EmptySlot, CountEmpty, Layout, PlacesOk, IdSet, SlotMap;
    var layout := Layout(a, |a.prefilled|);
    var slots := SlotMap(layout, a.shortIds, |a.shortIds|);
    SlotMapOk(layout, a.shortIds);
    forall i | 0 <= i < |list| && shortId(list[i].hash) in slots
      ensures list[i].tx == block[slots[shortId(list[i].hash)]]
    {
      var j := IdFrom(a.shortIds, |a.shortIds|, shortId(list[i].hash));
      SlotMapAt(layout, a.shortIds, |a.shortIds|, j);
    }
  }

  /** Whatever the pool and the extra list hold, a block of up to 65536 transactions comes out exactly, once the missing
      transactions are supplied. */
  lemma Reconstructs(a: Announcement, block: seq<Tx>, shortId: nat -> nat, hashOf: Tx -> nat, pool: seq<Listed>,
    extra: seq<Listed>)
    requires Describes(a, block, shortId, hashOf) && |block| <= SLOT_LIMIT
    requires NoImpostors(pool, block, shortId, hashOf) && NoImpostors(extra, block, shortId, hashOf)
    ensures var s := Known(a, shortId, pool, extra);
            && 0 <= s.count == |a.shortIds| - CountEmpty(s.avail, |s.avail|)
            && Filled(s.avail, Missing(s.avail, block, |s.avail|), |s.avail|) == block
  {
    hide EmptySlot, Layout, PlacesOk, ScanOk, Known, NoImpostors, CountEmpty, Filled, Missing;
    var s := Known(a, shortId, pool, extra);
    KnownOk(a, block, shortId, hashOf, pool, extra);
    ScanMeans(Layout(a, |a.prefilled|), block, s);
    FilledIsBlock(s.avail, block, |block|);
    assert block[..|block|] == block;
  }

  lemma KnownOk(a: Announcement, block: seq<Tx>, shortId: nat -> nat, hashOf: Tx -> nat, pool: seq<Listed>,
    extra: seq<Listed>)
    requires Describes(a, block, shortId, hashOf) && |block| <= SLOT_LIMIT
    requires NoImpostors(pool, block, shortId, hashOf) && NoImpostors(extra, block, shortId, hashOf)
    ensures ScanOk(Layout(a, |a.prefilled|), block, Known(a, shortId, pool, extra))
  {
    hide EmptySlot, Layout, PlacesOk, SlotMap, StoredSlots, ScanOk, Honest, SlotsOk, CountEmpty, NoImpostors,
         All, Start;
    var layout := Layout(a, |a.prefilled|);
    var slots := SlotMap(layout, a.shortIds, |a.shortIds|);
    StoredExact(a);
    HonestLists(a, block, shortId, hashOf, pool);
    HonestLists(a, block, shortId, hashOf, extra);
    SlotsShape(layout, slots);
    StartOk(layout, block);
    AllOk(layout, block, Start(layout), slots, pool, shortId, false);
    var s1 := All(Start(layout), slots, pool, shortId, false);
    AllOk(layout, block, s1, slots, extra, shortId, true);
  }

  lemma StartOk(layout: seq<Option<Tx>>, block: seq<Tx>)
    requires |layout| == |block| && forall k :: 0 <= k < |block| && layout[k].Some? ==> layout[k].value == block[k]
    ensures ScanOk(layout, block, Start(layout))
  {
  }

  lemma ScanMeans(layout: seq<Option<Tx>>, block: seq<Tx>, s: Scan)
    requires ScanOk(layout, block, s)
    ensures |s.avail| == |block| == |layout| &&
      forall k :: 0 <= k < |s.avail| && s.avail[k].Some? ==> s.avail[k].value == block[k]
    ensures s.count == CountEmpty(layout, |layout|) - CountEmpty(s.avail, |s.avail|) && s.count >= 0
  {
    FewerEmpty(layout, s.avail, |layout|);
  }

  lemma {:induction false} FewerEmpty(layout: seq<Option<Tx>>, avail: seq<Option<Tx>>, n: nat)
    requires n <= |layout| == |avail| && forall k :: 0 <= k < |layout| && layout[k].Some? ==> avail[k] == layout[k]
    ensures CountEmpty(avail, n) <= CountEmpty(layout, n)
  {
    if n > 0 { FewerEmpty(layout, avail, n - 1); }
  }

  // ---------------------------------------------------------------- announcing

  function ShortIds(block: seq<Tx>, shortId: nat -> nat, hashOf: Tx -> nat): seq<nat>
    requires block != []
  {
    seq(|block| - 1, i requires 0 <= i < |block| - 1 => shortId(hashOf(block[i + 1])))
  }

  /** Only the coinbase is sent in full. */
  function Announce(header: nat, block: seq<Tx>, shortId: nat -> nat, hashOf: Tx -> nat): Announcement
    requires block != []
  {
    Announcement(Some(header), ShortIds(block, shortId, hashOf), [Prefilled(0, block[0])])
  }

  lemma {:induction false} EmptyAfterFirst(avail: seq<Option<Tx>>, n: nat)
    requires 1 <= n <= |avail| && avail[0].Some? && forall k :: 1 <= k < |avail| ==> avail[k].None?
    ensures CountEmpty(avail, n) == n - 1
  {
    if n > 1 { EmptyAfterFirst(avail, n - 1); }
  }

  /** What a node announces stands for its block, unless two short ids collide. */
  lemma AnnounceDescribes(header: nat, block: seq<Tx>, shortId: nat -> nat, hashOf: Tx -> nat)
    requires block != [] && !block[0].empty && Distinct(ShortIds(block, shortId, hashOf))
    ensures Describes(Announce(header, block, shortId, hashOf), block, shortId, hashOf)
  {
    var a := Announce(header, block, shortId, hashOf);
    AnnounceLayout(header, block, shortId, hashOf);
    hide Layout, EmptySlot, CountEmpty;
    var layout := Layout(a, 1);
    EmptyAfterFirst(layout, |block|);
    forall i | 0 <= i < |a.shortIds| ensures EmptySlot(layout, i, 0) == i + 1 {
      EmptyAfterFirst(layout, i + 1);
      NoneBefore(layout);
      SlotUnique(layout, EmptySlot(layout, i, 0), i + 1);
    }
  }

  lemma NoneBefore(avail: seq<Option<Tx>>)
    ensures CountEmpty(avail, 0) == 0
  {
  }

  lemma AnnounceLayout(header: nat, block: seq<Tx>, shortId: nat -> nat, hashOf: Tx -> nat)
    requires block != [] && !block[0].empty
    ensures var a := Announce(header, block, shortId, hashOf);
            && PlacesOk(a, 1) && |Layout(a, 1)| == |block| && Layout(a, 1)[0] == Some(block[0])
            && forall k :: 1 <= k < |block| ==> Layout(a, 1)[k].None?
  {
    var a := Announce(header, block, shortId, hashOf);
    assert PlaceOk(a, 0);
    LayoutEmpty(a, 1);
  }

  // ---------------------------------------------------------------- blocks with more slots than 16 bits can number

  lemma OneMatch(layout: seq<Option<Tx>>, slots: map<nat, nat>, x: Listed, shortId: nat -> nat)
    requires (forall id :: id in slots ==> slots[id] < |layout|) && shortId(x.hash) in slots
    ensures var s := All(Start(layout), slots, [x], shortId, false);
      All(s, slots, [], shortId, true).avail[slots[shortId(x.hash)]] == Some(x.tx)
  {
    var s := One(Start(layout), slots, shortId(x.hash), x.tx, false);
    assert s.avail[slots[shortId(x.hash)]] == Some(x.tx);
    assert [x][1..] == [];
    assert All(s, slots, [], shortId, false) == s;
  }

  lemma {:induction false} StoredAt(layout: seq<Option<Tx>>, ids: seq<nat>, n: nat, i: nat)
    requires i < n <= |ids| && CountEmpty(layout, |layout|) == |ids| && Distinct(ids)
    ensures ids[i] in StoredSlots(layout, ids, n) && CountEmpty(layout, 0) == 0
    ensures StoredSlots(layout, ids, n)[ids[i]] == EmptySlot(layout, i, 0) % SLOT_LIMIT
  {
    NoneBefore(layout);
    hide EmptySlot, CountEmpty;
    if i < n - 1 { StoredAt(layout, ids, n - 1, i); }
  }

  /** A transaction beyond the first 65536, found in the pool, is put where its number is cut to. */
  lemma Misplaced(a: Announcement, block: seq<Tx>, shortId: nat -> nat, hashOf: Tx -> nat, k: nat, h: nat)
    requires Describes(a, block, shortId, hashOf)
    requires SLOT_LIMIT <= k < |block| && shortId(h) == shortId(hashOf(block[k]))
    ensures Known(a, shortId, [Listed(h, block[k])], []).avail[k % SLOT_LIMIT] == Some(block[k])
  {
    hide Layout, PlacesOk, StoredSlots, All, EmptySlot;
    var layout := Layout(a, |a.prefilled|);
    LayoutTop(a);
    var i := CountEmpty(layout, k);
    EmptyBefore(layout, k, |layout|);
    NoneBefore(layout);
    SlotUnique(layout, EmptySlot(layout, i, 0), k);
    StoredAt(layout, a.shortIds, |a.shortIds|, i);
    hide CountEmpty;
    StoredInRange(layout, a.shortIds, |a.shortIds|);
    OneMatch(layout, StoredSlots(layout, a.shortIds, |a.shortIds|), Listed(h, block[k]), shortId);
  }

  /** Any announced block of more than 65536 transactions, up to the limit on their number: the call goes through unless
      a hash bucket is too full, and a late transaction takes an early place, the first one that of the coinbase. */
  lemma LargeBlockMisplaced(header: nat, block: seq<Tx>, shortId: nat -> nat, hashOf: Tx -> nat, k: nat, h: nat)
    requires SLOT_LIMIT <= k < |block| <= MAX_TX_COUNT && !block[0].empty && Distinct(ShortIds(block, shortId, hashOf))
    requires shortId(h) == shortId(hashOf(block[k]))
    ensures var a := Announce(header, block, shortId, hashOf);
            && Acceptable(a) && !NeverEnds(a) && Distinct(a.shortIds)
            && Known(a, shortId, [Listed(h, block[k])], []).avail[k % SLOT_LIMIT] == Some(block[k])
  {
    hide Describes, Known;
    var a := Announce(header, block, shortId, hashOf);
    AnnounceDescribes(header, block, shortId, hashOf);
    AnnounceLayout(header, block, shortId, hashOf);
    Misplaced(a, block, shortId, hashOf, k, h);
  }

  /** The block comes out, once the missing transactions are supplied. */
  ghost predicate Rebuilds(a: Announcement, block: seq<Tx>, shortId: nat -> nat, pool: seq<Listed>, extra: seq<Listed>)
    requires PlacesOk(a, |a.prefilled|) && |block| == |a.shortIds| + |a.prefilled|
  {
    var s := Known(a, shortId, pool, extra);
    Filled(s.avail, Missing(s.avail, block, |s.avail|), |s.avail|) == block
  }

  /** The call ends, and the block comes out whatever the pool and the extra list hold. */
  ghost predicate Reliable(a: Announcement, block: seq<Tx>, shortId: nat -> nat, hashOf: Tx -> nat)
    requires PlacesOk(a, |a.prefilled|) && |block| == |a.shortIds| + |a.prefilled|
  {
    && !NeverEnds(a)
    && forall pool, extra :: NoImpostors(pool, block, shortId, hashOf) && NoImpostors(extra, block, shortId, hashOf) ==>
         Rebuilds(a, block, shortId, pool, extra)
  }

  /** The cut number of a slot does no harm: the same transaction is there, or no list may hold a transaction with this
      short id, because two different transactions of the block share it. */
  predicate Harmless(block: seq<Tx>, shortId: nat -> nat, hashOf: Tx -> nat, k: nat)
    requires k < |block|
  {
    || block[k % SLOT_LIMIT] == block[k]
    || exists j :: 0 <= j < |block| && block[j] != block[k] && shortId(hashOf(block[j])) == shortId(hashOf(block[k]))
  }

  lemma {:induction false} FilledAt(avail: seq<Option<Tx>>, missing: seq<Tx>, n: nat, k: nat)
    requires k < n <= |avail| && CountEmpty(avail, n) <= |missing| && avail[k].Some?
    ensures Filled(avail, missing, n)[k] == avail[k].value
  {
    if k < n - 1 { FilledAt(avail, missing, n - 1, k); }
  }

  lemma HarmIsDone(a: Announcement, block: seq<Tx>, shortId: nat -> nat, hashOf: Tx -> nat, k: nat)
    requires Describes(a, block, shortId, hashOf)
    requires SLOT_LIMIT <= k < |block| && !Harmless(block, shortId, hashOf, k)
    ensures var pool := [Listed(hashOf(block[k]), block[k])];
            NoImpostors(pool, block, shortId, hashOf) && !Rebuilds(a, block, shortId, pool, [])
  {
    var pool := [Listed(hashOf(block[k]), block[k])];
    Misplaced(a, block, shortId, hashOf, k, hashOf(block[k]));
    hide Describes, Known, CountEmpty, Filled, Missing, PlacesOk;
    var s := Known(a, shortId, pool, []);
    FilledAt(s.avail, Missing(s.avail, block, |s.avail|), |s.avail|, k % SLOT_LIMIT);
  }

  /** What is there is right. */
  predicate Right(block: seq<Tx>, s: Scan) {
    && |s.avail| == |s.have| == |block|
    && forall k :: 0 <= k < |block| && s.avail[k].Some? ==> s.avail[k].value == block[k]
  }

  lemma {:induction false} AllRight(block: seq<Tx>, s: Scan, slots: map<nat, nat>, list: seq<Listed>,
    shortId: nat -> nat, extra: bool)
    requires (forall x :: x in slots ==> slots[x] < |block|) && Honest(list, slots, block, shortId) && Right(block, s)
    ensures Right(block, All(s, slots, list, shortId, extra))
    decreases |list|
  {
    if list != [] {
      var s1 := One(s, slots, shortId(list[0].hash), list[0].tx, extra);
      AllRight(block, s1, slots, list[1..], shortId, extra);
    }
  }

  lemma HarmlessHonest(a: Announcement, block: seq<Tx>, shortId: nat -> nat, hashOf: Tx -> nat, list: seq<Listed>)
    requires Describes(a, block, shortId, hashOf) && NoImpostors(list, block, shortId, hashOf)
    requires forall k :: SLOT_LIMIT <= k < |block| ==> Harmless(block, shortId, hashOf, k)
    ensures var slots := StoredSlots(Layout(a, |a.prefilled|), a.shortIds, |a.shortIds|);
            (forall x :: x in slots ==> slots[x] < |block|) && Honest(list, slots, block, shortId)
  {
    hide EmptySlot, CountEmpty, Layout, PlacesOk, IdSet, StoredSlots;
    var layout := Layout(a, |a.prefilled|);
    var slots := StoredSlots(layout, a.shortIds, |a.shortIds|);
    StoredInRange(layout, a.shortIds, |a.shortIds|);
    forall i | 0 <= i < |list| && shortId(list[i].hash) in slots
      ensures list[i].tx == block[slots[shortId(list[i].hash)]]
    {
      var j := IdFrom(a.shortIds, |a.shortIds|, shortId(list[i].hash));
      StoredAt(layout, a.shortIds, |a.shortIds|, j);
      var k := EmptySlot(layout, j, 0);
      assert shortId(list[i].hash) == shortId(hashOf(block[k]));
      assert k >= SLOT_LIMIT ==> Harmless(block, shortId, hashOf, k);
    }
  }

  lemma HarmlessRebuilds(a: Announcement, block: seq<Tx>, shortId: nat -> nat, hashOf: Tx -> nat, pool: seq<Listed>,
    extra: seq<Listed>)
    requires Describes(a, block, shortId, hashOf)
    requires NoImpostors(pool, block, shortId, hashOf) && NoImpostors(extra, block, shortId, hashOf)
    requires forall k :: SLOT_LIMIT <= k < |block| ==> Harmless(block, shortId, hashOf, k)
    ensures Rebuilds(a, block, shortId, pool, extra)
  {
    hide EmptySlot, Layout, PlacesOk, StoredSlots, Honest, CountEmpty, NoImpostors, All, Filled, Missing, Harmless;
    var layout := Layout(a, |a.prefilled|);
    var slots := StoredSlots(layout, a.shortIds, |a.shortIds|);
    HarmlessHonest(a, block, shortId, hashOf, pool);
    HarmlessHonest(a, block, shortId, hashOf, extra);
    AllRight(block, Start(layout), slots, pool, shortId, false);
    AllRight(block, All(Start(layout), slots, pool, shortId, false), slots, extra, shortId, true);
    FilledIsBlock(Known(a, shortId, pool, extra).avail, block, |block|);
    assert block[..|block|] == block;
  }

  /** An announced block comes out for certain exactly if the search for slots ends and no cut slot does harm. */
  lemma ReliableExactly(a: Announcement, block: seq<Tx>, shortId: nat -> nat, hashOf: Tx -> nat)
    requires Describes(a, block, shortId, hashOf)
    ensures Reliable(a, block, shortId, hashOf) <==>
      !NeverEnds(a) && forall k :: SLOT_LIMIT <= k < |block| ==> Harmless(block, shortId, hashOf, k)
  {
    hide Harmless, Rebuilds, NeverEnds, PlacesOk, Layout, EmptySlot, CountEmpty, Distinct;
    if k :| SLOT_LIMIT <= k < |block| && !Harmless(block, shortId, hashOf, k) {
      HarmIsDone(a, block, shortId, hashOf, k);
      assert NoImpostors([], block, shortId, hashOf);
    } else {
      forall pool, extra | NoImpostors(pool, block, shortId, hashOf) && NoImpostors(extra, block, shortId, hashOf)
        ensures Rebuilds(a, block, shortId, pool, extra)
      {
        HarmlessRebuilds(a, block, shortId, hashOf, pool, extra);
      }
    }
  }

  /** If no short ids collide, a block comes out for certain exactly if it has at most 65536 transactions. */
  lemma SizeIsExact(a: Announcement, block: seq<Tx>, shortId: nat -> nat, hashOf: Tx -> nat)
    requires Describes(a, block, shortId, hashOf)
    requires forall j, k :: 0 <= j < k < |block| ==> shortId(hashOf(block[j])) != shortId(hashOf(block[k]))
    ensures Reliable(a, block, shortId, hashOf) <==> |block| <= SLOT_LIMIT
  {
    hide Describes, Reliable;
    DescribedShape(a, block, shortId, hashOf);
    ReliableExactly(a, block, shortId, hashOf);
    if |block| > SLOT_LIMIT { assert !Harmless(block, shortId, hashOf, SLOT_LIMIT); }
  }

  lemma DescribedShape(a: Announcement, block: seq<Tx>, shortId: nat -> nat, hashOf: Tx -> nat)
    requires Describes(a, block, shortId, hashOf)
    ensures PlacesOk(a, |a.prefilled|) && |block| == |a.shortIds| + |a.prefilled|
  {
  }

  /** As many prefilled transactions as there are 16-bit numbers, one after the other, and a short id: accepted,
      and never done with. */
  lemma FullPrefixNeverEnds(header: nat, tx: Tx, id: nat)
    requires !tx.empty
    ensures var a := Announcement(Some(header), [id], seq(SLOT_LIMIT, i => Prefilled(0, tx)));
            Acceptable(a) && NeverEnds(a)
  {
    var a := Announcement(Some(header), [id], seq(SLOT_LIMIT, i => Prefilled(0, tx)));
    forall i | 0 <= i < |a.prefilled| ensures PlaceOk(a, i) { OneByOne(a.prefilled, i + 1); }
  }

  lemma {:induction false} OneByOne(prefilled: seq<Prefilled>, n: nat)
    requires n <= |prefilled| && forall i :: 0 <= i < |prefilled| ==> prefilled[i].index == 0
    ensures Place(prefilled, n) == n - 1
  {
    if n > 0 { OneByOne(prefilled, n - 1); }
  }

  // ---------------------------------------------------------------- the receiver

  datatype BlockCheck = Good | Corrupt | Bad

  /** What becomes of a call: it returns, or it never does. */
  datatype Outcome = Returned(status: ReadStatus) | Endless

  /** All the slots that a 16-bit offset can reach from the first one are prefilled, and a slot is wanted. */
  predicate NeverEnds(a: Announcement) {
    |a.prefilled| == SLOT_LIMIT && a.shortIds != []
  }

  lemma {:induction false} EmptyIfCounted(avail: seq<Option<Tx>>, n: nat, k: nat)
    requires k < n <= |avail| && CountEmpty(avail, n) == 0
    ensures avail[k].Some?
  {
    if k < n - 1 { EmptyIfCounted(avail, n - 1, k); }
  }

  /** An offset at its limit has counted 65536 filled slots, and there are no more. */
  lemma AllFilled(avail: seq<Option<Tx>>, i: nat)
    requires i + SLOT_LIMIT <= |avail| && CountEmpty(avail, i + SLOT_LIMIT) == i < CountEmpty(avail, |avail|)
    requires avail[i + SLOT_LIMIT - 1].Some? && forall k :: SLOT_LIMIT <= k < |avail| ==> avail[k].None?
    ensures i == 0 && SLOT_LIMIT < |avail| && forall k :: 0 <= k < SLOT_LIMIT ==> avail[k].Some?
  {
    forall k | 0 <= k < SLOT_LIMIT ensures avail[k].Some? { EmptyIfCounted(avail, SLOT_LIMIT, k); }
  }

  lemma {:induction false} NoneCounted(avail: seq<Option<Tx>>, n: nat)
    requires n <= |avail| && forall k :: 0 <= k < n ==> avail[k].Some?
    ensures CountEmpty(avail, n) == 0
  {
    if n > 0 { NoneCounted(avail, n - 1); }
  }

  /** The scan is stuck for the first short id exactly if the prefilled transactions take all 65536 places. */
  lemma StuckExactly(a: Announcement, i: nat, ends: bool)
    requires PlacesOk(a, |a.prefilled|) && i < |a.shortIds|
    requires var layout := Layout(a, |a.prefilled|);
             if ends then CountEmpty(layout, |layout|) == |a.shortIds| && (i == 0 ==> EmptyWithin(layout))
             else i == 0 && SLOT_LIMIT < |layout| && forall k :: 0 <= k < SLOT_LIMIT ==> layout[k].Some?
    ensures !ends ==> NeverEnds(a)
    ensures ends && i == 0 ==> !NeverEnds(a)
  {
    OneSlotEach(a);
    LayoutTop(a);
    var layout := Layout(a, |a.prefilled|);
    hide Layout;
    if !ends {
      NoneCounted(layout, SLOT_LIMIT);
      EmptyTail(layout, SLOT_LIMIT, |layout|);
    } else if i == 0 && NeverEnds(a) {
      EmptyTail(layout, SLOT_LIMIT, |layout|);
      var k :| 0 <= k < SLOT_LIMIT && k < |layout| && layout[k].None?;
      EmptyIfCounted(layout, SLOT_LIMIT, k);
    }
  }

  /** One of the slots that the first short id can get is empty. */
  predicate EmptyWithin(layout: seq<Option<Tx>>) {
    exists k :: 0 <= k < SLOT_LIMIT && k < |layout| && layout[k].None?
  }

  lemma {:induction false} EmptyTail(avail: seq<Option<Tx>>, m: nat, n: nat)
    requires m <= n <= |avail| && forall k :: m <= k < n ==> avail[k].None?
    ensures CountEmpty(avail, n) == CountEmpty(avail, m) + n - m
  {
    if m < n { EmptyTail(avail, m, n - 1); }
  }

  class PartiallyDownloadedBlock {
    var header: Option<nat>
    var txnAvailable: seq<Option<Tx>>
    var prefilledCount: nat
    var mempoolCount: int

    constructor ()
      ensures header == None && txnAvailable == [] && prefilledCount == 0 && mempoolCount == 0
    {
      header, txnAvailable, prefilledCount, mempoolCount := None, [], 0, 0;
    }

    /** Puts the prefilled transactions into their slots. */
    method PlacePrefilled(a: Announcement) returns (ok: bool)
      requires |txnAvailable| == |a.shortIds| + |a.prefilled| &&
        forall k :: 0 <= k < |txnAvailable| ==> txnAvailable[k].None?
      modifies this`txnAvailable
      ensures ok == PlacesOk(a, |a.prefilled|)
      ensures ok ==> txnAvailable == Layout(a, |a.prefilled|)
    {
      hide PlaceOk;
      var last := -1;
      assert txnAvailable == Layout(a, 0);
      for i := 0 to |a.prefilled|
        invariant PlacesOk(a, i) && last == Place(a.prefilled, i) && txnAvailable == Layout(a, i)
      {
        PlaceMeans(a, i);
        if a.prefilled[i].tx.empty { return false; }
        last := last + a.prefilled[i].index + 1;
        if last > MAX_INDEX { return false; }
        if last > |a.shortIds| + i { return false; }
        txnAvailable := txnAvailable[last := Some(a.prefilled[i].tx)];
      }
      return true;
    }

    /** Gives every short id the next empty slot; `crowded` tells after which ids a hash bucket is too full. */
    method AssignSlots(a: Announcement, crowded: nat -> bool) returns (slots: map<nat, nat>, ends: bool, ok: bool)
      requires PlacesOk(a, |a.prefilled|) && txnAvailable == Layout(a, |a.prefilled|)
      ensures CountEmpty(txnAvailable, |txnAvailable|) == |a.shortIds|
      ensures ends == !NeverEnds(a)
      ensures ends ==> ok == forall i :: 0 <= i < |a.shortIds| ==> !crowded(i)
      ensures ends && ok ==> slots == StoredSlots(txnAvailable, a.shortIds, |a.shortIds|)
    {
      hide Layout, PlacesOk, EmptySlot, CountEmpty, StoredSlots;
      OneSlotEach(a);
      LayoutTop(a);
      NoneBefore(txnAvailable);
      NothingStored(txnAvailable, a.shortIds);
      slots := map[];
      var offset: nat := 0;
      for i := 0 to |a.shortIds|
        invariant offset < SLOT_LIMIT && i + offset <= |txnAvailable| && CountEmpty(txnAvailable, i + offset) == i
        invariant slots == StoredSlots(txnAvailable, a.shortIds, i) && forall j :: 0 <= j < i ==> !crowded(j)
        invariant i > 0 ==> !NeverEnds(a)
      {
        var more;
        offset, more := NextEmpty(i, offset, |a.shortIds|);
        StuckExactly(a, i, more);
        if !more { return slots, false, false; }
        slots := slots[a.shortIds[i] := (i + offset) % SLOT_LIMIT];
        StoredNext(txnAvailable, a.shortIds, i, i + offset);
        if crowded(i) { return slots, true, false; }
      }
      return slots, true, true;
    }

    /** The scan for an empty slot stays within the slots, and finds one unless every offset that 16 bits can hold
        leads to a filled slot: then it goes round for ever. */
    method NextEmpty(i: nat, offset0: nat, total: nat) returns (offset: nat, ends: bool)
      requires offset0 < SLOT_LIMIT && i + offset0 <= |txnAvailable| &&
        CountEmpty(txnAvailable, i + offset0) == i < total
      requires CountEmpty(txnAvailable, |txnAvailable|) == total
      requires forall k :: SLOT_LIMIT <= k < |txnAvailable| ==> txnAvailable[k].None?
      ensures ends ==> offset < SLOT_LIMIT && i + offset < |txnAvailable| && txnAvailable[i + offset].None?
      ensures ends ==> CountEmpty(txnAvailable, i + offset) == i
      ensures !ends ==> i == 0 && SLOT_LIMIT < |txnAvailable|
      ensures !ends ==> forall k :: 0 <= k < SLOT_LIMIT ==> txnAvailable[k].Some?
    {
      offset := offset0;
      while txnAvailable[i + offset].Some?
        invariant offset < SLOT_LIMIT && i + offset < |txnAvailable| && CountEmpty(txnAvailable, i + offset) == i
        decreases SLOT_LIMIT - offset
      {
        if offset + 1 == SLOT_LIMIT {
          AllFilled(txnAvailable, i);
          return offset, false;
        }
        offset := offset + 1;
      }
      ends := true;
    }

    /** One pass over the pool or over the extra transactions. */
    method ScanList(slots: map<nat, nat>, have0: seq<bool>, list: seq<Listed>, shortId: nat -> nat, extra: bool)
      returns (have: seq<bool>)
      requires |have0| == |txnAvailable| && forall x :: x in slots ==> slots[x] < |txnAvailable|
      modifies this`txnAvailable, this`mempoolCount
      ensures Scan(txnAvailable, have, mempoolCount) ==
              All(Scan(old(txnAvailable), have0, old(mempoolCount)), slots, list, shortId, extra)
    {
      have := have0;
      var i := 0;
      ghost var goal := All(Scan(txnAvailable, have, mempoolCount), slots, list, shortId, extra);
      assert list[0..] == list;
      while i < |list|
        invariant 0 <= i <= |list| && |have| == |txnAvailable| == |old(txnAvailable)|
        invariant All(Scan(txnAvailable, have, mempoolCount), slots, list[i..], shortId, extra) == goal
      {
        assert list[i..][0] == list[i] && list[i..][1..] == list[i + 1..];
        var id := shortId(list[i].hash);
        if id in slots {
          var k := slots[id];
          if !have[k] {
            txnAvailable := txnAvailable[k := Some(list[i].tx)];
            have := have[k := true];
            mempoolCount := mempoolCount + 1;
          } else if txnAvailable[k].Some? && (extra ==> txnAvailable[k].value.witnessHash != list[i].tx.witnessHash) {
            txnAvailable := txnAvailable[k := None];
            mempoolCount := mempoolCount - 1;
          }
        }
        if mempoolCount == |slots| { return; }
        i := i + 1;
      }
    }

    method InitData(a: Announcement, shortId: nat -> nat, pool: seq<Listed>, extra: seq<Listed>, crowded: nat -> bool)
      returns (r: Outcome)
      requires header == None && txnAvailable == [] && mempoolCount == 0
      modifies this
      ensures r == Returned(INVALID) <==> !Acceptable(a)
      ensures r == Endless <==> Acceptable(a) && NeverEnds(a)
      ensures r == Returned(FAILED) <==>
                Acceptable(a) && !NeverEnds(a) &&
                (!Distinct(a.shortIds) || exists i :: 0 <= i < |a.shortIds| && crowded(i))
      ensures r == Returned(OK) <==> r != Endless && r != Returned(INVALID) && r != Returned(FAILED)
      ensures r == Returned(OK) ==>
                header == a.header && prefilledCount == |a.prefilled| &&
                var s := Known(a, shortId, pool, extra); txnAvailable == s.avail && mempoolCount == s.count
    {
      hide Layout, PlacesOk, StoredSlots, CountEmpty, Distinct, All, NeverEnds;
      if a.header.None? || (a.shortIds == [] && a.prefilled == []) { return Returned(INVALID); }
      if |a.shortIds| + |a.prefilled| > MAX_TX_COUNT { return Returned(INVALID); }
      header := a.header;
      txnAvailable := seq(|a.shortIds| + |a.prefilled|, i => None);
      var ok := PlacePrefilled(a);
      if !ok { return Returned(INVALID); }
      prefilledCount := |a.prefilled|;
      var slots, ends, even := AssignSlots(a, crowded);
      if !ends { return Endless; }
      if !even { return Returned(FAILED); }
      StoredSize(txnAvailable, a.shortIds);
      if |slots| != |a.shortIds| { return Returned(FAILED); }
      StoredInRange(txnAvailable, a.shortIds, |a.shortIds|);
      var have := seq(|txnAvailable|, i => false);
      have := ScanList(slots, have, pool, shortId, false);
      have := ScanList(slots, have, extra, shortId, true);
      return Returned(OK);
    }

    /** `check` is the verdict on the finished block. */
    method FillBlock(missing: seq<Tx>, check: seq<Tx> -> BlockCheck) returns (status: ReadStatus, vtx: seq<Tx>)
      requires header.Some?
      modifies this
      ensures var n := |old(txnAvailable)|;
              var needed := CountEmpty(old(txnAvailable), n);
              && (|missing| >= needed ==>
                   vtx == Filled(old(txnAvailable), missing, n) && header == None && txnAvailable == [])
              && (|missing| < needed ==>
                   status == INVALID && header == old(header) && HandedOut(old(txnAvailable), txnAvailable, |missing|))
              && (|missing| > needed ==> status == INVALID)
              && (|missing| == needed ==>
                   status == match check(vtx) { case Good => OK case Corrupt => FAILED case Bad => CHECKBLOCK_FAILED })
    {
      ghost var avail := txnAvailable;
      vtx := [];
      var offset := 0;
      for i := 0 to |txnAvailable|
        invariant |txnAvailable| == |avail| && header == old(header)
        invariant forall k :: 0 <= k < |avail| ==> txnAvailable[k] == if k < i then None else avail[k]
        invariant offset == CountEmpty(avail, i) <= |missing| && vtx == Filled(avail, missing, i)
      {
        if txnAvailable[i].None? {
          if |missing| <= offset {
            CountEmptySplit(avail, i + 1, |avail|);
            StoppedAt(avail, txnAvailable, i, |missing|);
            return INVALID, vtx;
          }
          vtx := vtx + [missing[offset]];
          offset := offset + 1;
        } else {
          vtx := vtx + [txnAvailable[i].value];
          txnAvailable := txnAvailable[i := None];
        }
      }
      header, txnAvailable := None, [];
      if |missing| != offset { return INVALID, vtx; }
      match check(vtx) {
        case Good => return OK, vtx;
        case Corrupt => return FAILED, vtx;
        case Bad => return CHECKBLOCK_FAILED, vtx;
      }
    }
  }

  /** Transactions are moved out of the slots before the gap for which nothing was left. */
  predicate HandedOut(was: seq<Option<Tx>>, now: seq<Option<Tx>>, supplied: nat) {
    && |now| == |was|
    && forall k :: 0 <= k < |was| ==> now[k] == if CountEmpty(was, k + 1) <= supplied then None else was[k]
  }

  lemma StoppedAt(was: seq<Option<Tx>>, now: seq<Option<Tx>>, i: nat, supplied: nat)
    requires i < |was| == |now| && was[i].None? && CountEmpty(was, i) == supplied
    requires forall k :: 0 <= k < |was| ==> now[k] == if k < i then None else was[k]
    ensures HandedOut(was, now, supplied)
  {
    hide CountEmpty;
    forall k | 0 <= k < |was| ensures now[k] == if CountEmpty(was, k + 1) <= supplied then None else was[k] {
      BeforeGap(was, i, k);
    }
  }

  lemma BeforeGap(avail: seq<Option<Tx>>, i: nat, k: nat)
    requires i < |avail| && k < |avail| && avail[i].None?
    ensures k < i <==> CountEmpty(avail, k + 1) <= CountEmpty(avail, i)
  {
    if k < i { CountEmptySplit(avail, k + 1, i); } else { CountEmptySplit(avail, i + 1, k + 1); }
  }

  predicate Acceptable(a: Announcement) {
    && a.header.Some? && |a.shortIds| + |a.prefilled| > 0 && |a.shortIds| + |a.prefilled| <= MAX_TX_COUNT
    && PlacesOk(a, |a.prefilled|)
  }

  lemma PlaceMeans(a: Announcement, i: nat)
    requires i < |a.prefilled|
    ensures PlaceOk(a, i) <==>
      !a.prefilled[i].tx.empty && Place(a.prefilled, i + 1) <= MAX_INDEX &&
        Place(a.prefilled, i + 1) <= |a.shortIds| + i
    ensures Place(a.prefilled, i + 1) >= i
  {
    PlaceRises(a.prefilled, i);
  }

  // ---------------------------------------------------------------- asking for transactions

  predicate Ascending(q: seq<nat>) {
    forall i, j :: 0 <= i < j < |q| ==> q[i] < q[j]
  }

  /** Indexes as they are sent: the distance from the one after the previous index. */
  function Differences(q: seq<nat>): (d: seq<nat>)
    requires Ascending(q)
  {
    seq(|q|, i requires 0 <= i < |q| => if i == 0 then q[0] else q[i] - (q[i - 1] + 1))
  }

  /** index + 1 as a 16-bit number */
  function Offset(index: nat): nat { (index + 1) % (MAX_INDEX + 1) }

  /** Reading them back; None stands for the exception on an index beyond 16 bits. */
  function Absolute(d: seq<nat>): (r: Option<seq<nat>>)
    ensures r.Some? ==> |r.value| == |d|
  {
    if d == [] then Some([])
    else
      var n := |d| - 1;
      var before := Absolute(d[..n]);
      if before.None? then None
      else
        var offset := if n == 0 then 0 else Offset(before.value[n - 1]);
        if d[n] > MAX_INDEX || d[n] + offset > MAX_INDEX then None else Some(before.value + [d[n] + offset])
  }

  lemma {:induction false} IndexesUpTo(q: seq<nat>, n: nat)
    requires n <= |q| && Ascending(q) && forall i :: 0 <= i < |q| ==> q[i] <= MAX_INDEX
    ensures Absolute(Differences(q)[..n]) == Some(q[..n])
  {
    if n > 0 {
      IndexesUpTo(q, n - 1);
      var d, all := Differences(q)[..n], Differences(q);
      assert d[..n - 1] == all[..n - 1];
      if n > 1 {
        assert q[n - 2] < q[n - 1] <= MAX_INDEX;
        assert Offset(q[n - 2]) == q[n - 2] + 1;
        assert d[n - 1] + Offset(q[n - 2]) == q[n - 1];
      }
      hide Differences, Ascending;
      assert q[..n] == q[..n - 1] + [q[n - 1]];
    }
  }

  /** Any ascending list of indexes within 16 bits survives the trip. */
  lemma IndexesBack(q: seq<nat>)
    requires Ascending(q) && forall i :: 0 <= i < |q| ==> q[i] <= MAX_INDEX
    ensures Absolute(Differences(q)) == Some(q)
  {
    IndexesUpTo(q, |q|);
    assert Differences(q)[..|q|] == Differences(q) && q[..|q|] == q;
  }

  /** One index after the other, as the reader adds them up. */
  predicate AddsUp(d: seq<nat>, q: seq<nat>) {
    |q| == |d| && forall i :: 0 <= i < |q| ==> AddsUpAt(d, q, i)
  }

  predicate AddsUpAt(d: seq<nat>, q: seq<nat>, i: nat)
    requires i < |q| == |d|
  {
    q[i] == d[i] + (if i == 0 then 0 else Offset(q[i - 1])) && q[i] <= MAX_INDEX
  }

  lemma {:induction false} AbsoluteAddsUp(d: seq<nat>)
    requires Absolute(d).Some?
    ensures AddsUp(d, Absolute(d).value)
  {
    if d != [] {
      var n := |d| - 1;
      AbsoluteAddsUp(d[..n]);
      var q, front := Absolute(d).value, Absolute(d[..n]).value;
      assert q == front + [q[n]];
      forall i | 0 <= i < n ensures AddsUpAt(d, q, i) {
        assert AddsUpAt(d[..n], front, i);
      }
    }
  }

  /** The n-th index the sender means; -1 before the first. */
  function Meant(d: seq<nat>, n: nat): int
    requires n <= |d|
  {
    if n == 0 then -1 else Meant(d, n - 1) + d[n - 1] + 1
  }

  /** Nothing comes after the last possible index. */
  predicate EndsAtLimit(d: seq<nat>) {
    forall n :: 1 <= n < |d| ==> Meant(d, n) != MAX_INDEX
  }

  lemma {:induction false} ReadAsMeant(d: seq<nat>, q: seq<nat>, n: nat)
    requires AddsUp(d, q) && 0 < n <= |d| && forall m :: 1 <= m < n ==> Meant(d, m) != MAX_INDEX
    ensures Meant(d, n) == q[n - 1]
  {
    assert AddsUpAt(d, q, n - 1);
    if n > 1 {
      ReadAsMeant(d, q, n - 1);
      assert AddsUpAt(d, q, n - 2);
    }
  }

  lemma {:induction false} MeantRises(d: seq<nat>, m: nat, n: nat)
    requires m < n <= |d|
    ensures Meant(d, m) < Meant(d, n)
  {
    if m < n - 1 { MeantRises(d, m, n - 1); }
  }

  lemma MeantAscends(d: seq<nat>, q: seq<nat>)
    requires AddsUp(d, q) && EndsAtLimit(d)
    ensures Ascending(q)
  {
    hide Meant, AddsUp;
    assert |q| == |d| by { SameLength(d, q); }
    forall i, j | 0 <= i < j < |q| ensures q[i] < q[j] {
      ReadAsMeant(d, q, i + 1);
      ReadAsMeant(d, q, j + 1);
      MeantRises(d, i + 1, j + 1);
    }
  }

  lemma SameLength(d: seq<nat>, q: seq<nat>)
    requires AddsUp(d, q)
    ensures |q| == |d|
  {
  }

  lemma SentBack(d: seq<nat>, q: seq<nat>, i: nat)
    requires AddsUp(d, q) && EndsAtLimit(d) && Ascending(q) && i < |q|
    ensures Differences(q)[i] == d[i]
  {
    assert AddsUpAt(d, q, i);
    if i > 0 {
      hide Meant, AddsUp;
      SameLength(d, q);
      ReadAsMeant(d, q, i);
      assert q[i - 1] < q[i];
    }
  }

  lemma {:induction false} FirstAtLimit(d: seq<nat>, n: nat) returns (m: nat)
    requires 1 <= n < |d| && Meant(d, n) == MAX_INDEX
    ensures 1 <= m <= n && Meant(d, m) == MAX_INDEX && forall k :: 1 <= k < m ==> Meant(d, k) != MAX_INDEX
  {
    m := n;
    forall k | 1 <= k < n ensures Meant(d, k) != MAX_INDEX { MeantRises(d, k, n); }
  }

  /** What is accepted is ascending, and would be sent the same way, exactly if nothing comes after the index 65535:
      there the offset starts again at zero. */
  lemma DifferencesBack(d: seq<nat>)
    requires Absolute(d).Some?
    ensures var q := Absolute(d).value; Ascending(q) <==> EndsAtLimit(d)
    ensures EndsAtLimit(d) ==> Differences(Absolute(d).value) == d
  {
    AbsoluteAddsUp(d);
    var q := Absolute(d).value;
    if EndsAtLimit(d) {
      MeantAscends(d, q);
      forall i | 0 <= i < |q| ensures Differences(q)[i] == d[i] { SentBack(d, q, i); }
    } else {
      var n :| 1 <= n < |d| && Meant(d, n) == MAX_INDEX;
      var m := FirstAtLimit(d, n);
      ReadAsMeant(d, q, m);
      assert AddsUpAt(d, q, m);
      assert q[m - 1] == MAX_INDEX >= q[m];
    }
  }

  lemma AbsoluteNext(d: seq<nat>, x: nat)
    requires Absolute(d).Some?
    ensures var q := Absolute(d).value; var offset := if d == [] then 0 else Offset(q[|q| - 1]);
            Absolute(d + [x]) == if x + offset > MAX_INDEX then None else Some(q + [x + offset])
  {
    hide Offset;
    var e := d + [x];
    assert e[..|d|] == d && e[|d|] == x;
    assert Absolute(e[..|d|]) == Absolute(d);
  }

  /** Two indexes that are accepted out of order. */
  lemma WrapsAround()
    ensures Absolute([0xFFFF, 0]) == Some([0xFFFF, 0]) && !Ascending([0xFFFF, 0])
  {
    var one: seq<nat>, two: seq<nat> := [0xFFFF], [0xFFFF, 0];
    AbsoluteNext([], 0xFFFF);
    assert [] + [0xFFFF] == one;
    AbsoluteNext(one, 0);
    assert one + [0] == two;
    assert two[0] > two[1];
  }
}
