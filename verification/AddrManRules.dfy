/**
 The address manager's rules in other words than its functions: what an announcement does to the record of an address,
 how the odds of a further place fall, what becomes of every place when an address turns out to be good, and which
 addresses are handed out.
 */
module AddrManRules {
  import opened AddrManState
  import opened AddrManBook
  import opened AddrMan
  import opened Numbers
  import opened Sets

  // ---------------------------------------------------------------- announcements

  /** The time of an announcement less the penalty, which is for announcing others. */
  function Said(ann: Announcement): int {
    if ann.source == ann.addr.ip then ann.time else ann.time - ann.penalty
  }

  /** How much newer than the record an announcement has to be: an hour if it is less than a day old, else a day. */
  predicate IsNews(i: Info, ann: Announcement, now: int) {
    var age, lead := now - ann.time, Said(ann) - i.nTime;
    ann.time != 0 && (i.nTime == 0 || lead > 86_400 || (lead > 3_600 && age < 86_400))
  }

  /** An announcement adds services, moves the time to its own less the penalty exactly if it is news, and changes
      nothing else of a record. */
  lemma RefreshedExactly(i: Info, ann: Announcement, now: int)
    ensures var j := Refreshed(i, ann, now);
      && j == i.(nTime := j.nTime, nServices := j.nServices)
      && (forall x :: x in j.nServices <==> x in i.nServices || x in ann.services)
      && (!IsNews(i, ann, now) ==> j.nTime == i.nTime)
      && (IsNews(i, ann, now) ==> j.nTime >= 0 && j.nTime >= Said(ann) && (j.nTime == 0 || j.nTime == Said(ann)))
  {
  }

  /** What is remembered of an unknown address is what an empty record of it becomes; only an announcement without a
      time moves nothing then. */
  lemma FirstHeardIsRefreshed(ann: Announcement, now: int)
    ensures var empty := Info(ann.addr, ann.source, 0, {}, 0, 0, 0, 0, 0, false, 0);
      && (ann.time != 0 ==> FirstHeard(ann) == Refreshed(empty, ann, now))
      && (ann.time == 0 ==>
           FirstHeard(ann) == Refreshed(empty, ann, now).(nTime := if Said(ann) > 0 then Said(ann) else 0))
  {
  }

  lemma Pow2Is(n: nat)
    ensures Pow2(n) == Pow(2, n)
  {
    if n > 0 { Pow2Is(n - 1); }
  }

  /** An entry with N places gets the chance of another one for exactly one of any 2^N consecutive random numbers; it
      has to be untried, below eight places, and the announcement newer than the record. */
  lemma OddsFall(i: Info, ann: Announcement, start: nat)
    requires 0 <= i.nRefCount
    ensures
      if i.fInTried || i.nRefCount == 8 || ann.time == 0 || (i.nTime != 0 && ann.time <= i.nTime)
      then forall random: nat :: !Worthwhile(i, ann, random)
      else exists lucky :: OnlyLucky(i, ann, start, Pow(2, i.nRefCount), lucky)
  {
    hide Pow, Pow2;
    Pow2Is(i.nRefCount);
    var p := Pow2(i.nRefCount);
    if !(i.fInTried || i.nRefCount == 8 || ann.time == 0 || (i.nTime != 0 && ann.time <= i.nTime)) {
      var lucky := OneMultiple(start, p);
      assert OnlyLucky(i, ann, start, p, lucky);
    }
  }

  ghost predicate OnlyLucky(i: Info, ann: Announcement, start: nat, p: nat, lucky: nat) {
    && start <= lucky < start + p
    && forall random: nat :: start <= random < start + p ==> (Worthwhile(i, ann, random) <==> random == lucky)
  }

  lemma OneMultiple(start: nat, p: nat) returns (lucky: nat)
    requires p >= 1
    ensures start <= lucky < start + p && forall x: nat :: start <= x < start + p ==> (x % p == 0 <==> x == lucky)
  {
    var q, r := start / p, start % p;
    DivMod(start, p);
    lucky := if r == 0 then start else start - r + p;
    forall x: nat | start <= x < start + p ensures x % p == 0 <==> x == lucky {
      var d := x - start;
      if r + d < p {
        DivUnique(x, p, q, r + d);
      } else {
        Distribute(q, 1, p);
        DivUnique(x, p, q + 1, r + d - p);
      }
    }
  }

  lemma DivMod(x: nat, p: nat)
    requires p >= 1
    ensures x == x / p * p + x % p && 0 <= x % p < p
  {
  }

  // ---------------------------------------------------------------- good addresses

  /** Place by place, when the entry `id` moves to the "tried" table: it has its place there and none in the other one;
      whoever had that place has gone back to the place its own source gives it, and whoever had that one has lost it;
      all other places are as before. */
  ghost predicate MovedToTried(bk: Buckets, s: State, id: int, newer: map<Slot, NetAddr>, tried: map<Slot, NetAddr>)
    requires id in s.mapInfo
  {
    var ip, place := s.mapInfo[id].addr.ip, TriedSlot(bk, s.mapInfo[id].addr);
    && place in tried && tried[place] == ip
    && (forall slot :: slot != place ==> SameAt(TriedBook(s), tried, slot))
    && (if place in s.triedTab && s.triedTab[place] in s.mapInfo then
          var other := s.mapInfo[s.triedTab[place]];
          var back := NewSlot(bk, other.addr, other.source);
          && back in newer && newer[back] == other.addr.ip
          && forall slot :: slot != back ==> Left(NewBook(s), newer, slot, ip)
        else forall slot :: Left(NewBook(s), newer, slot, ip))
  }

  predicate SameAt(a: map<Slot, NetAddr>, b: map<Slot, NetAddr>, slot: Slot) {
    (slot in a <==> slot in b) && (slot in a ==> a[slot] == b[slot])
  }

  /** The place shows what it showed, but is empty if it showed `ip`. */
  predicate Left(before: map<Slot, NetAddr>, after: map<Slot, NetAddr>, slot: Slot, ip: NetAddr) {
    if slot in before && before[slot] == ip then slot !in after else SameAt(before, after, slot)
  }

  lemma GoodMoves(bk: Buckets, s: State, id: int)
    requires id in s.mapInfo
    ensures MovedToTried(bk, s, id, Vacated(bk, s, id), Promoted(bk, s, id))
  {
    hide TriedSlot, NewSlot;
  }

  /** An entry is not terrible for a minute after it was found to be good, nor for a week of ever so many failures if it
      was seen in the last thirty days and not in the future. */
  lemma GoodIsNotTerrible(i: Info, time: int, now: int, attempts: int)
    requires time != 0
    ensures now <= time + 60 ==> !IsTerrible(GoodInfo(i, i.addr, time), now)
    ensures time <= now <= time + 604_800 && i.nTime != 0 && now - 2_592_000 <= i.nTime <= now + 600 ==>
      !IsTerrible(GoodInfo(i, i.addr, time).(nAttempts := attempts), now)
  {
  }

  // ---------------------------------------------------------------- handing out addresses

  /** The largest number that is at most 2500 and at most 23 % of the addresses. */
  lemma WantedExactly(size: nat)
    ensures var n := Wanted(size);
      n <= 2500 && 100 * n <= 23 * size && (n == 2500 || 23 * size < 100 * (n + 1))
  {
  }

  /** An address is handed out exactly if one of the entries has it and is not terrible. */
  lemma {:induction false} PresentableExactly(m: map<int, Info>, ids: seq<int>, now: int, a: Service)
    ensures a in Presentable(m, ids, now) <==>
      exists i :: 0 <= i < |ids| && ids[i] in m && m[ids[i]].addr == a && !IsTerrible(m[ids[i]], now)
  {
    hide IsTerrible;
    if ids != [] {
      var front, last := ids[..|ids| - 1], ids[|ids| - 1];
      PresentableExactly(m, front, now, a);
      if i :| 0 <= i < |ids| && ids[i] in m && m[ids[i]].addr == a && !IsTerrible(m[ids[i]], now) {
        if i < |front| { assert front[i] == ids[i]; }
      }
    }
  }

  /** No address is handed out twice. */
  lemma {:induction false} PresentableOnce(m: map<int, Info>, ids: seq<int>, now: int)
    requires forall i, j :: 0 <= i < j < |ids| && ids[i] in m && ids[j] in m ==> m[ids[i]].addr != m[ids[j]].addr
    ensures forall i, j :: 0 <= i < j < |Presentable(m, ids, now)| ==>
      Presentable(m, ids, now)[i] != Presentable(m, ids, now)[j]
  {
    hide IsTerrible;
    if ids != [] {
      var front, last := ids[..|ids| - 1], ids[|ids| - 1];
      PresentableOnce(m, front, now);
      if last in m && !IsTerrible(m[last], now) {
        PresentableExactly(m, front, now, m[last].addr);
      }
    }
  }

  // ---------------------------------------------------------------- how far one group of peers reaches

  /** The keyed hashes in their two stages; addresses are known by their network group. */
  datatype Hashes = Hashes(
    group: NetAddr -> nat, triedFirst: Service -> nat, triedThen: (nat, nat) -> nat,
    newFirst: (nat, nat) -> nat, newThen: (nat, nat) -> nat, pos: (bool, nat, Service) -> nat)

  /** A second hash over the group and what is left of the first one. */
  function Staged(h: Hashes): Buckets {
    Buckets((a: Service) => h.triedThen(h.group(a.ip), h.triedFirst(a) % 8),
            (a: Service, source: NetAddr) => h.newThen(h.group(source),
              h.newFirst(h.group(a.ip), h.group(source)) % 64),
            h.pos)
  }

  /** The buckets that a second hash can give to one group. */
  function Reach(f: nat -> nat, n: nat): (r: set<nat>)
    ensures |r| <= n && forall k :: 0 <= k < n ==> f(k) in r
  {
    if n == 0 then {} else Reach(f, n - 1) + {f(n - 1)}
  }

  function NewBuckets(h: Hashes, g: nat): nat -> nat { (k: nat) => h.newThen(g, k) % 1024 }

  function TriedBuckets(h: Hashes, g: nat): nat -> nat { (k: nat) => h.triedThen(g, k) % 256 }

  lemma InNewReach(h: Hashes, a: Service, source: NetAddr)
    ensures NewSlot(Staged(h), a, source).0 in Reach(NewBuckets(h, h.group(source)), 64)
  {
    hide Reach;
    var k := h.newFirst(h.group(a.ip), h.group(source)) % 64;
    assert NewSlot(Staged(h), a, source).0 == NewBuckets(h, h.group(source))(k);
  }

  lemma InTriedReach(h: Hashes, a: Service)
    ensures TriedSlot(Staged(h), a).0 in Reach(TriedBuckets(h, h.group(a.ip)), 8)
  {
    hide Reach;
    var k := h.triedFirst(a) % 8;
    assert TriedSlot(Staged(h), a).0 == TriedBuckets(h, h.group(a.ip))(k);
  }

  /** Whatever the peers of one network group announce, and however much of it, ends up in at most 64 of the 1024 "new"
      buckets. */
  lemma SourcesSpread(h: Hashes, heard: set<(Service, NetAddr)>, g: nat)
    requires forall x :: x in heard ==> h.group(x.1) == g
    ensures |set x | x in heard :: NewSlot(Staged(h), x.0, x.1).0| <= 64
  {
    hide Reach, NewSlot, Staged, NewBuckets;
    var buckets := set x | x in heard :: NewSlot(Staged(h), x.0, x.1).0;
    forall x | x in heard ensures NewSlot(Staged(h), x.0, x.1).0 in Reach(NewBuckets(h, g), 64) {
      InNewReach(h, x.0, x.1);
    }
    SubsetSize(buckets, Reach(NewBuckets(h, g), 64));
  }

  /** The addresses of one network group are in at most eight of the 256 "tried" buckets, in
      every consistent manager. */
  lemma GroupSpreads(h: Hashes, s: State, g: nat)
    requires Consistent(Staged(h), s)
    ensures |set slot | slot in s.triedTab && h.group(IpOf(s.mapInfo, s.triedTab[slot])) == g :: slot.0| <= 8
  {
    hide IdsOk, RandomOk, NewOk, StatusOk, CountsOk, Reach, TriedSlot, Staged, TriedBuckets;
    var buckets := set slot | slot in s.triedTab && h.group(IpOf(s.mapInfo, s.triedTab[slot])) == g :: slot.0;
    forall slot | slot in s.triedTab && h.group(IpOf(s.mapInfo, s.triedTab[slot])) == g
      ensures slot.0 in Reach(TriedBuckets(h, g), 8)
    {
      assert TriedSlotOk(Staged(h), s.mapInfo, slot, s.triedTab[slot]);
      InTriedReach(h, s.mapInfo[s.triedTab[slot]].addr);
    }
    SubsetSize(buckets, Reach(TriedBuckets(h, g), 8));
  }
}
