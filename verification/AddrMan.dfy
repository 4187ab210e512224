/** The stochastic address manager. */
module AddrMan {
  import opened AddrManState
  import opened AddrManBook

  const HORIZON_DAYS: int := 30
  const RETRIES: int := 3
  const MAX_FAILURES: int := 10
  const MIN_FAIL_DAYS: int := 7
  const GETADDR_MAX_PCT: int := 23
  const GETADDR_MAX: int := 2500

  predicate IsTerrible(i: Info, now: int) {
    if i.nLastTry != 0 && i.nLastTry >= now - 60 then false
    else if i.nTime > now + 10 * 60 then true
    else if i.nTime == 0 || now - i.nTime > HORIZON_DAYS * 24 * 60 * 60 then true
    else if i.nLastSuccess == 0 && i.nAttempts >= RETRIES then true
    else now - i.nLastSuccess > MIN_FAIL_DAYS * 24 * 60 * 60 && i.nAttempts >= MAX_FAILURES
  }

  /** The rule on the time stamps, in seconds: unless it was tried in the last minute, an entry is terrible exactly if
      it comes from more than ten minutes in the future, was not seen for thirty days or ever, failed three times
      without ever succeeding, or failed ten times and did not succeed for seven days. */
  lemma TerribleExactly(i: Info, now: int)
    ensures IsTerrible(i, now) <==>
      && (i.nLastTry == 0 || now - i.nLastTry > 60)
      && (|| i.nTime - now > 600
          || i.nTime == 0
          || now - i.nTime > 2_592_000
          || (i.nLastSuccess == 0 && i.nAttempts >= 3)
          || (now - i.nLastSuccess > 604_800 && i.nAttempts >= 10))
  {
  }

  /** The places of a bucket table that are not -1. */
  function Occupied(a: array2<int>): map<Slot, int>
    reads a
  {
    map b: nat, p: nat | b < a.Length0 && p < a.Length1 && a[b, p] != -1 :: (b, p) := a[b, p]
  }

  lemma OccupiedAt(a: array2<int>, b: nat, p: nat)
    requires b < a.Length0 && p < a.Length1
    ensures (b, p) in Occupied(a) <==> a[b, p] != -1
    ensures (b, p) in Occupied(a) ==> Occupied(a)[(b, p)] == a[b, p]
  {
  }

  /** Writes one place of a table; -1 empties it. */
  method Place(a: array2<int>, b: nat, p: nat, id: int)
    requires b < a.Length0 && p < a.Length1
    modifies a
    ensures Occupied(a) == if id == -1 then old(Occupied(a)) - {(b, p)} else old(Occupied(a))[(b, p) := id]
  {
    ghost var before := Occupied(a);
    a[b, p] := id;
    assert forall c: nat, q: nat :: (c, q) in Occupied(a) <==> c < a.Length0 && q < a.Length1 && a[c, q] != -1;
    assert forall slot: Slot :: slot in Occupied(a) <==> (slot.0, slot.1) in Occupied(a);
  }

  class CAddrMan {
    const hasher: nat -> Buckets
    var nKey: nat
    var nIdCount: int
    var mapInfo: map<int, Info>
    var mapAddr: map<NetAddr, int>
    var vRandom: seq<int>
    var nTried: int
    const vvTried: array2<int>
    var nNew: int
    const vvNew: array2<int>
    var nLastGood: int

    /** The tables are there, and not the same memory. */
    ghost predicate Laid()
    {
      && vvTried != vvNew
      && vvTried.Length0 == TRIED_BUCKET_COUNT && vvTried.Length1 == BUCKET_SIZE
      && vvNew.Length0 == NEW_BUCKET_COUNT && vvNew.Length1 == BUCKET_SIZE
    }

    ghost function Snapshot(): State
      reads this, vvTried, vvNew
    {
      State(nIdCount, mapInfo, mapAddr, vRandom, nTried, nNew, Occupied(vvNew), Occupied(vvTried))
    }

    function Bk(): Buckets
      reads this`nKey
    {
      hasher(nKey)
    }

    ghost predicate Valid()
      reads this, vvTried, vvNew
    {
      Laid() && Consistent(Bk(), Snapshot())
    }

    ghost predicate Mid(limbo: set<int>, k: int)
      reads this, vvTried, vvNew
    {
      Laid() && WF(Bk(), Snapshot(), limbo, k)
    }

    constructor (hasher: nat -> Buckets, key: nat)
      ensures Valid() && Snapshot() == Nothing && nKey == key && this.hasher == hasher
      ensures fresh(vvTried) && fresh(vvNew)
    {
      hide WF;
      this.hasher := hasher;
      nKey := key;
      vvTried := new int[TRIED_BUCKET_COUNT, BUCKET_SIZE]((_, _) => -1);
      vvNew := new int[NEW_BUCKET_COUNT, BUCKET_SIZE]((_, _) => -1);
      nIdCount, mapInfo, mapAddr, vRandom, nTried, nNew, nLastGood := 0, map[], map[], [], 0, 0, 1;
      new;
      assert Occupied(vvNew) == map[] && Occupied(vvTried) == map[];
      NothingOk(Bk());
    }

    method SwapRandom(i: nat, j: nat, ghost limbo: set<int>, ghost k: int)
      requires Mid(limbo, k) && i < |vRandom| && j < |vRandom|
      modifies this`mapInfo, this`vRandom
      ensures Mid(limbo, k) && Snapshot() == Swap(old(Snapshot()), i, j)
    {
      hide WF, Occupied;
      ghost var s := Snapshot();
      RandomFacts(Bk(), s, limbo, k);
      SwapOk(Bk(), s, limbo, k, i, j);
      if i == j {
        SwapSame(s, i);
        return;
      }
      var a, b := vRandom[i], vRandom[j];
      assert a in mapInfo && b in mapInfo;
      mapInfo := mapInfo[a := mapInfo[a].(nRandomPos := j)];
      mapInfo := mapInfo[b := mapInfo[b].(nRandomPos := i)];
      vRandom := vRandom[i := b];
      vRandom := vRandom[j := a];
    }

    method Delete(id: int, ghost limbo: set<int>, ghost k: int)
      requires Mid(limbo, k) && id in limbo
      modifies this`mapInfo, this`mapAddr, this`vRandom, this`nNew
      ensures Mid(limbo - {id}, k) && Kept(old(Snapshot()), Snapshot()) && SameBook(old(Snapshot()), Snapshot())
      ensures mapInfo.Keys == old(mapInfo.Keys) - {id} && Bystanders(old(Snapshot()), Snapshot(), id)
    {
      hide WF, Occupied, Kept, NewBook, TriedBook;
      ghost var s := Snapshot();
      LimboFacts(Bk(), s, limbo, k, id);
      assert id in mapInfo;
      assert !mapInfo[id].fInTried;
      assert mapInfo[id].nRefCount == 0;
      RemoveOk(Bk(), s, limbo, k, id);
      RemoveBook(Bk(), s, limbo, k, id);
      SwapRandom(mapInfo[id].nRandomPos, |vRandom| - 1, limbo, k);
      vRandom := vRandom[..|vRandom| - 1];
      mapAddr := mapAddr - {mapInfo[id].addr.ip};
      mapInfo := mapInfo - {id};
      nNew := nNew - 1;
      assert Snapshot() == Remove(s, id);
    }

    /** Empties a place of the "new" table; the address there is forgotten if that was its last one. */
    method ClearNew(b: nat, p: nat, ghost limbo: set<int>, ghost k: int)
      requires Mid(limbo, k) && b < NEW_BUCKET_COUNT && p < BUCKET_SIZE
      modifies this`mapInfo, this`mapAddr, this`vRandom, this`nNew, vvNew
      ensures Mid(limbo, k) && Kept(old(Snapshot()), Snapshot())
      ensures NewBook(Snapshot()) == NewBook(old(Snapshot())) - {(b, p)}
      ensures TriedBook(Snapshot()) == TriedBook(old(Snapshot()))
      ensures Bystanders(old(Snapshot()), Snapshot(), old(vvNew[b, p]))
    {
      hide WF, Occupied, Kept, NewBook, TriedBook;
      ghost var s := Snapshot();
      OccupiedAt(vvNew, b, p);
      if vvNew[b, p] != -1 {
        var id := vvNew[b, p];
        UnrefOk(Bk(), s, limbo, k, (b, p));
        UnrefBook(s, (b, p));
        assert mapInfo[id].nRefCount > 0;
        mapInfo := mapInfo[id := mapInfo[id].(nRefCount := mapInfo[id].nRefCount - 1)];
        Place(vvNew, b, p, -1);
        ghost var s1 := Snapshot();
        assert s1 == Unref(s, (b, p));
        if mapInfo[id].nRefCount == 0 {
          Delete(id, limbo + {id}, k);
          assert limbo + {id} - {id} == limbo;
          KeptTransitive(s, s1, Snapshot());
        }
      } else {
        UntouchedBook(s, (b, p));
      }
    }

    /** The loop of MakeTried: the entry leaves every "new" bucket it is in, and then nobody refers to it. */
    method LeaveNew(id: int)
      requires Mid({}, 0) && id in mapInfo && !mapInfo[id].fInTried
      modifies this`mapInfo, vvNew
      ensures Mid({id}, 0) && Snapshot() == Swept(old(Snapshot()), id)
    {
      hide WF, Occupied;
      ghost var s := Snapshot();
      ReferredTo(Bk(), s, id);
      SweepNothing(s, id);
      for bucket := 0 to NEW_BUCKET_COUNT
        invariant id in mapInfo && Mid(if mapInfo[id].nRefCount == 0 then {id} else {}, 0)
        invariant Snapshot() == s.(mapInfo := mapInfo, newTab := Sweep(s.newTab, id, bucket))
        invariant mapInfo == s.mapInfo[id := s.mapInfo[id].(nRefCount := mapInfo[id].nRefCount)]
      {
        var pos := NewPosition(Bk(), bucket, mapInfo[id].addr);
        OccupiedAt(vvNew, bucket, pos);
        ghost var s1 := Snapshot();
        ghost var limbo := if mapInfo[id].nRefCount == 0 then {id} else {};
        SweepStep(Bk(), s, s1, id, bucket, limbo);
        if vvNew[bucket, pos] == id {
          UnrefOk(Bk(), s1, limbo, 0, (bucket, pos));
          Place(vvNew, bucket, pos, -1);
          mapInfo := mapInfo[id := mapInfo[id].(nRefCount := mapInfo[id].nRefCount - 1)];
          assert Snapshot() == Unref(s1, (bucket, pos));
          assert AfterUnref(s1, (bucket, pos), limbo) == if mapInfo[id].nRefCount == 0 then {id} else {};
        }
      }
      SweptOut(Bk(), s, Snapshot(), id, if mapInfo[id].nRefCount == 0 then {id} else {});
    }

    /** The middle of MakeTried: whoever holds the place in the "tried" table goes back to the "new" one. */
    method MakeSpace(b: nat, p: nat, id: int)
      requires Mid({id}, 1) && b < TRIED_BUCKET_COUNT && p < BUCKET_SIZE
      modifies this`mapInfo, this`mapAddr, this`vRandom, this`nNew, this`nTried, vvNew, vvTried
      ensures Mid({id}, 1) && Kept(old(Snapshot()), Snapshot())
      ensures TriedBook(Snapshot()) == TriedBook(old(Snapshot())) - {(b, p)}
      ensures NewBook(Snapshot()) == Demoted(Bk(), old(Snapshot()), (b, p), NewBook(old(Snapshot())))
      ensures vvTried[b, p] == -1
    {
      hide WF, Occupied, Kept, NewBook, TriedBook;
      ghost var s := Snapshot();
      OccupiedAt(vvTried, b, p);
      if vvTried[b, p] != -1 {
        var evict := vvTried[b, p];
        UntryOk(Bk(), s, {id}, 1, (b, p));
        UntryBook(s, (b, p));
        assert evict in mapInfo;
        mapInfo := mapInfo[evict := mapInfo[evict].(fInTried := false)];
        Place(vvTried, b, p, -1);
        nTried := nTried - 1;
        ghost var s1 := Snapshot();
        assert s1 == Untry(s, (b, p));
        assert {id} + {evict} == {id, evict};
        ReenterNew(evict, {id}, 2);
        KeptTransitive(s, s1, Snapshot());
        OccupiedAt(vvTried, b, p);
      } else {
        UntouchedTried(s, (b, p));
      }
    }

    /** An entry in limbo takes its primary place in the "new" table, whoever was there before. */
    method ReenterNew(id: int, ghost limbo: set<int>, ghost k: int)
      requires Mid(limbo + {id}, k) && id !in limbo && id in mapInfo
      modifies this`mapInfo, this`mapAddr, this`vRandom, this`nNew, vvNew
      ensures Mid(limbo, k - 1) && Kept(old(Snapshot()), Snapshot())
      ensures TriedBook(Snapshot()) == TriedBook(old(Snapshot()))
      ensures NewBook(Snapshot()) ==
        NewBook(old(Snapshot()))
          [NewSlot(Bk(), old(mapInfo)[id].addr, old(mapInfo)[id].source) := old(mapInfo)[id].addr.ip]
    {
      hide WF, Occupied, Kept, NewBook, TriedBook;
      ghost var s := Snapshot();
      var slot := NewSlot(Bk(), mapInfo[id].addr, mapInfo[id].source);
      ClearNew(slot.0, slot.1, limbo + {id}, k);
      ghost var s1 := Snapshot();
      OccupiedAt(vvNew, slot.0, slot.1);
      LimboFacts(Bk(), s1, limbo + {id}, k, id);
      SameEntry(s, s1, id);
      assert vvNew[slot.0, slot.1] == -1 by { BookDomain(s1); }
      RefOk(Bk(), s1, limbo + {id}, k, slot, id);
      RefBook(s1, slot, id);
      mapInfo := mapInfo[id := mapInfo[id].(nRefCount := 1)];
      Place(vvNew, slot.0, slot.1, id);
      ghost var s2 := Snapshot();
      assert s2 == Ref(s1, slot, id);
      assert limbo + {id} - {id} == limbo;
      nNew := nNew + 1;
      MoreCounted(Bk(), s2, limbo, k, 1);
      KeptTransitive(s, s1, s2);
      SameButCount(s2, Snapshot());
      BookAgain(NewBook(s), slot, s.mapInfo[id].addr.ip);
    }

    /** Moves an entry from the "new" to the "tried" table. */
    method MakeTried(id: int)
      requires Valid() && id in mapInfo && !mapInfo[id].fInTried
      modifies this`mapInfo, this`mapAddr, this`vRandom, this`nNew, this`nTried, vvNew, vvTried
      ensures Valid() && Kept(old(Snapshot()), Snapshot())
      ensures TriedBook(Snapshot()) == Promoted(Bk(), old(Snapshot()), id)
      ensures NewBook(Snapshot()) == Vacated(Bk(), old(Snapshot()), id)
    {
      hide WF, Occupied, Kept, NewBook, TriedBook;
      ghost var s := Snapshot();
      var info := mapInfo[id];
      LeaveNew(id);
      nNew := nNew - 1;
      ghost var s1 := Snapshot();
      MoreCounted(Bk(), Swept(s, id), {id}, 0, -1);
      SweptBook(Bk(), s, id);
      SweptRest(s, id);
      SameButCount(Swept(s, id), s1);
      assert mapInfo[id].nRefCount == 0;
      var slot := TriedSlot(Bk(), info.addr);
      MakeSpace(slot.0, slot.1, id);
      ghost var s2 := Snapshot();
      OccupiedAt(vvTried, slot.0, slot.1);
      LimboFacts(Bk(), s2, {id}, 1, id);
      SameEntry(s1, s2, id);
      KeptTransitive(s, s1, s2);
      assert vvTried[slot.0, slot.1] == -1;
      TryOk(Bk(), s2, {id}, 1, id);
      TryBook(s2, slot, id);
      Place(vvTried, slot.0, slot.1, id);
      nTried := nTried + 1;
      mapInfo := mapInfo[id := mapInfo[id].(fInTried := true)];
      assert Snapshot() == Try(s2, slot, id);
      assert {id} - {id} == {};
      KeptTransitive(s, s2, Snapshot());
      BookAgain(TriedBook(s), slot, info.addr.ip);
      SweptDemoted(Bk(), s, s1, id, slot);
    }

    /** The entry of a known address, or -1. */
    function Find(a: NetAddr): (id: int)
      reads this, vvTried, vvNew
      ensures id != -1 ==> a in mapAddr && mapAddr[a] == id && id in mapInfo
      ensures Valid() ==> (id == -1 <==> a !in mapAddr)
    {
      if a in mapAddr && mapAddr[a] in mapInfo then mapAddr[a] else -1
    }

    /** Marks an address as good: it moves to the "tried" table unless it is there already. */
    method Good(addr: Service, time: int, random: nat)
      requires Valid()
      modifies this, vvNew, vvTried
      ensures Valid() && nKey == old(nKey)
      ensures var s := old(Snapshot());
        if Untried(s, addr) then
          && TriedBook(Snapshot()) == Promoted(Bk(), s, s.mapAddr[addr.ip])
          && NewBook(Snapshot()) == Vacated(Bk(), s, s.mapAddr[addr.ip])
        else SameBook(s, Snapshot())
      ensures forall id :: id in mapInfo ==>
        id in old(mapInfo) && Core(mapInfo[id]) == Core(GoodInfo(old(mapInfo)[id], addr, time))
    {
      hide WF, Occupied, NewBook, TriedBook;
      ghost var s := Snapshot();
      nLastGood := time;
      var id := Find(addr.ip);
      KnownFacts(Bk(), s, addr);
      if id == -1 { return; }
      if mapInfo[id].addr != addr { return; }
      TouchOk(Bk(), s, {}, 0, id, Succeeded(mapInfo[id], time));
      TouchBook(s, id, Succeeded(mapInfo[id], time));
      mapInfo := mapInfo[id := Succeeded(mapInfo[id], time)];
      ghost var s1 := Snapshot();
      assert s1 == s.(mapInfo := s.mapInfo[id := Succeeded(s.mapInfo[id], time)]);
      if mapInfo[id].fInTried { return; }
      TouchedTables(Bk(), s, id, Succeeded(s.mapInfo[id], time));
      var found := FindNewBucket(id, random);
      if !found { return; }
      MakeTried(id);
    }

    /** Looks for a "new" bucket that holds the entry, from a random one onwards; there always is one. */
    method FindNewBucket(id: int, random: nat) returns (found: bool)
      requires Valid() && id in mapInfo && !mapInfo[id].fInTried
      ensures found
    {
      hide WF, Occupied;
      ghost var slot := SomePlace(Bk(), Snapshot(), id);
      for n := 0 to NEW_BUCKET_COUNT
        invariant forall m :: 0 <= m < n ==> Around(m, random) != slot.0
      {
        var bucket := Around(n, random);
        var pos := NewPosition(Bk(), bucket, mapInfo[id].addr);
        OccupiedAt(vvNew, bucket, pos);
        assert bucket == slot.0 ==> (bucket, pos) == slot;
        if vvNew[bucket, pos] == id {
          return true;
        }
      }
      Rotation(slot.0, random);
      return false;
    }

    /** Learns an address from a peer.  Returns whether it was unknown, even if there was no place for it. */
    method Add(ann: Announcement, routable: bool, now: int, random: nat) returns (fNew: bool)
      requires Valid()
      modifies this, vvNew
      ensures Valid() && nKey == old(nKey)
      ensures fNew <==> routable && ann.addr.ip !in old(mapAddr)
      ensures NewBook(Snapshot()) ==
        if routable then Announced(Bk(), old(Snapshot()), ann, now, random) else NewBook(old(Snapshot()))
      ensures FairlyPlaced(Bk(), old(Snapshot()), ann, routable, now, random, NewBook(Snapshot()))
      ensures TriedBook(Snapshot()) == TriedBook(old(Snapshot()))
      ensures forall id :: id in mapInfo ==> Core(mapInfo[id]) == Core(
        if id in old(mapInfo) then AddInfo(old(mapInfo)[id], ann, routable, now) else FirstHeard(ann))
    {
      hide WF, Occupied, NewBook, TriedBook;
      ghost var s := Snapshot();
      AnnouncedIsFair(Bk(), s, ann, routable, now, random);
      if !routable { return false; }
      var id := Find(ann.addr.ip);
      KnownIp(Bk(), s, ann.addr.ip);
      if id != -1 {
        HeardAgain(id, ann, now, random);
        return false;
      } else {
        HeardFirst(ann, now);
        return true;
      }
    }

    /** Add_ for a known address. */
    method HeardAgain(id: int, ann: Announcement, now: int, random: nat)
      requires Valid() && id in mapInfo
      modifies this`mapInfo, this`mapAddr, this`vRandom, this`nNew, vvNew
      ensures Valid() && TriedBook(Snapshot()) == TriedBook(old(Snapshot()))
      ensures NewBook(Snapshot()) == var s := old(Snapshot());
        if Worthwhile(Refreshed(s.mapInfo[id], ann, now), ann, random) then Placed(Bk(), s, id, ann.source, now)
        else NewBook(s)
      ensures Kept(Heard(old(Snapshot()), id, ann, now), Snapshot())
    {
      hide WF, Occupied, Kept, NewBook, TriedBook;
      ghost var s := Snapshot();
      var info := Refreshed(mapInfo[id], ann, now);
      TouchOk(Bk(), s, {}, 0, id, info);
      TouchBook(s, id, info);
      mapInfo := mapInfo[id := info];
      ghost var s1 := Snapshot();
      assert s1 == Heard(s, id, ann, now);
      KeptSelf(s1);
      StatusFacts(Bk(), s, id);
      ClaimsTouched(Bk(), s, id, info, ann.source, now);
      if ann.time == 0 || (info.nTime != 0 && ann.time <= info.nTime) { return; }
      if info.fInTried { return; }
      if info.nRefCount == NEW_BUCKETS_PER_ADDRESS { return; }
      var nFactor := 1;
      for n := 0 to info.nRefCount
        invariant nFactor == Pow2(n)
      {
        nFactor := nFactor * 2;
      }
      if nFactor > 1 && random % nFactor != 0 { return; }
      TakePlace(id, ann.source, now);
    }

    /** Add_ for an unknown one. */
    method HeardFirst(ann: Announcement, now: int)
      requires Valid() && ann.addr.ip !in mapAddr
      modifies this`mapInfo, this`mapAddr, this`vRandom, this`nNew, this`nIdCount, vvNew
      ensures Valid() && TriedBook(Snapshot()) == TriedBook(old(Snapshot()))
      ensures NewBook(Snapshot()) == var s := old(Snapshot()); var slot := NewSlot(Bk(), ann.addr, ann.source);
        if Claims(s, slot, -1, 0, now) then NewBook(s)[slot := ann.addr.ip] else NewBook(s)
      ensures Kept(Create(old(Snapshot()), FirstHeard(ann)), Snapshot())
    {
      hide WF, Occupied, Kept, NewBook, TriedBook;
      ghost var s := Snapshot();
      CreateOk(Bk(), s, {}, 0, FirstHeard(ann));
      CreateBook(Bk(), s, {}, 0, FirstHeard(ann));
      var id := nIdCount;
      nIdCount := nIdCount + 1;
      mapInfo := mapInfo[id := FirstHeard(ann).(nRefCount := 0, fInTried := false, nRandomPos := |vRandom|)];
      mapAddr := mapAddr[ann.addr.ip := id];
      vRandom := vRandom + [id];
      ghost var s1 := Snapshot();
      assert s1 == Create(s, FirstHeard(ann));
      nNew := nNew + 1;
      ghost var s2 := Snapshot();
      assert {} + {id} == {id};
      MoreCounted(Bk(), s1, {id}, 1, 1);
      KeptSelf(s1);
      SameButCount(s1, s2);
      ClaimsCreated(Bk(), s, s2, id, ann.source, now);
      TakePlace(id, ann.source, now);
      KeptTransitive(s1, s2, Snapshot());
    }

    /** Whoever has the place leaves it to `id`. */
    method Occupy(id: int, slot: Slot, ghost limbo: set<int>)
      requires id in mapInfo && Mid(limbo, 0) && limbo == (if mapInfo[id].nRefCount == 0 then {id} else {})
      requires !mapInfo[id].fInTried && mapInfo[id].nRefCount < NEW_BUCKETS_PER_ADDRESS
      requires slot.0 < NEW_BUCKET_COUNT && slot.1 == NewPosition(Bk(), slot.0, mapInfo[id].addr) &&
        vvNew[slot.0, slot.1] != id
      modifies this`mapInfo, this`mapAddr, this`vRandom, this`nNew, vvNew
      ensures Valid() && Kept(old(Snapshot()), Snapshot())
      ensures NewBook(Snapshot()) == NewBook(old(Snapshot()))[slot := old(mapInfo[id]).addr.ip]
      ensures TriedBook(Snapshot()) == TriedBook(old(Snapshot()))
    {
      hide WF, Occupied, Kept, NewBook, TriedBook;
      ghost var s := Snapshot();
      OccupiedAt(vvNew, slot.0, slot.1);
      SlotFacts(Bk(), s, limbo, 0, slot, id);
      ClearNew(slot.0, slot.1, limbo, 0);
      ghost var s1 := Snapshot();
      OccupiedAt(vvNew, slot.0, slot.1);
      BookDomain(s1);
      assert id in mapInfo && mapInfo[id] == s.mapInfo[id].(nRandomPos := mapInfo[id].nRandomPos);
      RefOk(Bk(), s1, limbo, 0, slot, id);
      RefBook(s1, slot, id);
      mapInfo := mapInfo[id := mapInfo[id].(nRefCount := mapInfo[id].nRefCount + 1)];
      Place(vvNew, slot.0, slot.1, id);
      assert Snapshot() == Ref(s1, slot, id);
      assert limbo - {id} == {};
      KeptTransitive(s, s1, Snapshot());
      BookAgain(NewBook(s), slot, s.mapInfo[id].addr.ip);
    }

    /** The end of Add_: the entry gets the place its source assigns to it if that is free or worth taking;
        an entry that ends up nowhere is deleted. */
    method TakePlace(id: int, source: NetAddr, now: int)
      requires id in mapInfo && Mid(if mapInfo[id].nRefCount == 0 then {id} else {}, 0)
      requires !mapInfo[id].fInTried && mapInfo[id].nRefCount < NEW_BUCKETS_PER_ADDRESS
      modifies this`mapInfo, this`mapAddr, this`vRandom, this`nNew, vvNew
      ensures Valid() && Kept(old(Snapshot()), Snapshot())
      ensures NewBook(Snapshot()) == Placed(Bk(), old(Snapshot()), id, source, now)
      ensures TriedBook(Snapshot()) == TriedBook(old(Snapshot()))
    {
      hide WF, Occupied, Kept, NewBook, TriedBook;
      ghost var s := Snapshot();
      ghost var limbo := if mapInfo[id].nRefCount == 0 then {id} else {};
      var slot := NewSlot(Bk(), mapInfo[id].addr, source);
      OccupiedAt(vvNew, slot.0, slot.1);
      SlotFacts(Bk(), s, limbo, 0, slot, id);
      if vvNew[slot.0, slot.1] != id {
        var insert := vvNew[slot.0, slot.1] == -1;
        if !insert {
          var existing := mapInfo[vvNew[slot.0, slot.1]];
          if IsTerrible(existing, now) || (existing.nRefCount > 1 && mapInfo[id].nRefCount == 0) {
            insert := true;
          }
        }
        if insert {
          Occupy(id, slot, limbo);
        } else {
          KeptSelf(s);
          if mapInfo[id].nRefCount == 0 {
            Delete(id, limbo, 0);
            assert limbo - {id} == {};
          }
        }
      } else {
        KeptSelf(s);
      }
    }

    /** One step of the shuffle: a random one of the entries not drawn yet comes to place `n`. */
    method Draw(n: nat, random: nat, ghost now: int) returns (ai: Info)
      requires Valid() && n < |vRandom|
      modifies this`mapInfo, this`vRandom
      ensures Valid() && SameBook(old(Snapshot()), Snapshot()) && mapInfo.Keys == old(mapInfo.Keys) &&
        |vRandom| == old(|vRandom|)
      ensures vRandom[n] in mapInfo && ai == mapInfo[vRandom[n]]
      ensures Presentable(mapInfo, vRandom[..n], now) == old(Presentable(mapInfo, vRandom[..n], now))
    {
      hide WF, Occupied, Kept, NewBook, TriedBook, Presentable;
      ghost var s := Snapshot();
      var pos := random % (|vRandom| - n) + n;
      RandomFacts(Bk(), s, {}, 0);
      SwapBook(s, n, pos);
      SwapPresentable(s, n, pos, now);
      SwapRandom(n, pos, {}, 0);
      RandomFacts(Bk(), Snapshot(), {}, 0);
      ai := mapInfo[vRandom[n]];
    }

    /** Up to 23% of the addresses, at most 2500, in random order and without the terrible ones: a random
        prefix of all of them, long enough unless there are not that many.  Only vRandom is reordered. */
    method GetAddr(now: int, random: seq<nat>) returns (vAddr: seq<Service>, ghost scanned: nat)
      requires Valid() && |random| == |vRandom|
      modifies this`mapInfo, this`vRandom
      ensures Valid() && SameBook(old(Snapshot()), Snapshot()) && mapInfo.Keys == old(mapInfo.Keys)
      ensures scanned <= |vRandom| == old(|vRandom|) && vAddr == Presentable(mapInfo, vRandom[..scanned], now)
      ensures |vAddr| <= Wanted(|vRandom|) && (scanned < |vRandom| ==> |vAddr| == Wanted(|vRandom|))
    {
      hide WF, Occupied, Kept, NewBook, TriedBook;
      var nNodes := Wanted(|vRandom|);
      vAddr := [];
      ghost var s := Snapshot();
      var n := 0;
      assert vRandom[..0] == [];
      while n < |vRandom| && |vAddr| < nNodes
        invariant 0 <= n <= |vRandom| == |random| && |vAddr| <= nNodes
        invariant Valid() && SameBook(s, Snapshot()) && mapInfo.Keys == s.mapInfo.Keys
        invariant vAddr == Presentable(mapInfo, vRandom[..n], now)
      {
        var ai := Draw(n, random[n], now);
        assert vRandom[..n + 1] == vRandom[..n] + [vRandom[n]];
        if !IsTerrible(ai, now) {
          vAddr := vAddr + [ai.addr];
        }
        n := n + 1;
      }
      scanned := n;
    }
  }

  // ---------------------------------------------------------------- leaving the "new" table

  /** The table without the places of `id` in the buckets below `bound`. */
  function Sweep(newTab: map<Slot, int>, id: int, bound: nat): map<Slot, int> {
    map slot: Slot | slot in newTab && !(newTab[slot] == id && slot.0 < bound) :: newTab[slot]
  }

  function Swept(s: State, id: int): State
    requires id in s.mapInfo
  {
    s.(mapInfo := s.mapInfo[id := s.mapInfo[id].(nRefCount := 0)], newTab := Sweep(s.newTab, id, NEW_BUCKET_COUNT))
  }

  lemma ReferredTo(bk: Buckets, s: State, id: int)
    requires WF(bk, s, {}, 0) && id in s.mapInfo && !s.mapInfo[id].fInTried
    ensures s.mapInfo[id].nRefCount >= 1 && id >= 0
  {
  }

  lemma SweepNothing(s: State, id: int)
    requires id in s.mapInfo
    ensures Sweep(s.newTab, id, 0) == s.newTab &&
      s.mapInfo == s.mapInfo[id := s.mapInfo[id].(nRefCount := s.mapInfo[id].nRefCount)]
  {
  }

  /** In one bucket an entry can only be at its own position. */
  lemma SweepStep(bk: Buckets, s: State, s1: State, id: int, bucket: nat, limbo: set<int>)
    requires WF(bk, s1, limbo, 0) && id in s.mapInfo && id in s1.mapInfo && s1.mapInfo[id].addr == s.mapInfo[id].addr
    requires s1.newTab == Sweep(s.newTab, id, bucket)
    ensures var slot: Slot := (bucket, NewPosition(bk, bucket, s1.mapInfo[id].addr));
      Sweep(s.newTab, id, bucket + 1) ==
        if slot in s1.newTab && s1.newTab[slot] == id then s1.newTab - {slot} else s1.newTab
  {
    var own: Slot := (bucket, NewPosition(bk, bucket, s1.mapInfo[id].addr));
    forall slot: Slot | slot in s.newTab && slot.0 == bucket && s.newTab[slot] == id ensures slot == own {
      assert slot in s1.newTab;
      assert NewSlotOk(bk, s1.mapInfo, slot, s1.newTab[slot]);
    }
  }

  lemma SweptOut(bk: Buckets, s: State, s1: State, id: int, limbo: set<int>)
    requires WF(bk, s, {}, 0) && WF(bk, s1, limbo, 0) && id in s.mapInfo && id in s1.mapInfo
    requires s1.newTab == Sweep(s.newTab, id, NEW_BUCKET_COUNT)
    ensures s1.mapInfo[id].nRefCount == 0
  {
    forall slot | slot in s1.newTab ensures s1.newTab[slot] != id {
      assert NewSlotOk(bk, s.mapInfo, slot, s.newTab[slot]);
    }
    assert Refs(s1.newTab, id) == {};
  }

  /** Every entry but `out` is still there, as it was but for its place in vRandom. */
  predicate Bystanders(s: State, s': State, out: int) {
    forall id :: id in s.mapInfo && id != out ==>
      id in s'.mapInfo && s'.mapInfo[id] == s.mapInfo[id].(nRandomPos := s'.mapInfo[id].nRandomPos)
  }

  /** What the "new" table shows after the entry at `slot` of the "tried" table was sent back. */
  function Demoted(bk: Buckets, s: State, slot: Slot, book: map<Slot, NetAddr>): map<Slot, NetAddr> {
    if slot in s.triedTab && s.triedTab[slot] in s.mapInfo then
      var info := s.mapInfo[s.triedTab[slot]];
      book[NewSlot(bk, info.addr, info.source) := info.addr.ip]
    else book
  }

  lemma UntouchedTried(s: State, slot: Slot)
    requires slot !in s.triedTab
    ensures TriedBook(s) - {slot} == TriedBook(s) && Kept(s, s)
  {
  }

  lemma SameEntry(s: State, s1: State, id: int)
    requires Kept(s, s1) && id in s1.mapInfo
    ensures id in s.mapInfo && s1.mapInfo[id].addr == s.mapInfo[id].addr &&
      s1.mapInfo[id].source == s.mapInfo[id].source
  {
    assert Core(s1.mapInfo[id]) == Core(s.mapInfo[id]);
  }

  lemma BookDomain(s: State)
    ensures NewBook(s).Keys == s.newTab.Keys && TriedBook(s).Keys == s.triedTab.Keys
  {
  }

  lemma SameButCount(s: State, s': State)
    requires s' == s.(nNew := s'.nNew)
    ensures SameBook(s, s') && (forall r :: Kept(r, s) ==> Kept(r, s'))
  {
  }

  lemma BookAgain(book: map<Slot, NetAddr>, slot: Slot, ip: NetAddr)
    ensures (book - {slot})[slot := ip] == book[slot := ip]
  {
  }

  /** The "tried" table after an entry has moved there: it takes its place. */
  function Promoted(bk: Buckets, s: State, id: int): map<Slot, NetAddr>
    requires id in s.mapInfo
  {
    TriedBook(s)[TriedSlot(bk, s.mapInfo[id].addr) := s.mapInfo[id].addr.ip]
  }

  /** The "new" table after an entry has moved to the other one: all its places are free, and the entry that
      it displaced there has come back to its primary place. */
  function Vacated(bk: Buckets, s: State, id: int): map<Slot, NetAddr>
    requires id in s.mapInfo
  {
    Demoted(bk, s, TriedSlot(bk, s.mapInfo[id].addr), Leave(NewBook(s), s.mapInfo[id].addr.ip))
  }

  function Leave(book: map<Slot, NetAddr>, ip: NetAddr): map<Slot, NetAddr> {
    map slot: Slot | slot in book && book[slot] != ip :: book[slot]
  }

  lemma SweptBook(bk: Buckets, s: State, id: int)
    requires Consistent(bk, s) && id in s.mapInfo
    ensures NewBook(Swept(s, id)) == Leave(NewBook(s), s.mapInfo[id].addr.ip)
  {
    hide WF;
    var s' := Swept(s, id);
    var left, right := NewBook(s'), Leave(NewBook(s), s.mapInfo[id].addr.ip);
    forall slot: Slot ensures slot in left <==> slot in right {
      if slot in s.newTab { SlotIp(bk, s, slot, id); }
    }
    forall slot | slot in left ensures left[slot] == right[slot] {
      assert IpOf(s'.mapInfo, s'.newTab[slot]) == IpOf(s.mapInfo, s.newTab[slot]);
    }
  }

  lemma SweptRest(s: State, id: int)
    requires id in s.mapInfo
    ensures TriedBook(Swept(s, id)) == TriedBook(s) && Kept(s, Swept(s, id))
  {
    assert forall i :: IpOf(Swept(s, id).mapInfo, i) == IpOf(s.mapInfo, i);
  }

  lemma SlotIp(bk: Buckets, s: State, slot: Slot, id: int)
    requires Consistent(bk, s) && id in s.mapInfo && slot in s.newTab
    ensures (IpOf(s.mapInfo, s.newTab[slot]) == s.mapInfo[id].addr.ip <==> s.newTab[slot] == id) &&
      slot.0 < NEW_BUCKET_COUNT
  {
    assert NewSlotOk(bk, s.mapInfo, slot, s.newTab[slot]);
  }

  lemma SweptDemoted(bk: Buckets, s: State, s1: State, id: int, slot: Slot)
    requires id in s.mapInfo && s1 == Swept(s, id).(nNew := s1.nNew)
    ensures forall book :: Demoted(bk, s1, slot, book) == Demoted(bk, s, slot, book)
  {
  }

  /** A known address, exactly this service, not in the "tried" table yet. */
  predicate Untried(s: State, addr: Service) {
    && addr.ip in s.mapAddr && s.mapAddr[addr.ip] in s.mapInfo
    && s.mapInfo[s.mapAddr[addr.ip]].addr == addr
    && !s.mapInfo[s.mapAddr[addr.ip]].fInTried
  }

  function Succeeded(i: Info, time: int): Info {
    i.(nLastSuccess := time, nLastTry := time, nAttempts := 0)
  }

  function GoodInfo(i: Info, addr: Service, time: int): Info {
    if i.addr == addr then Succeeded(i, time) else i
  }

  lemma KnownFacts(bk: Buckets, s: State, addr: Service)
    requires Consistent(bk, s)
    ensures forall id :: id in s.mapInfo && s.mapInfo[id].addr == addr ==>
      addr.ip in s.mapAddr && s.mapAddr[addr.ip] == id
    ensures addr.ip in s.mapAddr ==> s.mapAddr[addr.ip] in s.mapInfo && s.mapAddr[addr.ip] != -1
  {
  }

  lemma TouchedTables(bk: Buckets, s: State, id: int, j: Info)
    requires id in s.mapInfo && s.mapInfo[id].addr == j.addr && s.mapInfo[id].source == j.source
    ensures var s1 := s.(mapInfo := s.mapInfo[id := j]);
      Promoted(bk, s1, id) == Promoted(bk, s, id) && Vacated(bk, s1, id) == Vacated(bk, s, id)
  {
    TouchBook(s, id, j);
  }

  ghost function SomePlace(bk: Buckets, s: State, id: int): (slot: Slot)
    requires Consistent(bk, s) && id in s.mapInfo && !s.mapInfo[id].fInTried
    ensures slot in s.newTab && s.newTab[slot] == id && id != -1
    ensures slot.0 < NEW_BUCKET_COUNT && slot.1 == NewPosition(bk, slot.0, s.mapInfo[id].addr)
  {
    var slot: Slot :| slot in Refs(s.newTab, id);
    assert NewSlotOk(bk, s.mapInfo, slot, s.newTab[slot]);
    slot
  }

  function Around(n: nat, random: nat): nat {
    (n + random) % NEW_BUCKET_COUNT
  }

  /** Stepping around the buckets reaches every one. */
  lemma Rotation(b: nat, random: nat)
    requires b < NEW_BUCKET_COUNT
    ensures exists n :: 0 <= n < NEW_BUCKET_COUNT && Around(n, random) == b
  {
    var n := (b + NEW_BUCKET_COUNT - random % NEW_BUCKET_COUNT) % NEW_BUCKET_COUNT;
    assert 0 <= n < NEW_BUCKET_COUNT && Around(n, random) == b;
  }

  // ---------------------------------------------------------------- announcements

  datatype Announcement = Announcement(addr: Service, time: int, services: set<nat>, source: NetAddr, penalty: int)

  function Max0(x: int): int { if x > 0 then x else 0 }

  /** No penalty for announcing oneself. */
  function Penalty(ann: Announcement): int { if ann.addr.ip == ann.source then 0 else ann.penalty }

  function Refreshed(i: Info, ann: Announcement, now: int): Info {
    var interval := if now - ann.time < 24 * 60 * 60 then 60 * 60 else 24 * 60 * 60;
    var i1 := if ann.time != 0 && (i.nTime == 0 || i.nTime < ann.time - interval - Penalty(ann))
              then i.(nTime := Max0(ann.time - Penalty(ann))) else i;
    i1.(nServices := i1.nServices + ann.services)
  }

  function Heard(s: State, id: int, ann: Announcement, now: int): State
    requires id in s.mapInfo
  {
    s.(mapInfo := s.mapInfo[id := Refreshed(s.mapInfo[id], ann, now)])
  }

  function FirstHeard(ann: Announcement): Info {
    Info(ann.addr, ann.source, Max0(ann.time - Penalty(ann)), ann.services, 0, 0, 0, 0, 0, false, 0)
  }

  function AddInfo(i: Info, ann: Announcement, routable: bool, now: int): Info {
    if routable && i.addr.ip == ann.addr.ip then Refreshed(i, ann, now) else i
  }

  function Pow2(n: nat): (r: nat)
    ensures r >= 1 && (n >= 1 ==> r >= 2)
  {
    if n == 0 then 1 else 2 * Pow2(n - 1)
  }

  /** Whether another place is considered for a known entry: there is news, it is not in the "tried" table, it has
      fewer than eight places, and the dice allow it, 2^N times harder if it has N. */
  predicate Worthwhile(i: Info, ann: Announcement, random: nat) {
    && ann.time != 0 && !(i.nTime != 0 && ann.time <= i.nTime)
    && !i.fInTried && 0 <= i.nRefCount != NEW_BUCKETS_PER_ADDRESS
    && random % Pow2(i.nRefCount) == 0
  }

  /** Whether an entry with `ref` places gets this one: it is free, its own, or held by an entry that is terrible or
      can spare it for one that has none. */
  predicate Claims(s: State, slot: Slot, id: int, ref: int, now: int) {
    slot in s.newTab && s.newTab[slot] in s.mapInfo && s.newTab[slot] != id ==>
      var other := s.mapInfo[s.newTab[slot]];
      IsTerrible(other, now) || (other.nRefCount > 1 && ref == 0)
  }

  function Placed(bk: Buckets, s: State, id: int, source: NetAddr, now: int): map<Slot, NetAddr>
    requires id in s.mapInfo
  {
    var slot := NewSlot(bk, s.mapInfo[id].addr, source);
    if Claims(s, slot, id, s.mapInfo[id].nRefCount, now) then NewBook(s)[slot := s.mapInfo[id].addr.ip] else NewBook(s)
  }

  /** The "new" table after an announcement. */
  function Announced(bk: Buckets, s: State, ann: Announcement, now: int, random: nat): map<Slot, NetAddr> {
    if ann.addr.ip in s.mapAddr && s.mapAddr[ann.addr.ip] in s.mapInfo then
      var id := s.mapAddr[ann.addr.ip];
      if Worthwhile(Refreshed(s.mapInfo[id], ann, now), ann, random) then Placed(bk, s, id, ann.source, now)
      else NewBook(s)
    else
      var slot := NewSlot(bk, ann.addr, ann.source);
      if Claims(s, slot, -1, 0, now) then NewBook(s)[slot := ann.addr.ip] else NewBook(s)
  }

  /** The entry in the place has no other one and is not terrible. */
  predicate Protected(s: State, slot: Slot, now: int) {
    && slot in s.newTab && s.newTab[slot] in s.mapInfo
    && s.mapInfo[s.newTab[slot]].nRefCount == 1 && !IsTerrible(s.mapInfo[s.newTab[slot]], now)
  }

  /** The place is free, or the entry in it is terrible. */
  predicate Forfeited(s: State, slot: Slot, now: int) {
    slot !in s.newTab || (s.newTab[slot] in s.mapInfo && IsTerrible(s.mapInfo[s.newTab[slot]], now))
  }

  /** The entry in the place has others. */
  predicate Spared(s: State, slot: Slot) {
    slot in s.newTab && s.newTab[slot] in s.mapInfo && s.mapInfo[s.newTab[slot]].nRefCount > 1
  }

  /** Who may take whose place, said of the "new" table before and after an announcement: protected entries stay where
      they are; an unknown address gets its place if that is forfeited or its holder has another one; a known one gets a
      further place only if that is forfeited and the news is worth it; nothing else changes. */
  ghost predicate FairlyPlaced(bk: Buckets, s: State, ann: Announcement, routable: bool, now: int, random: nat,
    after: map<Slot, NetAddr>)
  {
    var before, ip := NewBook(s), ann.addr.ip;
    && (forall slot :: Protected(s, slot, now) ==> slot in after && slot in before && after[slot] == before[slot])
    && (!routable ==> after == before)
    && (routable && ip !in s.mapAddr ==>
          var slot := NewSlot(bk, ann.addr, ann.source);
          after == if Forfeited(s, slot, now) || Spared(s, slot) then before[slot := ip] else before)
    && (routable && ip in s.mapAddr && s.mapAddr[ip] in s.mapInfo ==>
          var i := s.mapInfo[s.mapAddr[ip]];
          var slot := NewSlot(bk, i.addr, ann.source);
          after == if Worthwhile(Refreshed(i, ann, now), ann, random) && Forfeited(s, slot, now)
                   then before[slot := ip] else before)
  }

  lemma ProtectedStay(s: State, slot: Slot, now: int)
    requires Forfeited(s, slot, now) || Spared(s, slot)
    ensures forall p :: Protected(s, p, now) ==> p in NewBook(s) && p != slot
  {
    hide IsTerrible;
  }

  lemma ProtectedListed(s: State, now: int)
    ensures forall p :: Protected(s, p, now) ==> p in NewBook(s)
  {
    hide IsTerrible;
  }

  /** What a claim means for an entry that has no place yet, and for one that has. */
  lemma ClaimMeans(bk: Buckets, s: State, slot: Slot, id: int, ref: int, now: int)
    requires Consistent(bk, s) && (slot in s.newTab ==> s.newTab[slot] != id) && ref >= 0
    ensures Claims(s, slot, id, ref, now) <==> Forfeited(s, slot, now) || (ref == 0 && Spared(s, slot))
  {
    hide IsTerrible;
    if slot in s.newTab { assert NewSlotOk(bk, s.mapInfo, slot, s.newTab[slot]); }
  }

  lemma UnknownIsFair(bk: Buckets, s: State, ann: Announcement, now: int, random: nat)
    requires Consistent(bk, s) && ann.addr.ip !in s.mapAddr
    ensures FairlyPlaced(bk, s, ann, true, now, random, Announced(bk, s, ann, now, random))
  {
    hide Consistent, Claims, Forfeited, Spared, Protected, NewSlot, NewBook;
    var slot := NewSlot(bk, ann.addr, ann.source);
    NoSuchEntry(bk, s);
    ClaimMeans(bk, s, slot, -1, 0, now);
    ProtectedListed(s, now);
    if Claims(s, slot, -1, 0, now) { ProtectedStay(s, slot, now); }
  }

  lemma NoSuchEntry(bk: Buckets, s: State)
    requires Consistent(bk, s)
    ensures forall slot :: slot in s.newTab ==> s.newTab[slot] != -1
  {
    forall slot | slot in s.newTab ensures s.newTab[slot] != -1 {
      assert NewSlotOk(bk, s.mapInfo, slot, s.newTab[slot]);
    }
  }

  lemma KnownIsFair(bk: Buckets, s: State, ann: Announcement, now: int, random: nat)
    requires Consistent(bk, s) && ann.addr.ip in s.mapAddr
    ensures FairlyPlaced(bk, s, ann, true, now, random, Announced(bk, s, ann, now, random))
  {
    hide Consistent, WF, Claims, Forfeited, Spared, Protected, NewSlot, NewBook, Worthwhile, Refreshed;
    KnownIp(bk, s, ann.addr.ip);
    ProtectedListed(s, now);
    var id := s.mapAddr[ann.addr.ip];
    var slot := NewSlot(bk, s.mapInfo[id].addr, ann.source);
    StatusFacts(bk, s, id);
    if Worthwhile(Refreshed(s.mapInfo[id], ann, now), ann, random) {
      UntriedHasPlace(bk, s, id, ann, now, random);
      assert WF(bk, s, {}, 0) by { IsWF(bk, s); }
      SlotFacts(bk, s, {}, 0, slot, id);
      if slot in s.newTab && s.newTab[slot] == id {
        OwnPlace(s, slot, id, s.mapInfo[id].nRefCount, now);
      } else {
        ClaimMeans(bk, s, slot, id, s.mapInfo[id].nRefCount, now);
        if Claims(s, slot, id, s.mapInfo[id].nRefCount, now) { ProtectedStay(s, slot, now); }
      }
    }
  }

  lemma IsWF(bk: Buckets, s: State)
    requires Consistent(bk, s)
    ensures WF(bk, s, {}, 0)
  {
  }

  lemma OwnPlace(s: State, slot: Slot, id: int, ref: int, now: int)
    requires slot in s.newTab && s.newTab[slot] == id
    ensures Claims(s, slot, id, ref, now)
  {
  }

  lemma UntriedHasPlace(bk: Buckets, s: State, id: int, ann: Announcement, now: int, random: nat)
    requires Consistent(bk, s) && id in s.mapInfo
    requires Worthwhile(Refreshed(s.mapInfo[id], ann, now), ann, random)
    ensures !s.mapInfo[id].fInTried && s.mapInfo[id].nRefCount >= 1
  {
    StatusFacts(bk, s, id);
  }

  lemma AnnouncedIsFair(bk: Buckets, s: State, ann: Announcement, routable: bool, now: int, random: nat)
    requires Consistent(bk, s)
    ensures FairlyPlaced(bk, s, ann, routable, now, random,
      if routable then Announced(bk, s, ann, now, random) else NewBook(s))
  {
    if !routable {
      hide IsTerrible;
    } else if ann.addr.ip in s.mapAddr {
      KnownIsFair(bk, s, ann, now, random);
    } else {
      UnknownIsFair(bk, s, ann, now, random);
    }
  }

  lemma KnownIp(bk: Buckets, s: State, ip: NetAddr)
    requires Consistent(bk, s)
    ensures ip in s.mapAddr ==>
      s.mapAddr[ip] in s.mapInfo && 0 <= s.mapAddr[ip] && s.mapInfo[s.mapAddr[ip]].addr.ip == ip
    ensures forall id :: id in s.mapInfo ==>
      0 <= id < s.nIdCount && (s.mapInfo[id].addr.ip == ip ==> ip in s.mapAddr && s.mapAddr[ip] == id)
  {
  }

  lemma StatusFacts(bk: Buckets, s: State, id: int)
    requires Consistent(bk, s) && id in s.mapInfo
    ensures 0 <= s.mapInfo[id].nRefCount <= NEW_BUCKETS_PER_ADDRESS &&
      (!s.mapInfo[id].fInTried ==> 1 <= s.mapInfo[id].nRefCount)
  {
  }

  lemma ClaimsTouched(bk: Buckets, s: State, id: int, info: Info, source: NetAddr, now: int)
    requires id in s.mapInfo && Touched(s.mapInfo[id], info)
    ensures Placed(bk, s.(mapInfo := s.mapInfo[id := info]), id, source, now) == Placed(bk, s, id, source, now)
  {
    TouchBook(s, id, info);
  }

  lemma ClaimsCreated(bk: Buckets, s: State, s1: State, id: int, source: NetAddr, now: int)
    requires Consistent(bk, s) && SameBook(s, s1) && id == s.nIdCount && id in s1.mapInfo
    requires s1.newTab == s.newTab && s1.mapInfo == s.mapInfo[id := s1.mapInfo[id]] && s1.mapInfo[id].nRefCount == 0
    ensures var slot := NewSlot(bk, s1.mapInfo[id].addr, source);
      Placed(bk, s1, id, source, now) ==
        if Claims(s, slot, -1, 0, now) then NewBook(s)[slot := s1.mapInfo[id].addr.ip] else NewBook(s)
  {
    var slot := NewSlot(bk, s1.mapInfo[id].addr, source);
    if slot in s.newTab { assert NewSlotOk(bk, s.mapInfo, slot, s.newTab[slot]); }
  }

  lemma SlotFacts(bk: Buckets, s: State, limbo: set<int>, k: int, slot: Slot, id: int)
    requires WF(bk, s, limbo, k) && id in s.mapInfo
    ensures 0 <= id && (slot in s.newTab ==> s.newTab[slot] in s.mapInfo)
    ensures slot in s.newTab && s.newTab[slot] == id ==>
      NewBook(s)[slot := s.mapInfo[id].addr.ip] == NewBook(s) && s.mapInfo[id].nRefCount != 0
  {
    if slot in s.newTab {
      assert NewSlotOk(bk, s.mapInfo, slot, s.newTab[slot]);
      assert slot in Refs(s.newTab, s.newTab[slot]);
    }
  }

  lemma KeptSelf(s: State)
    ensures Kept(s, s)
  {
  }

  // ---------------------------------------------------------------- handing out addresses

  function Wanted(size: nat): nat {
    var n := GETADDR_MAX_PCT * size / 100;
    if n > GETADDR_MAX then GETADDR_MAX else n
  }

  function Presentable(m: map<int, Info>, ids: seq<int>, now: int): seq<Service> {
    if ids == [] then []
    else
      var last := ids[|ids| - 1];
      Presentable(m, ids[..|ids| - 1], now) + if last in m && !IsTerrible(m[last], now) then [m[last].addr] else []
  }

  lemma {:induction false} SamePresentable(m: map<int, Info>, m': map<int, Info>, ids: seq<int>, now: int)
    requires m'.Keys == m.Keys && forall id :: id in m ==> Core(m'[id]) == Core(m[id])
    ensures Presentable(m', ids, now) == Presentable(m, ids, now)
  {
    if ids != [] {
      var last := ids[|ids| - 1];
      SamePresentable(m, m', ids[..|ids| - 1], now);
      if last in m { assert Core(m'[last]) == Core(m[last]); }
    }
  }

  lemma SwapPresentable(s: State, n: nat, pos: nat, now: int)
    requires n <= pos < |s.vRandom| && s.vRandom[n] in s.mapInfo && s.vRandom[pos] in s.mapInfo
    ensures Presentable(Swap(s, n, pos).mapInfo, Swap(s, n, pos).vRandom[..n], now) ==
      Presentable(s.mapInfo, s.vRandom[..n], now)
    ensures Swap(s, n, pos).mapInfo.Keys == s.mapInfo.Keys
  {
    var s' := Swap(s, n, pos);
    assert s'.vRandom[..n] == s.vRandom[..n];
    SamePresentable(s.mapInfo, s'.mapInfo, s.vRandom[..n], now);
  }

  lemma LimboFacts(bk: Buckets, s: State, limbo: set<int>, k: int, id: int)
    requires WF(bk, s, limbo, k) && id in limbo
    ensures 0 <= id && id in s.mapInfo && !s.mapInfo[id].fInTried && s.mapInfo[id].nRefCount == 0
  {
  }

  lemma UntouchedBook(s: State, slot: Slot)
    requires slot !in s.newTab
    ensures NewBook(s) - {slot} == NewBook(s) && Kept(s, s)
  {
  }

  lemma NothingOk(bk: Buckets)
    ensures Consistent(bk, Nothing)
  {
    assert TriedIds(map[]) == {};
  }

  lemma RandomFacts(bk: Buckets, s: State, limbo: set<int>, k: int)
    requires WF(bk, s, limbo, k)
    ensures forall i :: 0 <= i < |s.vRandom| ==> s.vRandom[i] in s.mapInfo && s.mapInfo[s.vRandom[i]].nRandomPos == i
  {
  }

  lemma SwapSame(s: State, i: nat)
    requires i < |s.vRandom| && s.vRandom[i] in s.mapInfo && s.mapInfo[s.vRandom[i]].nRandomPos == i
    ensures Swap(s, i, i) == s
  {
  }
}
