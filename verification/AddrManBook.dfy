/**
 The address manager seen from outside: which address sits in which place of the "new" and "tried" tables.
 Ids, reference counts, vRandom and the counters do not show; a consistent manager is determined by the rest.
 */
module AddrManBook {
  import opened AddrManState

  function IpOf(m: map<int, Info>, id: int): NetAddr {
    if id in m then m[id].addr.ip else 0
  }

  function NewBook(s: State): map<Slot, NetAddr> {
    map slot | slot in s.newTab :: IpOf(s.mapInfo, s.newTab[slot])
  }

  function TriedBook(s: State): map<Slot, NetAddr> {
    map slot | slot in s.triedTab :: IpOf(s.mapInfo, s.triedTab[slot])
  }

  /** What is remembered about an address, apart from the bookkeeping. */
  function Core(i: Info): Info {
    i.(nRefCount := 0, fInTried := false, nRandomPos := 0)
  }

  /** From s to s' no entry was added, and those that are left are the same. */
  predicate Kept(s: State, s': State) {
    && s'.nIdCount == s.nIdCount
    && s'.mapInfo.Keys <= s.mapInfo.Keys
    && forall id :: id in s'.mapInfo ==> Core(s'.mapInfo[id]) == Core(s.mapInfo[id])
  }

  predicate SameBook(s: State, s': State) {
    NewBook(s') == NewBook(s) && TriedBook(s') == TriedBook(s)
  }

  lemma KeptTransitive(a: State, b: State, c: State)
    requires Kept(a, b) && Kept(b, c)
    ensures Kept(a, c)
  {
    forall id | id in c.mapInfo ensures Core(c.mapInfo[id]) == Core(a.mapInfo[id]) {
      assert Core(c.mapInfo[id]) == Core(b.mapInfo[id]);
    }
  }

  /** The tables list exactly the known addresses. */
  lemma ListedIffKnown(bk: Buckets, s: State, a: NetAddr)
    requires Consistent(bk, s)
    ensures a in s.mapAddr <==>
      (exists slot :: slot in NewBook(s) && NewBook(s)[slot] == a) ||
        (exists slot :: slot in TriedBook(s) && TriedBook(s)[slot] == a)
  {
    if a in s.mapAddr {
      var id := s.mapAddr[a];
      if s.mapInfo[id].fInTried {
        assert InTriedTable(bk, s.mapInfo[id].addr, s.triedTab, id);
        var slot := TriedSlot(bk, s.mapInfo[id].addr);
        assert slot in TriedBook(s) && TriedBook(s)[slot] == a;
      } else {
        var slot :| slot in Refs(s.newTab, id);
        assert slot in NewBook(s) && NewBook(s)[slot] == a;
      }
    }
    forall slot | slot in s.newTab
      ensures NewBook(s)[slot] in s.mapAddr
    {
      assert NewSlotOk(bk, s.mapInfo, slot, s.newTab[slot]);
    }
    forall slot | slot in s.triedTab
      ensures TriedBook(s)[slot] in s.mapAddr
    {
      assert TriedSlotOk(bk, s.mapInfo, slot, s.triedTab[slot]);
    }
  }

  /** An address is in the "tried" table or in the "new" table, never in both, and at most once in the former. */
  lemma TablesDisjoint(bk: Buckets, s: State, p: Slot, q: Slot)
    requires Consistent(bk, s) && p in TriedBook(s)
    ensures q in NewBook(s) ==> NewBook(s)[q] != TriedBook(s)[p]
    ensures q in TriedBook(s) && TriedBook(s)[q] == TriedBook(s)[p] ==> p == q
  {
    assert TriedSlotOk(bk, s.mapInfo, p, s.triedTab[p]);
    if q in s.newTab { assert NewSlotOk(bk, s.mapInfo, q, s.newTab[q]); }
    if q in s.triedTab { assert TriedSlotOk(bk, s.mapInfo, q, s.triedTab[q]); }
  }

  // ---------------------------------------------------------------- what the primitives show

  lemma SwapBook(s: State, i: nat, j: nat)
    requires i < |s.vRandom| && j < |s.vRandom| && s.vRandom[i] in s.mapInfo && s.vRandom[j] in s.mapInfo
    ensures SameBook(s, Swap(s, i, j)) && Kept(s, Swap(s, i, j))
  {
    assert forall id :: IpOf(Swap(s, i, j).mapInfo, id) == IpOf(s.mapInfo, id);
  }

  lemma TouchBook(s: State, id: int, j: Info)
    requires id in s.mapInfo && s.mapInfo[id].addr == j.addr
    ensures SameBook(s, s.(mapInfo := s.mapInfo[id := j]))
  {
    var m := s.mapInfo[id := j];
    assert forall i :: IpOf(m, i) == IpOf(s.mapInfo, i);
  }

  lemma CreateBook(bk: Buckets, s: State, limbo: set<int>, k: int, info: Info)
    requires WF(bk, s, limbo, k)
    ensures SameBook(s, Create(s, info))
  {
    var m := Create(s, info).mapInfo;
    forall slot | slot in s.newTab ensures IpOf(m, s.newTab[slot]) == IpOf(s.mapInfo, s.newTab[slot]) {
      assert NewSlotOk(bk, s.mapInfo, slot, s.newTab[slot]);
    }
    forall slot | slot in s.triedTab ensures IpOf(m, s.triedTab[slot]) == IpOf(s.mapInfo, s.triedTab[slot]) {
      assert TriedSlotOk(bk, s.mapInfo, slot, s.triedTab[slot]);
    }
  }

  lemma RemoveBook(bk: Buckets, s: State, limbo: set<int>, k: int, id: int)
    requires WF(bk, s, limbo, k) && id in limbo
    requires 0 <= s.mapInfo[id].nRandomPos < |s.vRandom|
    requires s.vRandom[s.mapInfo[id].nRandomPos] in s.mapInfo && s.vRandom[|s.vRandom| - 1] in s.mapInfo
    ensures SameBook(s, Remove(s, id)) && Kept(s, Remove(s, id)) && Remove(s, id).mapInfo.Keys == s.mapInfo.Keys - {id}
  {
    var s' := Remove(s, id);
    Unreferenced(bk, s.mapInfo, s.newTab, id);
    forall slot | slot in s.triedTab ensures s.triedTab[slot] != id {
      assert TriedSlotOk(bk, s.mapInfo, slot, s.triedTab[slot]);
    }
    assert forall i :: i != id ==> IpOf(s'.mapInfo, i) == IpOf(s.mapInfo, i);
  }

  lemma UnrefBook(s: State, slot: Slot)
    requires slot in s.newTab && s.newTab[slot] in s.mapInfo
    ensures NewBook(Unref(s, slot)) == NewBook(s) - {slot} && TriedBook(Unref(s, slot)) == TriedBook(s) &&
      Kept(s, Unref(s, slot))
  {
    assert forall i :: IpOf(Unref(s, slot).mapInfo, i) == IpOf(s.mapInfo, i);
  }

  lemma RefBook(s: State, slot: Slot, id: int)
    requires id in s.mapInfo
    ensures NewBook(Ref(s, slot, id)) == NewBook(s)[slot := s.mapInfo[id].addr.ip]
    ensures TriedBook(Ref(s, slot, id)) == TriedBook(s) && Kept(s, Ref(s, slot, id))
  {
    assert forall i :: IpOf(Ref(s, slot, id).mapInfo, i) == IpOf(s.mapInfo, i);
  }

  lemma UntryBook(s: State, slot: Slot)
    requires slot in s.triedTab && s.triedTab[slot] in s.mapInfo
    ensures TriedBook(Untry(s, slot)) == TriedBook(s) - {slot} && NewBook(Untry(s, slot)) == NewBook(s) &&
      Kept(s, Untry(s, slot))
  {
    assert forall i :: IpOf(Untry(s, slot).mapInfo, i) == IpOf(s.mapInfo, i);
  }

  lemma TryBook(s: State, slot: Slot, id: int)
    requires id in s.mapInfo
    ensures TriedBook(Try(s, slot, id)) == TriedBook(s)[slot := s.mapInfo[id].addr.ip]
    ensures NewBook(Try(s, slot, id)) == NewBook(s) && Kept(s, Try(s, slot, id))
  {
    assert forall i :: IpOf(Try(s, slot, id).mapInfo, i) == IpOf(s.mapInfo, i);
  }
}
