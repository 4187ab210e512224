/**
 The cuckoo cache: every element has eight places it may be in, a full neighbourhood pushes elements on to their other
 places, slots marked as garbage are free to be taken, and whole epochs of elements are turned into garbage.

 This module says on values what each call does to the table and proves what that means: what an insertion can lose,
 that what is alive is found, how many elements can be alive, and how long an element stays.
 */
module CuckooCache {

  type Element = nat

  /** What the table is filled with before anything is inserted. */
  const BLANK: Element := 0

  /** An index that can never be inserted to. */
  const INVALID: nat := 0xFFFF_FFFF

  /** `hash(i, e)` is the i-th hash of e; the size is a power of two, so masking is taking the remainder. */
  datatype Config = Config(hash: (nat, Element) -> nat, size: nat, epochSize: nat, depthLimit: nat)

  datatype State = State(table: seq<Element>, garbage: seq<bool>, epoch: seq<bool>, counter: nat)

  /** An element together with the epoch it is in: true is the current one. */
  datatype Entry = Entry(e: Element, recent: bool)

  datatype Option<T> = None | Some(value: T)

  /** The table after an insertion, what fell out of it, and how many elements were pushed on. */
  datatype Outcome = Outcome(state: State, dropped: Option<Entry>, moves: nat)

  predicate Config?(cfg: Config) {
    1 <= cfg.size <= 0x8000_0000 && cfg.epochSize >= 1
  }

  predicate Shape(cfg: Config, s: State) {
    Config?(cfg) && |s.table| == |s.garbage| == |s.epoch| == cfg.size
  }

  function Locs(cfg: Config, e: Element): (locs: seq<nat>)
    requires Config?(cfg)
    ensures |locs| == 8 && forall i :: 0 <= i < 8 ==> locs[i] < cfg.size
  {
    seq(8, i requires 0 <= i < 8 => cfg.hash(i, e) % cfg.size)
  }

  // ---------------------------------------------------------------- searching eight places

  /** The first of the places from `i` on that holds e, or 8. */
  function Holder(s: State, locs: seq<nat>, e: Element, i: nat): (k: nat)
    requires i <= |locs| && forall j :: 0 <= j < |locs| ==> locs[j] < |s.table|
    ensures i <= k <= |locs| && (k < |locs| ==> s.table[locs[k]] == e)
    ensures forall j :: i <= j < k ==> s.table[locs[j]] != e
    decreases |locs| - i
  {
    if i == |locs| || s.table[locs[i]] == e then i else Holder(s, locs, e, i + 1)
  }

  function Free(s: State, locs: seq<nat>, i: nat): (k: nat)
    requires i <= |locs| && forall j :: 0 <= j < |locs| ==> locs[j] < |s.garbage|
    ensures i <= k <= |locs| && (k < |locs| ==> s.garbage[locs[k]])
    ensures forall j :: i <= j < k ==> !s.garbage[locs[j]]
    decreases |locs| - i
  {
    if i == |locs| || s.garbage[locs[i]] then i else Free(s, locs, i + 1)
  }

  function Find(locs: seq<nat>, loc: nat, i: nat): (k: nat)
    requires i <= |locs|
    ensures i <= k <= |locs| && (k < |locs| ==> locs[k] == loc)
    ensures forall j :: i <= j < k ==> locs[j] != loc
    decreases |locs| - i
  {
    if i == |locs| || locs[i] == loc then i else Find(locs, loc, i + 1)
  }

  /** The place after the one the element in hand was taken from. */
  function NextLoc(locs: seq<nat>, last: nat): nat
    requires |locs| == 8
  {
    locs[(1 + Find(locs, last, 0)) % 8]
  }

  /** An element is pushed on to the place after the one it was taken from, in turn; a new one starts at the second. */
  lemma InTurn(locs: seq<nat>, k: nat)
    requires |locs| == 8 && k < 8 && forall i, j :: 0 <= i < j < 8 ==> locs[i] != locs[j]
    ensures NextLoc(locs, locs[k]) == if k == 7 then locs[0] else locs[k + 1]
    ensures INVALID !in locs ==> NextLoc(locs, INVALID) == locs[1]
  {
    var f := Find(locs, locs[k], 0);
    assert f == k;
  }

  // ---------------------------------------------------------------- counting live entries

  /** How many of the first `n` slots hold a live entry with the property. */
  function Live(s: State, p: Entry -> bool, n: nat): nat
    requires n <= |s.table| == |s.garbage| == |s.epoch|
  {
    if n == 0 then 0
    else Live(s, p, n - 1) + Tally(p, s, n - 1)
  }

  function Tally(p: Entry -> bool, s: State, i: nat): nat
    requires i < |s.table| == |s.garbage| == |s.epoch|
  {
    if !s.garbage[i] then One(p, Entry(s.table[i], s.epoch[i])) else 0
  }

  function One(p: Entry -> bool, en: Entry): nat { if p(en) then 1 else 0 }

  function Lost(p: Entry -> bool, dropped: Option<Entry>): nat {
    if dropped.Some? then One(p, dropped.value) else 0
  }

  function Is(e: Element): Entry -> bool { (en: Entry) => en.e == e }

  function IsRecent(e: Element): Entry -> bool { (en: Entry) => en.e == e && en.recent }

  function Recent(): Entry -> bool { (en: Entry) => en.recent }

  function Stale(): Entry -> bool { (en: Entry) => !en.recent }

  // ---------------------------------------------------------------- the calls

  function Put(s: State, loc: nat, en: Entry): State
    requires loc < |s.table| == |s.garbage| == |s.epoch|
  {
    s.(table := s.table[loc := en.e], garbage := s.garbage[loc := false], epoch := s.epoch[loc := en.recent])
  }

  function Aged(s: State): State
    requires |s.epoch| == |s.garbage|
  {
    s.(garbage := seq(|s.garbage|, i requires 0 <= i < |s.garbage| => s.garbage[i] || !s.epoch[i]),
       epoch := seq(|s.epoch|, i => false))
  }

  function Max(a: nat, b: nat): nat { if a < b then b else a }

  predicate Ages(cfg: Config, s: State)
    requires Shape(cfg, s)
  {
    s.counter == 0 && Live(s, Recent(), cfg.size) >= cfg.epochSize
  }

  function EpochCheck(cfg: Config, s: State): State
    requires Shape(cfg, s)
  {
    if s.counter != 0 then s.(counter := s.counter - 1)
    else if Ages(cfg, s) then Aged(s).(counter := cfg.epochSize)
    else s.(counter := Max(1, Max(cfg.epochSize / 16, cfg.epochSize - Live(s, Recent(), cfg.size))))
  }

  /** Finds a place for the entry in hand, pushing at most `n` elements on; what is in hand after that is lost. */
  function Displace(cfg: Config, s: State, en: Entry, last: nat, n: nat): (o: Outcome)
    requires Shape(cfg, s)
    ensures Shape(cfg, o.state) && o.state.counter == s.counter
    ensures o.moves <= n && (o.dropped.Some? <==> o.moves == n)
    decreases n
  {
    if n == 0 then Outcome(s, Some(en), 0)
    else
      var locs := Locs(cfg, en.e);
      var k := Free(s, locs, 0);
      if k < 8 then Outcome(Put(s, locs[k], en), None, 0)
      else
        var loc := NextLoc(locs, last);
        var o := Displace(cfg, Put(s, loc, en), Entry(s.table[loc], s.epoch[loc]), loc, n - 1);
        Outcome(o.state, o.dropped, o.moves + 1)
  }

  function Insert(cfg: Config, s: State, e: Element): (o: Outcome)
    requires Shape(cfg, s)
    ensures Shape(cfg, o.state)
  {
    var s1 := EpochCheck(cfg, s);
    var locs := Locs(cfg, e);
    var k := Holder(s1, locs, e, 0);
    if k < 8 then Outcome(Put(s1, locs[k], Entry(e, true)), None, 0)
    else Displace(cfg, s1, Entry(e, true), INVALID, cfg.depthLimit)
  }

  predicate Contains(cfg: Config, s: State, e: Element)
    requires Shape(cfg, s)
  {
    Holder(s, Locs(cfg, e), e, 0) < 8
  }

  function Erase(cfg: Config, s: State, e: Element): (r: State)
    requires Shape(cfg, s)
    ensures Shape(cfg, r)
  {
    var locs := Locs(cfg, e);
    var k := Holder(s, locs, e, 0);
    if k < 8 then s.(garbage := s.garbage[locs[k] := true]) else s
  }

  function Start(cfg: Config): State {
    State(seq(cfg.size, i => BLANK), seq(cfg.size, i => true), seq(cfg.size, i => false), cfg.epochSize)
  }

  /** Changing one slot changes the count by that slot. */
  lemma {:induction false} LiveChange(s: State, s': State, p: Entry -> bool, loc: nat, n: nat)
    requires n <= |s.table| == |s.garbage| == |s.epoch| == |s'.table| == |s'.garbage| == |s'.epoch| && loc < |s.table|
    requires forall i :: 0 <= i < |s.table| && i != loc ==>
      s'.table[i] == s.table[i] && s'.garbage[i] == s.garbage[i] && s'.epoch[i] == s.epoch[i]
    ensures if loc < n then Live(s', p, n) + Tally(p, s, loc) == Live(s, p, n) + Tally(p, s', loc)
      else Live(s', p, n) == Live(s, p, n)
  {
    if n > 0 { LiveChange(s, s', p, loc, n - 1); }
  }

  lemma PutLive(cfg: Config, s: State, p: Entry -> bool, loc: nat, en: Entry)
    requires Shape(cfg, s) && loc < cfg.size
    ensures Live(Put(s, loc, en), p, cfg.size) + Tally(p, s, loc) == Live(s, p, cfg.size) + One(p, en)
  {
    LiveChange(s, Put(s, loc, en), p, loc, cfg.size);
  }

  /** Nothing is duplicated and at most the entry that falls out is lost, whatever is counted. */
  lemma {:induction false} DisplaceConserves(cfg: Config, s: State, en: Entry, last: nat, n: nat, p: Entry -> bool)
    requires Shape(cfg, s)
    ensures var o := Displace(cfg, s, en, last, n);
            Live(o.state, p, cfg.size) + Lost(p, o.dropped) == Live(s, p, cfg.size) + One(p, en)
    decreases n
  {
    hide Live, Locs, Find;
    if n > 0 {
      var locs := Locs(cfg, en.e);
      var k := Free(s, locs, 0);
      if k < 8 {
        PutLive(cfg, s, p, locs[k], en);
      } else {
        var loc := NextLoc(locs, last);
        PutLive(cfg, s, p, loc, en);
        DisplaceConserves(cfg, Put(s, loc, en), Entry(s.table[loc], s.epoch[loc]), loc, n - 1, p);
      }
    }
  }

  /** What an insertion does to any count: a new element falls out of nothing else than the depth limit. */
  lemma InsertConserves(cfg: Config, s: State, e: Element, p: Entry -> bool)
    requires Shape(cfg, s)
    ensures var s1 := EpochCheck(cfg, s);
            var o := Insert(cfg, s, e);
            var k := Holder(s1, Locs(cfg, e), e, 0);
            if k < 8 then
              o.dropped.None? && o.moves == 0 &&
              Live(o.state, p, cfg.size) + Tally(p, s1, Locs(cfg, e)[k]) ==
                Live(s1, p, cfg.size) + One(p, Entry(e, true))
            else
              Live(o.state, p, cfg.size) + Lost(p, o.dropped) == Live(s1, p, cfg.size) + One(p, Entry(e, true))
  {
    var s1 := EpochCheck(cfg, s);
    var locs := Locs(cfg, e);
    var k := Holder(s1, locs, e, 0);
    if k < 8 {
      PutLive(cfg, s1, p, locs[k], Entry(e, true));
    } else {
      DisplaceConserves(cfg, s1, Entry(e, true), INVALID, cfg.depthLimit, p);
    }
  }

  // ---------------------------------------------------------------- everything is where it belongs

  /** An element is only in its own places; only the initial filling may be elsewhere, as garbage. */
  predicate Homed(cfg: Config, s: State)
    requires Shape(cfg, s)
  {
    forall i :: 0 <= i < cfg.size ==> (s.garbage[i] && s.table[i] == BLANK) || i in Locs(cfg, s.table[i])
  }

  predicate Unique(s: State) {
    forall i, j :: 0 <= i < j < |s.table| && s.table[i] == s.table[j] ==> s.table[i] == BLANK
  }

  /** The place where a search for e ends. */
  predicate FoundAt(cfg: Config, s: State, e: Element, i: nat)
    requires Shape(cfg, s)
  {
    var k := Holder(s, Locs(cfg, e), e, 0);
    k < 8 && Locs(cfg, e)[k] == i
  }

  /** Whatever is alive, the initial filling included, is where a search for it ends. */
  predicate Findable(cfg: Config, s: State)
    requires Shape(cfg, s)
  {
    forall i :: 0 <= i < cfg.size && !s.garbage[i] ==> FoundAt(cfg, s, s.table[i], i)
  }

  predicate WF(cfg: Config, s: State) {
    Shape(cfg, s) && Homed(cfg, s) && Unique(s) && Findable(cfg, s)
  }

  predicate InHand(s: State, e: Element)
    requires |s.table| == |s.garbage|
  {
    && (e == BLANK || e !in s.table)
    && forall i :: 0 <= i < |s.table| && s.table[i] == e ==> s.garbage[i]
  }

  lemma {:induction false} HolderIs(s: State, locs: seq<nat>, e: Element, i: nat, k: nat)
    requires i <= k < |locs| && (forall j :: 0 <= j < |locs| ==> locs[j] < |s.table|)
    requires s.table[locs[k]] == e && forall j :: i <= j < k ==> s.table[locs[j]] != e
    ensures Holder(s, locs, e, i) == k
  {
  }

  /** Writing a slot moves nobody else. */
  lemma PutOthers(cfg: Config, s: State, loc: nat, en: Entry, i: nat)
    requires Shape(cfg, s) && loc < cfg.size && i < cfg.size && i != loc && s.table[i] != en.e
    requires FoundAt(cfg, s, s.table[i], i)
    ensures FoundAt(cfg, Put(s, loc, en), s.table[i], i)
  {
    var x := s.table[i];
    var locs := Locs(cfg, x);
    HolderIs(Put(s, loc, en), locs, x, 0, Holder(s, locs, x, 0));
  }

  /** The entry is found where it was put, if none of its places before that one holds the element. */
  lemma PutFound(cfg: Config, s: State, en: Entry, k: nat)
    requires Shape(cfg, s) && k < 8
    requires forall j :: 0 <= j < k ==> s.table[Locs(cfg, en.e)[j]] != en.e
    ensures FoundAt(cfg, Put(s, Locs(cfg, en.e)[k], en), en.e, Locs(cfg, en.e)[k])
  {
    var locs := Locs(cfg, en.e);
    var first := Find(locs, locs[k], 0);
    HolderIs(Put(s, locs[k], en), locs, en.e, 0, first);
  }

  lemma PutFindable(cfg: Config, s: State, k: nat, en: Entry)
    requires Shape(cfg, s) && Findable(cfg, s) && k < 8
    requires forall j :: 0 <= j < k ==> s.table[Locs(cfg, en.e)[j]] != en.e
    requires InHand(s, en.e) || s.table[Locs(cfg, en.e)[k]] == en.e
    ensures Findable(cfg, Put(s, Locs(cfg, en.e)[k], en))
  {
    hide Locs, Holder, FoundAt;
    var locs := Locs(cfg, en.e);
    var loc := locs[k];
    var s' := Put(s, loc, en);
    PutFound(cfg, s, en, k);
    if s.table[loc] == en.e { FirstIsFound(cfg, s, en.e, k); }
    forall i | 0 <= i < cfg.size && !s'.garbage[i] ensures FoundAt(cfg, s', s'.table[i], i) {
      if i != loc {
        assert FoundAt(cfg, s, s.table[i], i);
        FoundOnce(cfg, s, s.table[i], i, loc);
        PutOthers(cfg, s, loc, en, i);
      }
    }
  }

  lemma FirstIsFound(cfg: Config, s: State, e: Element, k: nat)
    requires Shape(cfg, s) && k < 8 && s.table[Locs(cfg, e)[k]] == e
    requires forall j :: 0 <= j < k ==> s.table[Locs(cfg, e)[j]] != e
    ensures FoundAt(cfg, s, e, Locs(cfg, e)[k])
  {
    HolderIs(s, Locs(cfg, e), e, 0, k);
  }

  lemma FoundOnce(cfg: Config, s: State, e: Element, i: nat, j: nat)
    requires Shape(cfg, s) && FoundAt(cfg, s, e, i)
    ensures i < cfg.size && s.table[i] == e && (FoundAt(cfg, s, e, j) ==> i == j)
  {
  }

  lemma PutWF(cfg: Config, s: State, k: nat, en: Entry)
    requires WF(cfg, s) && k < 8
    requires forall j :: 0 <= j < k ==> s.table[Locs(cfg, en.e)[j]] != en.e
    requires InHand(s, en.e) || s.table[Locs(cfg, en.e)[k]] == en.e
    ensures var loc := Locs(cfg, en.e)[k];
            && WF(cfg, Put(s, loc, en))
            && (InHand(s, en.e) && !s.garbage[loc] ==> InHand(Put(s, loc, en), s.table[loc]))
  {
    hide Locs, FoundAt;
    var loc := Locs(cfg, en.e)[k];
    PutFindable(cfg, s, k, en);
    forall i | 0 <= i < cfg.size && i != loc && !s.garbage[i] && !s.garbage[loc] ensures s.table[i] != s.table[loc] {
      FoundOnce(cfg, s, s.table[i], i, loc);
    }
    hide Findable;
    PutHomed(cfg, s, loc, en);
  }

  lemma PutHomed(cfg: Config, s: State, loc: nat, en: Entry)
    requires Shape(cfg, s) && Homed(cfg, s) && Unique(s) && loc in Locs(cfg, en.e) && loc < cfg.size
    requires en.e == BLANK || en.e !in s.table || s.table[loc] == en.e
    ensures Homed(cfg, Put(s, loc, en)) && Unique(Put(s, loc, en))
  {
    hide Locs;
  }

  /** None of its places holds an element in hand if they are all taken. */
  lemma NotThere(cfg: Config, s: State, e: Element, k: nat)
    requires Shape(cfg, s) && InHand(s, e) && k <= 8 && forall j :: 0 <= j < k ==> !s.garbage[Locs(cfg, e)[j]]
    ensures forall j :: 0 <= j < k ==> s.table[Locs(cfg, e)[j]] != e
  {
  }

  lemma {:induction false} DisplaceWF(cfg: Config, s: State, en: Entry, last: nat, n: nat)
    requires WF(cfg, s) && InHand(s, en.e)
    ensures var o := Displace(cfg, s, en, last, n);
            WF(cfg, o.state) && (o.dropped.Some? ==> InHand(o.state, o.dropped.value.e))
    decreases n
  {
    hide Homed, Unique, Findable, InHand;
    if n > 0 {
      var locs := Locs(cfg, en.e);
      var k := Free(s, locs, 0);
      NotThere(cfg, s, en.e, k);
      if k < 8 {
        PutWF(cfg, s, k, en);
      } else {
        var loc := NextLoc(locs, last);
        PutWF(cfg, s, (1 + Find(locs, last, 0)) % 8, en);
        DisplaceWF(cfg, Put(s, loc, en), Entry(s.table[loc], s.epoch[loc]), loc, n - 1);
      }
    }
  }

  lemma EpochCheckWF(cfg: Config, s: State)
    requires WF(cfg, s)
    ensures WF(cfg, EpochCheck(cfg, s))
  {
    hide Live;
    var s1 := EpochCheck(cfg, s);
    forall i | 0 <= i < cfg.size && !s1.garbage[i] ensures FoundAt(cfg, s1, s1.table[i], i) {
      assert FoundAt(cfg, s, s.table[i], i);
      SameHolder(s, s1, Locs(cfg, s.table[i]), s.table[i], 0);
    }
  }

  /** For anything but the initial filling, to be found is to be in the table at all. */
  lemma ContainsExact(cfg: Config, s: State, e: Element)
    requires WF(cfg, s)
    ensures e != BLANK ==> (Contains(cfg, s, e) <==> e in s.table)
    ensures !Contains(cfg, s, e) ==> InHand(s, e)
  {
    var locs := Locs(cfg, e);
    var k := Holder(s, locs, e, 0);
    if k < 8 { assert s.table[locs[k]] in s.table; }
    forall i | 0 <= i < cfg.size && s.table[i] == e && e != BLANK ensures k < 8 {
      HeldAt(s, locs, e, i);
    }
    forall i | 0 <= i < cfg.size && s.table[i] == e && k == 8 ensures s.garbage[i] {
      assert !FoundAt(cfg, s, e, i);
    }
  }

  lemma HeldAt(s: State, locs: seq<nat>, e: Element, i: nat)
    requires i in locs && (forall j :: 0 <= j < |locs| ==> locs[j] < |s.table|) && s.table[i] == e
    ensures Holder(s, locs, e, 0) < |locs|
  {
    var j :| 0 <= j < |locs| && locs[j] == i;
  }

  lemma InsertWF(cfg: Config, s: State, e: Element)
    requires WF(cfg, s)
    ensures var o := Insert(cfg, s, e);
            WF(cfg, o.state) && (o.dropped.Some? ==> InHand(o.state, o.dropped.value.e))
  {
    hide Homed, Unique, Findable, InHand;
    var s1 := EpochCheck(cfg, s);
    EpochCheckWF(cfg, s);
    ContainsExact(cfg, s1, e);
    var locs := Locs(cfg, e);
    var k := Holder(s1, locs, e, 0);
    if k < 8 {
      PutWF(cfg, s1, k, Entry(e, true));
    } else {
      DisplaceWF(cfg, s1, Entry(e, true), INVALID, cfg.depthLimit);
    }
  }

  lemma {:induction false} LiveWitness(s: State, p: Entry -> bool, n: nat) returns (i: nat)
    requires n <= |s.table| == |s.garbage| == |s.epoch| && Live(s, p, n) > 0
    ensures i < n && !s.garbage[i] && p(Entry(s.table[i], s.epoch[i]))
  {
    if Tally(p, s, n - 1) == 1 { i := n - 1; } else { i := LiveWitness(s, p, n - 1); }
  }

  /** Everything that is alive is found. */
  lemma LiveFound(cfg: Config, s: State, e: Element)
    requires WF(cfg, s) && Live(s, Is(e), cfg.size) > 0
    ensures Contains(cfg, s, e)
  {
    var i := LiveWitness(s, Is(e), cfg.size);
    HeldAt(s, Locs(cfg, e), e, i);
  }

  /** No slot counts but the one where e is found. */
  lemma {:induction false} LiveOnce(cfg: Config, s: State, e: Element, n: nat)
    requires Shape(cfg, s) && Findable(cfg, s) && n <= cfg.size
    ensures Live(s, Is(e), n) == if exists i :: 0 <= i < n && FoundAt(cfg, s, e, i) && !s.garbage[i] then 1 else 0
  {
    hide FoundAt, Locs;
    if n > 0 {
      LiveOnce(cfg, s, e, n - 1);
      if FoundAt(cfg, s, e, n - 1) {
        FoundOnce(cfg, s, e, n - 1, n - 1);
        forall i | 0 <= i < n - 1 ensures !FoundAt(cfg, s, e, i) { FoundNowhereElse(cfg, s, e, n - 1, i); }
      }
    }
  }

  lemma FoundNowhereElse(cfg: Config, s: State, e: Element, i: nat, j: nat)
    requires Shape(cfg, s) && FoundAt(cfg, s, e, i) && i != j
    ensures !FoundAt(cfg, s, e, j)
  {
  }

  // ---------------------------------------------------------------- what an insertion and an erasure do

  /** The copy that an insertion of e would find is already alive. */
  predicate AlreadyKept(cfg: Config, s: State, e: Element)
    requires Shape(cfg, s)
  {
    var k := Holder(s, Locs(cfg, e), e, 0);
    k < 8 && !s.garbage[Locs(cfg, e)[k]]
  }

  /** An element is alive once or not at all, and a search for it tells which. */
  lemma KeptIsLive(cfg: Config, s: State, e: Element)
    requires WF(cfg, s)
    ensures Live(s, Is(e), cfg.size) == if AlreadyKept(cfg, s, e) then 1 else 0
  {
    LiveOnce(cfg, s, e, cfg.size);
    if AlreadyKept(cfg, s, e) {
      assert FoundAt(cfg, s, e, Locs(cfg, e)[Holder(s, Locs(cfg, e), e, 0)]);
    }
  }

  /** After the epoch check, every element x is alive as often as before, the new element once more unless it was there
      already, and one entry may have fallen out: only after depthLimit elements were pushed on, and only when none of
      the new element's places was free. */
  lemma InsertEffect(cfg: Config, s: State, e: Element, x: Element)
    requires WF(cfg, s)
    ensures var s1, o := EpochCheck(cfg, s), Insert(cfg, s, e);
            && Live(o.state, Is(x), cfg.size) + Lost(Is(x), o.dropped) ==
               Live(s1, Is(x), cfg.size) + (if x == e && !AlreadyKept(cfg, s1, e) then 1 else 0)
            && (o.dropped.Some? ==> o.moves == cfg.depthLimit && !Contains(cfg, s1, e))
            && (o.dropped.Some? && cfg.depthLimit > 0 ==> forall i :: 0 <= i < 8 ==> !s1.garbage[Locs(cfg, e)[i]])
  {
    hide Displace, Homed, Unique, Findable;
    var s1 := EpochCheck(cfg, s);
    InsertConserves(cfg, s, e, Is(x));
    if !Contains(cfg, s1, e) && cfg.depthLimit > 0 {
      RoomTaken(cfg, s1, Entry(e, true), INVALID, cfg.depthLimit);
    }
  }

  /** A free place is taken at once. */
  lemma RoomTaken(cfg: Config, s: State, en: Entry, last: nat, n: nat)
    requires Shape(cfg, s) && n > 0
    ensures var k := Free(s, Locs(cfg, en.e), 0);
            k < 8 ==> Displace(cfg, s, en, last, n) == Outcome(Put(s, Locs(cfg, en.e)[k], en), None, 0)
  {
  }

  /** An element is dead after its erasure, and no other element notices. */
  lemma EraseEffect(cfg: Config, s: State, e: Element, x: Element)
    requires WF(cfg, s)
    ensures var s' := Erase(cfg, s, e);
            && WF(cfg, s') && (Contains(cfg, s', x) <==> Contains(cfg, s, x))
            && (x != e ==> Live(s', Is(x), cfg.size) == Live(s, Is(x), cfg.size))
            && Live(s', Is(e), cfg.size) == 0
  {
    var locs := Locs(cfg, e);
    var k := Holder(s, locs, e, 0);
    var s' := Erase(cfg, s, e);
    if k < 8 {
      LiveChange(s, s', Is(x), locs[k], cfg.size);
    }
    SameHolder(s, s', Locs(cfg, x), x, 0);
    SameHolder(s, s', locs, e, 0);
    EraseWF(cfg, s, e);
    KeptIsLive(cfg, s', e);
  }

  lemma EraseWF(cfg: Config, s: State, e: Element)
    requires WF(cfg, s)
    ensures WF(cfg, Erase(cfg, s, e))
  {
    var s' := Erase(cfg, s, e);
    forall i | 0 <= i < cfg.size && !s'.garbage[i] ensures FoundAt(cfg, s', s'.table[i], i) {
      assert FoundAt(cfg, s, s.table[i], i);
      SameHolder(s, s', Locs(cfg, s.table[i]), s.table[i], 0);
    }
  }

  lemma {:induction false} SameHolder(s: State, s': State, locs: seq<nat>, e: Element, i: nat)
    requires i <= |locs| && s'.table == s.table && forall j :: 0 <= j < |locs| ==> locs[j] < |s.table|
    ensures Holder(s', locs, e, i) == Holder(s, locs, e, i)
    decreases |locs| - i
  {
    if i < |locs| { SameHolder(s, s', locs, e, i + 1); }
  }

  // ---------------------------------------------------------------- epochs

  lemma {:induction false} AgedLive(s: State, e: Element, n: nat)
    requires n <= |s.table| == |s.garbage| == |s.epoch|
    ensures Live(Aged(s), Recent(), n) == 0 && Live(Aged(s), Stale(), n) == Live(s, Recent(), n)
    ensures Live(Aged(s), Is(e), n) == Live(s, IsRecent(e), n)
  {
    if n > 0 { AgedLive(s, e, n - 1); }
  }

  lemma {:induction false} SameLive(s: State, s': State, p: Entry -> bool, n: nat)
    requires n <= |s.table| == |s.garbage| == |s.epoch|
    requires s'.table == s.table && s'.garbage == s.garbage && s'.epoch == s.epoch
    ensures Live(s', p, n) == Live(s, p, n)
  {
    if n > 0 { SameLive(s, s', p, n - 1); }
  }

  /** An epoch check kills exactly the elements of the old epoch, and only if it ages. */
  lemma EpochCheckEffect(cfg: Config, s: State, x: Element)
    requires Shape(cfg, s)
    ensures Live(EpochCheck(cfg, s), Is(x), cfg.size) == Live(s, if Ages(cfg, s) then IsRecent(x) else Is(x), cfg.size)
  {
    hide Live;
    if Ages(cfg, s) {
      AgedLive(s, x, cfg.size);
      SameLive(Aged(s), EpochCheck(cfg, s), Is(x), cfg.size);
    } else {
      SameLive(s, EpochCheck(cfg, s), Is(x), cfg.size);
    }
  }

  /** As long as the scan is put off, or finds the current epoch not full, everything stays alive in its own epoch. */
  lemma NotFullSpares(cfg: Config, s: State, p: Entry -> bool)
    requires Shape(cfg, s) && (s.counter > 0 || Live(s, Recent(), cfg.size) < cfg.epochSize)
    ensures Live(EpochCheck(cfg, s), p, cfg.size) == Live(s, p, cfg.size)
  {
    hide Live;
    SameLive(s, EpochCheck(cfg, s), p, cfg.size);
  }

  /** A scan that finds the current epoch full kills exactly the old one and demotes the current one. */
  lemma FullAges(cfg: Config, s: State, x: Element)
    requires Shape(cfg, s) && s.counter == 0 && Live(s, Recent(), cfg.size) >= cfg.epochSize
    ensures var s1 := EpochCheck(cfg, s);
            && Live(s1, Recent(), cfg.size) == 0 && Live(s1, Is(x), cfg.size) == Live(s, IsRecent(x), cfg.size)
  {
    hide Live;
    var s1 := EpochCheck(cfg, s);
    AgedLive(s, x, cfg.size);
    SameLive(Aged(s), s1, Recent(), cfg.size);
    SameLive(Aged(s), s1, Is(x), cfg.size);
  }

  /** A scan puts the next one off until the epoch may be full, at least for one insertion and a sixteenth of an epoch,
      and no longer; any other check brings it nearer by one. */
  lemma NextScan(cfg: Config, s: State)
    requires Shape(cfg, s)
    ensures var s1 := EpochCheck(cfg, s);
            if s.counter > 0 then s1.counter == s.counter - 1
            else
              var missing := cfg.epochSize - Live(s1, Recent(), cfg.size);
              && s1.counter >= 1 && s1.counter >= cfg.epochSize / 16 && s1.counter >= missing
              && (s1.counter == 1 || s1.counter == cfg.epochSize / 16 || s1.counter == missing)
  {
    hide Live;
    var s1 := EpochCheck(cfg, s);
    if Ages(cfg, s) {
      FullAges(cfg, s, BLANK);
    } else {
      SameLive(s, s1, Recent(), cfg.size);
    }
  }

  /** The most that can be alive in an epoch. */
  function Bound(cfg: Config): nat { cfg.epochSize + Max(1, cfg.epochSize / 16) }

  /** The counter never lets the current epoch outgrow the bound before the next scan. */
  predicate Bounded(cfg: Config, s: State)
    requires Shape(cfg, s)
  {
    Live(s, Recent(), cfg.size) + s.counter <= Bound(cfg) && Live(s, Stale(), cfg.size) <= Bound(cfg)
  }

  lemma EpochCheckBounded(cfg: Config, s: State)
    requires Shape(cfg, s) && Bounded(cfg, s)
    ensures var s1 := EpochCheck(cfg, s);
            Live(s1, Recent(), cfg.size) + s1.counter < Bound(cfg) && Live(s1, Stale(), cfg.size) <= Bound(cfg)
  {
    hide Live;
    var s1 := EpochCheck(cfg, s);
    if Ages(cfg, s) {
      AgedLive(s, BLANK, cfg.size);
      SameLive(Aged(s), s1, Recent(), cfg.size);
      SameLive(Aged(s), s1, Stale(), cfg.size);
    } else {
      SameLive(s, s1, Recent(), cfg.size);
      SameLive(s, s1, Stale(), cfg.size);
    }
  }

  lemma InsertBounded(cfg: Config, s: State, e: Element)
    requires Shape(cfg, s) && Bounded(cfg, s)
    ensures Bounded(cfg, Insert(cfg, s, e).state)
  {
    hide Live, Aged, Displace;
    EpochCheckBounded(cfg, s);
    InsertConserves(cfg, s, e, Recent());
    InsertConserves(cfg, s, e, Stale());
  }

  lemma EraseBounded(cfg: Config, s: State, e: Element)
    requires Shape(cfg, s) && Bounded(cfg, s)
    ensures Bounded(cfg, Erase(cfg, s, e))
  {
    var k := Holder(s, Locs(cfg, e), e, 0);
    if k < 8 {
      LiveChange(s, Erase(cfg, s, e), Recent(), Locs(cfg, e)[k], cfg.size);
      LiveChange(s, Erase(cfg, s, e), Stale(), Locs(cfg, e)[k], cfg.size);
    }
  }

  // ---------------------------------------------------------------- runs

  datatype Op = Add(e: Element) | Look(e: Element, erase: bool)

  function Step(cfg: Config, s: State, op: Op): (s': State)
    requires Shape(cfg, s)
    ensures Shape(cfg, s')
  {
    match op
    case Add(e) => Insert(cfg, s, e).state
    case Look(e, erase) => if erase then Erase(cfg, s, e) else s
  }

  function Run(cfg: Config, s: State, ops: seq<Op>): (s': State)
    requires Shape(cfg, s)
    ensures Shape(cfg, s')
    decreases |ops|
  {
    if ops == [] then s else Run(cfg, Step(cfg, s, ops[0]), ops[1..])
  }

  lemma {:induction false} StartLive(cfg: Config, p: Entry -> bool, n: nat)
    requires n <= cfg.size
    ensures Live(Start(cfg), p, n) == 0
  {
    if n > 0 { StartLive(cfg, p, n - 1); }
  }

  lemma StartOk(cfg: Config)
    requires Config?(cfg)
    ensures WF(cfg, Start(cfg)) && Bounded(cfg, Start(cfg))
  {
    StartLive(cfg, Recent(), cfg.size);
    StartLive(cfg, Stale(), cfg.size);
  }

  lemma {:induction false} RunKeeps(cfg: Config, s: State, ops: seq<Op>)
    requires WF(cfg, s) && Bounded(cfg, s)
    ensures WF(cfg, Run(cfg, s, ops)) && Bounded(cfg, Run(cfg, s, ops))
    decreases |ops|
  {
    hide Homed, Unique, Findable, Bounded, Insert, Erase;
    if ops != [] {
      var s1 := Step(cfg, s, ops[0]);
      if ops[0].Add? {
        InsertWF(cfg, s, ops[0].e);
        InsertBounded(cfg, s, ops[0].e);
      } else if ops[0].erase {
        EraseEffect(cfg, s, ops[0].e, ops[0].e);
        EraseBounded(cfg, s, ops[0].e);
      }
      RunKeeps(cfg, s1, ops[1..]);
    }
  }

  /** In every run, neither the current nor the demoted epoch has more live elements than the bound, and every live
      element, the initial filling included, is alive in one slot only and is found. */
  lemma RunBounded(cfg: Config, ops: seq<Op>, e: Element)
    requires Config?(cfg)
    ensures var s := Run(cfg, Start(cfg), ops);
            && Live(s, Recent(), cfg.size) <= Bound(cfg) && Live(s, Stale(), cfg.size) <= Bound(cfg)
            && (Live(s, Is(e), cfg.size) > 0 ==> Contains(cfg, s, e))
            && Live(s, Is(e), cfg.size) <= 1
  {
    StartOk(cfg);
    RunKeeps(cfg, Start(cfg), ops);
    var s := Run(cfg, Start(cfg), ops);
    if Live(s, Is(e), cfg.size) > 0 { LiveFound(cfg, s, e); }
    KeptIsLive(cfg, s, e);
  }

  /** In every run, an element is dead once it has been erased. */
  lemma ErasedIsDead(cfg: Config, ops: seq<Op>, e: Element)
    requires Config?(cfg)
    ensures Live(Run(cfg, Start(cfg), ops + [Look(e, true)]), Is(e), cfg.size) == 0
  {
    hide Live, Erase, WF, Bounded;
    StartOk(cfg);
    RunKeeps(cfg, Start(cfg), ops);
    RunNext(cfg, Start(cfg), ops, Look(e, true));
    EraseEffect(cfg, Run(cfg, Start(cfg), ops), e, e);
  }

  lemma {:induction false} RunNext(cfg: Config, s: State, ops: seq<Op>, op: Op)
    requires Shape(cfg, s)
    ensures Run(cfg, s, ops + [op]) == Step(cfg, Run(cfg, s, ops), op)
    decreases |ops|
  {
    hide Step;
    if ops == [] {
      assert ([] + [op])[1..] == [];
    } else {
      assert (ops + [op])[1..] == ops[1..] + [op];
      RunNext(cfg, Step(cfg, s, ops[0]), ops[1..], op);
    }
  }

  // ---------------------------------------------------------------- only what was inserted is found

  function Inserted(ops: seq<Op>): set<Element> {
    set op | op in ops && op.Add? :: op.e
  }

  /** Every slot holds one of the elements. */
  predicate Holds(s: State, all: set<Element>) {
    forall i :: 0 <= i < |s.table| ==> s.table[i] in all
  }

  lemma {:induction false} DisplaceHolds(cfg: Config, s: State, en: Entry, last: nat, n: nat, all: set<Element>)
    requires Shape(cfg, s) && Holds(s, all) && en.e in all
    ensures Holds(Displace(cfg, s, en, last, n).state, all)
    decreases n
  {
    hide Locs, Find;
    if n > 0 {
      var locs := Locs(cfg, en.e);
      if Free(s, locs, 0) == 8 {
        var loc := NextLoc(locs, last);
        DisplaceHolds(cfg, Put(s, loc, en), Entry(s.table[loc], s.epoch[loc]), loc, n - 1, all);
      }
    }
  }

  lemma InsertHolds(cfg: Config, s: State, e: Element, all: set<Element>)
    requires Shape(cfg, s) && Holds(s, all) && e in all
    ensures Holds(Insert(cfg, s, e).state, all)
  {
    hide Live, Displace, Locs;
    var s1 := EpochCheck(cfg, s);
    if !Contains(cfg, s1, e) { DisplaceHolds(cfg, s1, Entry(e, true), INVALID, cfg.depthLimit, all); }
  }

  lemma {:induction false} RunHolds(cfg: Config, s: State, ops: seq<Op>, all: set<Element>)
    requires Shape(cfg, s) && Holds(s, all) && Inserted(ops) <= all
    ensures Holds(Run(cfg, s, ops), all)
    decreases |ops|
  {
    hide Insert;
    if ops != [] {
      if ops[0].Add? {
        assert ops[0] in ops;
        InsertHolds(cfg, s, ops[0].e, all);
      }
      RunHolds(cfg, Step(cfg, s, ops[0]), ops[1..], all);
    }
  }

  /** In every run, only what has been inserted is found, and the initial filling. */
  lemma FoundWasInserted(cfg: Config, ops: seq<Op>, e: Element)
    requires Config?(cfg) && Contains(cfg, Run(cfg, Start(cfg), ops), e)
    ensures e == BLANK || e in Inserted(ops)
  {
    hide Run, Inserted;
    RunHolds(cfg, Start(cfg), ops, Inserted(ops) + {BLANK});
  }

  lemma BlankIsFound(cfg: Config)
    requires Config?(cfg)
    ensures Contains(cfg, Start(cfg), BLANK) && BLANK !in Inserted([])
  {
    HeldAt(Start(cfg), Locs(cfg, BLANK), BLANK, Locs(cfg, BLANK)[0]);
  }

  /** The cache vouches only for what was inserted, exactly if it is not asked for the initial filling. */
  lemma SoundExactly(cfg: Config, e: Element)
    requires Config?(cfg)
    ensures (forall ops :: Contains(cfg, Run(cfg, Start(cfg), ops), e) ==> e in Inserted(ops)) <==> e != BLANK
  {
    hide Contains, Inserted;
    forall ops | e != BLANK && Contains(cfg, Run(cfg, Start(cfg), ops), e) ensures e in Inserted(ops) {
      FoundWasInserted(cfg, ops, e);
    }
    if e == BLANK {
      BlankIsFound(cfg);
      assert Run(cfg, Start(cfg), []) == Start(cfg);
    }
  }

  // ---------------------------------------------------------------- how long an element stays

  function Insertions(ops: seq<Op>): nat {
    if ops == [] then 0 else Insertions(ops[1..]) + if ops[0].Add? then 1 else 0
  }

  /** Nobody erases e, and it does not fall out of the table. */
  predicate LeftAlone(cfg: Config, s: State, ops: seq<Op>, e: Element)
    requires Shape(cfg, s)
    decreases |ops|
  {
    ops == [] || (LeftAloneBy(cfg, s, ops[0], e) && LeftAlone(cfg, Step(cfg, s, ops[0]), ops[1..], e))
  }

  predicate LeftAloneBy(cfg: Config, s: State, op: Op, e: Element)
    requires Shape(cfg, s)
  {
    match op
    case Add(x) => var d := Insert(cfg, s, x).dropped; d.None? || d.value.e != e
    case Look(x, erase) => !(erase && x == e)
  }

  /** e will live through the next k insertions: either an aging would only demote it,
      or the next aging is further away. */
  predicate Secure(cfg: Config, s: State, e: Element, k: nat)
    requires Shape(cfg, s)
  {
    || (Live(s, IsRecent(e), cfg.size) > 0 && k <= cfg.epochSize + 1)
    || (Live(s, Is(e), cfg.size) > 0 && k <= s.counter)
  }

  ghost predicate Only(p: Entry -> bool, e: Element) {
    p(Entry(e, true)) && forall en :: p(en) ==> en.e == e
  }

  lemma InsertSpares(cfg: Config, s: State, x: Element, e: Element, p: Entry -> bool)
    requires Shape(cfg, s) && Only(p, e) && LeftAloneBy(cfg, s, Add(x), e)
    ensures Live(EpochCheck(cfg, s), p, cfg.size) > 0 ==> Live(Insert(cfg, s, x).state, p, cfg.size) > 0
  {
    hide Live, Displace, EpochCheck;
    InsertConserves(cfg, s, x, p);
  }

  /** At every insertion of the run the current epoch has room. */
  predicate NeverFull(cfg: Config, s: State, ops: seq<Op>)
    requires Shape(cfg, s)
    decreases |ops|
  {
    ops == [] ||
    ((ops[0].Add? ==> Live(s, Recent(), cfg.size) < cfg.epochSize) && NeverFull(cfg, Step(cfg, s, ops[0]), ops[1..]))
  }

  /** In a run in which the current epoch is never full, nothing but an erasure or a displacement kills. */
  lemma {:induction false} NeverFullSpares(cfg: Config, s: State, ops: seq<Op>, e: Element)
    requires Shape(cfg, s) && Live(s, Is(e), cfg.size) > 0
    requires LeftAlone(cfg, s, ops, e) && NeverFull(cfg, s, ops)
    ensures Live(Run(cfg, s, ops), Is(e), cfg.size) > 0
    decreases |ops|
  {
    hide Live, Insert, Erase;
    if ops != [] {
      if ops[0].Add? {
        NotFullSpares(cfg, s, Is(e));
        InsertSpares(cfg, s, ops[0].e, e, Is(e));
      } else if ops[0].erase {
        EraseOther(cfg, s, ops[0].e, e);
      }
      NeverFullSpares(cfg, Step(cfg, s, ops[0]), ops[1..], e);
    }
  }

  lemma EraseOther(cfg: Config, s: State, x: Element, e: Element)
    requires Shape(cfg, s) && x != e
    ensures Live(Erase(cfg, s, x), Is(e), cfg.size) == Live(s, Is(e), cfg.size)
  {
    var j := Holder(s, Locs(cfg, x), x, 0);
    if j < 8 { LiveChange(s, Erase(cfg, s, x), Is(e), Locs(cfg, x)[j], cfg.size); }
  }

  lemma InsertSecure(cfg: Config, s: State, x: Element, e: Element, k: nat)
    requires Shape(cfg, s) && Secure(cfg, s, e, k + 1) && LeftAloneBy(cfg, s, Add(x), e)
    ensures Secure(cfg, Insert(cfg, s, x).state, e, k)
  {
    hide Live, Displace;
    InsertSpares(cfg, s, x, e, Is(e));
    InsertSpares(cfg, s, x, e, IsRecent(e));
    EpochCheckEffect(cfg, s, e);
    if !Ages(cfg, s) { SameLive(s, EpochCheck(cfg, s), IsRecent(e), cfg.size); }
  }

  lemma EraseSecure(cfg: Config, s: State, x: Element, e: Element, k: nat)
    requires Shape(cfg, s) && Secure(cfg, s, e, k) && x != e
    ensures Secure(cfg, Erase(cfg, s, x), e, k)
  {
    var j := Holder(s, Locs(cfg, x), x, 0);
    if j < 8 {
      LiveChange(s, Erase(cfg, s, x), Is(e), Locs(cfg, x)[j], cfg.size);
      LiveChange(s, Erase(cfg, s, x), IsRecent(e), Locs(cfg, x)[j], cfg.size);
    }
  }

  lemma {:induction false} RunSecure(cfg: Config, s: State, ops: seq<Op>, e: Element, k: nat)
    requires Shape(cfg, s) && Secure(cfg, s, e, k + Insertions(ops)) && LeftAlone(cfg, s, ops, e)
    ensures Secure(cfg, Run(cfg, s, ops), e, k)
    decreases |ops|
  {
    hide Secure, Insert, Erase;
    if ops != [] {
      if ops[0].Add? {
        InsertSecure(cfg, s, ops[0].e, e, k + Insertions(ops[1..]));
      } else if ops[0].erase {
        EraseSecure(cfg, s, ops[0].e, e, k + Insertions(ops[1..]));
      }
      RunSecure(cfg, Step(cfg, s, ops[0]), ops[1..], e, k);
    }
  }

  lemma {:induction false} TallyWithin(s: State, p: Entry -> bool, i: nat, n: nat)
    requires i < n <= |s.table| == |s.garbage| == |s.epoch|
    ensures Tally(p, s, i) <= Live(s, p, n)
  {
    if i < n - 1 { TallyWithin(s, p, i, n - 1); }
  }

  /** What is inserted and does not fall out again is in the current epoch, even if it was old or garbage before. */
  lemma InsertedIsRecent(cfg: Config, s: State, e: Element)
    requires Shape(cfg, s) && LeftAloneBy(cfg, s, Add(e), e)
    ensures Live(Insert(cfg, s, e).state, IsRecent(e), cfg.size) > 0
  {
    hide Live, Displace;
    InsertConserves(cfg, s, e, IsRecent(e));
    var s1 := EpochCheck(cfg, s);
    var k := Holder(s1, Locs(cfg, e), e, 0);
    if k < 8 { TallyWithin(s1, IsRecent(e), Locs(cfg, e)[k], cfg.size); }
  }

  /** An element that is in the current epoch is still found after epochSize + 1 further insertions,
      unless it is erased or falls out for want of room: ageing alone never takes it earlier. */
  lemma RecentStays(cfg: Config, s: State, ops: seq<Op>, e: Element)
    requires WF(cfg, s) && Bounded(cfg, s) && Live(s, IsRecent(e), cfg.size) > 0
    requires Insertions(ops) <= cfg.epochSize + 1 && LeftAlone(cfg, s, ops, e)
    ensures Live(Run(cfg, s, ops), Is(e), cfg.size) > 0 && Contains(cfg, Run(cfg, s, ops), e)
  {
    RunSecure(cfg, s, ops, e, 0);
    RunKeeps(cfg, s, ops);
    RecentIsLive(Run(cfg, s, ops), e, cfg.size);
    LiveFound(cfg, Run(cfg, s, ops), e);
  }

  lemma {:induction false} RecentIsLive(s: State, e: Element, n: nat)
    requires n <= |s.table| == |s.garbage| == |s.epoch|
    ensures Live(s, IsRecent(e), n) <= Live(s, Is(e), n)
  {
    if n > 0 { RecentIsLive(s, e, n - 1); }
  }
}
