/**
 The cuckoo cache as it is stored: a table, a byte array of packed garbage bits, a vector of epoch flags and the
 counter that puts off the next scan.  Every call does to this storage what the functions of CuckooCache say.
 */
module CuckooTable {
  import opened CuckooCache
  import opened Numbers

  // ---------------------------------------------------------------- packed bits

  predicate Bit(v: bv8, k: nat)
    requires k < 8
  {
    v & (1 << k) != 0
  }

  function WithBit(v: bv8, k: nat): bv8
    requires k < 8
  {
    v | (1 << k)
  }

  function WithoutBit(v: bv8, k: nat): bv8
    requires k < 8
  {
    v & !(1 << k)
  }

  lemma BitSetAt(v: bv8, a: nat, b: nat)
    requires a < 8 && b < 8
    ensures Bit(WithBit(v, a), b) <==> a == b || Bit(v, b)
  {
    if a == 0 { SetMask(v, 1, b); } else if a == 1 { SetMask(v, 2, b); } else if a == 2 { SetMask(v, 4, b); }
    else if a == 3 { SetMask(v, 8, b); } else if a == 4 { SetMask(v, 16, b); } else if a == 5 { SetMask(v, 32, b); }
    else if a == 6 { SetMask(v, 64, b); } else { SetMask(v, 128, b); }
  }

  lemma SetMask(v: bv8, m: bv8, b: nat)
    requires b < 8 && m in {1, 2, 4, 8, 16, 32, 64, 128}
    ensures (v | m) & (1 << b) != 0 <==> m == 1 << b || v & (1 << b) != 0
  {
  }

  lemma BitUnsetAt(v: bv8, a: nat, b: nat)
    requires a < 8 && b < 8
    ensures Bit(WithoutBit(v, a), b) <==> a != b && Bit(v, b)
  {
    if a == 0 { UnsetMask(v, 1, b); } else if a == 1 { UnsetMask(v, 2, b); }
    else if a == 2 { UnsetMask(v, 4, b); } else if a == 3 { UnsetMask(v, 8, b); }
    else if a == 4 { UnsetMask(v, 16, b); } else if a == 5 { UnsetMask(v, 32, b); }
    else if a == 6 { UnsetMask(v, 64, b); } else { UnsetMask(v, 128, b); }
  }

  lemma UnsetMask(v: bv8, m: bv8, b: nat)
    requires b < 8 && m in {1, 2, 4, 8, 16, 32, 64, 128}
    ensures v & !m & (1 << b) != 0 <==> m != 1 << b && v & (1 << b) != 0
  {
  }

  class BitPackedFlags {
    const mem: array<bv8>

    constructor (size: nat)
      ensures fresh(mem) && mem.Length == (size + 7) / 8
      ensures forall s :: 0 <= s < size ==> IsSet(s)
    {
      mem := new bv8[(size + 7) / 8](i => 0xFF);
    }

    predicate IsSet(s: nat)
      requires s / 8 < mem.Length
      reads mem
    {
      Bit(mem[s / 8], s % 8)
    }

    method Set(s: nat)
      requires s / 8 < mem.Length
      modifies mem
      ensures forall t: nat :: t / 8 < mem.Length ==> (IsSet(t) <==> t == s || old(IsSet(t)))
    {
      hide Bit, WithBit;
      mem[s / 8] := WithBit(mem[s / 8], s % 8);
      forall t: nat | t / 8 < mem.Length ensures IsSet(t) <==> t == s || old(IsSet(t)) {
        BitSetAt(old(mem[s / 8]), s % 8, t % 8);
      }
    }

    method Unset(s: nat)
      requires s / 8 < mem.Length
      modifies mem
      ensures forall t: nat :: t / 8 < mem.Length ==> (IsSet(t) <==> t != s && old(IsSet(t)))
    {
      hide Bit, WithoutBit;
      mem[s / 8] := WithoutBit(mem[s / 8], s % 8);
      forall t: nat | t / 8 < mem.Length ensures IsSet(t) <==> t != s && old(IsSet(t)) {
        BitUnsetAt(old(mem[s / 8]), s % 8, t % 8);
      }
    }
  }

  // ---------------------------------------------------------------- sizes

  const WORD: nat := 0x1_0000_0000

  /** A power of two of places, and 45 % of them in an epoch, computed in 32 bits. */
  function Sized(hash: (nat, Element) -> nat, depthLimit: nat): Config {
    var size := Pow(2, depthLimit);
    Config(hash, size, Max(1, 45 * size % WORD / 100), depthLimit)
  }

  lemma SizedOk(hash: (nat, Element) -> nat, depthLimit: nat)
    requires 1 <= depthLimit <= 31
    ensures Config?(Sized(hash, depthLimit))
  {
    hide Pow;
    PowMonotone(2, depthLimit, 31);
    PowersOfTwo();
  }

  lemma PowersOfTwo()
    ensures Pow(2, 26) == 0x400_0000 && Pow(2, 27) == 0x800_0000 && Pow(2, 31) == 0x8000_0000
  {
    assert Pow(2, 1) == 2 && Pow(2, 2) == 4 && Pow(2, 3) == 8;
    hide Pow;
    PowAdd(2, 3, 3);
    PowAdd(2, 6, 6);
    PowAdd(2, 12, 12);
    PowAdd(2, 24, 2);
    PowAdd(2, 24, 3);
    PowAdd(2, 6, 1);
    PowAdd(2, 24, 7);
  }

  /** An epoch is 45 % of the table exactly if the table has fewer than 2^27 places; above that the product wraps and
      the epoch is shorter. */
  lemma EpochShare(hash: (nat, Element) -> nat, depthLimit: nat)
    requires 1 <= depthLimit <= 31
    ensures Sized(hash, depthLimit).epochSize == Max(1, 45 * Pow(2, depthLimit) / 100) <==> depthLimit <= 26
  {
    hide Pow;
    PowersOfTwo();
    if depthLimit <= 26 {
      PowMonotone(2, depthLimit, 26);
    } else {
      PowMonotone(2, 27, depthLimit);
    }
  }

  // ---------------------------------------------------------------- the cache

  class Cache {
    const cfg: Config
    const table: array<Element>
    const collectionFlags: BitPackedFlags
    const epochFlags: array<bool>
    var epochHeuristicCounter: nat

    ghost predicate Valid()
      reads this, collectionFlags
    {
      && Config?(cfg)
      && table.Length == epochFlags.Length == cfg.size
      && collectionFlags.mem.Length == (cfg.size + 7) / 8
      && table as object != epochFlags as object && table as object != collectionFlags.mem as object
      && epochFlags as object != collectionFlags.mem as object
    }

    ghost function Garbage(): (g: seq<bool>)
      requires Valid()
      reads this, collectionFlags, collectionFlags.mem
      ensures |g| == cfg.size
    {
      seq(cfg.size, i requires 0 <= i < cfg.size reads collectionFlags, collectionFlags.mem
                      requires i / 8 < collectionFlags.mem.Length => collectionFlags.IsSet(i))
    }

    ghost function Snapshot(): (s: State)
      requires Valid()
      reads this, table, epochFlags, collectionFlags, collectionFlags.mem
      ensures Shape(cfg, s)
    {
      State(table[..], Garbage(), epochFlags[..], epochHeuristicCounter)
    }

    /** The depth limit is a floating-point logarithm of the size asked for; it decides everything else. */
    constructor (hash: (nat, Element) -> nat, depthLimit: nat)
      requires 1 <= depthLimit <= 31
      ensures Valid() && cfg == Sized(hash, depthLimit)
      ensures fresh(table) && fresh(epochFlags) && fresh(collectionFlags) && fresh(collectionFlags.mem)
      ensures Snapshot() == Start(cfg)
    {
      hide Pow;
      var size := Pow(2, depthLimit);
      SizedOk(hash, depthLimit);
      var epochSize := Max(1, 45 * size % WORD / 100);
      cfg := Config(hash, size, epochSize, depthLimit);
      table := new Element[size](i => BLANK);
      collectionFlags := new BitPackedFlags(size);
      epochFlags := new bool[size](i => false);
      epochHeuristicCounter := epochSize;
      new;
      assert Snapshot().table == Start(cfg).table;
      assert Snapshot().garbage == Start(cfg).garbage;
      assert Snapshot().epoch == Start(cfg).epoch;
    }

    method AllowErase(n: nat)
      requires Valid() && n < cfg.size
      modifies collectionFlags.mem
      ensures Snapshot() == old(Snapshot()).(garbage := old(Snapshot()).garbage[n := true])
    {
      collectionFlags.Set(n);
      assert Garbage() == old(Garbage())[n := true];
    }

    method PleaseKeep(n: nat)
      requires Valid() && n < cfg.size
      modifies collectionFlags.mem
      ensures Snapshot() == old(Snapshot()).(garbage := old(Snapshot()).garbage[n := false])
    {
      collectionFlags.Unset(n);
      assert Garbage() == old(Garbage())[n := false];
    }

    method CheckEpoch()
      requires Valid()
      modifies this`epochHeuristicCounter, epochFlags, collectionFlags.mem
      ensures Snapshot() == EpochCheck(cfg, old(Snapshot()))
    {
      ghost var s := Snapshot();
      if epochHeuristicCounter != 0 {
        epochHeuristicCounter := epochHeuristicCounter - 1;
        return;
      }
      var epochUnusedCount := 0;
      for i := 0 to cfg.size
        invariant epochUnusedCount == Live(s, Recent(), i)
      {
        assert s.garbage[i] == collectionFlags.IsSet(i);
        epochUnusedCount := epochUnusedCount + if epochFlags[i] && !collectionFlags.IsSet(i) then 1 else 0;
      }
      if epochUnusedCount >= cfg.epochSize {
        Age();
        epochHeuristicCounter := cfg.epochSize;
      } else {
        epochHeuristicCounter := Max(1, Max(cfg.epochSize / 16, cfg.epochSize - epochUnusedCount));
      }
    }

    method Age()
      requires Valid()
      modifies epochFlags, collectionFlags.mem
      ensures Snapshot() == Aged(old(Snapshot()))
    {
      ghost var s := Snapshot();
      for i := 0 to cfg.size
        invariant forall j :: 0 <= j < i ==> !epochFlags[j] && Garbage()[j] == (s.garbage[j] || !s.epoch[j])
        invariant forall j :: i <= j < cfg.size ==> epochFlags[j] == s.epoch[j] && Garbage()[j] == s.garbage[j]
      {
        if epochFlags[i] {
          epochFlags[i] := false;
        } else {
          AllowErase(i);
        }
      }
      assert epochFlags[..] == Aged(s).epoch;
      assert Garbage() == Aged(s).garbage;
    }

    method Store(loc: nat, e: Element, recent: bool)
      requires Valid() && loc < cfg.size
      modifies table, epochFlags, collectionFlags.mem
      ensures Snapshot() == Put(old(Snapshot()), loc, Entry(e, recent))
    {
      table[loc] := e;
      assert table[..] == old(table[..])[loc := e];
      PleaseKeep(loc);
      epochFlags[loc] := recent;
      assert epochFlags[..] == old(epochFlags[..])[loc := recent];
      assert Garbage() == old(Garbage())[loc := false];
    }

    /** The element in a kept slot changes places with the one in hand. */
    method Exchange(loc: nat, e: Element, recent: bool) returns (e': Element, recent': bool)
      requires Valid() && loc < cfg.size && !Snapshot().garbage[loc]
      modifies table, epochFlags
      ensures e' == old(Snapshot()).table[loc] && recent' == old(Snapshot()).epoch[loc]
      ensures Snapshot() == Put(old(Snapshot()), loc, Entry(e, recent))
    {
      e', table[loc] := table[loc], e;
      recent', epochFlags[loc] := epochFlags[loc], recent;
      assert table[..] == old(table[..])[loc := e];
      assert epochFlags[..] == old(epochFlags[..])[loc := recent];
      assert Garbage() == old(Garbage())[loc := false];
    }

    /** An element that is there already is kept. */
    method Refresh(e: Element, locs: seq<nat>) returns (found: bool)
      requires Valid() && locs == Locs(cfg, e)
      modifies table, epochFlags, collectionFlags.mem
      ensures var s := old(Snapshot()); var k := Holder(s, locs, e, 0);
              found == (k < 8) && Snapshot() == if k < 8 then Put(s, locs[k], Entry(e, true)) else s
    {
      hide Locs;
      ghost var s := Snapshot();
      for i := 0 to 8
        invariant Snapshot() == s && Holder(s, locs, e, i) == Holder(s, locs, e, 0)
      {
        if table[locs[i]] == e {
          PleaseKeep(locs[i]);
          epochFlags[locs[i]] := true;
          assert table[..] == s.table[locs[i] := e];
          assert epochFlags[..] == s.epoch[locs[i] := true];
          assert Garbage() == s.garbage[locs[i] := false];
          return true;
        }
      }
      return false;
    }

    /** The first free place is taken. */
    method TakeFree(e: Element, recent: bool, locs: seq<nat>) returns (taken: bool)
      requires Valid() && locs == Locs(cfg, e)
      modifies table, epochFlags, collectionFlags.mem
      ensures var s := old(Snapshot()); var k := Free(s, locs, 0);
              taken == (k < 8) && Snapshot() == if k < 8 then Put(s, locs[k], Entry(e, recent)) else s
    {
      hide Locs;
      ghost var s := Snapshot();
      for i := 0 to 8
        invariant Snapshot() == s && Free(s, locs, i) == Free(s, locs, 0)
      {
        assert s.garbage[locs[i]] == collectionFlags.IsSet(locs[i]);
        if collectionFlags.IsSet(locs[i]) {
          Store(locs[i], e, recent);
          return true;
        }
      }
      return false;
    }

    method Insert(e0: Element)
      requires Valid()
      modifies this`epochHeuristicCounter, table, epochFlags, collectionFlags.mem
      ensures Snapshot() == CuckooCache.Insert(cfg, old(Snapshot()), e0).state
    {
      hide Locs, EpochCheck, Put, Snapshot;
      CheckEpoch();
      var e, lastLoc, lastEpoch := e0, INVALID, true;
      var locs := Locs(cfg, e);
      ghost var s1 := Snapshot();
      var found := Refresh(e, locs);
      if found { return; }
      for depth := 0 to cfg.depthLimit
        invariant locs == Locs(cfg, e)
        invariant Displace(cfg, Snapshot(), Entry(e, lastEpoch), lastLoc, cfg.depthLimit - depth).state ==
                  Displace(cfg, s1, Entry(e0, true), INVALID, cfg.depthLimit).state
      {
        var taken := TakeFree(e, lastEpoch, locs);
        if taken { return; }
        lastLoc := locs[(1 + Find(locs, lastLoc, 0)) % 8];
        e, lastEpoch := Exchange(lastLoc, e, lastEpoch);
        locs := Locs(cfg, e);
      }
    }

    method Contains(e: Element, erase: bool) returns (found: bool)
      requires Valid()
      modifies collectionFlags.mem
      ensures found == CuckooCache.Contains(cfg, old(Snapshot()), e)
      ensures Snapshot() == if erase then Erase(cfg, old(Snapshot()), e) else old(Snapshot())
    {
      var locs := Locs(cfg, e);
      ghost var s := Snapshot();
      for i := 0 to 8
        invariant Snapshot() == s && Holder(s, locs, e, i) == Holder(s, locs, e, 0)
      {
        if table[locs[i]] == e {
          if erase { AllowErase(locs[i]); }
          return true;
        }
      }
      return false;
    }
  }
}
