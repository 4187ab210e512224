/**
 The layered cache of unspent coins.  A cache holds entries flagged DIRTY (may differ from the view below)
 and FRESH (the view below has no unspent coin there) over another cache or over the database.  Whatever the
 flags let an operation skip, a stack of caches behaves like one flat map from outpoints to unspent coins.
 */
module Coins {

  type OutPoint = nat

  /** An unspent transaction output, with the memory its script occupies, or the null coin left by Clear. */
  datatype Coin = Spent | Coin(value: int, script: seq<nat>, height: nat, coinbase: bool, usage: nat)

  predicate IsSpent(c: Coin) { c.Spent? }

  function DynamicMemoryUsage(c: Coin): nat { if c.Spent? then 0 else c.usage }

  const OP_RETURN: nat := 0x6a
  const MAX_SCRIPT_SIZE: nat := 10000

  predicate IsUnspendable(c: Coin) {
    c.Coin? && ((|c.script| > 0 && c.script[0] == OP_RETURN) || |c.script| > MAX_SCRIPT_SIZE)
  }

  /** A script that starts with OP_RETURN, or is longer than 10000 bytes, can never be spent. */
  lemma UnspendableExactly(c: Coin)
    requires c.Coin?
    ensures IsUnspendable(c) <==> |c.script| > 10_000 || ([106] <= c.script)
  {
  }

  datatype Entry = Entry(coin: Coin, isDirty: bool, isFresh: bool)

  datatype Option<T> = None | Some(value: T)

  /** The unspent coins and nothing else. */
  type Flat = m: map<OutPoint, Coin> | forall o :: o in m ==> !IsSpent(m[o]) witness map[]

  function Put(m: Flat, o: OutPoint, c: Coin): Flat {
    if IsSpent(c) then m - {o} else m[o := c]
  }

  /** What a view says about an outpoint: spent and absent look the same. */
  function At(m: map<OutPoint, Coin>, o: OutPoint): Coin {
    if o in m then m[o] else Spent
  }

  function Overlay(below: Flat, entries: map<OutPoint, Entry>): Flat {
    map o | o in below.Keys + entries.Keys && !IsSpent(if o in entries then entries[o].coin else below[o])
      :: if o in entries then entries[o].coin else below[o]
  }

  /** DIRTY and FRESH mean what they say. */
  predicate EntryOk(below: Flat, o: OutPoint, e: Entry) {
    && (!e.isDirty ==> e.coin == At(below, o))
    && (e.isFresh ==> o !in below)
  }

  predicate EntriesOk(below: Flat, entries: map<OutPoint, Entry>) {
    forall o :: o in entries ==> EntryOk(below, o, entries[o])
  }

  // ---------------------------------------------------------------- memory accounting

  ghost function Usage(entries: map<OutPoint, Entry>): nat
    decreases |entries|
  {
    if entries == map[] then 0
    else var o :| o in entries; DynamicMemoryUsage(entries[o].coin) + Usage(entries - {o})
  }

  /** An unspent coin takes the memory of its script, a spent one none. */
  lemma UsageOne(o: OutPoint, e: Entry)
    ensures Usage(map[o := e]) == if e.coin.Coin? then e.coin.usage else 0
  {
    UsageRemove(map[o := e], o);
    assert map[o := e] - {o} == map[];
  }

  lemma {:induction false} UsageRemove(entries: map<OutPoint, Entry>, o: OutPoint)
    requires o in entries
    ensures Usage(entries) == DynamicMemoryUsage(entries[o].coin) + Usage(entries - {o})
    decreases |entries|
  {
    var p :| p in entries && Usage(entries) == DynamicMemoryUsage(entries[p].coin) + Usage(entries - {p});
    if p != o {
      UsageRemove(entries - {p}, o);
      UsageRemove(entries - {o}, p);
      assert entries - {p} - {o} == entries - {o} - {p};
    }
  }

  lemma UsageUpdate(entries: map<OutPoint, Entry>, o: OutPoint, e: Entry)
    ensures Usage(entries[o := e]) == Usage(entries) + DynamicMemoryUsage(e.coin) -
            if o in entries then DynamicMemoryUsage(entries[o].coin) else 0
  {
    UsageRemove(entries[o := e], o);
    assert entries[o := e] - {o} == entries - {o};
    if o in entries { UsageRemove(entries, o); } else { assert entries - {o} == entries; }
  }

  // ---------------------------------------------------------------- the database at the bottom

  class CoinsViewDB {
    var coins: Flat

    constructor (coins: Flat)
      ensures this.coins == coins
    {
      this.coins := coins;
    }

    method GetCoin(o: OutPoint) returns (r: Option<Coin>)
      ensures r == if o in coins then Some(coins[o]) else None
    {
      r := if o in coins then Some(coins[o]) else None;
    }

    /** Writes the dirty entries; the clean ones are what the database has already. */
    method BatchWrite(entries: map<OutPoint, Entry>)
      requires EntriesOk(coins, entries)
      modifies this
      ensures coins == Overlay(old(coins), entries)
    {
      var todo := entries.Keys;
      ghost var before := coins;
      while todo != {}
        invariant todo <= entries.Keys
        invariant coins == Overlay(before, entries - todo)
      {
        var o :| o in todo;
        if entries[o].isDirty {
          coins := Put(coins, o, entries[o].coin);
        }
        assert EntryOk(before, o, entries[o]);
        assert entries - (todo - {o}) == (entries - todo)[o := entries[o]];
        OverlayOne(before, entries - todo, o, entries[o]);
        todo := todo - {o};
      }
      assert entries - todo == entries;
    }
  }

  lemma OverlayOne(below: Flat, entries: map<OutPoint, Entry>, o: OutPoint, e: Entry)
    ensures Overlay(below, entries[o := e]) == Put(Overlay(below, entries), o, e.coin)
  {
  }

  lemma OverlayRemove(below: Flat, entries: map<OutPoint, Entry>, o: OutPoint)
    ensures Overlay(below, entries - {o}) == Put(Overlay(below, entries), o, At(below, o))
  {
  }

  // ---------------------------------------------------------------- a cache on top of another view

  /** The entry AddCoin leaves behind: FRESH is set when the old entry is known to be spent below as well. */
  function AddedEntry(entries: map<OutPoint, Entry>, o: OutPoint, coin: Coin, possibleOverwrite: bool): Entry {
    if o in entries then
      Entry(coin, true, entries[o].isFresh || (!possibleOverwrite && !entries[o].isDirty))
    else Entry(coin, true, !possibleOverwrite)
  }

  lemma AddOk(below: Flat, entries: map<OutPoint, Entry>, o: OutPoint, coin: Coin, possibleOverwrite: bool)
    requires EntriesOk(below, entries) && !IsSpent(coin)
    requires possibleOverwrite || (if o in entries then IsSpent(entries[o].coin) else o !in below)
    ensures var r := entries[o := AddedEntry(entries, o, coin, possibleOverwrite)];
      EntriesOk(below, r) && Overlay(below, r) == Overlay(below, entries)[o := coin]
  {
    OverlayOne(below, entries, o, AddedEntry(entries, o, coin, possibleOverwrite));
    if o in entries { assert EntryOk(below, o, entries[o]); }
  }

  /** A FRESH entry is simply forgotten when it is spent; any other becomes a spent DIRTY one. */
  function Spend(entries: map<OutPoint, Entry>, o: OutPoint): map<OutPoint, Entry>
    requires o in entries
  {
    if entries[o].isFresh then entries - {o} else entries[o := Entry(Spent, true, false)]
  }

  lemma SpendOk(below: Flat, entries: map<OutPoint, Entry>, o: OutPoint)
    requires EntriesOk(below, entries) && o in entries
    ensures EntriesOk(below, Spend(entries, o)) && Overlay(below, Spend(entries, o)) == Overlay(below, entries) - {o}
    ensures Usage(Spend(entries, o)) == Usage(entries) - DynamicMemoryUsage(entries[o].coin)
  {
    assert EntryOk(below, o, entries[o]);
    OverlayOne(below, entries, o, Entry(Spent, true, false));
    OverlayRemove(below, entries, o);
    UsageRemove(entries, o);
    UsageUpdate(entries, o, Entry(Spent, true, false));
  }

  /** The duty on AddCoin's callers is exact: added without `possibleOverwrite` over an outpoint that is not cached,
      a coin can be spent again properly if and only if the view below had none there; otherwise the old one is back. */
  lemma UncheckedAdd(below: Flat, entries: map<OutPoint, Entry>, o: OutPoint, coin: Coin)
    requires o !in entries && !IsSpent(coin)
    ensures var added := entries[o := AddedEntry(entries, o, coin, false)];
      Overlay(below, Spend(added, o)) == Overlay(below, entries) - {o} <==> o !in below
  {
    var added := entries[o := AddedEntry(entries, o, coin, false)];
    assert Spend(added, o) == entries;
    assert o in below <==> o in Overlay(below, entries);
  }

  lemma UncacheOk(below: Flat, entries: map<OutPoint, Entry>, o: OutPoint)
    requires EntriesOk(below, entries) && o in entries && !entries[o].isDirty
    ensures EntriesOk(below, entries - {o}) && Overlay(below, entries - {o}) == Overlay(below, entries)
    ensures Usage(entries - {o}) == Usage(entries) - DynamicMemoryUsage(entries[o].coin)
  {
    assert EntryOk(below, o, entries[o]);
    OverlayRemove(below, entries, o);
    UsageRemove(entries, o);
  }

  lemma FetchOk(below: Flat, entries: map<OutPoint, Entry>, o: OutPoint)
    requires EntriesOk(below, entries) && o !in entries
    ensures var e := Entry(At(below, o), false, o !in below);
      EntriesOk(below, entries[o := e]) && Overlay(below, entries[o := e]) == Overlay(below, entries) &&
      Usage(entries[o := e]) == Usage(entries) + DynamicMemoryUsage(e.coin)
  {
    var e := Entry(At(below, o), false, o !in below);
    OverlayOne(below, entries, o, e);
    UsageUpdate(entries, o, e);
  }

  /** One entry of a child's batch, as the cache below takes it. */
  function Merge(entries: map<OutPoint, Entry>, o: OutPoint, e: Entry): map<OutPoint, Entry> {
    if !e.isDirty then entries
    else if o !in entries then
      if e.isFresh && IsSpent(e.coin) then entries else entries[o := Entry(e.coin, true, e.isFresh)]
    else if entries[o].isFresh && IsSpent(e.coin) then entries - {o}
    else entries[o := Entry(e.coin, true, entries[o].isFresh)]
  }

  /** A clean entry is not handed down. */
  lemma CleanStays(entries: map<OutPoint, Entry>, o: OutPoint, coin: Coin, isFresh: bool)
    ensures Merge(entries, o, Entry(coin, false, isFresh)) == entries
  {
  }

  /** What a correct child hands down is merged correctly, and its FRESH flag is never a mistake. */
  lemma MergeOk(below: Flat, entries: map<OutPoint, Entry>, o: OutPoint, e: Entry)
    requires EntriesOk(below, entries) && EntryOk(Overlay(below, entries), o, e)
    ensures EntriesOk(below, Merge(entries, o, e))
    ensures Overlay(below, Merge(entries, o, e)) == Put(Overlay(below, entries), o, e.coin)
    ensures e.isFresh && o in entries ==> IsSpent(entries[o].coin)
  {
    if o in entries { assert EntryOk(below, o, entries[o]); }
    OverlayOne(below, entries, o, Entry(e.coin, true, e.isFresh));
    if o in entries { OverlayOne(below, entries, o, Entry(e.coin, true, entries[o].isFresh)); }
    OverlayRemove(below, entries, o);
  }

  /** Coins that come and go above the database leave nothing behind: one that is added where nothing is known and spent
      again; one that is handed down so, and spent then; one that the cache below added and a cache above spent; and one
      that is added where the view below is known to have none. */
  lemma ShortLived(entries: map<OutPoint, Entry>, o: OutPoint, coin: Coin, isFresh: bool)
    requires !IsSpent(coin)
    ensures o !in entries ==> Spend(entries[o := AddedEntry(entries, o, coin, false)], o) == entries
    ensures o !in entries ==> o in Merge(entries, o, Entry(coin, true, true))
    ensures o !in entries ==> Spend(Merge(entries, o, Entry(coin, true, true)), o) == entries
    ensures o !in entries ==> Merge(entries, o, Entry(Spent, true, true)) == entries
    ensures o in entries && entries[o].isFresh ==> Merge(entries, o, Entry(Spent, true, isFresh)) == entries - {o}
    ensures o in entries && !entries[o].isDirty ==>
      Spend(entries[o := AddedEntry(entries, o, coin, false)], o) == entries - {o}
  {
  }

  class CoinsViewCache {
    const base: CoinsViewCache?   // the view below, null when it is the database itself
    const db: CoinsViewDB         // the database at the bottom of the stack
    ghost const Repr: set<object>
    ghost const depth: nat

    var cacheCoins: map<OutPoint, Entry>
    var cachedCoinsUsage: int

    ghost predicate Stacked()
      decreases depth
    {
      && this in Repr && db in Repr
      && (base == null ==> Repr == {this, db})
      && (base != null ==> base.db == db && base.depth < depth && base.Stacked() &&
                           this !in base.Repr && Repr == base.Repr + {this})
    }

    ghost function Below(): Flat
      requires Stacked()
      reads Repr
      decreases depth, 0
    {
      if base == null then db.coins else base.View()
    }

    /** What this cache and everything below it say together. */
    ghost function View(): Flat
      requires Stacked()
      reads Repr
      decreases depth, 1
    {
      Overlay(Below(), cacheCoins)
    }

    /** The views further down, from the one below the base to the database. */
    ghost function Deeper(): seq<Flat>
      requires Stacked()
      reads Repr
      decreases depth
    {
      if base == null then [] else [base.Below()] + base.Deeper()
    }

    ghost predicate Valid()
      reads Repr
      decreases depth
    {
      && Stacked()
      && EntriesOk(Below(), cacheCoins)
      && cachedCoinsUsage == Usage(cacheCoins)
      && (base != null ==> base.Valid())
    }

    /** A change to this cache alone leaves everything below as it was. */
    twostate lemma OnlyThis()
      requires Stacked() && unchanged(Repr - {this})
      requires base != null ==> old(base.Valid())
      ensures Below() == old(Below()) && Deeper() == old(Deeper()) && (base != null ==> base.Valid())
    {
    }

    constructor OnDatabase(db: CoinsViewDB)
      ensures Valid() && base == null && this.db == db && cacheCoins == map[]
      ensures View() == db.coins && fresh(Repr - {db})
    {
      base, this.db, depth := null, db, 0;
      Repr := {this, db};
      cacheCoins, cachedCoinsUsage := map[], 0;
    }

    constructor OnCache(base: CoinsViewCache)
      requires base.Valid()
      ensures Valid() && this.base == base && db == base.db && cacheCoins == map[]
      ensures View() == base.View() && fresh(Repr - base.Repr)
    {
      this.base, db, depth := base, base.db, base.depth + 1;
      Repr := base.Repr + {this};
      cacheCoins, cachedCoinsUsage := map[], 0;
    }

    /** Loads the entry from below if there is one; no view in the stack changes. */
    method FetchCoin(o: OutPoint) returns (found: bool)
      requires Valid()
      modifies Repr
      ensures Valid() && View() == old(View()) && Below() == old(Below()) && Deeper() == old(Deeper())
      ensures found == (o in cacheCoins)
      ensures found ==> cacheCoins[o].coin == At(View(), o)
      ensures !found ==> o !in View()
      ensures cacheCoins == if o in old(cacheCoins) || !found then old(cacheCoins)
                            else old(cacheCoins)[o := Entry(At(Below(), o), false, o !in Below())]
      decreases depth, 0
    {
      if o in cacheCoins { return true; }
      var tmp;
      if base == null {
        tmp := db.GetCoin(o);
      } else {
        tmp := base.GetCoin(o);
      }
      if tmp.None? { return false; }
      var e := Entry(tmp.value, false, IsSpent(tmp.value));
      FetchOk(Below(), cacheCoins, o);
      label loaded:
      cacheCoins := cacheCoins[o := e];
      cachedCoinsUsage := cachedCoinsUsage + DynamicMemoryUsage(e.coin);
      OnlyThis@loaded();
      return true;
    }

    /** May answer with a spent coin, never with a wrong one. */
    method GetCoin(o: OutPoint) returns (r: Option<Coin>)
      requires Valid()
      modifies Repr
      ensures Valid() && View() == old(View()) && Below() == old(Below()) && Deeper() == old(Deeper())
      ensures r.Some? ==> r.value == At(View(), o)
      ensures r.None? ==> o !in View()
      decreases depth, 1
    {
      var found := FetchCoin(o);
      r := if found then Some(cacheCoins[o].coin) else None;
    }

    method AccessCoin(o: OutPoint) returns (coin: Coin)
      requires Valid()
      modifies Repr
      ensures Valid() && View() == old(View()) && Below() == old(Below()) && Deeper() == old(Deeper())
      ensures coin == At(View(), o)
    {
      var found := FetchCoin(o);
      coin := if found then cacheCoins[o].coin else Spent;
    }

    method HaveCoin(o: OutPoint) returns (have: bool)
      requires Valid()
      modifies Repr
      ensures Valid() && View() == old(View()) && Below() == old(Below()) && Deeper() == old(Deeper())
      ensures have <==> o in View()
    {
      var found := FetchCoin(o);
      have := found && !IsSpent(cacheCoins[o].coin);
    }

    /** Without `possibleOverwrite` an outpoint that is not cached must have no coin below: only a cached one is
        checked.  After the exception the usage figure is too low, the coins are untouched. */
    method AddCoin(o: OutPoint, coin: Coin, possibleOverwrite: bool) returns (threw: bool)
      requires Valid()
      requires !IsSpent(coin)
      requires possibleOverwrite || o in cacheCoins || o !in View()
      modifies this
      ensures threw <==> !IsUnspendable(coin) && !possibleOverwrite && o in old(cacheCoins) && o in old(View())
      ensures threw ==> cacheCoins == old(cacheCoins) &&
                        cachedCoinsUsage == Usage(cacheCoins) - DynamicMemoryUsage(cacheCoins[o].coin)
      ensures !threw ==> Valid()
      ensures View() == if threw || IsUnspendable(coin) then old(View()) else old(View())[o := coin]
    {
      if IsUnspendable(coin) { return false; }
      if o in cacheCoins {
        UsageRemove(cacheCoins, o);
        cachedCoinsUsage := cachedCoinsUsage - DynamicMemoryUsage(cacheCoins[o].coin);
      }
      if !possibleOverwrite {
        if o in cacheCoins && !IsSpent(cacheCoins[o].coin) {
          return true;
        }
      }
      var e := AddedEntry(cacheCoins, o, coin, possibleOverwrite);
      AddOk(Below(), cacheCoins, o, coin, possibleOverwrite);
      UsageUpdate(cacheCoins, o, e);
      cacheCoins := cacheCoins[o := e];
      cachedCoinsUsage := cachedCoinsUsage + DynamicMemoryUsage(coin);
      OnlyThis();
      return false;
    }

    /** Spends the coin if there is one and hands it out. */
    method SpendCoin(o: OutPoint) returns (moved: Option<Coin>)
      requires Valid()
      modifies Repr
      ensures Valid() && View() == old(View()) - {o} && Below() == old(Below()) && Deeper() == old(Deeper())
      ensures moved.Some? ==> moved.value == At(old(View()), o)
      ensures moved.None? ==> o !in old(View())
    {
      var found := FetchCoin(o);
      if !found { return None; }
      var e := cacheCoins[o];
      SpendOk(Below(), cacheCoins, o);
      label loaded:
      cachedCoinsUsage := cachedCoinsUsage - DynamicMemoryUsage(e.coin);
      moved := Some(e.coin);
      if e.isFresh {
        cacheCoins := cacheCoins - {o};
      } else {
        cacheCoins := cacheCoins[o := Entry(Spent, true, false)];
      }
      OnlyThis@loaded();
    }

    /** Forgets an unmodified entry. */
    method Uncache(o: OutPoint)
      requires Valid()
      modifies this
      ensures Valid() && View() == old(View()) && Below() == old(Below()) && Deeper() == old(Deeper())
      ensures cacheCoins == if o in old(cacheCoins) && !old(cacheCoins)[o].isDirty && !old(cacheCoins)[o].isFresh
                            then old(cacheCoins) - {o} else old(cacheCoins)
    {
      if o in cacheCoins && !cacheCoins[o].isDirty && !cacheCoins[o].isFresh {
        UncacheOk(Below(), cacheCoins, o);
        cachedCoinsUsage := cachedCoinsUsage - DynamicMemoryUsage(cacheCoins[o].coin);
        cacheCoins := cacheCoins - {o};
        OnlyThis();
      }
    }

    /** Takes a child's entries; the exception for a misapplied FRESH flag cannot be reached. */
    method BatchWrite(entries: map<OutPoint, Entry>)
      requires Valid() && EntriesOk(View(), entries)
      modifies this
      ensures Valid() && View() == Overlay(old(View()), entries) && Below() == old(Below()) && Deeper() == old(Deeper())
    {
      var todo := entries.Keys;
      ghost var below, view := Below(), View();
      while todo != {}
        invariant todo <= entries.Keys
        invariant EntriesOk(below, cacheCoins) && cachedCoinsUsage == Usage(cacheCoins)
        invariant Overlay(below, cacheCoins) == Overlay(view, entries - todo)
      {
        var o :| o in todo;
        var e := entries[o];
        assert EntryOk(view, o, e);
        StillOk(view, entries, todo, o);
        MergeOk(below, cacheCoins, o, e);
        MergeNext(view, entries, todo, o);
        if e.isDirty {
          if o !in cacheCoins {
            if !(e.isFresh && IsSpent(e.coin)) {
              UsageUpdate(cacheCoins, o, Entry(e.coin, true, e.isFresh));
              cacheCoins := cacheCoins[o := Entry(e.coin, true, e.isFresh)];
              cachedCoinsUsage := cachedCoinsUsage + DynamicMemoryUsage(e.coin);
            }
          } else {
            if e.isFresh && !IsSpent(cacheCoins[o].coin) {
              assert false; // "FRESH flag misapplied to cache entry for base transaction with spendable outputs"
            }
            if cacheCoins[o].isFresh && IsSpent(e.coin) {
              UsageRemove(cacheCoins, o);
              cachedCoinsUsage := cachedCoinsUsage - DynamicMemoryUsage(cacheCoins[o].coin);
              cacheCoins := cacheCoins - {o};
            } else {
              UsageUpdate(cacheCoins, o, Entry(e.coin, true, cacheCoins[o].isFresh));
              cachedCoinsUsage := cachedCoinsUsage - DynamicMemoryUsage(cacheCoins[o].coin);
              cacheCoins := cacheCoins[o := Entry(e.coin, true, cacheCoins[o].isFresh)];
              cachedCoinsUsage := cachedCoinsUsage + DynamicMemoryUsage(e.coin);
            }
          }
        }
        todo := todo - {o};
      }
      assert entries - todo == entries;
      OnlyThis();
    }

    /** base->BatchWrite(cacheCoins), on whichever kind of view the base is. */
    method BaseBatchWrite()
      requires Valid()
      modifies Repr - {this}
      ensures Stacked() && Below() == old(View()) && (base != null ==> base.Valid())
      ensures Deeper() == old(Deeper())
    {
      if base == null {
        db.BatchWrite(cacheCoins);
      } else {
        base.BatchWrite(cacheCoins);
      }
    }

    /** Pushes the changes one level down: the view below becomes this one, this one stays. */
    method Flush() returns (ok: bool)
      requires Valid()
      modifies Repr
      ensures Valid() && cacheCoins == map[] && ok
      ensures View() == Below() == old(View()) && Deeper() == old(Deeper())
    {
      BaseBatchWrite();
      label pushed:
      cacheCoins := map[];
      cachedCoinsUsage := 0;
      OnlyThis@pushed();
      OverlayNothing(Below());
      ok := true;
    }

    /** Any sequence of operations on the top of any stack does to its view what the plain map operations do. */
    method Run(ops: seq<Op>)
      requires Valid() && Careful(View(), ops)
      modifies Repr
      ensures Valid() && View() == FlatRun(old(View()), ops)
    {
      for i := 0 to |ops|
        invariant Valid() && Careful(View(), ops[i..])
        invariant FlatRun(View(), ops[i..]) == FlatRun(old(View()), ops)
      {
        assert ops[i..][0] == ops[i] && ops[i..][1..] == ops[i + 1..];
        match ops[i]
        case Fetch(o) => var _ := FetchCoin(o);
        case Add(o, coin, possibleOverwrite) => var _ := AddCoin(o, coin, possibleOverwrite);
        case Remove(o) => var _ := SpendCoin(o);
        case Forget(o) => Uncache(o);
        case Push => var _ := Flush();
      }
    }
  }

  lemma OverlayNothing(below: Flat)
    ensures Overlay(below, map[]) == below
  {
  }

  /** An entry not yet merged is still right about the view. */
  lemma StillOk(view: Flat, entries: map<OutPoint, Entry>, todo: set<OutPoint>, o: OutPoint)
    requires todo <= entries.Keys && o in todo && EntryOk(view, o, entries[o])
    ensures EntryOk(Overlay(view, entries - todo), o, entries[o])
  {
  }

  lemma MergeNext(view: Flat, entries: map<OutPoint, Entry>, todo: set<OutPoint>, o: OutPoint)
    requires todo <= entries.Keys && o in todo
    ensures Overlay(view, entries - (todo - {o})) == Put(Overlay(view, entries - todo), o, entries[o].coin)
  {
    assert entries - (todo - {o}) == (entries - todo)[o := entries[o]];
    OverlayOne(view, entries - todo, o, entries[o]);
  }

  // ---------------------------------------------------------------- the flat specification

  datatype Op =
    | Fetch(o: OutPoint)
    | Add(o: OutPoint, coin: Coin, possibleOverwrite: bool)
    | Remove(o: OutPoint)
    | Forget(o: OutPoint)
    | Push

  function FlatStep(m: Flat, op: Op): Flat {
    match op
    case Add(o, coin, _) => if IsUnspendable(coin) then m else Put(m, o, coin)
    case Remove(o) => m - {o}
    case _ => m
  }

  /** Adding a coin that can be spent puts it there, adding any other does nothing, and no other outpoint notices. */
  lemma FlatAdds(m: Flat, o: OutPoint, c: Coin, overwrite: bool, p: OutPoint)
    requires c.Coin?
    ensures At(FlatStep(m, Add(o, c, overwrite)), p) ==
      if p == o && |c.script| <= 10_000 && !([106] <= c.script) then c else At(m, p)
  {
    UnspendableExactly(c);
  }

  function FlatRun(m: Flat, ops: seq<Op>): Flat
    decreases |ops|
  {
    if ops == [] then m else FlatRun(FlatStep(m, ops[0]), ops[1..])
  }

  /** The callers' side of AddCoin: an unspent coin, and no coin there already unless they say so. */
  predicate Careful(m: Flat, ops: seq<Op>)
    decreases |ops|
  {
    ops == [] ||
    ((ops[0].Add? ==> !IsSpent(ops[0].coin) && (ops[0].possibleOverwrite || ops[0].o !in m)) &&
     Careful(FlatStep(m, ops[0]), ops[1..]))
  }
}
