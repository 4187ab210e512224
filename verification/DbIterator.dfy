/**
 Iterating over a transaction: a position in the transaction's own writes and a position in the parent are kept side by
 side, parent keys that the transaction has deleted or overwritten are skipped, and the smaller key is the current one.
 The parent's iterator may itself be one of these.  Together they walk the keys of the merged view in order.
 */
module DbIterator {
  import opened DbKeys
  import opened DbTransaction
  import opened Sets

  // ---------------------------------------------------------------- skipping

  /** Between the bounds `b` and `pb` there is nothing but hidden keys. */
  predicate Skipped(keys: set<Key>, hidden: set<Key>, b: Bound, pb: Bound) {
    forall x :: x in keys ==> (Above(pb, x) ==> Above(b, x)) && (Above(b, x) ==> Above(pb, x) || x in hidden)
  }

  function Remaining(keys: set<Key>, b: Bound): set<Key> {
    set x | x in keys && Above(b, x)
  }

  lemma SkipStep(keys: set<Key>, hidden: set<Key>, b: Bound, pb: Bound, k: Key)
    requires Skipped(keys, hidden, b, pb) && IsFirst(keys, pb, Some(k)) && k in hidden
    ensures Skipped(keys, hidden, b, After(k))
  {
    forall x | x in keys ensures (Less(k, x) ==> Above(b, x)) && (Above(b, x) ==> Less(k, x) || x in hidden) {
      if Less(k, x) { AboveUp(pb, k, x); }
    }
  }

  lemma StepRemaining(keys: set<Key>, pb: Bound, k: Key)
    requires IsFirst(keys, pb, Some(k))
    ensures |Remaining(keys, After(k))| < |Remaining(keys, pb)|
  {
    forall x | x in Remaining(keys, After(k)) ensures x in Remaining(keys, pb) { AboveUp(pb, k, x); }
    LessIrreflexive(k);
    assert k in Remaining(keys, pb) && k !in Remaining(keys, After(k));
    SmallerSet(Remaining(keys, After(k)), Remaining(keys, pb), k);
  }

  lemma SmallerSet(a: set<Key>, b: set<Key>, k: Key)
    requires a <= b && k in b && k !in a
    ensures |a| < |b|
  {
    SubsetSize(a, b - {k});
  }

  lemma SkipDone(keys: set<Key>, hidden: set<Key>, b: Bound, pb: Bound, c: Option<Key>)
    requires Skipped(keys, hidden, b, pb) && IsFirst(keys, pb, c) && (c.Some? ==> c.value !in hidden)
    ensures IsFirst(keys - hidden, b, c)
  {
  }

  // ---------------------------------------------------------------- iterators

  /** The database's own iterator, over the contents it was opened on. */
  class DatabaseIterator {
    const data: Store
    var cur: Option<Key>
    ghost var from: Bound

    ghost predicate Ok()
      reads this
    {
      IsFirst(data.Keys, from, cur)
    }

    constructor (db: Database)
      ensures data == db.data
    {
      data := db.data;
      cur, from := None, All;
    }

    method SeekToFirst()
      modifies this
      ensures Ok() && from == All
    {
      cur := FirstFrom(data.Keys, All);
      from := All;
    }

    method Seek(k: Key)
      modifies this
      ensures Ok() && from == From(k)
    {
      cur := FirstFrom(data.Keys, From(k));
      from := From(k);
    }

    method Next()
      requires cur.Some?
      modifies this
      ensures Ok() && from == After(old(cur).value)
    {
      from := After(cur.value);
      cur := FirstFrom(data.Keys, After(cur.value));
    }
  }

  class TransactionIterator {
    const transaction: Transaction
    const parentIt: TransactionIterator?   // over the transaction below, null at the bottom
    const dbIt: DatabaseIterator           // over the database, for the iterator at the bottom
    ghost const Repr: set<object>
    ghost const depth: nat

    var transactionIt: Option<Key>
    var parentKey: Key
    var curIsParent: bool
    ghost var from: Bound

    ghost predicate Stacked()
      decreases depth
    {
      && this in Repr && dbIt in Repr && transaction.Stacked() && Repr !! transaction.Repr
      && (parentIt == null ==> transaction.parent == null && Repr == {this, dbIt})
      && (parentIt != null ==> transaction.parent == parentIt.transaction && dbIt == parentIt.dbIt &&
                               parentIt.depth < depth && parentIt.Stacked() &&
                               this !in parentIt.Repr && Repr == parentIt.Repr + {this})
    }

    /** Nothing has been written to the database or the transactions since the iterator was made. */
    ghost predicate Valid()
      reads transaction.Repr
      decreases depth
    {
      && Stacked() && transaction.Valid() && dbIt.data == transaction.db.data
      && (parentIt != null ==> parentIt.Valid())
    }

    ghost function ParentCur(): Option<Key>
      requires Valid()
      reads Repr, transaction.Repr
      decreases depth, 0
    {
      if parentIt == null then dbIt.cur else parentIt.Current()
    }

    ghost function ParentFrom(): Bound
      requires Valid()
      reads Repr, transaction.Repr
    {
      if parentIt == null then dbIt.from else assert parentIt.Stacked(); parentIt.from
    }

    ghost function Current(): Option<Key>
      requires Valid()
      reads Repr, transaction.Repr
      decreases depth, 1
    {
      if transactionIt.None? && ParentCur().None? then None
      else if curIsParent then Some(parentKey)
      else transactionIt
    }

    ghost function ParentKeys(): set<Key>
      requires Valid()
      reads transaction.Repr
    {
      transaction.Below().Keys
    }

    /** The merged view that is walked. */
    ghost function Target(): Store
      requires Valid()
      reads transaction.Repr
    {
      transaction.View()
    }

    ghost function Hidden(): set<Key>
      requires Valid()
      reads transaction.Repr
    {
      transaction.deletes + transaction.writes.Keys
    }

    ghost predicate ParentOk()
      requires Valid()
      reads Repr, transaction.Repr
      decreases depth, 0
    {
      if parentIt == null then dbIt.Ok() else parentIt.Ok()
    }

    /** Both positions are the first within the bound, and the smaller one is chosen. */
    ghost predicate Ok()
      requires Valid()
      reads Repr, transaction.Repr
      decreases depth, 1
    {
      && ParentOk()
      && IsFirst(transaction.writes.Keys, from, transactionIt)
      && IsFirst(ParentKeys() - Hidden(), from, ParentCur())
      && (ParentCur().Some? ==> parentKey == ParentCur().value)
      && (transactionIt.Some? && ParentCur().None? ==> !curIsParent)
      && (transactionIt.None? && ParentCur().Some? ==> curIsParent)
      && (transactionIt.Some? && ParentCur().Some? ==> curIsParent == !Less(transactionIt.value, parentKey))
    }

    lemma CurrentIsSmaller()
      requires Valid() && Ok()
      ensures Current() == Smaller(transactionIt, ParentCur())
    {
    }

    /** The iterator stands on the first key of the merged view within the bound. */
    lemma CurrentIsFirst()
      requires Valid() && Ok()
      ensures IsFirst(Target().Keys, from, Current())
    {
      CurrentIsSmaller();
      ViewKeys(transaction.Below(), transaction.writes, transaction.deletes);
      SmallerIsFirst(transaction.writes.Keys, ParentKeys() - Hidden(), from, transactionIt, ParentCur());
    }

    lemma ParentIsFirst()
      requires Valid() && ParentOk()
      ensures IsFirst(ParentKeys(), ParentFrom(), ParentCur())
      decreases depth
    {
      if parentIt != null { parentIt.CurrentIsFirst(); }
    }

    constructor OverDatabase(transaction: Transaction)
      requires transaction.Valid() && transaction.parent == null
      ensures Valid() && this.transaction == transaction && fresh(Repr)
    {
      this.transaction, parentIt, depth := transaction, null, 0;
      transactionIt, parentKey, curIsParent, from := None, [], false, All;
      var it := new DatabaseIterator(transaction.db);
      dbIt := it;
      Repr := {this, it};
    }

    constructor OverParent(transaction: Transaction, parentIt: TransactionIterator)
      requires transaction.Valid() && transaction.parent == parentIt.transaction && parentIt.Valid()
      requires parentIt.Repr !! transaction.Repr
      ensures Valid() && this.transaction == transaction && fresh(Repr - parentIt.Repr) &&
        Repr == parentIt.Repr + {this}
    {
      this.transaction, this.parentIt, dbIt, depth := transaction, parentIt, parentIt.dbIt, parentIt.depth + 1;
      transactionIt, parentKey, curIsParent, from := None, [], false, All;
      Repr := parentIt.Repr + {this};
    }

    static method New(transaction: Transaction) returns (it: TransactionIterator)
      requires transaction.Valid()
      ensures it.Valid() && it.transaction == transaction && fresh(it.Repr)
      decreases transaction.depth
    {
      if transaction.parent == null {
        it := new TransactionIterator.OverDatabase(transaction);
      } else {
        var below := New(transaction.parent);
        it := new TransactionIterator.OverParent(transaction, below);
      }
    }

    lemma Apart()
      requires Valid()
      ensures this in Repr && Repr !! transaction.Repr && transaction in transaction.Repr
    {
    }

    /** A change to this iterator alone leaves everything below where it was. */
    twostate lemma OnlyThis()
      requires old(Valid()) && unchanged(Repr - {this}) && unchanged(transaction.Repr)
      ensures Valid() && ParentCur() == old(ParentCur()) && ParentFrom() == old(ParentFrom()) &&
        ParentOk() == old(ParentOk())
      ensures ParentKeys() == old(ParentKeys()) && Hidden() == old(Hidden())
    {
      if parentIt != null { assert parentIt.Repr <= Repr - {this} && parentIt.transaction.Repr <= transaction.Repr; }
    }

    /** Moving iterators leaves the transactions as they are. */
    twostate lemma OnlyIterators()
      requires old(Valid()) && unchanged(transaction.Repr)
      ensures Valid() && ParentKeys() == old(ParentKeys()) && Hidden() == old(Hidden()) && Target() == old(Target())
    {
    }

    /** The smaller of the two keys becomes the current one. */
    method DecideCur()
      requires Valid() && ParentOk() && (ParentCur().Some? ==> parentKey == ParentCur().value)
      requires IsFirst(transaction.writes.Keys, from, transactionIt)
      requires IsFirst(ParentKeys() - Hidden(), from, ParentCur())
      modifies this
      ensures Valid() && Ok() && from == old(from)
    {
      hide Valid, ParentCur, ParentOk, ParentKeys, IsFirst;
      Apart();
      var parentValid := ParentValid();
      if transactionIt.Some? && !parentValid {
        curIsParent := false;
      } else if transactionIt.None? && parentValid {
        curIsParent := true;
      } else if transactionIt.Some? && parentValid {
        curIsParent := !Less(transactionIt.value, parentKey);
      }
      OnlyThis();
    }

    method ParentValid() returns (valid: bool)
      requires Valid() && ParentOk()
      ensures valid == ParentCur().Some?
      decreases depth, 0
    {
      if parentIt == null { valid := dbIt.cur.Some?; } else { valid := parentIt.IsValid(); }
    }

    method IsValid() returns (valid: bool)
      requires Valid() && Ok()
      ensures valid == Current().Some?
      decreases depth, 1
    {
      var parentValid := ParentValid();
      valid := transactionIt.Some? || parentValid;
    }

    method ParentGetKey() returns (k: Key)
      requires Valid() && ParentOk() && ParentCur().Some?
      ensures ParentCur() == Some(k)
      decreases depth, 0
    {
      if parentIt == null { k := dbIt.cur.value; } else { k := parentIt.GetKey(); }
    }

    method GetKey() returns (k: Key)
      requires Valid() && Ok()
      ensures if Current().Some? then Current() == Some(k) else k == []
      decreases depth, 1
    {
      var valid := IsValid();
      if !valid { return []; }
      if curIsParent { k := parentKey; } else { k := transactionIt.value; }
    }

    /** The value under the current key, as the transaction sees it. */
    method GetValue() returns (v: Option<Value>)
      requires Valid() && Ok()
      ensures v == if Current().Some? then Get(Target(), Current().value) else None
    {
      var valid := IsValid();
      if !valid { return None; }
      if curIsParent { v := transaction.Read(parentKey); } else { v := transaction.Read(transactionIt.value); }
    }

    method ParentNext()
      requires Valid() && ParentOk() && ParentCur().Some?
      modifies Repr - {this}
      ensures Valid() && ParentOk() && ParentFrom() == After(old(ParentCur()).value)
      ensures ParentKeys() == old(ParentKeys()) && Hidden() == old(Hidden())
      decreases depth, 0
    {
      if parentIt == null { dbIt.Next(); } else { parentIt.Next(); }
      OnlyIterators();
    }

    /** Advances the parent to a key that the transaction neither deletes nor overwrites. */
    method SkipDeletedAndOverwritten()
      requires Valid() && ParentOk() && Skipped(ParentKeys(), Hidden(), from, ParentFrom())
      modifies Repr - {this}, this`parentKey
      ensures Valid() && ParentOk() && (ParentCur().Some? ==> parentKey == ParentCur().value)
      ensures ParentKeys() == old(ParentKeys()) && Hidden() == old(Hidden())
      ensures IsFirst(ParentKeys() - Hidden(), from, ParentCur())
      decreases depth, 1
    {
      hide Above, IsFirst, Skipped, Valid, ParentOk, ParentCur, ParentFrom, ParentKeys, Remaining, Less;
      ghost var keys, hidden := ParentKeys(), Hidden();
      var key := parentKey;
      var valid := ParentValid();
      ParentIsFirst();
      while valid
        invariant Valid() && ParentOk() && valid == ParentCur().Some? && ParentKeys() == keys && Hidden() == hidden
        invariant Skipped(keys, hidden, from, ParentFrom()) && IsFirst(keys, ParentFrom(), ParentCur())
        decreases |Remaining(keys, ParentFrom())|
      {
        key := ParentGetKey();
        if key !in transaction.deletes && key !in transaction.writes { break; }
        SkipStep(keys, hidden, from, ParentFrom(), key);
        StepRemaining(keys, ParentFrom(), key);
        ParentNext();
        valid := ParentValid();
        ParentIsFirst();
      }
      SkipDone(keys, hidden, from, ParentFrom(), ParentCur());
      Apart();
      label Moved:
      parentKey := key;
      OnlyThis@Moved();
    }

    /** What makes it safe to advance only the chosen one of the two positions. */
    lemma Advance()
      requires Valid() && Ok() && Current().Some?
      ensures curIsParent ==> ParentCur() == Current() == Some(parentKey) &&
                              IsFirst(transaction.writes.Keys, After(parentKey), transactionIt)
      ensures !curIsParent ==> Current() == transactionIt &&
                               IsFirst(ParentKeys() - Hidden(), After(transactionIt.value), ParentCur())
    {
      hide ParentOk;
      if curIsParent {
        if transactionIt.Some? { LessTotal(transactionIt.value, parentKey); }
        FirstStays(transaction.writes.Keys, from, transactionIt, parentKey);
      } else {
        FirstStays(ParentKeys() - Hidden(), from, ParentCur(), transactionIt.value);
      }
    }

    method NextOfParent()
      requires Valid() && Ok() && Current().Some? && curIsParent
      modifies Repr
      ensures Valid() && Ok() && from == After(old(Current()).value)
      decreases depth, 2
    {
      hide Valid, ParentCur, ParentFrom, ParentOk, ParentKeys, IsFirst, Current;
      Advance();
      Apart();
      ParentNext();
      label Moved:
      from := After(parentKey);
      OnlyThis@Moved();
      SkipDeletedAndOverwritten();
      DecideCur();
    }

    method NextOfTransaction()
      requires Valid() && Ok() && Current().Some? && !curIsParent
      modifies this
      ensures Valid() && Ok() && from == After(old(Current()).value)
    {
      hide Valid, ParentCur, ParentFrom, ParentOk, ParentKeys, IsFirst, Current;
      Advance();
      Apart();
      from := After(transactionIt.value);
      transactionIt := FirstFrom(transaction.writes.Keys, After(transactionIt.value));
      OnlyThis();
      DecideCur();
    }

    method Next()
      requires Valid() && Ok()
      modifies Repr
      ensures Valid() && Ok() && Target() == old(Target())
      ensures if old(Current()).Some? then from == After(old(Current()).value) else from == old(from) && Current().None?
      decreases depth, 3
    {
      hide Valid, ParentCur, ParentFrom, ParentOk, ParentKeys, IsFirst, Current, Ok, Target;
      Apart();
      var valid := IsValid();
      if !valid { return; }
      if curIsParent { NextOfParent(); } else { NextOfTransaction(); }
      OnlyIterators();
    }

    method ParentSeek(k: Key)
      requires Valid()
      modifies Repr - {this}
      ensures Valid() && ParentOk() && ParentFrom() == From(k)
      ensures ParentKeys() == old(ParentKeys()) && Hidden() == old(Hidden())
      decreases depth, 0
    {
      if parentIt == null { dbIt.Seek(k); } else { parentIt.Seek(k); }
      OnlyIterators();
    }

    method Seek(k: Key)
      requires Valid()
      modifies Repr
      ensures Valid() && Ok() && from == From(k) && Target() == old(Target())
      decreases depth, 2
    {
      hide Valid, ParentCur, ParentFrom, ParentOk, ParentKeys, IsFirst, Current;
      Apart();
      ParentSeek(k);
      label Moved:
      from := From(k);
      transactionIt := FirstFrom(transaction.writes.Keys, From(k));
      OnlyThis@Moved();
      SkipDeletedAndOverwritten();
      DecideCur();
      OnlyIterators();
    }

    method ParentSeekToFirst()
      requires Valid()
      modifies Repr - {this}
      ensures Valid() && ParentOk() && ParentFrom() == All
      ensures ParentKeys() == old(ParentKeys()) && Hidden() == old(Hidden())
      decreases depth, 0
    {
      if parentIt == null { dbIt.SeekToFirst(); } else { parentIt.SeekToFirst(); }
      OnlyIterators();
    }

    method SeekToFirst()
      requires Valid()
      modifies Repr
      ensures Valid() && Ok() && from == All && Target() == old(Target())
      decreases depth, 2
    {
      hide Valid, ParentCur, ParentFrom, ParentOk, ParentKeys, IsFirst, Current;
      Apart();
      ParentSeekToFirst();
      label Moved:
      from := All;
      transactionIt := FirstFrom(transaction.writes.Keys, All);
      OnlyThis@Moved();
      SkipDeletedAndOverwritten();
      DecideCur();
      OnlyIterators();
    }
  }

  // ---------------------------------------------------------------- a whole iteration

  predicate Increasing(q: seq<Key>) {
    forall i, j :: 0 <= i < j < |q| ==> Less(q[i], q[j])
  }

  /** The same without the comparator: byte by byte. */
  predicate InByteOrder(q: seq<Key>) {
    forall i, j :: 0 <= i < j < |q| ==> BytesBefore(q[i], q[j])
  }

  predicate Reached(b: Bound, x: Key) {
    match b
    case All => true
    case From(k) => x == k || BytesBefore(k, x)
    case After(k) => BytesBefore(k, x)
  }

  lemma ByteOrder(keys: set<Key>, b: Bound, q: seq<Key>)
    requires Increasing(q) && forall x :: x in q <==> x in keys && Above(b, x)
    ensures InByteOrder(q) && forall x :: x in q <==> x in keys && Reached(b, x)
  {
    hide Less, BytesBefore;
    forall i, j | 0 <= i < j < |q| ensures BytesBefore(q[i], q[j]) { LessExactly(q[i], q[j]); }
    forall x ensures Above(b, x) <==> Reached(b, x) {
      if !b.All? { LessExactly(b.key, x); }
    }
  }

  /** The keys listed so far are those of the map from `b` on that are not still to come after `rest`. */
  ghost predicate Listed(keys: set<Key>, b: Bound, q: seq<Key>, rest: Bound) {
    && Increasing(q)
    && (forall x :: x in q <==> x in keys && Above(b, x) && !Above(rest, x))
    && (forall x :: x in keys && Above(rest, x) ==> Above(b, x))
  }

  lemma ListedNext(keys: set<Key>, b: Bound, q: seq<Key>, rest: Bound, k: Key)
    requires Listed(keys, b, q, rest) && IsFirst(keys, rest, Some(k))
    ensures Listed(keys, b, q + [k], After(k))
  {
    hide Less;
    LessIrreflexive(k);
    forall i | 0 <= i < |q| ensures Less(q[i], k) {
      assert q[i] in q;
      LessTotal(q[i], k);
      if Less(k, q[i]) { AboveUp(rest, k, q[i]); }
    }
    forall x ensures x in q + [k] <==> x in keys && Above(b, x) && !Less(k, x) {
      assert x in q + [k] <==> x in q || x == k;
      if x in q {
        var i :| 0 <= i < |q| && q[i] == x;
        if Less(k, x) { LessTransitive(k, x, k); }
      }
    }
    forall x | x in keys && Less(k, x) ensures Above(b, x) { AboveUp(rest, k, x); }
  }

  /** Seek, then Next while the iterator is valid: every key of the transaction's view from `b` on comes exactly once,
      in strictly increasing byte order, with the value the transaction has for it. */
  method Scan(it: TransactionIterator, b: Bound) returns (keys: seq<Key>, values: seq<Value>)
    requires it.Valid() && !b.After?
    modifies it.Repr
    ensures it.Valid() && it.Target() == old(it.Target())
    ensures InByteOrder(keys) && (forall x :: x in keys <==> x in it.Target() && Reached(b, x))
    ensures |values| == |keys| && forall i :: 0 <= i < |keys| ==> values[i] == it.Target()[keys[i]]
  {
    hide Less, Above, IsFirst, Listed, TransactionIterator.Valid, TransactionIterator.Ok, TransactionIterator.Current,
         TransactionIterator.Target, Increasing, InByteOrder, Reached;
    keys, values := [], [];
    ghost var view := it.Target();
    match b { case From(k) => it.Seek(k); case All => it.SeekToFirst(); }
    NothingListed(view.Keys, b);
    it.CurrentIsFirst();
    var valid := it.IsValid();
    while valid
      invariant it.Valid() && it.Ok() && it.Target() == view && valid == it.Current().Some?
      invariant IsFirst(view.Keys, it.from, it.Current()) && Listed(view.Keys, b, keys, it.from)
      invariant |values| == |keys| && forall i :: 0 <= i < |keys| ==> keys[i] in view && values[i] == view[keys[i]]
      decreases |Remaining(view.Keys, it.from)|
    {
      var k := it.GetKey();
      var v := it.GetValue();
      ListedNext(view.Keys, b, keys, it.from, k);
      StepRemaining(view.Keys, it.from, k);
      FirstIsIn(view.Keys, it.from, k);
      keys, values := keys + [k], values + [v.value];
      it.Next();
      it.CurrentIsFirst();
      valid := it.IsValid();
    }
    AllListed(view.Keys, b, keys, it.from);
    ByteOrder(view.Keys, b, keys);
  }

  /** A new iterator over a transaction, with one over each transaction below it, walks the transaction's whole view
      from `b` on and leaves all of them as they are. */
  method Walk(transaction: Transaction, b: Bound) returns (keys: seq<Key>, values: seq<Value>)
    requires transaction.Valid() && !b.After?
    ensures InByteOrder(keys) && (forall x :: x in keys <==> x in transaction.View() && Reached(b, x))
    ensures |values| == |keys| && forall i :: 0 <= i < |keys| ==> values[i] == transaction.View()[keys[i]]
  {
    hide InByteOrder, Reached;
    var it := TransactionIterator.New(transaction);
    keys, values := Scan(it, b);
  }

  lemma FirstIsIn(keys: set<Key>, b: Bound, k: Key)
    requires IsFirst(keys, b, Some(k))
    ensures k in keys
  {
  }

  lemma NothingListed(keys: set<Key>, b: Bound)
    ensures Listed(keys, b, [], b)
  {
  }

  lemma AllListed(keys: set<Key>, b: Bound, q: seq<Key>, rest: Bound)
    requires Listed(keys, b, q, rest) && IsFirst(keys, rest, None)
    ensures Increasing(q) && forall x :: x in q <==> x in keys && Above(b, x)
  {
  }

  lemma ViewKeys(below: Store, writes: map<Key, Value>, deletes: set<Key>)
    ensures Overlay(below, writes, deletes).Keys == writes.Keys + (below.Keys - (deletes + writes.Keys))
  {
  }
}
