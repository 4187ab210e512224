/**
 Database transactions: writes and deletions are collected over a parent, which is the database or another transaction,
 and committed to the parent or, at the bottom, to a batch for the database.  Reading through any stack of transactions
 is reading one map to which all the operations have been applied.
 */
module DbTransaction {
  import opened DbKeys

  /** A value in its serialized form. */
  type Value = seq<Byte>

  type Store = map<Key, Value>

  function Overlay(below: Store, writes: map<Key, Value>, deletes: set<Key>): Store {
    (below - deletes) + writes
  }

  lemma OverlayWrite(below: Store, writes: map<Key, Value>, deletes: set<Key>, k: Key, v: Value)
    ensures Overlay(below, writes[k := v], deletes - {k}) == Overlay(below, writes, deletes)[k := v]
    ensures Overlay(below, writes[k := v], deletes) == Overlay(below, writes, deletes)[k := v]
    ensures k !in deletes ==> deletes - {k} == deletes
  {
  }

  lemma OverlayNothing(below: Store)
    ensures Overlay(below, map[], {}) == below
  {
  }

  lemma OverlayErase(below: Store, writes: map<Key, Value>, deletes: set<Key>, k: Key)
    ensures Overlay(below, writes - {k}, deletes + {k}) == Overlay(below, writes, deletes) - {k}
    ensures k in deletes ==> deletes + {k} == deletes
    ensures k !in writes ==> writes - {k} == writes
  {
  }

  lemma DeletionShows(deletes: set<Key>, k: Key)
    requires k in deletes
    ensures Overlay(map[k := []], map[], deletes) != map[k := []]
  {
    assert k !in Overlay(map[k := []], map[], deletes);
  }

  function Get(m: Store, k: Key): Option<Value> {
    if k in m then Some(m[k]) else None
  }

  lemma GetExactly(m: Store, k: Key, v: Value)
    ensures Get(m, k) == Some(v) <==> k in m && m[k] == v
    ensures Get(m, k) == None <==> k !in m
  {
  }

  // ---------------------------------------------------------------- memory accounting

  ghost function WriteUsage(writes: map<Key, Value>): nat
    decreases |writes|
  {
    if writes == map[] then 0 else var k :| k in writes; |k| + |writes[k]| + WriteUsage(writes - {k})
  }

  ghost function DeleteUsage(deletes: set<Key>): nat {
    if deletes == {} then 0 else var k :| k in deletes; |k| + DeleteUsage(deletes - {k})
  }

  lemma UsageNothing()
    ensures WriteUsage(map[]) == 0 && DeleteUsage({}) == 0
  {
  }

  lemma {:induction false} WriteUsageRemove(writes: map<Key, Value>, k: Key)
    requires k in writes
    ensures WriteUsage(writes) == |k| + |writes[k]| + WriteUsage(writes - {k})
    decreases |writes|
  {
    var p :| p in writes && WriteUsage(writes) == |p| + |writes[p]| + WriteUsage(writes - {p});
    if p != k {
      WriteUsageRemove(writes - {p}, k);
      WriteUsageRemove(writes - {k}, p);
      assert writes - {p} - {k} == writes - {k} - {p};
    }
  }

  lemma WriteUsageUpdate(writes: map<Key, Value>, k: Key, v: Value)
    ensures WriteUsage(writes[k := v]) == WriteUsage(writes - {k}) + |k| + |v|
    ensures WriteUsage(writes - {k}) == WriteUsage(writes) - if k in writes then |k| + |writes[k]| else 0
  {
    WriteUsageRemove(writes[k := v], k);
    assert writes[k := v] - {k} == writes - {k};
    if k in writes { WriteUsageRemove(writes, k); } else { assert writes - {k} == writes; }
  }

  lemma {:induction false} DeleteUsageRemove(deletes: set<Key>, k: Key)
    requires k in deletes
    ensures DeleteUsage(deletes) == |k| + DeleteUsage(deletes - {k})
    decreases |deletes|
  {
    var p :| p in deletes && DeleteUsage(deletes) == |p| + DeleteUsage(deletes - {p});
    if p != k {
      DeleteUsageRemove(deletes - {p}, k);
      DeleteUsageRemove(deletes - {k}, p);
      assert deletes - {p} - {k} == deletes - {k} - {p};
    }
  }

  lemma DeleteUsageWithout(deletes: set<Key>, k: Key)
    ensures DeleteUsage(deletes - {k}) == DeleteUsage(deletes) - if k in deletes then |k| else 0
  {
    hide DeleteUsage;
    if k in deletes { DeleteUsageRemove(deletes, k); } else { assert deletes - {k} == deletes; }
  }

  lemma DeleteUsageWith(deletes: set<Key>, k: Key)
    ensures DeleteUsage(deletes + {k}) == DeleteUsage(deletes - {k}) + |k|
  {
    hide DeleteUsage;
    DeleteUsageRemove(deletes + {k}, k);
    assert deletes + {k} - {k} == deletes - {k};
  }

  // ---------------------------------------------------------------- the database and its batch

  datatype BatchOp = Put(key: Key, value: Value) | Delete(key: Key)

  function ApplyOne(op: BatchOp, m: Store): Store {
    if op.Put? then m[op.key := op.value] else m - {op.key}
  }

  function Apply(ops: seq<BatchOp>, m: Store): Store {
    if ops == [] then m else ApplyOne(ops[|ops| - 1], Apply(ops[..|ops| - 1], m))
  }

  class Database {
    var data: Store

    constructor (data: Store)
      ensures this.data == data
    {
      this.data := data;
    }

    method Read(k: Key) returns (r: Option<Value>)
      ensures r == Get(data, k)
    {
      r := Get(data, k);
    }

    method WriteBatch(batch: Batch)
      modifies this
      ensures data == Apply(batch.ops, old(data))
    {
      ghost var before := data;
      for i := 0 to |batch.ops|
        invariant data == Apply(batch.ops[..i], before)
      {
        assert batch.ops[..i + 1][..i] == batch.ops[..i];
        match batch.ops[i]
        case Put(k, v) => data := data[k := v];
        case Delete(k) => data := data - {k};
      }
      assert batch.ops[..|batch.ops|] == batch.ops;
    }
  }

  class Batch {
    var ops: seq<BatchOp>

    constructor ()
      ensures ops == []
    {
      ops := [];
    }

    method Write(k: Key, v: Value)
      modifies this
      ensures ops == old(ops) + [Put(k, v)]
    {
      ops := ops + [Put(k, v)];
    }

    method Erase(k: Key)
      modifies this
      ensures ops == old(ops) + [Delete(k)]
    {
      ops := ops + [Delete(k)];
    }

    method Clear()
      modifies this
      ensures ops == []
    {
      ops := [];
    }
  }

  // ---------------------------------------------------------------- transactions

  class Transaction {
    const parent: Transaction?   // the transaction below, null when the parent is the database
    const db: Database           // the database at the bottom of the stack
    const batch: Batch           // where the transaction at the bottom commits to
    ghost const Repr: set<object>
    ghost const depth: nat

    var writes: map<Key, Value>
    var deletes: set<Key>
    var memoryUsage: int

    ghost predicate Stacked()
      decreases depth
    {
      && this in Repr && db in Repr
      && batch !in Repr
      && (parent == null ==> Repr == {this, db})
      && (parent != null ==> parent.db == db && parent.batch == batch && parent.depth < depth && parent.Stacked() &&
                             this !in parent.Repr && Repr == parent.Repr + {this})
    }

    ghost function Below(): Store
      requires Stacked()
      reads Repr
      decreases depth, 0
    {
      if parent == null then db.data else parent.View()
    }

    /** What this transaction and everything below it say together. */
    ghost function View(): Store
      requires Stacked()
      reads Repr
      decreases depth, 1
    {
      Overlay(Below(), writes, deletes)
    }

    ghost predicate Valid()
      reads Repr
      decreases depth
    {
      && Stacked()
      && (forall k :: k in writes ==> k !in deletes)
      && memoryUsage == WriteUsage(writes) + DeleteUsage(deletes)
      && (parent != null ==> parent.Valid())
    }

    /** A change to this transaction alone leaves everything below as it was. */
    twostate lemma OnlyThis()
      requires Stacked() && unchanged(Repr - {this})
      requires parent != null ==> old(parent.Valid())
      ensures Below() == old(Below()) && (parent != null ==> parent.Valid())
    {
    }

    constructor OnDatabase(db: Database, batch: Batch)
      ensures Valid() && parent == null && this.db == db && this.batch == batch && writes == map[] && deletes == {}
      ensures View() == db.data && fresh(Repr - {db})
    {
      parent, this.db, this.batch, depth := null, db, batch, 0;
      Repr := {this, db};
      writes, deletes, memoryUsage := map[], {}, 0;
      new;
      assert batch as object != this && batch as object != db;
    }

    constructor OnTransaction(parent: Transaction)
      requires parent.Valid()
      ensures Valid() && this.parent == parent && db == parent.db && writes == map[] && deletes == {}
      ensures View() == parent.View() && fresh(Repr - parent.Repr)
    {
      this.parent, db, batch, depth := parent, parent.db, parent.batch, parent.depth + 1;
      Repr := parent.Repr + {this};
      writes, deletes, memoryUsage := map[], {}, 0;
    }

    method Write(k: Key, v: Value)
      requires Valid()
      modifies this
      ensures Valid() && Below() == old(Below()) && View() == old(View())[k := v]
      ensures writes == old(writes)[k := v] && deletes == old(deletes) - {k}
    {
      hide Overlay, WriteUsage, DeleteUsage;
      DeleteUsageWithout(deletes, k);
      WriteUsageUpdate(writes, k, v);
      OverlayWrite(Below(), writes, deletes, k, v);
      if k in deletes {
        deletes := deletes - {k};
        memoryUsage := memoryUsage - |k|;
      }
      if k in writes {
        memoryUsage := memoryUsage - (|k| + |writes[k]|);
      }
      writes := writes[k := v];
      memoryUsage := memoryUsage + (|k| + |v|);
      OnlyThis();
    }

    method Erase(k: Key)
      requires Valid()
      modifies this
      ensures Valid() && Below() == old(Below()) && View() == old(View()) - {k}
      ensures writes == old(writes) - {k} && deletes == old(deletes) + {k}
    {
      hide Overlay, WriteUsage, DeleteUsage;
      DeleteUsageWithout(deletes, k);
      DeleteUsageWith(deletes, k);
      WriteUsageUpdate(writes, k, []);
      OverlayErase(Below(), writes, deletes, k);
      if k in writes {
        memoryUsage := memoryUsage - (|k| + |writes[k]|);
        writes := writes - {k};
      }
      if k !in deletes {
        deletes := deletes + {k};
        memoryUsage := memoryUsage + |k|;
      }
      OnlyThis();
    }

    method Read(k: Key) returns (r: Option<Value>)
      requires Valid()
      ensures r == Get(View(), k)
      decreases depth
    {
      if k in deletes { return None; }
      if k in writes { return Some(writes[k]); }
      if parent == null {
        r := db.Read(k);
      } else {
        r := parent.Read(k);
      }
    }

    method Exists(k: Key) returns (r: bool)
      requires Valid()
      ensures r == (k in View())
      decreases depth
    {
      if k in deletes { return false; }
      if k in writes { return true; }
      if parent == null {
        var v := db.Read(k);
        r := v.Some?;
      } else {
        r := parent.Exists(k);
      }
    }

    method Clear()
      requires Valid()
      modifies this
      ensures Valid() && Below() == old(Below()) && View() == Below() && IsClean()
    {
      writes, deletes, memoryUsage := map[], {}, 0;
      OnlyThis();
    }

    predicate IsClean()
      reads this
    {
      writes == map[] && deletes == {}
    }

    /** A transaction is clean exactly if it would change nothing, whatever is below. */
    lemma CleanExactly()
      ensures IsClean() <==> forall below :: Overlay(below, writes, deletes) == below
    {
      if forall below :: Overlay(below, writes, deletes) == below {
        assert Overlay(map[], writes, deletes) == writes;
        if k :| k in deletes { DeletionShows(deletes, k); }
      }
      if IsClean() {
        forall below ensures Overlay(below, writes, deletes) == below { OverlayNothing(below); }
      }
    }

    /** A memory usage that is reported is never a corrected negative one. */
    method GetMemoryUsage() returns (n: int)
      requires Valid()
      ensures 0 <= n == memoryUsage == WriteUsage(writes) + DeleteUsage(deletes)
    {
      if memoryUsage < 0 { return 0; }
      return memoryUsage;
    }

    /** The parent comes to say what this transaction has said. */
    method CommitToParent()
      requires Valid() && parent != null
      modifies this, parent
      ensures Valid() && IsClean() && View() == old(View())
      ensures parent.View() == old(View()) && parent.Below() == old(parent.Below())
    {
      hide Overlay, WriteUsage, DeleteUsage;
      ghost var below := parent.View();
      OverlayNothing(below);
      var todo := deletes;
      assert deletes - todo == {};
      while todo != {}
        invariant todo <= deletes && parent.Valid() && unchanged(this) && parent.Below() == old(parent.Below())
        invariant parent.View() == Overlay(below, map[], deletes - todo)
      {
        var k :| k in todo;
        OverlayErase(below, map[], deletes - todo, k);
        assert deletes - (todo - {k}) == (deletes - todo) + {k};
        parent.Erase(k);
        todo := todo - {k};
      }
      assert deletes - todo == deletes;
      var left := writes.Keys;
      assert writes - left == map[];
      while left != {}
        invariant left <= writes.Keys && parent.Valid() && unchanged(this) && parent.Below() == old(parent.Below())
        invariant parent.View() == Overlay(below, writes - left, deletes)
      {
        var k :| k in left;
        OverlayWrite(below, writes - left, deletes, k, writes[k]);
        assert writes - (left - {k}) == (writes - left)[k := writes[k]];
        parent.Write(k, writes[k]);
        left := left - {k};
      }
      assert writes - left == writes;
      Clear();
    }

    /** The batch does to any store what it did before, and then what this transaction holds. */
    method CommitToBatch()
      requires Valid() && parent == null
      modifies this, batch
      ensures Valid() && IsClean()
      ensures Means(batch.ops, old(batch.ops), old(writes), old(deletes))
    {
      hide Overlay, WriteUsage, DeleteUsage, Means;
      ghost var before := batch.ops;
      MeansNothing(before);
      var todo := deletes;
      assert deletes - todo == {};
      while todo != {}
        invariant todo <= deletes && unchanged(this) && Valid()
        invariant Means(batch.ops, before, map[], deletes - todo)
      {
        var k :| k in todo;
        MeansDelete(batch.ops, before, map[], deletes - todo, k);
        assert deletes - (todo - {k}) == (deletes - todo) + {k};
        batch.Erase(k);
        todo := todo - {k};
      }
      assert deletes - todo == deletes;
      var left := writes.Keys;
      assert writes - left == map[];
      while left != {}
        invariant left <= writes.Keys && unchanged(this) && Valid()
        invariant Means(batch.ops, before, writes - left, deletes)
      {
        var k :| k in left;
        MeansPut(batch.ops, before, writes - left, deletes, k, writes[k]);
        assert writes - (left - {k}) == (writes - left)[k := writes[k]];
        batch.Write(k, writes[k]);
        left := left - {k};
      }
      assert writes - left == writes;
      Clear();
    }
  }

  ghost predicate Means(ops: seq<BatchOp>, before: seq<BatchOp>, writes: map<Key, Value>, deletes: set<Key>) {
    forall m: Store :: Apply(ops, m) == Overlay(Apply(before, m), writes, deletes)
  }

  lemma MeansNothing(ops: seq<BatchOp>)
    ensures Means(ops, ops, map[], {})
  {
    forall m: Store ensures Apply(ops, m) == Overlay(Apply(ops, m), map[], {}) { OverlayNothing(Apply(ops, m)); }
  }

  lemma ApplyNext(ops: seq<BatchOp>, op: BatchOp, m: Store)
    ensures Apply(ops + [op], m) == ApplyOne(op, Apply(ops, m))
  {
    assert (ops + [op])[..|ops|] == ops;
  }

  lemma MeansPut(ops: seq<BatchOp>, before: seq<BatchOp>, writes: map<Key, Value>, deletes: set<Key>, k: Key, v: Value)
    requires Means(ops, before, writes, deletes)
    ensures Means(ops + [Put(k, v)], before, writes[k := v], deletes)
  {
    hide Overlay;
    forall m: Store ensures Apply(ops + [Put(k, v)], m) == Overlay(Apply(before, m), writes[k := v], deletes) {
      ApplyNext(ops, Put(k, v), m);
      OverlayWrite(Apply(before, m), writes, deletes, k, v);
    }
  }

  lemma MeansDelete(ops: seq<BatchOp>, before: seq<BatchOp>, writes: map<Key, Value>, deletes: set<Key>, k: Key)
    requires Means(ops, before, writes, deletes) && k !in writes
    ensures Means(ops + [Delete(k)], before, writes, deletes + {k})
  {
    hide Overlay;
    forall m: Store ensures Apply(ops + [Delete(k)], m) == Overlay(Apply(before, m), writes, deletes + {k}) {
      ApplyNext(ops, Delete(k), m);
      OverlayErase(Apply(before, m), writes, deletes, k);
    }
  }

  // ---------------------------------------------------------------- scoped transactions over the database

  datatype Op = Write(key: Key, value: Value) | Erase(key: Key)

  /** A scope does some operations and commits or rolls back, at the latest when it is left; between scopes
      everything committed so far can be flushed to the database. */
  datatype Action = Scope(ops: seq<Op>, commits: bool) | Flush

  function Perform(m: Store, ops: seq<Op>): Store {
    if ops == [] then m
    else
      var before := Perform(m, ops[..|ops| - 1]);
      match ops[|ops| - 1]
      case Write(k, v) => before[k := v]
      case Erase(k) => before - {k}
  }

  /** The last operation on a key decides; a key without one is as before. */
  lemma {:induction false} LastDecides(m: Store, ops: seq<Op>, k: Key, i: nat)
    requires i <= |ops| && (forall j :: i <= j < |ops| ==> ops[j].key != k) && (i > 0 ==> ops[i - 1].key == k)
    ensures Get(Perform(m, ops), k) ==
      if i == 0 then Get(m, k) else if ops[i - 1].Write? then Some(ops[i - 1].value) else None
  {
    if i < |ops| {
      LastDecides(m, ops[..|ops| - 1], k, i);
    }
  }

  /** What is visible and what is on disk. */
  datatype Contents = Contents(visible: Store, disk: Store)

  function Act(c: Contents, a: Action): Contents {
    match a
    case Scope(ops, commits) => if commits then c.(visible := Perform(c.visible, ops)) else c
    case Flush => c.(disk := c.visible)
  }

  function ActAll(c: Contents, actions: seq<Action>): Contents {
    if actions == [] then c else Act(ActAll(c, actions[..|actions| - 1]), actions[|actions| - 1])
  }

  /** The actions without the scopes that are rolled back. */
  function Lasting(actions: seq<Action>): seq<Action> {
    if actions == [] then []
    else
      var front, last := Lasting(actions[..|actions| - 1]), actions[|actions| - 1];
      if last.Scope? && !last.commits then front else front + [last]
  }

  /** A scope that is rolled back might as well not have been entered; one that commits shows at once, and is on disk
      after the next flush. */
  lemma {:induction false} OnlyCommitsLast(c: Contents, actions: seq<Action>)
    ensures ActAll(c, actions) == ActAll(c, Lasting(actions))
  {
    if actions != [] {
      OnlyCommitsLast(c, actions[..|actions| - 1]);
      var front, last := Lasting(actions[..|actions| - 1]), actions[|actions| - 1];
      if !(last.Scope? && !last.commits) { assert (front + [last])[..|front|] == front; }
    }
  }

  lemma CommitShows(c: Contents, ops: seq<Op>)
    ensures ActAll(c, [Scope(ops, true)]) == Contents(Perform(c.visible, ops), c.disk)
    ensures ActAll(c, [Scope(ops, true), Flush]) == Contents(Perform(c.visible, ops), Perform(c.visible, ops))
  {
    assert [Scope(ops, true)][..0] == [];
    assert [Scope(ops, true), Flush][..1] == [Scope(ops, true)];
  }

  class ScopedTransaction {
    const dbTransaction: Transaction
    var didCommitOrRollback: bool

    ghost predicate Apart() { this !in dbTransaction.Repr }

    constructor (dbTransaction: Transaction)
      requires dbTransaction.IsClean()
      ensures this.dbTransaction == dbTransaction && !didCommitOrRollback && Apart()
    {
      this.dbTransaction := dbTransaction;
      didCommitOrRollback := false;
    }

    method Commit()
      requires Apart() && dbTransaction.Valid() && dbTransaction.parent != null && !didCommitOrRollback
      modifies this, dbTransaction, dbTransaction.parent
      ensures didCommitOrRollback && dbTransaction.Valid() && dbTransaction.IsClean()
      ensures dbTransaction.View() == old(dbTransaction.View()) == dbTransaction.parent.View()
    {
      didCommitOrRollback := true;
      dbTransaction.CommitToParent();
    }

    method Rollback()
      requires Apart() && dbTransaction.Valid() && !didCommitOrRollback
      modifies this, dbTransaction
      ensures didCommitOrRollback && dbTransaction.Valid() && dbTransaction.IsClean()
      ensures dbTransaction.View() == dbTransaction.Below() == old(dbTransaction.Below())
    {
      didCommitOrRollback := true;
      dbTransaction.Clear();
    }

    /** The destructor. */
    method Leave()
      requires Apart() && dbTransaction.Valid()
      modifies this, dbTransaction
      ensures didCommitOrRollback && dbTransaction.Valid() && dbTransaction.Below() == old(dbTransaction.Below())
      ensures dbTransaction.View() ==
        if old(didCommitOrRollback) then old(dbTransaction.View()) else dbTransaction.Below()
      ensures old(didCommitOrRollback && dbTransaction.IsClean()) || !old(didCommitOrRollback) ==>
        dbTransaction.IsClean()
    {
      if !didCommitOrRollback { Rollback(); }
    }
  }

  class EvoDB {
    const db: Database
    const rootBatch: Batch
    const root: Transaction
    const cur: Transaction

    ghost predicate Valid()
      reads this, cur.Repr, rootBatch
    {
      && cur.Valid() && cur.parent == root && root.parent == null
      && cur.db == db && cur.batch == rootBatch
      && cur.IsClean() && rootBatch.ops == []
    }

    ghost function View(): Contents
      requires Valid()
      reads this, cur.Repr, rootBatch
    {
      Contents(cur.View(), db.data)
    }

    constructor (data: Store)
      ensures Valid() && View() == Contents(data, data) && fresh(cur.Repr) && fresh(rootBatch)
    {
      var d := new Database(data);
      var b := new Batch();
      var r := new Transaction.OnDatabase(d, b);
      var c := new Transaction.OnTransaction(r);
      db, rootBatch, root, cur := d, b, r, c;
    }

    method RunScope(ops: seq<Op>, commits: bool)
      requires Valid()
      modifies root, cur
      ensures Valid() && View() == Act(old(View()), Scope(ops, commits))
    {
      hide Overlay;
      var scope := new ScopedTransaction(cur);
      ghost var before := cur.View();
      OverlayNothing(cur.Below());
      for i := 0 to |ops|
        invariant cur.Valid() && cur.Below() == old(cur.Below()) && cur.View() == Perform(before, ops[..i])
        invariant unchanged(root, db, rootBatch) && !scope.didCommitOrRollback
      {
        assert ops[..i + 1][..i] == ops[..i];
        match ops[i]
        case Write(k, v) => cur.Write(k, v);
        case Erase(k) => cur.Erase(k);
      }
      assert ops[..|ops|] == ops;
      if commits { scope.Commit(); }
      scope.Leave();
    }

    method CommitRootTransaction()
      requires Valid()
      modifies root, rootBatch, db
      ensures Valid() && View() == Act(old(View()), Flush)
    {
      hide Overlay;
      ghost var data := db.data;
      OverlayNothing(root.View());
      assert cur.View() == Overlay(cur.Below(), map[], {}) == root.View();
      root.CommitToBatch();
      assert Apply([], data) == data;
      assert Apply(rootBatch.ops, data) == Overlay(Apply([], data), old(root.writes), old(root.deletes));
      db.WriteBatch(rootBatch);
      rootBatch.Clear();
      assert root.Valid();
      assert cur.Valid();
      OverlayNothing(db.data);
      OverlayNothing(root.View());
      assert root.View() == db.data == old(root.View());
      assert cur.View() == root.View();
    }

    method Run(actions: seq<Action>)
      requires Valid()
      modifies root, cur, rootBatch, db
      ensures Valid() && View() == ActAll(old(View()), actions)
    {
      hide Overlay, Act;
      for i := 0 to |actions|
        invariant Valid() && View() == ActAll(old(View()), actions[..i])
      {
        assert actions[..i + 1][..i] == actions[..i];
        match actions[i]
        case Scope(ops, commits) => RunScope(ops, commits);
        case Flush => CommitRootTransaction();
      }
      assert actions[..|actions|] == actions;
    }
  }
}
