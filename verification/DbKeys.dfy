/**
 Serialized keys in the order of the database: byte strings compared byte by byte.
 */
module DbKeys {

  type Byte = b: int | 0 <= b < 256

  type Key = seq<Byte>

  datatype Option<T> = None | Some(value: T)

  predicate Less(a: Key, b: Key) {
    b != [] && (a == [] || a[0] < b[0] || (a[0] == b[0] && Less(a[1..], b[1..])))
  }

  lemma {:induction false} LessIrreflexive(a: Key)
    ensures !Less(a, a)
  {
    if a != [] { LessIrreflexive(a[1..]); }
  }

  lemma {:induction false} LessTransitive(a: Key, b: Key, c: Key)
    requires Less(a, b) && Less(b, c)
    ensures Less(a, c)
  {
    if a != [] && a[0] == b[0] == c[0] { LessTransitive(a[1..], b[1..], c[1..]); }
  }

  lemma {:induction false} LessTotal(a: Key, b: Key)
    ensures a == b || Less(a, b) || Less(b, a)
  {
    if a != [] && b != [] && a[0] == b[0] {
      LessTotal(a[1..], b[1..]);
      assert a == [a[0]] + a[1..] && b == [b[0]] + b[1..];
    }
  }

  /** The order of byte strings without recursion: a prefix comes first, and otherwise the first byte that differs
      decides. */
  predicate BytesBefore(a: Key, b: Key) {
    || (|a| < |b| && a == b[..|a|])
    || exists i :: 0 <= i < |a| && i < |b| && FirstDifference(a, b, i) && a[i] < b[i]
  }

  predicate FirstDifference(a: Key, b: Key, i: nat)
    requires i < |a| && i < |b|
  {
    a[..i] == b[..i] && a[i] != b[i]
  }

  lemma {:induction false} LessExactly(a: Key, b: Key)
    ensures Less(a, b) <==> BytesBefore(a, b)
  {
    if a != [] && b != [] {
      if a[0] == b[0] {
        LessExactly(a[1..], b[1..]);
        BeforeTail(a, b);
      } else {
        assert FirstDifference(a, b, 0);
      }
    }
  }

  lemma BeforeTail(a: Key, b: Key)
    requires a != [] && b != [] && a[0] == b[0]
    ensures BytesBefore(a, b) <==> BytesBefore(a[1..], b[1..])
  {
    assert a == [a[0]] + a[1..] && b == [b[0]] + b[1..];
    if i :| 0 <= i < |a| && i < |b| && FirstDifference(a, b, i) && a[i] < b[i] {
      assert a[1..][..i - 1] == a[..i][1..] && b[1..][..i - 1] == b[..i][1..];
      assert FirstDifference(a[1..], b[1..], i - 1);
    }
    if i :| 0 <= i < |a| - 1 && i < |b| - 1 && FirstDifference(a[1..], b[1..], i) && a[1..][i] < b[1..][i] {
      assert a[..i + 1] == [a[0]] + a[1..][..i] && b[..i + 1] == [b[0]] + b[1..][..i];
      assert FirstDifference(a, b, i + 1);
    }
    if |a| < |b| {
      assert b[..|a|] == [b[0]] + b[1..][..|a| - 1];
    }
  }

  // ---------------------------------------------------------------- positions in an ordered set

  /** Where an iteration goes on: at the first key, at the first key not below one, at the first key beyond one. */
  datatype Bound = All | From(key: Key) | After(key: Key)

  predicate Above(b: Bound, x: Key) {
    match b
    case All => true
    case From(k) => x == k || Less(k, x)
    case After(k) => Less(k, x)
  }

  lemma AboveUp(b: Bound, x: Key, y: Key)
    requires Above(b, x) && Less(x, y)
    ensures Above(b, y)
  {
    if !b.All? && b.key != x { LessTransitive(b.key, x, y); }
    if b.After? { LessTransitive(b.key, x, y); }
  }

  /** `c` is the first key of the set within the bound, if there is one. */
  predicate IsFirst(keys: set<Key>, b: Bound, c: Option<Key>) {
    match c
    case None => forall x :: x in keys ==> !Above(b, x)
    case Some(k) => k in keys && Above(b, k) && forall x :: x in keys && Above(b, x) ==> x == k || Less(k, x)
  }

  function Smaller(c: Option<Key>, d: Option<Key>): Option<Key> {
    if c.None? then d else if d.None? || Less(c.value, d.value) then c else d
  }

  lemma SmallerIsFirst(keys: set<Key>, others: set<Key>, b: Bound, c: Option<Key>, d: Option<Key>)
    requires IsFirst(keys, b, c) && IsFirst(others, b, d)
    ensures IsFirst(keys + others, b, Smaller(c, d))
  {
    hide Less;
    if c.Some? && d.Some? {
      LessTotal(c.value, d.value);
      forall x | x in keys + others && Above(b, x) ensures x == Smaller(c, d).value || Less(Smaller(c, d).value, x) {
        if Less(c.value, d.value) && x in others && x != d.value { LessTransitive(c.value, d.value, x); }
        if Less(d.value, c.value) && x in keys && x != c.value { LessTransitive(d.value, c.value, x); }
      }
    }
  }

  /** Passing a key that is smaller than everything left in the set changes nothing. */
  lemma FirstStays(keys: set<Key>, b: Bound, c: Option<Key>, k: Key)
    requires IsFirst(keys, b, c) && Above(b, k) && (c.Some? ==> Less(k, c.value))
    ensures IsFirst(keys, After(k), c)
  {
    hide Less;
    forall x | x in keys && Less(k, x) ensures Above(b, x) { AboveUp(b, k, x); }
  }

  /** The first key of an ordered map within a bound: begin(), lower_bound() and the increment of an iterator. */
  method FirstFrom(keys: set<Key>, b: Bound) returns (c: Option<Key>)
    ensures IsFirst(keys, b, c)
  {
    c := None;
    var todo := keys;
    while todo != {}
      invariant todo <= keys && IsFirst(keys - todo, b, c)
    {
      var k :| k in todo;
      if Above(b, k) {
        SmallerIsFirst({k}, keys - todo, b, Some(k), c);
        c := Smaller(Some(k), c);
      }
      assert {k} + (keys - todo) == keys - (todo - {k});
      todo := todo - {k};
    }
    assert keys - todo == keys;
  }
}
