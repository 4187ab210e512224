/**
 Facts about finite sets that several modules share.
 */
module Sets {

  lemma SubsetSize<T>(a: set<T>, b: set<T>)
    requires a <= b
    ensures |a| <= |b|
  {
    assert b == a + (b - a);
    assert |b| == |a| + |b - a|;
  }

  lemma Inhabited(s: set<int>)
    ensures s == {} || exists x :: x in s
  {
    if forall x: int :: x !in s { assert s == {}; }
  }

  predicate IsLeast(ids: set<int>, m: int) {
    m in ids && forall y :: y in ids ==> m <= y
  }

  function Least(ids: set<int>): (m: int)
    requires ids != {}
    ensures IsLeast(ids, m)
  {
    LeastExists(ids);
    var m :| IsLeast(ids, m);
    m
  }

  lemma LeastExists(ids: set<int>)
    requires ids != {}
    ensures exists m :: IsLeast(ids, m)
    decreases |ids|
  {
    hide IsLeast;
    Inhabited(ids);
    var x :| x in ids;
    if ids - {x} == {} {
      LeastOf(ids, x, x);
    } else {
      LeastExists(ids - {x});
      var m :| IsLeast(ids - {x}, m);
      LeastOf(ids, x, m);
    }
  }

  lemma LeastOf(ids: set<int>, x: int, m: int)
    requires x in ids && if ids - {x} == {} then m == x else IsLeast(ids - {x}, m)
    ensures IsLeast(ids, if x < m then x else m)
  {
    forall y | y in ids ensures (if x < m then x else m) <= y { assert y == x || y in ids - {x}; }
  }
}
