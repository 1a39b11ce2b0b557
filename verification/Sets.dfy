/** Facts about finite sets of integers. */
module Sets {
  lemma SomeMember(s: set<int>)
    requires s != {}
    ensures exists x :: x in s
  {
    assert (forall x :: x !in s) ==> s == {};
  }

  lemma DisjointSizes(a: set<int>, b: set<int>)
    requires forall x :: x in a ==> x !in b
    ensures |a + b| == |a| + |b|
  {
    assert (forall x :: x !in a * b) ==> a * b == {};
  }

  lemma {:induction false} SubsetSize(a: set<int>, b: set<int>)
    requires a <= b
    ensures |a| <= |b|
    decreases a
  {
    if a != {} {
      SomeMember(a);
      var x :| x in a;
      SubsetSize(a - {x}, b - {x});
    }
  }
}
