/** Python's `sorted` on a set of integers. */
module Sorting {
  import opened Lists

  ghost predicate Ascending(s: seq<int>) {
    forall i, j :: 0 <= i < j < |s| ==> s[i] < s[j]
  }

  ghost predicate Least(s: set<int>, x: int) {
    x in s && forall y :: y in s ==> x <= y
  }

  lemma LeastExists(s: set<int>)
    requires s != {}
    ensures exists x :: Least(s, x)
  {
    var x := Inhabitant(s);
    var rest := s - {x};
    assert s == rest + {x};
    if rest == {} {
      assert Least(s, x);
    } else {
      LeastExists(rest);
      var m :| Least(rest, m);
      assert Least(s, if x < m then x else m);
    }
  }

  function Sorted(s: set<int>): (r: seq<int>)
    ensures Ascending(r)
    ensures forall x :: x in r <==> x in s
  {
    if s == {} then []
    else
      LeastExists(s);
      var x :| x in s && forall y :: y in s ==> x <= y;
      [x] + Sorted(s - {x})
  }
}
