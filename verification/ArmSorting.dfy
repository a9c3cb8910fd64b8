/** Sorting by a total order: the canonical order of a phi's arms. */
module ArmSorting {
  import opened Lists
  import opened IrFunctions

  ghost predicate TotalOrder(leq: (Arm, Arm) -> bool) {
    && (forall a, b :: leq(a, b) || leq(b, a))
    && (forall a, b :: leq(a, b) && leq(b, a) ==> a == b)
    && (forall a, b, c :: leq(a, b) && leq(b, c) ==> leq(a, c))
  }

  ghost predicate InOrder(leq: (Arm, Arm) -> bool, s: seq<Arm>) {
    forall i, j :: 0 <= i < j < |s| ==> leq(s[i], s[j])
  }

  function Insert(leq: (Arm, Arm) -> bool, a: Arm, s: seq<Arm>): (r: seq<Arm>)
    ensures multiset(r) == multiset(s) + multiset{a}
  {
    if s == [] then [a]
    else
      assert s == [s[0]] + s[1..];
      if leq(a, s[0]) then [a] + s else [s[0]] + Insert(leq, a, s[1..])
  }

  function Sorted(leq: (Arm, Arm) -> bool, s: seq<Arm>): (r: seq<Arm>)
    ensures multiset(r) == multiset(s)
  {
    if s == [] then [] else
      assert s == [s[0]] + s[1..];
      Insert(leq, s[0], Sorted(leq, s[1..]))
  }

  lemma BeforeAll(leq: (Arm, Arm) -> bool, a: Arm, s: seq<Arm>, r: seq<Arm>)
    requires TotalOrder(leq) && s != [] && InOrder(leq, s) && !leq(a, s[0])
      && multiset(r) == multiset(s[1..]) + multiset{a}
    ensures forall j :: 0 <= j < |r| ==> leq(s[0], r[j])
  {
    forall j | 0 <= j < |r|
      ensures leq(s[0], r[j])
    {
      assert r[j] in multiset(r);
      if r[j] != a {
        var k :| 0 <= k < |s[1..]| && s[1..][k] == r[j];
      }
    }
  }

  lemma FirstBefore(leq: (Arm, Arm) -> bool, a: Arm, s: seq<Arm>)
    requires TotalOrder(leq) && InOrder(leq, s) && (s != [] ==> leq(a, s[0]))
    ensures InOrder(leq, [a] + s)
  {
  }

  lemma {:induction false} InsertInOrder(leq: (Arm, Arm) -> bool, a: Arm, s: seq<Arm>)
    requires TotalOrder(leq) && InOrder(leq, s)
    ensures InOrder(leq, Insert(leq, a, s))
    decreases |s|
  {
    if s == [] {
    } else if leq(a, s[0]) {
      FirstBefore(leq, a, s);
    } else {
      RestInOrder(leq, s);
      InsertInOrder(leq, a, s[1..]);
      var r := Insert(leq, a, s[1..]);
      hide TotalOrder, InOrder;
      BeforeAll(leq, a, s, r);
      FirstBefore(leq, s[0], r);
    }
  }

  lemma RestInOrder(leq: (Arm, Arm) -> bool, s: seq<Arm>)
    requires InOrder(leq, s) && s != []
    ensures InOrder(leq, s[1..])
  {
  }

  lemma {:induction false} SortedInOrder(leq: (Arm, Arm) -> bool, s: seq<Arm>)
    requires TotalOrder(leq)
    ensures InOrder(leq, Sorted(leq, s))
    decreases |s|
  {
    if s == [] {
    } else {
      SortedInOrder(leq, s[1..]);
      InsertInOrder(leq, s[0], Sorted(leq, s[1..]));
    }
  }

  lemma SameFirst(leq: (Arm, Arm) -> bool, s: seq<Arm>, t: seq<Arm>)
    requires TotalOrder(leq) && InOrder(leq, s) && InOrder(leq, t) && multiset(s) == multiset(t) && |s| > 0 && |t| > 0
    ensures s[0] == t[0]
  {
    assert s[0] in multiset(t) && t[0] in multiset(s);
    var i :| 0 <= i < |t| && t[i] == s[0];
    var j :| 0 <= j < |s| && s[j] == t[0];
    assert leq(s[0], t[0]) && leq(t[0], s[0]);
  }

  lemma WithoutFirst(s: seq<Arm>)
    requires |s| > 0
    ensures multiset(s[1..]) == multiset(s) - multiset{s[0]}
  {
    assert s == [s[0]] + s[1..];
  }

  lemma {:induction false} OrderedUnique(leq: (Arm, Arm) -> bool, s: seq<Arm>, t: seq<Arm>)
    requires TotalOrder(leq) && InOrder(leq, s) && InOrder(leq, t) && multiset(s) == multiset(t)
    ensures s == t
    decreases |s|
  {
    assert |s| == |multiset(s)| == |t|;
    if |s| == 0 {
    } else {
      SameFirst(leq, s, t);
      WithoutFirst(s);
      WithoutFirst(t);
      OrderedUnique(leq, s[1..], t[1..]);
      assert s == [s[0]] + s[1..] && t == [t[0]] + t[1..];
    }
  }

  /** Sorted lists agree exactly when the same arms were sorted. */
  lemma SortedEqual(leq: (Arm, Arm) -> bool, s: seq<Arm>, t: seq<Arm>)
    requires TotalOrder(leq)
    ensures Sorted(leq, s) == Sorted(leq, t) <==> multiset(s) == multiset(t)
  {
    SortedInOrder(leq, s);
    SortedInOrder(leq, t);
    if multiset(s) == multiset(t) {
      OrderedUnique(leq, Sorted(leq, s), Sorted(leq, t));
    }
  }

  // Arms renamed one by one

  ghost predicate ApartOn(r: Arm -> Arm, s: multiset<Arm>) {
    forall a, b :: a in s && b in s && r(a) == r(b) ==> a == b
  }

  lemma MapFirst(r: Arm -> Arm, s: seq<Arm>)
    requires s != []
    ensures multiset(Image(r, s)) == multiset{r(s[0])} + multiset(Image(r, s[1..]))
  {
    assert Image(r, s) == [r(s[0])] + Image(r, s[1..]);
  }

  lemma {:induction false} MappedCount(r: Arm -> Arm, s: seq<Arm>, all: multiset<Arm>, a: Arm)
    requires ApartOn(r, all) && multiset(s) <= all && a in all
    ensures multiset(Image(r, s))[r(a)] == multiset(s)[a]
    decreases |s|
  {
    if s == [] {
    } else {
      assert s == [s[0]] + s[1..];
      assert s[0] in multiset(s);
      MapFirst(r, s);
      hide Image;
      MappedCount(r, s[1..], all, a);
    }
  }

  lemma TakeOut(s: seq<Arm>, i: nat)
    requires i < |s|
    ensures multiset(s) == multiset(Drop(s, i)) + multiset{s[i]}
  {
    assert s == s[..i] + [s[i]] + s[i + 1..];
  }

  lemma MapWithout(r: Arm -> Arm, s: seq<Arm>, i: nat)
    requires i < |s|
    ensures multiset(Image(r, s)) == multiset(Image(r, Drop(s, i))) + multiset{r(s[i])}
  {
    TakeOut(Image(r, s), i);
    assert Drop(Image(r, s), i) == Image(r, Drop(s, i));
  }

  lemma {:induction false} MappedSame(r: Arm -> Arm, s: seq<Arm>, t: seq<Arm>)
    requires multiset(s) == multiset(t)
    ensures multiset(Image(r, s)) == multiset(Image(r, t))
    decreases |s|
  {
    assert |s| == |multiset(s)| == |t|;
    if |s| == 0 {
    } else {
      assert s[0] in multiset(t);
      var i :| 0 <= i < |t| && t[i] == s[0];
      SameWithout(s, t, i);
      MappedSame(r, Drop(s, 0), Drop(t, i));
      MapWithout(r, t, i);
      MapWithout(r, s, 0);
    }
  }

  lemma SameWithout(s: seq<Arm>, t: seq<Arm>, i: nat)
    requires multiset(s) == multiset(t) && |s| > 0 && i < |t| && t[i] == s[0]
    ensures multiset(Drop(s, 0)) == multiset(Drop(t, i))
  {
    TakeOut(s, 0);
    TakeOut(t, i);
    var p, q, a := multiset(Drop(s, 0)), multiset(Drop(t, i)), multiset{s[0]};
    hide Drop;
    assert p + a == q + a;
    assert p == (p + a) - a && q == (q + a) - a;
  }

  /** A renaming that keeps arms apart does not confuse multisets of them. */
  lemma MappedEqual(r: Arm -> Arm, s: seq<Arm>, t: seq<Arm>)
    requires ApartOn(r, multiset(s) + multiset(t))
    ensures multiset(Image(r, s)) == multiset(Image(r, t)) <==> multiset(s) == multiset(t)
  {
    var all := multiset(s) + multiset(t);
    if multiset(s) == multiset(t) {
      MappedSame(r, s, t);
    } else if multiset(Image(r, s)) == multiset(Image(r, t)) {
      forall a ensures multiset(s)[a] == multiset(t)[a] {
        if a in all {
          MappedCount(r, s, all, a);
          MappedCount(r, t, all, a);
        }
      }
    }
  }
}
