/** Lists as the group-testing tools cut them: filters, subsequences, halvings. */
module Lists {

  /** `[x for x in s if x not in gone]`. */
  function Without<T(==, !new)>(s: seq<T>, gone: seq<T>): (r: seq<T>)
    ensures forall x :: x in r <==> x in s && x !in gone
    ensures |r| <= |s|
  {
    if s == [] then [] else
      assert s == [s[0]] + s[1..];
      (if s[0] in gone then [] else [s[0]]) + Without(s[1..], gone)
  }

  /** The list without its `i`-th element. */
  function Drop<T>(s: seq<T>, i: nat): seq<T>
    requires i < |s|
  {
    s[..i] + s[i + 1..]
  }

  /** `[x for x in s if p(x)]`. */
  function Filter<T(!new)>(s: seq<T>, p: T -> bool): (r: seq<T>)
    ensures forall x :: x in r <==> x in s && p(x)
    ensures |r| <= |s|
  {
    if s == [] then [] else
      assert s == [s[0]] + s[1..];
      (if p(s[0]) then [s[0]] else []) + Filter(s[1..], p)
  }

  function Image<T>(r: T -> T, s: seq<T>): (t: seq<T>)
    ensures |t| == |s| && forall i :: 0 <= i < |s| ==> t[i] == r(s[i])
  {
    seq(|s|, i requires 0 <= i < |s| => r(s[i]))
  }

  function Reversed<T>(s: seq<T>): (r: seq<T>)
    ensures |r| == |s| && forall i :: 0 <= i < |s| ==> r[i] == s[|s| - 1 - i]
  {
    seq(|s|, i requires 0 <= i < |s| => s[|s| - 1 - i])
  }

  lemma NoMembers<T>(s: set<T>)
    requires forall x :: x !in s
    ensures s == {}
  {
    assert forall x :: x in s <==> x in {};
  }

  lemma Inhabitant<T>(s: set<T>) returns (x: T)
    requires s != {}
    ensures x in s
  {
    if forall y :: y !in s { NoMembers(s); }
    x :| x in s;
  }

  lemma Associates<T>(s: seq<T>, t: seq<T>, u: seq<T>)
    ensures (s + t) + u == s + (t + u)
  {
  }

  ghost predicate Distinct<T>(s: seq<T>) {
    forall i, j :: 0 <= i < j < |s| ==> s[i] != s[j]
  }

  /** `dict.fromkeys`: the elements in order, each at its first occurrence only. */
  function Once<T(==)>(s: seq<T>): seq<T> {
    if s == [] then [] else
      var before, last := Once(s[..|s| - 1]), s[|s| - 1];
      if last in before then before else before + [last]
  }

  lemma {:induction false} OnceHas<T(!new)>(s: seq<T>)
    ensures forall x :: x in Once(s) <==> x in s
    ensures Distinct(Once(s))
    decreases |s|
  {
    if s == [] {
    } else {
      var before, last := Once(s[..|s| - 1]), s[|s| - 1];
      OnceHas(s[..|s| - 1]);
      assert forall x :: x in s <==> x in s[..|s| - 1] || x == last;
    }
  }

  lemma {:induction false} FilterConcat<T(!new)>(s: seq<T>, t: seq<T>, p: T -> bool)
    ensures Filter(s + t, p) == Filter(s, p) + Filter(t, p)
    decreases |s|
  {
    if s == [] {
      assert s + t == t;
    } else {
      assert (s + t)[1..] == s[1..] + t;
      FilterConcat(s[1..], t, p);
    }
  }

  lemma {:induction false} WithoutConcat<T(!new)>(s: seq<T>, t: seq<T>, gone: seq<T>)
    ensures Without(s + t, gone) == Without(s, gone) + Without(t, gone)
    decreases |s|
  {
    if s == [] {
      assert s + t == t;
    } else {
      assert (s + t)[1..] == s[1..] + t;
      WithoutConcat(s[1..], t, gone);
    }
  }

  lemma {:induction false} WithoutSame<T(!new)>(s: seq<T>, gone: seq<T>, gone': seq<T>)
    requires forall x :: x in s ==> (x in gone <==> x in gone')
    ensures Without(s, gone) == Without(s, gone')
    decreases |s|
  {
    if s == [] {
    } else {
      WithoutSame(s[1..], gone, gone');
    }
  }

  lemma {:induction false} WithoutNone<T(!new)>(s: seq<T>, gone: seq<T>)
    requires forall x :: x in s ==> x !in gone
    ensures Without(s, gone) == s
    decreases |s|
  {
    if s == [] {
    } else {
      WithoutNone(s[1..], gone);
    }
  }

  lemma {:induction false} WithoutAll<T(!new)>(s: seq<T>, gone: seq<T>)
    requires forall x :: x in s ==> x in gone
    ensures Without(s, gone) == []
    decreases |s|
  {
    if s == [] {
    } else {
      WithoutAll(s[1..], gone);
    }
  }

  lemma {:induction false} WithoutDistinct<T(!new)>(s: seq<T>, gone: seq<T>)
    requires Distinct(s)
    ensures Distinct(Without(s, gone))
    decreases |s|
  {
    if s == [] {
    } else {
      WithoutDistinct(s[1..], gone);
      assert s[0] !in s[1..];
    }
  }

  lemma {:induction false} WithoutTwice<T(!new)>(s: seq<T>, gone: seq<T>, more: seq<T>)
    ensures Without(Without(s, gone), more) == Without(s, gone + more)
    decreases |s|
  {
    if s == [] {
    } else {
      WithoutTwice(s[1..], gone, more);
      var kept := Without(s[1..], gone);
      assert s[0] in gone + more <==> s[0] in gone || s[0] in more;
      if s[0] !in gone {
        assert Without(s, gone) == [s[0]] + kept && ([s[0]] + kept)[1..] == kept;
      } else {
        assert Without(s, gone) == kept;
      }
    }
  }

  /** `s` is `t` with some elements left out. */
  ghost predicate Subsequence<T>(s: seq<T>, t: seq<T>) {
    s == [] || (t != [] && (Subsequence(s, t[1..]) || (s[0] == t[0] && Subsequence(s[1..], t[1..]))))
  }

  lemma {:induction false} SubsequenceWhole<T>(s: seq<T>)
    ensures Subsequence(s, s)
    decreases |s|
  {
    if s == [] {
    } else {
      SubsequenceWhole(s[1..]);
    }
  }

  lemma {:induction false} SubsequenceTrans<T>(s: seq<T>, t: seq<T>, u: seq<T>)
    requires Subsequence(s, t) && Subsequence(t, u)
    ensures Subsequence(s, u)
    decreases |u|
  {
    if s == [] {
    } else {
      if Subsequence(t, u[1..]) {
        SubsequenceTrans(s, t, u[1..]);
      } else if Subsequence(s, t[1..]) {
        SubsequenceTrans(s, t[1..], u[1..]);
      } else {
        SubsequenceTrans(s[1..], t[1..], u[1..]);
      }
    }
  }

  lemma {:induction false} SubsequenceConcat<T>(s: seq<T>, t: seq<T>, u: seq<T>, v: seq<T>)
    requires Subsequence(s, t) && Subsequence(u, v)
    ensures Subsequence(s + u, t + v)
    decreases |t|
  {
    if t == [] {
      assert s + u == u && t + v == v;
    } else {
      assert (t + v)[1..] == t[1..] + v;
      if Subsequence(s, t[1..]) {
        SubsequenceConcat(s, t[1..], u, v);
      } else {
        assert (s + u)[1..] == s[1..] + u;
        SubsequenceConcat(s[1..], t[1..], u, v);
      }
    }
  }

  lemma {:induction false} SubsequenceLength<T>(s: seq<T>, t: seq<T>)
    requires Subsequence(s, t)
    ensures |s| <= |t|
    decreases |t|
  {
    if s == [] {
    } else {
      if Subsequence(s, t[1..]) { SubsequenceLength(s, t[1..]); } else { SubsequenceLength(s[1..], t[1..]); }
    }
  }

  /** A list with a stretch cut out is a subsequence. */
  lemma CutOut<T>(s: seq<T>, from: nat, to: nat)
    requires from <= to <= |s|
    ensures Subsequence(s[..from] + s[to..], s)
  {
    SubsequenceWhole(s[..from]);
    SubsequenceWhole(s[to..]);
    assert s[from..] == s[from..to] + s[to..];
    assert Subsequence([], s[from..to]);
    SubsequenceConcat([], s[from..to], s[to..], s[to..]);
    assert [] + s[to..] == s[to..];
    SubsequenceConcat(s[..from], s[..from], s[to..], s[from..]);
    assert s == s[..from] + s[from..];
  }

  /** The least `l` with 2^l at least `n`. */
  function CeilLog2(n: nat): nat {
    if n <= 1 then 0 else 1 + CeilLog2((n + 1) / 2)
  }

  lemma {:induction false} CeilLog2Monotone(m: nat, n: nat)
    requires m <= n
    ensures CeilLog2(m) <= CeilLog2(n)
    decreases n
  {
    if m <= 1 {
    } else {
      CeilLog2Monotone((m + 1) / 2, (n + 1) / 2);
    }
  }
}
