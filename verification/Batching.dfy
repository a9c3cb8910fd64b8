/** `batch` of tools/parity_squash.py: landing a set of pull requests with as few tests of the merged tree as may be. */
module Batching {
  import opened Lists
  import opened GroupTesting

  /** The hook that names the pull requests failing the failing unit alone, when there is one. */
  datatype Hook<!Pr> = NoHook | Hook(name: seq<Pr> -> seq<Pr>)

  /** Every list the hook names has no repetitions. */
  ghost predicate NamesOnce<Pr(!new)>(hook: Hook<Pr>) {
    hook.Hook? ==> forall g :: Distinct(hook.name(g))
  }

  /** What a list is tested on top of. */
  function Below<Pr>(onTop: bool, landed: seq<Pr>): seq<Pr> {
    if onTop then landed else []
  }

  // Why a request lands, and why it is refused

  /** The request at place `j` landed in a list that passed, on top of what had landed by then. */
  ghost predicate LandedAt<Pr(!new)>(passes: seq<Pr> -> bool, onTop: bool, n: nat, landed: seq<Pr>, j: nat) {
    exists i, k :: n <= i <= j < k <= |landed| && passes(Below(onTop, landed[..i]) + landed[i..k])
  }

  /** What landed from place `n` on did so in lists that passed. */
  ghost predicate AllLanded<Pr(!new)>(passes: seq<Pr> -> bool, onTop: bool, n: nat, landed: seq<Pr>) {
    forall j {:trigger LandedAt(passes, onTop, n, landed, j)} ::
      n <= j < |landed| ==> LandedAt(passes, onTop, n, landed, j)
  }

  /** The hook names `p` among the requests of `group`, and not all of them. */
  ghost predicate Names<Pr(!new)>(hook: Hook<Pr>, group: seq<Pr>, p: Pr) {
    hook.Hook? && p in hook.name(group) && |Filter(hook.name(group), q => q in group)| < |group|
  }

  /** A list that failed holds `p`, and is `p` alone or a list of which the hook names `p`. */
  ghost predicate Failing<Pr(!new)>(
      passes: seq<Pr> -> bool, hook: Hook<Pr>, under: seq<Pr>, group: seq<Pr>, p: Pr)
  {
    p in group && !passes(under + group) && (group == [p] || (|group| > 1 && Names(hook, group, p)))
  }

  /** It failed on top of what had landed by then. */
  ghost predicate RefusedFor<Pr(!new)>(
      passes: seq<Pr> -> bool, hook: Hook<Pr>, onTop: bool, n: nat, landed: seq<Pr>, p: Pr)
  {
    exists k, group :: n <= k <= |landed| && Failing(passes, hook, Below(onTop, landed[..k]), group, p)
  }

  ghost predicate AllRefused<Pr(!new)>(
      passes: seq<Pr> -> bool, hook: Hook<Pr>, onTop: bool, n: nat, landed: seq<Pr>, bad: seq<Pr>)
  {
    forall p :: p in bad ==> RefusedFor(passes, hook, onTop, n, landed, p)
  }

  lemma LandedTogether<Pr(!new)>(passes: seq<Pr> -> bool, onTop: bool, landed: seq<Pr>, group: seq<Pr>)
    requires passes(Below(onTop, landed) + group)
    ensures AllLanded(passes, onTop, |landed|, landed + group)
  {
    var all := landed + group;
    assert all[..|landed|] == landed && all[|landed|..|all|] == group;
  }

  lemma RefusedHere<Pr(!new)>(
      passes: seq<Pr> -> bool, hook: Hook<Pr>, onTop: bool, landed: seq<Pr>, group: seq<Pr>, bad: seq<Pr>)
    requires forall p :: p in bad ==> Failing(passes, hook, Below(onTop, landed), group, p)
    ensures AllRefused(passes, hook, onTop, |landed|, landed, bad)
  {
    hide Failing, Below;
    assert landed[..|landed|] == landed;
  }

  /** What was right stays right when more lands. */
  lemma RightLater<Pr(!new)>(
      passes: seq<Pr> -> bool, hook: Hook<Pr>, onTop: bool, n: nat, a: seq<Pr>, b: seq<Pr>, bad: seq<Pr>)
    requires a <= b && AllRefused(passes, hook, onTop, n, a, bad)
    ensures AllRefused(passes, hook, onTop, n, b, bad)
  {
    hide Failing;
    forall p | p in bad
      ensures RefusedFor(passes, hook, onTop, n, b, p)
    {
      var k, group :| n <= k <= |a| && Failing(passes, hook, Below(onTop, a[..k]), group, p);
      assert a[..k] == b[..k];
    }
  }

  lemma LandedLater<Pr(!new)>(passes: seq<Pr> -> bool, onTop: bool, n: nat, a: seq<Pr>, b: seq<Pr>)
    requires n <= |a| && a <= b && AllLanded(passes, onTop, n, a) && AllLanded(passes, onTop, |a|, b)
    ensures AllLanded(passes, onTop, n, b)
  {
    forall j | n <= j < |b|
      ensures LandedAt(passes, onTop, n, b, j)
    {
      if j < |a| {
        assert LandedAt(passes, onTop, n, a, j);
        var i, k :| n <= i <= j < k <= |a| && passes(Below(onTop, a[..i]) + a[i..k]);
        assert a[..i] == b[..i] && a[i..k] == b[i..k];
      } else {
        assert LandedAt(passes, onTop, |a|, b, j);
      }
    }
  }

  lemma RefusedJoined<Pr(!new)>(
      passes: seq<Pr> -> bool, hook: Hook<Pr>, onTop: bool, n: nat, m: nat, landed: seq<Pr>, bad: seq<Pr>,
      more: seq<Pr>)
    requires n <= m
    requires AllRefused(passes, hook, onTop, n, landed, bad) && AllRefused(passes, hook, onTop, m, landed, more)
    ensures AllRefused(passes, hook, onTop, n, landed, bad + more)
  {
    hide Failing;
    forall p | p in bad + more
      ensures RefusedFor(passes, hook, onTop, n, landed, p)
    {
      if p in bad {
        assert RefusedFor(passes, hook, onTop, n, landed, p);
      } else {
        assert RefusedFor(passes, hook, onTop, m, landed, p);
      }
    }
  }

  lemma AfterNamed<Pr(!new)>(
      passes: seq<Pr> -> bool, hook: Hook<Pr>, onTop: bool, was: seq<Pr>, landed: seq<Pr>, named: seq<Pr>,
      bad: seq<Pr>)
    requires was <= landed && AllRefused(passes, hook, onTop, |was|, was, named)
    requires AllRefused(passes, hook, onTop, |was|, landed, bad)
    ensures AllRefused(passes, hook, onTop, |was|, landed, named + bad)
  {
    hide AllRefused;
    RightLater(passes, hook, onTop, |was|, was, landed, named);
    RefusedJoined(passes, hook, onTop, |was|, |was|, landed, named, bad);
  }

  lemma AfterHalves<Pr(!new)>(
      passes: seq<Pr> -> bool, hook: Hook<Pr>, onTop: bool, was: seq<Pr>, between: seq<Pr>, landed: seq<Pr>,
      bad: seq<Pr>, more: seq<Pr>)
    requires was <= between <= landed
    requires AllLanded(passes, onTop, |was|, between) && AllLanded(passes, onTop, |between|, landed)
    requires AllRefused(passes, hook, onTop, |was|, between, bad)
    requires AllRefused(passes, hook, onTop, |between|, landed, more)
    ensures AllLanded(passes, onTop, |was|, landed) && AllRefused(passes, hook, onTop, |was|, landed, bad + more)
  {
    hide AllRefused, AllLanded;
    LandedLater(passes, onTop, |was|, between, landed);
    RightLater(passes, hook, onTop, |was|, between, landed, bad);
    RefusedJoined(passes, hook, onTop, |was|, |between|, landed, bad, more);
  }

  // Culprits

  /** A list passes exactly when it holds no culprit, and a hook names only culprits. */
  ghost predicate ByCulprits<Pr(!new)>(passes: seq<Pr> -> bool, hook: Hook<Pr>, culprit: Pr -> bool) {
    && PassesByCulprits(passes, culprit)
    && (hook.Hook? ==> forall g, p :: p in hook.name(g) ==> culprit(p))
  }

  /** The hook names every culprit of a list, once. */
  ghost predicate NamesCulprits<Pr(!new)>(hook: Hook<Pr>, culprit: Pr -> bool) {
    hook.Hook? && forall g {:trigger hook.name(g)} ::
      Distinct(hook.name(g)) && forall p :: p in g && culprit(p) ==> p in hook.name(g)
  }

  ghost predicate Exactly<Pr(!new)>(bad: seq<Pr>, prs: seq<Pr>, culprit: Pr -> bool) {
    forall p :: p in bad <==> p in prs && culprit(p)
  }

  /** One landing: the test, the hook, and what has landed and been refused so far. */
  class Landing<Pr(==, !new)> {
    const passes: seq<Pr> -> bool
    const offenders: Hook<Pr>
    /** Whether what landed is still to be pushed, so that the rest is tested on top of it (`pending` is given). */
    const onTop: bool
    var landed: seq<Pr>
    var refused: seq<Pr>
    /** How often `passes` was asked, and what it was last asked about with success. */
    ghost var asked: nat
    ghost var tested: seq<Pr>

    constructor (passes: seq<Pr> -> bool, offenders: Hook<Pr>, onTop: bool)
      ensures this.passes == passes && this.offenders == offenders && this.onTop == onTop
      ensures landed == [] && refused == [] && asked == 0 && tested == []
    {
      this.passes, this.offenders, this.onTop := passes, offenders, onTop;
      landed, refused, asked, tested := [], [], 0, [];
    }

    method Passes(group: seq<Pr>) returns (ok: bool)
      modifies this`asked, this`tested
      ensures ok == passes(group) && asked == old(asked) + 1 && tested == if ok then group else old(tested)
    {
      ok := passes(group);
      asked := asked + 1;
      if ok { tested := group; }
    }

    method Land(group: seq<Pr>)
      modifies this`landed
      ensures landed == old(landed) + group
    {
      for i := 0 to |group|
        invariant landed == old(landed) + group[..i]
      {
        assert group[..i + 1] == group[..i] + [group[i]];
        landed := landed + [group[i]];
      }
      assert group[..|group|] == group;
    }

    method Refuse(group: seq<Pr>)
      modifies this`refused
      ensures refused == old(refused) + group
    {
      for i := 0 to |group|
        invariant refused == old(refused) + group[..i]
      {
        assert group[..i + 1] == group[..i] + [group[i]];
        refused := refused + [group[i]];
      }
      assert group[..|group|] == group;
    }

    /** With independent culprits, and none landed. */
    ghost predicate Clear(culprit: Pr -> bool)
      reads this`landed
    {
      ByCulprits(passes, offenders, culprit) && Filter(landed, culprit) == []
    }

    /**
     * Lands `prs` but for those refused, `bad`, keeping their order: each one is landed or refused, and only once if
     * the hook repeats none. Each landed in a list that passed on top of what had landed, and each refused failed
     * there, alone or named by the hook. What is landed on top was tested as one list, in that order, by the last test
     * that passed. At most 2n - 1 tests are asked. With independent culprits exactly the culprits are refused: without
     * a hook in their order and in at most 1 + 2k ceil(log2 n) tests, with one that names them all in at most two.
     */
    method Batch(prs: seq<Pr>, ghost culprit: Pr -> bool) returns (ghost bad: seq<Pr>)
      requires Distinct(prs) && forall p :: p in prs ==> p !in landed
      modifies this`landed, this`refused, this`asked, this`tested
      ensures landed == old(landed) + Without(prs, bad) && refused == old(refused) + bad
      ensures forall p :: p in bad ==> p in prs
      ensures NamesOnce(offenders) ==> Distinct(bad)
      ensures AllLanded(passes, onTop, |old(landed)|, landed)
      ensures AllRefused(passes, offenders, onTop, |old(landed)|, landed, bad)
      ensures onTop && old(tested == landed) ==> tested == landed
      ensures asked <= old(asked) + if prs == [] then 0 else 2 * |prs| - 1
      ensures old(Clear(culprit)) ==> Exactly(bad, prs, culprit)
      ensures old(Clear(culprit)) && offenders.NoHook? ==>
        bad == Filter(prs, culprit) && asked <= old(asked) + Budget(|bad|, |prs|)
      ensures old(Clear(culprit)) && NamesCulprits(offenders, culprit) && (prs == [] || Filter(prs, culprit) != prs) ==>
        asked <= old(asked) + if bad == [] then 1 else 2
      decreases |prs|
    {
      hide Without, Distinct, Filter, NamesOnce, PassesByCulprits, Budget, Failing, Names, RefusedFor, LandedAt;
      hide AllLanded, AllRefused, ByCulprits, Exactly, NamesCulprits;
      ghost var exact, was := Clear(culprit), landed;
      bad := [];
      SomeLists(prs);
      Budgets(prs, culprit);
      NothingYet(passes, offenders, onTop, was, culprit);
      if prs == [] { return; }
      var under := if onTop then Without(landed, prs) else [];
      WithoutNone(landed, prs);
      var ok := Passes(under + prs);
      if ok {
        LandedTogether(passes, onTop, was, prs);
        NoneRefused(passes, offenders, onTop, |was|, was + prs);
        if exact { PassedExact(passes, offenders, culprit, under, prs); }
        Land(prs);
        return;
      }
      if |prs| == 1 {
        FailedAlone(passes, offenders, under, prs);
        RefusedHere(passes, offenders, onTop, was, prs, prs);
        if exact { AloneExact(passes, offenders, culprit, under, prs); }
        Refuse(prs);
        bad := prs;
        return;
      }
      var named := if offenders.Hook? then Filter(offenders.name(prs), p => p in prs) else [];
      if named != [] && |named| < |prs| {
        FailedNamed(passes, offenders, under, prs, named);
        RefusedHere(passes, offenders, onTop, was, prs, named);
        Refuse(named);
        var others := Without(prs, named);
        NamedShrinks(prs, named);
        WithoutDistinct(prs, named);
        if exact { NamedAll(passes, offenders, culprit, prs, named); }
        bad := Batch(others, culprit);
        NamedOnce(offenders, prs, named, bad);
        Associates(old(refused), named, bad);
        AfterNamed(passes, offenders, onTop, was, landed, named, bad);
        if exact { NamedExact(passes, offenders, culprit, prs, named, bad); }
        bad := named + bad;
        return;
      }
      if exact { NamedSome(passes, offenders, culprit, under, prs, named); }
      var middle := |prs| / 2;
      DistinctHalves(prs, middle);
      bad := Batch(prs[..middle], culprit);
      ghost var between := landed;
      if exact { StillNone(was, prs[..middle], bad, culprit); }
      ghost var more := Batch(prs[middle..], culprit);
      HalvesTogether(prs, middle, bad, more);
      Associates(old(refused), bad, more);
      Associates(was, Without(prs[..middle], bad), Without(prs[middle..], more));
      AfterHalves(passes, offenders, onTop, was, between, landed, bad, more);
      if exact {
        FailedHasCulprit(passes, offenders, culprit, under, prs);
        HalvesExact(prs, middle, culprit);
        HalvesExactly(prs, middle, culprit, bad, more);
      }
      bad := bad + more;
    }
  }

  lemma NothingYet<Pr(!new)>(
      passes: seq<Pr> -> bool, hook: Hook<Pr>, onTop: bool, landed: seq<Pr>, culprit: Pr -> bool)
    ensures AllLanded(passes, onTop, |landed|, landed) && AllRefused(passes, hook, onTop, |landed|, landed, [])
    ensures Exactly([], [], culprit)
  {
  }

  lemma NoneRefused<Pr(!new)>(passes: seq<Pr> -> bool, hook: Hook<Pr>, onTop: bool, n: nat, landed: seq<Pr>)
    ensures AllRefused(passes, hook, onTop, n, landed, [])
  {
  }

  lemma FailedAlone<Pr(!new)>(passes: seq<Pr> -> bool, hook: Hook<Pr>, under: seq<Pr>, prs: seq<Pr>)
    requires |prs| == 1 && !passes(under + prs)
    ensures forall p :: p in prs ==> Failing(passes, hook, under, prs, p)
  {
  }

  lemma FailedNamed<Pr(!new)>(
      passes: seq<Pr> -> bool, hook: Hook<Pr>, under: seq<Pr>, prs: seq<Pr>, named: seq<Pr>)
    requires |prs| > 1 && !passes(under + prs) && hook.Hook?
    requires named == Filter(hook.name(prs), p => p in prs) && |named| < |prs|
    ensures forall p :: p in named ==> Failing(passes, hook, under, prs, p)
  {
  }

  lemma PassedExact<Pr(!new)>(
      passes: seq<Pr> -> bool, hook: Hook<Pr>, culprit: Pr -> bool, under: seq<Pr>, prs: seq<Pr>)
    requires ByCulprits(passes, hook, culprit) && Filter(under, culprit) == [] && passes(under + prs)
    ensures Filter(prs, culprit) == [] && Exactly([], prs, culprit)
  {
    AskedAbout(passes, culprit, under, prs);
    assert forall p :: p in Filter(prs, culprit) <==> p in prs && culprit(p);
  }

  lemma AloneExact<Pr(!new)>(
      passes: seq<Pr> -> bool, hook: Hook<Pr>, culprit: Pr -> bool, under: seq<Pr>, prs: seq<Pr>)
    requires ByCulprits(passes, hook, culprit) && Filter(under, culprit) == [] && |prs| == 1 && !passes(under + prs)
    ensures Filter(prs, culprit) == prs && Exactly(prs, prs, culprit)
  {
    AskedAbout(passes, culprit, under, prs);
    assert forall p :: p in Filter(prs, culprit) <==> p in prs && culprit(p);
  }

  lemma FirstIn<T>(s: seq<T>)
    requires s != []
    ensures s[0] in s
  {
  }

  /** Nothing else is a culprit, when the hook names them all. */
  lemma NamedAll<Pr(!new)>(
      passes: seq<Pr> -> bool, hook: Hook<Pr>, culprit: Pr -> bool, prs: seq<Pr>, named: seq<Pr>)
    requires hook.Hook? && named == Filter(hook.name(prs), p => p in prs)
    ensures NamesCulprits(hook, culprit) ==>
      && Filter(Without(prs, named), culprit) == []
      && forall bad :: Exactly(bad, Without(prs, named), culprit) ==> bad == []
  {
    if NamesCulprits(hook, culprit) {
      var others := Without(prs, named);
      assert forall p :: p in prs && culprit(p) ==> p in hook.name(prs);
      assert forall p :: p in others ==> !culprit(p);
      FilterNothing(others, culprit);
      forall bad | Exactly(bad, others, culprit)
        ensures bad == []
      {
        if bad != [] { FirstIn(bad); }
      }
    }
  }

  lemma NamedExact<Pr(!new)>(
      passes: seq<Pr> -> bool, hook: Hook<Pr>, culprit: Pr -> bool, prs: seq<Pr>, named: seq<Pr>, bad: seq<Pr>)
    requires ByCulprits(passes, hook, culprit) && hook.Hook? && named == Filter(hook.name(prs), p => p in prs)
    requires Exactly(bad, Without(prs, named), culprit)
    ensures Exactly(named + bad, prs, culprit)
  {
    hide PassesByCulprits;
  }

  /** A hook that names every culprit, and a list that failed and is not all culprits: some are named, and not all. */
  lemma NamedSome<Pr(!new)>(
      passes: seq<Pr> -> bool, hook: Hook<Pr>, culprit: Pr -> bool, under: seq<Pr>, prs: seq<Pr>, named: seq<Pr>)
    requires ByCulprits(passes, hook, culprit) && Filter(under, culprit) == [] && !passes(under + prs) && Distinct(prs)
    requires named == if hook.Hook? then Filter(hook.name(prs), p => p in prs) else []
    ensures NamesCulprits(hook, culprit) && Filter(prs, culprit) != prs ==> named != [] && |named| < |prs|
  {
    if NamesCulprits(hook, culprit) && Filter(prs, culprit) != prs {
      AskedAbout(passes, culprit, under, prs);
      var culprits := Filter(prs, culprit);
      assert culprits[0] in culprits;
      assert culprits[0] in named;
      if forall p :: p in prs ==> culprit(p) { FilterEverything(prs, culprit); }
      var innocent :| innocent in prs && !culprit(innocent);
      FilterDistinct(hook.name(prs), p => p in prs);
      FewerDistinct(named, prs, innocent);
    }
  }

  lemma {:induction false} FilterEverything<Pr(!new)>(s: seq<Pr>, culprit: Pr -> bool)
    requires forall p :: p in s ==> culprit(p)
    ensures Filter(s, culprit) == s
    decreases |s|
  {
    if s == [] {
    } else {
      FilterEverything(s[1..], culprit);
    }
  }

  lemma {:induction false} MembersCount<Pr(!new)>(s: seq<Pr>)
    ensures |set p | p in s| <= |s|
    ensures Distinct(s) ==> |set p | p in s| == |s|
    decreases |s|
  {
    if s == [] {
    } else {
      MembersCount(s[1..]);
      var all, rest := set p | p in s, set p | p in s[1..];
      assert all == rest + {s[0]};
      if Distinct(s) { assert s[0] !in s[1..]; }
    }
  }

  lemma FewerDistinct<Pr(!new)>(s: seq<Pr>, t: seq<Pr>, p: Pr)
    requires Distinct(s) && p in t && p !in s && forall q :: q in s ==> q in t
    ensures |s| < |t|
  {
    MembersCount(s);
    MembersCount(t);
    var a, b := set q | q in s, set q | q in t;
    assert p in b - a;
    assert b == a + (b - a);
  }

  ghost predicate PassesByCulprits<Pr(!new)>(passes: seq<Pr> -> bool, culprit: Pr -> bool) {
    forall g: seq<Pr> :: passes(g) <==> Filter(g, culprit) == []
  }

  /** On top of what holds no culprit, the culprits asked about are those of `prs`. */
  lemma AskedAbout<Pr(!new)>(passes: seq<Pr> -> bool, culprit: Pr -> bool, under: seq<Pr>, prs: seq<Pr>)
    requires PassesByCulprits(passes, culprit) && Filter(under, culprit) == []
    ensures passes(under + prs) <==> Filter(prs, culprit) == []
    ensures |prs| == 1 && !passes(under + prs) ==> Filter(prs, culprit) == prs
  {
    FilterConcat(under, prs, culprit);
    if |prs| == 1 && Filter(prs, culprit) != [] { FilterOne(prs, culprit); }
    hide Filter;
  }

  lemma Budgets<Pr(!new)>(prs: seq<Pr>, culprit: Pr -> bool)
    ensures forall k: nat, n: nat :: Budget(k, n) >= 1
    ensures Filter<Pr>([], culprit) == []
  {
  }

  /** What lands of a list whose culprits are refused holds none. */
  lemma StillNone<Pr(!new)>(landed: seq<Pr>, prs: seq<Pr>, bad: seq<Pr>, culprit: Pr -> bool)
    requires Filter(landed, culprit) == [] && Exactly(bad, prs, culprit)
    ensures Filter(landed + Without(prs, bad), culprit) == []
  {
    var rest := Without(prs, bad);
    FilterConcat(landed, rest, culprit);
    FilterNothing(rest, culprit);
  }

  lemma {:induction false} FilterNothing<Pr(!new)>(s: seq<Pr>, culprit: Pr -> bool)
    requires forall p :: p in s ==> !culprit(p)
    ensures Filter(s, culprit) == []
    decreases |s|
  {
    if s == [] {
    } else {
      FilterNothing(s[1..], culprit);
    }
  }

  lemma HalvesExactly<Pr(!new)>(prs: seq<Pr>, middle: nat, culprit: Pr -> bool, bad: seq<Pr>, more: seq<Pr>)
    requires middle <= |prs| && Exactly(bad, prs[..middle], culprit) && Exactly(more, prs[middle..], culprit)
    ensures Exactly(bad + more, prs, culprit)
  {
    assert prs == prs[..middle] + prs[middle..];
  }

  /** The culprits of a list that failed are those of its halves. */
  lemma HalvesExact<Pr(!new)>(prs: seq<Pr>, middle: nat, culprit: Pr -> bool)
    requires |prs| >= 2 && middle == |prs| / 2 && Filter(prs, culprit) != []
    ensures Filter(prs, culprit) == Filter(prs[..middle], culprit) + Filter(prs[middle..], culprit)
    ensures 1 + Budget(|Filter(prs[..middle], culprit)|, middle)
      + Budget(|Filter(prs[middle..], culprit)|, |prs| - middle)
            <= Budget(|Filter(prs, culprit)|, |prs|)
  {
    hide Filter, Budget;
    FilterConcat(prs[..middle], prs[middle..], culprit);
    assert prs == prs[..middle] + prs[middle..];
    assert Filter(prs[..middle], culprit) + Filter(prs[middle..], culprit) != [];
    BudgetsAddUp(|Filter(prs[..middle], culprit)|, |Filter(prs[middle..], culprit)|, |prs|);
  }

  lemma FailedHasCulprit<Pr(!new)>(
      passes: seq<Pr> -> bool, hook: Hook<Pr>, culprit: Pr -> bool, under: seq<Pr>, prs: seq<Pr>)
    requires ByCulprits(passes, hook, culprit) && Filter(under, culprit) == [] && !passes(under + prs)
    ensures Filter(prs, culprit) != []
  {
    AskedAbout(passes, culprit, under, prs);
  }

  lemma SomeLists<Pr(!new)>(prs: seq<Pr>)
    ensures Without(prs, []) == prs && Without(prs, prs) == [] && Without<Pr>([], []) == [] && Distinct<Pr>([])
  {
    WithoutNone(prs, []);
    WithoutAll(prs, prs);
  }

  lemma DistinctHalves<Pr(!new)>(prs: seq<Pr>, middle: nat)
    requires Distinct(prs) && middle <= |prs|
    ensures Distinct(prs[..middle]) && Distinct(prs[middle..])
    ensures forall p :: p in prs[..middle] ==> p !in prs[middle..] && p in prs
    ensures forall p :: p in prs[middle..] ==> p in prs
  {
  }

  lemma DistinctTogether<Pr(!new)>(s: seq<Pr>, t: seq<Pr>)
    requires forall p :: p in s ==> p !in t
    ensures Distinct(s) && Distinct(t) ==> Distinct(s + t)
  {
    if Distinct(s) && Distinct(t) {
      var r := s + t;
      forall i, j | 0 <= i < j < |r| ensures r[i] != r[j] {
        assert i < |s| ==> r[i] in s;
        assert j >= |s| ==> r[j] in t;
      }
    }
  }

  lemma {:induction false} FilterDistinct<Pr(!new)>(s: seq<Pr>, p: Pr -> bool)
    requires Distinct(s)
    ensures Distinct(Filter(s, p))
    decreases |s|
  {
    if s == [] {
    } else {
      FilterDistinct(s[1..], p);
      assert s[0] !in s[1..];
    }
  }

  lemma NamedShrinks<Pr(!new)>(prs: seq<Pr>, named: seq<Pr>)
    requires named != [] && forall p :: p in named ==> p in prs
    ensures |Without(prs, named)| < |prs|
  {
    assert named[0] in named;
    var k :| 0 <= k < |prs| && prs[k] == named[0];
    WithoutConcat(prs[..k], prs[k..], named);
    assert prs == prs[..k] + prs[k..];
  }

  /** What is refused of the others, after those named. */
  lemma NamedOnce<Pr(!new)>(hook: Hook<Pr>, prs: seq<Pr>, named: seq<Pr>, bad: seq<Pr>)
    requires hook.Hook? && named == Filter(hook.name(prs), p => p in prs)
    requires forall p :: p in bad ==> p in Without(prs, named)
    ensures Without(Without(prs, named), bad) == Without(prs, named + bad)
    ensures forall p :: p in named + bad ==> p in prs
    ensures NamesOnce(hook) && Distinct(bad) ==> Distinct(named + bad)
  {
    WithoutTwice(prs, named, bad);
    hide Without, Filter;
    if NamesOnce(hook) && Distinct(bad) {
      assert Distinct(hook.name(prs));
      hide Distinct;
      FilterDistinct(hook.name(prs), p => p in prs);
      DistinctTogether(named, bad);
    }
  }

  lemma HalvesTogether<Pr(!new)>(prs: seq<Pr>, middle: nat, bad: seq<Pr>, more: seq<Pr>)
    requires Distinct(prs) && middle <= |prs|
    requires (forall p :: p in bad ==> p in prs[..middle]) && (forall p :: p in more ==> p in prs[middle..])
    ensures Without(prs, bad + more) == Without(prs[..middle], bad) + Without(prs[middle..], more)
    ensures forall p :: p in bad + more ==> p in prs
    ensures Distinct(bad) && Distinct(more) ==> Distinct(bad + more)
  {
    var left, right := prs[..middle], prs[middle..];
    DistinctHalves(prs, middle);
    hide Without, Distinct;
    assert prs == left + right;
    WithoutConcat(left, right, bad + more);
    WithoutSame(left, bad, bad + more);
    WithoutSame(right, more, bad + more);
    DistinctTogether(bad, more);
  }
}
