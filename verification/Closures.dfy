/**
 * The two dependency closures of the workspace: `dependants` of tools/parity_smoke.py, in rounds over the reversed
 * relation, and `needs` of tools/parity_squash.py, by a worklist. Cycles are no exception.
 */
module Closures {
  import opened Lists

  datatype Package = Package(name: string)

  type Graph = map<Package, set<Package>>

  function Deps(g: Graph, p: Package): set<Package> {
    if p in g then g[p] else {}
  }

  /** Each package of a chain depends directly on the next. */
  ghost predicate IsChain(g: Graph, s: seq<Package>) {
    s != [] && forall i, j :: 0 <= i < j < |s| && j == i + 1 ==> s[j] in Deps(g, s[i])
  }

  ghost predicate ChainBetween(g: Graph, s: seq<Package>, p: Package, t: Package) {
    IsChain(g, s) && s[0] == p && s[|s| - 1] == t
  }

  /** `p` is `t` or depends on it through some chain. */
  ghost predicate DependsOn(g: Graph, p: Package, t: Package) {
    exists s :: ChainBetween(g, s, p, t)
  }

  lemma DependsOnItself(g: Graph, p: Package)
    ensures DependsOn(g, p, p)
  {
    assert ChainBetween(g, [p], p, p);
  }

  lemma DependsFirst(g: Graph, p: Package, q: Package, t: Package)
    requires q in Deps(g, p) && DependsOn(g, q, t)
    ensures DependsOn(g, p, t)
  {
    var s :| ChainBetween(g, s, q, t);
    assert ChainBetween(g, [p] + s, p, t);
  }

  lemma DependsLast(g: Graph, p: Package, q: Package, t: Package)
    requires DependsOn(g, p, q) && t in Deps(g, q)
    ensures DependsOn(g, p, t)
  {
    var s :| ChainBetween(g, s, p, q);
    assert ChainBetween(g, s + [t], p, t);
  }

  /** A set with the dependencies of its members has whatever its members depend on. */
  lemma {:induction false} ClosedDown(g: Graph, out: set<Package>, s: seq<Package>)
    requires forall q :: q in out ==> Deps(g, q) <= out
    requires IsChain(g, s) && s[0] in out
    ensures s[|s| - 1] in out
    decreases |s|
  {
    if |s| <= 1 {
    } else {
      assert s[1] in Deps(g, s[0]);
      ClosedDown(g, out, s[1..]);
    }
  }

  /** A package of the graph with a dependency in `out`. */
  predicate Uses(g: Graph, p: Package, out: set<Package>) {
    p in g && g[p] * out != {}
  }

  /** A set with everything that depends directly on a member has whatever depends on a member. */
  lemma {:induction false} ClosedUp(g: Graph, out: set<Package>, s: seq<Package>)
    requires forall p :: Uses(g, p, out) ==> p in out
    requires IsChain(g, s) && s[|s| - 1] in out
    ensures s[0] in out
    decreases |s|
  {
    if |s| <= 1 {
    } else {
      ClosedUp(g, out, s[1..]);
      assert s[1] in g[s[0]] * out;
      assert Uses(g, s[0], out);
    }
  }

  ghost predicate DependsOnSome(g: Graph, p: Package, touched: set<Package>) {
    exists t :: t in touched && DependsOn(g, p, t)
  }

  /** `out` is what depends on a touched package. */
  ghost predicate AreDependants(g: Graph, touched: set<Package>, out: set<Package>) {
    forall p :: p in out <==> DependsOnSome(g, p, touched)
  }

  ghost predicate AreNeeds(g: Graph, package: Package, out: set<Package>) {
    forall t :: t in out <==> DependsOn(g, package, t)
  }

  /** Only what depends on a touched package. */
  ghost predicate OnlyDependants(g: Graph, touched: set<Package>, out: set<Package>) {
    forall p :: p in out ==> DependsOnSome(g, p, touched)
  }

  lemma UserDepends(g: Graph, p: Package, out: set<Package>, touched: set<Package>)
    requires Uses(g, p, out) && OnlyDependants(g, touched, out)
    ensures DependsOnSome(g, p, touched)
  {
    var q := Inhabitant(g[p] * out);
    var t :| t in touched && DependsOn(g, q, t);
    DependsFirst(g, p, q, t);
  }

  lemma TouchedDepend(g: Graph, touched: set<Package>)
    ensures OnlyDependants(g, touched, touched)
  {
    forall p | p in touched
      ensures DependsOnSome(g, p, touched)
    {
      DependsOnItself(g, p);
    }
  }

  lemma AllDependants(g: Graph, touched: set<Package>, out: set<Package>)
    requires touched <= out && OnlyDependants(g, touched, out)
    requires forall p :: Uses(g, p, out) ==> p in out
    ensures AreDependants(g, touched, out)
  {
    forall p | DependsOnSome(g, p, touched)
      ensures p in out
    {
      hide Uses;
      var t :| t in touched && DependsOn(g, p, t);
      var s :| ChainBetween(g, s, p, t);
      ClosedUp(g, out, s);
    }
  }

  /** Rounds until none of the graph's other packages depends directly on one found. */
  method Dependants(touched: set<Package>, g: Graph) returns (out: set<Package>)
    ensures AreDependants(g, touched, out)
  {
    hide DependsOnSome, OnlyDependants, AreDependants;
    out := touched;
    TouchedDepend(g, touched);
    while true
      invariant touched <= out && OnlyDependants(g, touched, out)
      decreases g.Keys - out
    {
      var grown := (set p | p in g && Uses(g, p, out)) - out;
      if grown == {} {
        forall p | Uses(g, p, out)
          ensures p in out
        {
          assert p in grown || p in out;
        }
        AllDependants(g, touched, out);
        return;
      }
      StillDependants(g, touched, out, grown);
      ghost var found := Inhabitant(grown);
      assert found in g.Keys - out && found !in g.Keys - (out + grown);
      out := out + grown;
    }
  }

  lemma StillDependants(g: Graph, touched: set<Package>, out: set<Package>, grown: set<Package>)
    requires OnlyDependants(g, touched, out) && forall p :: p in grown ==> Uses(g, p, out)
    ensures OnlyDependants(g, touched, out + grown)
  {
    hide Uses, DependsOnSome;
    forall p | p in grown
      ensures DependsOnSome(g, p, touched)
    {
      UserDepends(g, p, out, touched);
    }
  }

  /** The packages anything depends on. */
  ghost function AllDeps(g: Graph): set<Package> {
    set p, d | p in g && d in g[p] :: d
  }

  /** What is found and not waiting has its dependencies found. */
  ghost predicate Expanded(g: Graph, out: set<Package>, todo: seq<Package>) {
    forall q :: q in out && q !in todo ==> Deps(g, q) <= out
  }

  ghost predicate OnlyNeeds(g: Graph, package: Package, out: set<Package>) {
    forall q :: q in out ==> DependsOn(g, package, q)
  }

  lemma AllNeeds(g: Graph, package: Package, out: set<Package>)
    requires package in out && OnlyNeeds(g, package, out) && Expanded(g, out, [])
    ensures AreNeeds(g, package, out)
  {
    forall t | DependsOn(g, package, t)
      ensures t in out
    {
      var s :| ChainBetween(g, s, package, t);
      ClosedDown(g, out, s);
    }
  }

  /** A worklist over the dependencies of what is found. */
  method Needs(package: Package, g: Graph) returns (out: set<Package>)
    ensures AreNeeds(g, package, out)
  {
    out := {package};
    var todo := [package];
    DependsOnItself(g, package);
    while todo != []
      invariant package in out && OnlyNeeds(g, package, out)
      invariant forall q :: q in todo ==> q in out
      invariant Expanded(g, out, todo)
      decreases AllDeps(g) - out, |todo|
    {
      var last := todo[|todo| - 1];
      ghost var before, waiting := out, todo;
      todo := todo[..|todo| - 1];
      assert waiting == todo + [last];
      var rest := Deps(g, last);
      while rest != {}
        invariant package in out && OnlyNeeds(g, package, out) && last in out
        invariant forall q :: q in todo ==> q in out
        invariant rest <= Deps(g, last) && Deps(g, last) - rest <= out
        invariant forall q :: q in out && q !in todo && q != last ==> Deps(g, q) <= out
        invariant before <= out && AllDeps(g) - out <= AllDeps(g) - before
        invariant out == before ==> |todo| < |waiting|
        invariant out != before ==> AllDeps(g) - out < AllDeps(g) - before
        decreases rest
      {
        var dep :| dep in rest;
        rest := rest - {dep};
        if dep !in out {
          DependsLast(g, package, last, dep);
          assert dep in AllDeps(g) - out;
          todo := todo + [dep];
          out := out + {dep};
        }
      }
    }
    AllNeeds(g, package, out);
  }

  /** The closures are each other's reverse. */
  lemma ClosuresDual(g: Graph, p: Package, t: Package, dependants: set<Package>, needs: set<Package>)
    requires AreDependants(g, {t}, dependants) && AreNeeds(g, p, needs)
    ensures p in dependants <==> t in needs
  {
    if t in needs { assert DependsOnSome(g, p, {t}); }
  }
}
