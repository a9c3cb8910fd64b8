/** Control-flow graphs over instruction indices: walks from the entries, reachability and dominance. */
module ControlFlow {

  /**
   * `succ[i]` lists the successors of instruction `i`; an edge may be listed twice, as when a branch targets its own
   * fall-through.
   */
  type Graph = seq<seq<int>>

  ghost predicate WellFormed(g: Graph) {
    forall i, s :: 0 <= i < |g| && s in g[i] ==> 0 <= s < |g|
  }

  ghost predicate Entries(g: Graph, entries: seq<int>) {
    forall e :: e in entries ==> 0 <= e < |g|
  }

  /** A nonempty sequence of nodes, each with an edge to the next. */
  ghost predicate IsPath(g: Graph, p: seq<int>) {
    && |p| > 0
    && (forall i :: 0 <= i < |p| ==> 0 <= p[i] < |g|)
    && (forall i, j :: 0 <= i < j < |p| && j == i + 1 ==> p[j] in g[p[i]])
  }

  ghost predicate PathBetween(g: Graph, p: seq<int>, a: int, b: int) {
    IsPath(g, p) && p[0] == a && p[|p| - 1] == b
  }

  /** A path from some entry to `b`. */
  ghost predicate Walk(g: Graph, entries: seq<int>, p: seq<int>, b: int) {
    IsPath(g, p) && p[0] in entries && p[|p| - 1] == b
  }

  ghost predicate Reached(g: Graph, entries: seq<int>, b: int) {
    exists p :: Walk(g, entries, p, b)
  }

  /** Every path from any entry to `b` passes through `a`. */
  ghost predicate Dominates(g: Graph, entries: seq<int>, a: int, b: int) {
    forall p :: Walk(g, entries, p, b) ==> a in p
  }

  /** `b` reaches `t` along a path that never meets `a`. */
  ghost predicate ReachesAvoiding(g: Graph, b: int, t: int, a: int) {
    exists p :: PathBetween(g, p, b, t) && a !in p
  }

  // Walks

  lemma WalkPrefix(g: Graph, entries: seq<int>, p: seq<int>, b: int, k: int)
    requires Walk(g, entries, p, b) && 0 <= k < |p|
    ensures Walk(g, entries, p[..k + 1], p[k])
  {
  }

  lemma WalkEdge(g: Graph, entries: seq<int>, p: seq<int>, u: int, v: int)
    requires WellFormed(g) && Walk(g, entries, p, u) && v in g[u]
    ensures Walk(g, entries, p + [v], v)
  {
    var q := p + [v];
  }

  /** A path ending where another starts continues along it. */
  lemma PathJoin(g: Graph, p: seq<int>, q: seq<int>)
    requires IsPath(g, p) && IsPath(g, q) && p[|p| - 1] == q[0]
    ensures IsPath(g, p + q[1..])
    ensures (p + q[1..])[0] == p[0] && (p + q[1..])[|p + q[1..]| - 1] == q[|q| - 1]
  {
    var r := p + q[1..];
    forall i, j | 0 <= i < j < |r| && j == i + 1
      ensures r[j] in g[r[i]]
    {
      if i >= |p| - 1 {
        assert r[i] == q[i - |p| + 1] && r[j] == q[i - |p| + 2];
      }
    }
  }

  lemma WalkJoin(g: Graph, entries: seq<int>, p: seq<int>, b: int, q: seq<int>, c: int)
    requires Walk(g, entries, p, b) && PathBetween(g, q, b, c)
    ensures Walk(g, entries, p + q[1..], c)
  {
    PathJoin(g, p, q);
  }

  lemma PathSuffix(g: Graph, p: seq<int>, k: int)
    requires IsPath(g, p) && 0 <= k < |p|
    ensures PathBetween(g, p[k..], p[k], p[|p| - 1])
  {
    var q := p[k..];
    forall i, j | 0 <= i < j < |q| && j == i + 1
      ensures q[j] in g[q[i]]
    {
      assert q[i] == p[k + i] && q[j] == p[k + j];
    }
  }

  /** A set that holds the entries and is closed under successors holds every node of every walk. */
  lemma {:induction false} ClosedHoldsWalks(g: Graph, entries: seq<int>, s: set<int>, p: seq<int>, b: int)
    requires forall e :: e in entries ==> e in s
    requires forall u, v :: u in s && 0 <= u < |g| && v in g[u] ==> v in s
    requires Walk(g, entries, p, b)
    ensures b in s
    decreases |p|
  {
    if |p| <= 1 {
    } else {
      WalkPrefix(g, entries, p, b, |p| - 2);
      ClosedHoldsWalks(g, entries, s, p[..|p| - 1], p[|p| - 2]);
    }
  }

  // Dominance

  lemma DominatesTransitive(g: Graph, entries: seq<int>, a: int, b: int, c: int)
    requires Dominates(g, entries, a, b) && Dominates(g, entries, b, c)
    ensures Dominates(g, entries, a, c)
  {
    forall p | Walk(g, entries, p, c)
      ensures a in p
    {
      var k :| 0 <= k < |p| && p[k] == b;
      WalkPrefix(g, entries, p, c, k);
    }
  }

  lemma FirstOccurrence(p: seq<int>, a: int) returns (k: int)
    requires a in p
    ensures 0 <= k < |p| && p[k] == a && a !in p[..k]
  {
    k := 0;
    while p[k] != a
      invariant 0 <= k < |p|
      invariant a !in p[..k]
      invariant exists i :: k <= i < |p| && p[i] == a
      decreases |p| - k
    {
      k := k + 1;
    }
  }

  lemma LastOccurrence(p: seq<int>, a: int) returns (k: int)
    requires a in p
    ensures 0 <= k < |p| && p[k] == a && a !in p[k + 1..]
  {
    k := |p| - 1;
    while p[k] != a
      invariant 0 <= k < |p|
      invariant a !in p[k + 1..]
      invariant exists i :: 0 <= i <= k && p[i] == a
      decreases k
    {
      k := k - 1;
    }
  }

  lemma DominatesAntisymmetric(g: Graph, entries: seq<int>, a: int, b: int)
    requires Reached(g, entries, b)
    requires Dominates(g, entries, a, b) && Dominates(g, entries, b, a)
    ensures a == b
  {
    var p :| Walk(g, entries, p, b);
    var k := FirstOccurrence(p, a);
    WalkPrefix(g, entries, p, b, k);
    assert b in p[..k + 1];
    var j :| 0 <= j <= k && p[j] == b;
    WalkPrefix(g, entries, p, b, j);
    assert a in p[..j + 1];
    assert j == k;
  }

  /** Two dominators of a reached node are ordered by dominance. */
  lemma DominatorsComparable(g: Graph, entries: seq<int>, a: int, b: int, c: int)
    requires Reached(g, entries, c)
    requires Dominates(g, entries, a, c) && Dominates(g, entries, b, c)
    ensures Dominates(g, entries, a, b) || Dominates(g, entries, b, a)
  {
    if a != b && !Dominates(g, entries, a, b) && !Dominates(g, entries, b, a) {
      var w :| Walk(g, entries, w, c);
      var i := LastOccurrence(w, a);
      var j := LastOccurrence(w, b);
      if i > j {
        Detour(g, entries, b, a, c, w, i);
      } else {
        Detour(g, entries, a, b, c, w, j);
      }
    }
  }

  /**
   * If a walk to `c` has no `x` after its node `i`, and that node `y` can be entered without `x`, then `x` does not
   * dominate `c`.
   */
  lemma Detour(g: Graph, entries: seq<int>, x: int, y: int, c: int, w: seq<int>, i: int)
    requires Walk(g, entries, w, c) && 0 <= i < |w| && w[i] == y && x !in w[i + 1..]
    requires !Dominates(g, entries, x, y)
    ensures !Dominates(g, entries, x, c)
  {
    var p :| Walk(g, entries, p, y) && x !in p;
    PathSuffix(g, w, i);
    WalkJoin(g, entries, p, y, w[i..], c);
    assert w[i..][1..] == w[i + 1..];
    assert x !in p + w[i..][1..];
  }
}
