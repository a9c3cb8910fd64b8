/** `_dominates` and `natural_loops` of tools/innerloops.py, and the nesting of natural loops. */
module NaturalLoops {
  import opened ControlFlow
  import opened DepthFirst
  import opened DominatorStep
  import opened Dominators
  import opened Instructions
  import opened Sorting

  // The query

  ghost function DominatorSet(g: Graph, entries: seq<int>, b: int): set<int> {
    set a | 0 <= a < |g| && Dominates(g, entries, a, b)
  }

  lemma DominatorReached(g: Graph, entries: seq<int>, a: int, b: int)
    requires Reached(g, entries, b) && Dominates(g, entries, a, b)
    ensures Reached(g, entries, a) && 0 <= a < |g|
  {
    var p :| Walk(g, entries, p, b);
    var k :| 0 <= k < |p| && p[k] == a;
    WalkPrefix(g, entries, p, b, k);
  }

  lemma ClimbIdom(g: Graph, entries: seq<int>, idom: seq<int>, b: int)
    requires IsIdom(g, entries, idom) && 0 <= b < |g| && Reached(g, entries, b) && idom[b] != ROOT
    ensures 0 <= idom[b] < |g| && Reached(g, entries, idom[b])
    ensures forall a :: a != b ==> (Dominates(g, entries, a, b) <==> Dominates(g, entries, a, idom[b]))
    ensures |DominatorSet(g, entries, idom[b])| < |DominatorSet(g, entries, b)|
  {
    var d := idom[b];
    assert IdomAt(g, entries, idom, b);
    DominatorReached(g, entries, d, b);
    forall a | Dominates(g, entries, a, d) ensures Dominates(g, entries, a, b) && a != b {
      DominatesTransitive(g, entries, a, d, b);
      if a == b { DominatesAntisymmetric(g, entries, d, b); }
    }
    assert b in DominatorSet(g, entries, b);
    Smaller(DominatorSet(g, entries, d), DominatorSet(g, entries, b), b);
  }

  lemma Smaller(s: set<int>, t: set<int>, x: int)
    requires s <= t && x in t && x !in s
    ensures |s| < |t|
  {
    assert t == s + {x} + (t - s - {x});
  }

  /** Whether `a` dominates `b`, by climbing from `b`. An unreached `b` is told to be dominated by itself alone. */
  method IsDominator(idom: seq<int>, a: int, b: int, ghost g: Graph, ghost entries: seq<int>) returns (yes: bool)
    requires IsIdom(g, entries, idom) && 0 <= b < |idom|
    ensures yes == if Reached(g, entries, b) then Dominates(g, entries, a, b) else a == b
  {
    var at := b;
    while at >= 0
      invariant at < |idom| && (at < 0 ==> a != b && (Reached(g, entries, b) ==> !Dominates(g, entries, a, b)))
      invariant at >= 0 && !Reached(g, entries, b) ==> at == b
      invariant at >= 0 && Reached(g, entries, b) ==> Reached(g, entries, at)
      invariant at >= 0 && Reached(g, entries, b) ==> (Dominates(g, entries, a, b) <==> Dominates(g, entries, a, at))
      decreases if at >= 0 then 1 + |DominatorSet(g, entries, at)| else 0
    {
      if a == at { return true; }
      assert IdomAt(g, entries, idom, at);
      if Reached(g, entries, at) && idom[at] != ROOT { ClimbIdom(g, entries, idom, at); }
      at := idom[at];
    }
    return false;
  }

  // Loops

  /** What the query answers for `h` and `t` is a back edge's condition. */
  ghost predicate BackEdge(g: Graph, entries: seq<int>, t: int, h: int) {
    Edge(g, t, h) && if Reached(g, entries, t) then Dominates(g, entries, h, t) else t == h
  }

  ghost predicate IsHeader(g: Graph, entries: seq<int>, h: int) {
    exists t :: BackEdge(g, entries, t, h)
  }

  /** The natural loop of `h`: `h` itself, and all that reaches the source of a back edge to `h` without passing `h`. */
  ghost predicate InLoop(g: Graph, entries: seq<int>, h: int, x: int) {
    IsHeader(g, entries, h) && (x == h || exists t :: BackEdge(g, entries, t, h) && ReachesAvoiding(g, x, t, h))
  }

  lemma HeaderDominates(g: Graph, entries: seq<int>, h: int, x: int)
    requires InLoop(g, entries, h, x)
    ensures Dominates(g, entries, h, x)
  {
    if x != h {
      var t :| BackEdge(g, entries, t, h) && ReachesAvoiding(g, x, t, h);
      var q :| PathBetween(g, q, x, t) && h !in q;
      forall w | Walk(g, entries, w, x) ensures h in w {
        WalkJoin(g, entries, w, x, q, t);
        assert Reached(g, entries, t) && t in q;
        assert h in w + q[1..];
      }
    }
  }

  /**
   * If `h1` strictly dominates the reached header `h2`, and the loops share the reached node `x`, then `h2` reaches
   * `x` without `h1`.
   */
  lemma InnerReaches(g: Graph, entries: seq<int>, h1: int, h2: int, x: int) returns (q: seq<int>)
    requires Reached(g, entries, x) && h1 != h2
    requires Dominates(g, entries, h1, h2) && Dominates(g, entries, h2, x) && Dominates(g, entries, h1, x)
    ensures PathBetween(g, q, h2, x) && h1 !in q
  {
    var w :| Walk(g, entries, w, x);
    var i := LastOccurrence(w, h1);
    InnerFollows(g, entries, h1, h2, x, w, i);
    hide Dominates;
    var k :| 0 <= k < |w[i + 1..]| && w[i + 1..][k] == h2;
    q := w[i + 1 + k..];
    PathSuffix(g, w, i + 1 + k);
    assert q == w[i + 1..][k..];
  }

  /** On a walk to `x`, the inner header comes after the last `h1`. */
  lemma InnerFollows(g: Graph, entries: seq<int>, h1: int, h2: int, x: int, w: seq<int>, i: int)
    requires Reached(g, entries, x) && h1 != h2
    requires Dominates(g, entries, h1, h2) && Dominates(g, entries, h2, x)
    requires Walk(g, entries, w, x) && 0 <= i < |w| && w[i] == h1 && h1 !in w[i + 1..]
    ensures h2 in w[i + 1..]
  {
    DominatorReached(g, entries, h2, x);
    DominatorReached(g, entries, h1, h2);
    if Dominates(g, entries, h2, h1) { DominatesAntisymmetric(g, entries, h1, h2); }
    if h2 !in w[i + 1..] { Detour(g, entries, h2, h1, x, w, i); }
  }

  lemma AvoidingJoin(g: Graph, x: int, y: int, z: int, h: int)
    requires ReachesAvoiding(g, x, y, h) && ReachesAvoiding(g, y, z, h)
    ensures ReachesAvoiding(g, x, z, h)
  {
    var p :| PathBetween(g, p, x, y) && h !in p;
    var q :| PathBetween(g, q, y, z) && h !in q;
    PathJoin(g, p, q);
    assert PathBetween(g, p + q[1..], x, z);
  }

  /** The loop of the dominated header lies within the loop of the dominating one. */
  lemma Nested(g: Graph, entries: seq<int>, h1: int, h2: int, x: int, y: int)
    requires WellFormed(g) && h1 != h2 && Reached(g, entries, x)
    requires InLoop(g, entries, h1, x) && InLoop(g, entries, h2, x) && Dominates(g, entries, h1, h2)
    requires InLoop(g, entries, h2, y)
    ensures InLoop(g, entries, h1, y) && y != h1
  {
    HeaderDominates(g, entries, h1, x);
    HeaderDominates(g, entries, h2, x);
    DominatorReached(g, entries, h2, x);
    DominatorReached(g, entries, h1, h2);
    if x == h1 { DominatesAntisymmetric(g, entries, h1, h2); }
    var t1 :| BackEdge(g, entries, t1, h1) && ReachesAvoiding(g, x, t1, h1);
    var q := InnerReaches(g, entries, h1, h2, x);
    assert ReachesAvoiding(g, h2, x, h1);
    AvoidingJoin(g, h2, x, t1, h1);
    if y != h2 {
      BodyAvoids(g, entries, h1, h2, y);
      AvoidingJoin(g, y, h2, t1, h1);
    }
  }

  /** A path past a node that can be entered without `h` and itself without `h` leads to nodes `h` does not dominate. */
  lemma EnteredBeside(g: Graph, entries: seq<int>, via: int, h: int, p: seq<int>, t: int)
    requires IsPath(g, p) && p[|p| - 1] == t && via in p && h !in p && !Dominates(g, entries, h, via)
    ensures Reached(g, entries, t) && !Dominates(g, entries, h, t)
  {
    var k :| 0 <= k < |p| && p[k] == via;
    PathSuffix(g, p, k);
    var w :| Walk(g, entries, w, via) && h !in w;
    WalkJoin(g, entries, w, via, p[k..], t);
    assert h !in w + p[k..][1..];
  }

  /** From the loop of `h2` one gets to `h2` without meeting a strict dominator `h1` of it. */
  lemma BodyAvoids(g: Graph, entries: seq<int>, h1: int, h2: int, y: int)
    requires WellFormed(g) && h1 != h2 && Reached(g, entries, h2) && Dominates(g, entries, h1, h2)
    requires InLoop(g, entries, h2, y) && y != h2
    ensures ReachesAvoiding(g, y, h2, h1)
  {
    var t :| BackEdge(g, entries, t, h2) && ReachesAvoiding(g, y, t, h2);
    var p :| PathBetween(g, p, y, t) && h2 !in p;
    DominatorReached(g, entries, h1, h2);
    if Dominates(g, entries, h2, h1) { DominatesAntisymmetric(g, entries, h1, h2); }
    if h1 in p { EnteredBeside(g, entries, h1, h2, p, t); }
    assert PathBetween(g, [t, h2], t, h2);
    PathJoin(g, p, [t, h2]);
    assert [t, h2][1..] == [h2];
    assert PathBetween(g, p + [h2], y, h2) && h1 !in p + [h2];
  }

  /** Natural loops with different headers that share a reached node are nested. */
  lemma NestedOrDisjoint(g: Graph, entries: seq<int>, h1: int, h2: int, x: int)
    requires WellFormed(g) && h1 != h2 && Reached(g, entries, x)
    requires InLoop(g, entries, h1, x) && InLoop(g, entries, h2, x)
    ensures (forall y :: InLoop(g, entries, h2, y) ==> InLoop(g, entries, h1, y) && y != h1)
         || (forall y :: InLoop(g, entries, h1, y) ==> InLoop(g, entries, h2, y) && y != h2)
  {
    HeaderDominates(g, entries, h1, x);
    HeaderDominates(g, entries, h2, x);
    DominatorsComparable(g, entries, h1, h2, x);
    if Dominates(g, entries, h1, h2) {
      forall y | InLoop(g, entries, h2, y)
        ensures InLoop(g, entries, h1, y) && y != h1
      {
        Nested(g, entries, h1, h2, x, y);
      }
    } else {
      forall y | InLoop(g, entries, h1, y)
        ensures InLoop(g, entries, h2, y) && y != h2
      {
        Nested(g, entries, h2, h1, x, y);
      }
    }
  }

  // Collecting the bodies

  /** The back edges among the edges looked at so far. */
  ghost predicate Source(g: Graph, entries: seq<int>, edges: seq<(int, int)>, h: int, t: int) {
    (t, h) in edges && BackEdge(g, entries, t, h)
  }

  /** A member of a body collected so far is its header or gets to a source found so far without passing it. */
  ghost predicate Member(g: Graph, entries: seq<int>, edges: seq<(int, int)>, h: int, x: int) {
    x == h || exists t :: Source(g, entries, edges, h, t) && ReachesAvoiding(g, x, t, h)
  }

  ghost predicate Sound(g: Graph, entries: seq<int>, edges: seq<(int, int)>, h: int, body: set<int>) {
    h in body && forall x :: x in body ==> Member(g, entries, edges, h, x)
  }

  /** The predecessors of a member other than the header are members, or waiting. */
  ghost predicate ClosedBut(g: Graph, h: int, body: set<int>, waiting: seq<int>) {
    forall x, p :: x in body && x != h && Edge(g, p, x) ==> p in body || p in waiting
  }

  ghost predicate Collected(g: Graph, entries: seq<int>, edges: seq<(int, int)>, h: int, body: set<int>) {
    && Sound(g, entries, edges, h, body) && ClosedBut(g, h, body, [])
    && forall t :: Source(g, entries, edges, h, t) ==> t in body
  }

  lemma {:induction false} BackFrom(g: Graph, h: int, body: set<int>, p: seq<int>)
    requires IsPath(g, p) && h !in p && p[|p| - 1] in body && ClosedBut(g, h, body, [])
    ensures p[0] in body
    decreases |p|
  {
    if |p| <= 1 {
    } else {
      assert p[1] in g[p[0]] && p[1] in p;
      PathSuffix(g, p, 1);
      assert forall i :: 0 <= i < |p[1..]| ==> p[1..][i] in p;
      BackFrom(g, h, body, p[1..]);
      assert Edge(g, p[0], p[1]) && p[1..][0] == p[1];
    }
  }

  lemma CollectedExactly(g: Graph, entries: seq<int>, edges: seq<(int, int)>, h: int, body: set<int>, x: int)
    requires Collected(g, entries, edges, h, body)
    ensures x in body <==> Member(g, entries, edges, h, x)
  {
    if Member(g, entries, edges, h, x) && x != h {
      var t :| Source(g, entries, edges, h, t) && ReachesAvoiding(g, x, t, h);
      var p :| PathBetween(g, p, x, t) && h !in p;
      BackFrom(g, h, body, p);
    }
  }

  lemma StepBack(g: Graph, x: int, p: int, t: int, h: int)
    requires ReachesAvoiding(g, x, t, h) && Edge(g, p, x) && p != h
    ensures ReachesAvoiding(g, p, t, h)
  {
    var q :| PathBetween(g, q, x, t) && h !in q;
    assert PathBetween(g, [p, x], p, x);
    PathJoin(g, [p, x], q);
    assert PathBetween(g, [p, x] + q[1..], p, t) && h !in [p, x] + q[1..];
  }

  lemma MoreEdges(g: Graph, entries: seq<int>, edges: seq<(int, int)>, more: seq<(int, int)>, h: int, body: set<int>)
    requires Sound(g, entries, edges, h, body) && forall e :: e in edges ==> e in more
    ensures Sound(g, entries, more, h, body)
  {
    forall x | x in body ensures Member(g, entries, more, h, x) {
      assert Member(g, entries, edges, h, x);
      if x != h {
        var t :| Source(g, entries, edges, h, t) && ReachesAvoiding(g, x, t, h);
        assert Source(g, entries, more, h, t);
      }
    }
  }

  ghost predicate Waiting(g: Graph, entries: seq<int>, edges: seq<(int, int)>, h: int, pending: seq<int>) {
    forall x :: x in pending ==> 0 <= x < |g| && Member(g, entries, edges, h, x)
  }

  lemma WaitingLess(g: Graph, entries: seq<int>, edges: seq<(int, int)>, h: int, pending: seq<int>, at: int)
    requires Waiting(g, entries, edges, h, pending + [at])
    ensures Waiting(g, entries, edges, h, pending) && 0 <= at < |g| && Member(g, entries, edges, h, at)
  {
    assert at in pending + [at];
    assert forall x :: x in pending ==> x in pending + [at];
  }

  lemma BodyTakes(g: Graph, h: int, body: set<int>, pending: seq<int>, at: int, more: seq<int>)
    requires ClosedBut(g, h, body, pending + [at])
    requires forall p :: Edge(g, p, at) ==> p in more
    ensures ClosedBut(g, h, body + {at}, pending + more)
  {
  }

  /** The body of `h` with everything that reaches `index`, the source of a back edge, without passing `h`. */
  method AddSource(g: Graph, predecessors: map<int, seq<int>>, h: int, index: int, body0: set<int>,
                   ghost entries: seq<int>, ghost edges: seq<(int, int)>, ghost nodes: seq<int>)
    returns (body: set<int>)
    requires WellFormed(g) && Source(g, entries, edges, h, index) && PredecessorsIn(g, nodes, predecessors)
    requires forall n :: 0 <= n < |g| ==> n in nodes
    requires Sound(g, entries, edges, h, body0) && ClosedBut(g, h, body0, [])
    ensures Sound(g, entries, edges, h, body) && ClosedBut(g, h, body, []) && index in body && body0 <= body
  {
    body := body0;
    var pending := [index];
    assert Member(g, entries, edges, h, index) by {
      if index != h { assert PathBetween(g, [index], index, index); assert h !in [index]; }
    }
    ghost var all := set n | n in nodes;
    while pending != []
      invariant Sound(g, entries, edges, h, body) && ClosedBut(g, h, body, pending) && body0 <= body
      invariant index in body || index in pending
      invariant Waiting(g, entries, edges, h, pending)
      decreases all - body, |pending|
    {
      ghost var was := pending;
      var at := pending[|pending| - 1];
      pending := pending[..|pending| - 1];
      assert was == pending + [at];
      WaitingLess(g, entries, edges, h, pending, at);
      if at in body { continue; }
      var more := if at in predecessors then predecessors[at] else [];
      forall p | p in more ensures 0 <= p < |g| && Member(g, entries, edges, h, p) {
        BodyGrows(g, entries, edges, h, at, p);
      }
      assert at in all && Waiting(g, entries, edges, h, more);
      assert forall x :: x in pending + more <==> x in pending || x in more;
      BodyTakes(g, h, body, pending, at, more);
      body := body + {at};
      pending := pending + more;
    }
  }

  lemma BodyGrows(g: Graph, entries: seq<int>, edges: seq<(int, int)>, h: int, x: int, p: int)
    requires Member(g, entries, edges, h, x) && x != h && Edge(g, p, x)
    ensures Member(g, entries, edges, h, p)
  {
    if p != h {
      var t :| Source(g, entries, edges, h, t) && ReachesAvoiding(g, x, t, h);
      StepBack(g, x, p, t, h);
    }
  }

  // All loops

  function EdgesUpTo(g: Graph, n: nat): (edges: seq<(int, int)>)
    requires n <= |g|
    ensures forall t, h :: (t, h) in edges <==> 0 <= t < n && h in g[t]
  {
    if n == 0 then [] else
      var last := seq(|g[n - 1]|, k requires 0 <= k < |g[n - 1]| => (n - 1, g[n - 1][k]));
      assert forall t, h :: (t, h) in last <==> t == n - 1 && h in g[n - 1] by { PairsWith(n - 1, g[n - 1], last); }
      EdgesUpTo(g, n - 1) + last
  }

  lemma PairsWith(t: int, s: seq<int>, pairs: seq<(int, int)>)
    requires |pairs| == |s| && forall k :: 0 <= k < |s| ==> pairs[k] == (t, s[k])
    ensures forall u, h :: (u, h) in pairs <==> u == t && h in s
  {
    forall h | h in s ensures (t, h) in pairs {
      var k :| 0 <= k < |s| && s[k] == h;
      assert pairs[k] == (t, h);
    }
  }

  ghost predicate HasSource(g: Graph, entries: seq<int>, edges: seq<(int, int)>, h: int) {
    exists t :: Source(g, entries, edges, h, t)
  }

  /** The bodies hold a header for each back edge looked at, with what those edges make its loop. */
  ghost predicate AllCollected(g: Graph, entries: seq<int>, edges: seq<(int, int)>, bodies: map<int, set<int>>) {
    && (forall h :: h in bodies <==> HasSource(g, entries, edges, h))
    && (forall h :: h in bodies ==> Collected(g, entries, edges, h, bodies[h]))
  }

  lemma OtherEdge(g: Graph, entries: seq<int>, edges: seq<(int, int)>, index: int, header: int, h: int)
    requires header != h || !BackEdge(g, entries, index, header)
    ensures forall t :: Source(g, entries, edges + [(index, header)], h, t) <==> Source(g, entries, edges, h, t)
    ensures HasSource(g, entries, edges + [(index, header)], h) <==> HasSource(g, entries, edges, h)
    ensures forall body :: Collected(g, entries, edges, h, body) ==>
      Collected(g, entries, edges + [(index, header)], h, body)
  {
    var more := edges + [(index, header)];
    forall t ensures Source(g, entries, more, h, t) <==> Source(g, entries, edges, h, t) {}
    if HasSource(g, entries, edges, h) {
      var t :| Source(g, entries, edges, h, t);
      assert Source(g, entries, more, h, t);
    }
    forall body | Collected(g, entries, edges, h, body) ensures Collected(g, entries, more, h, body) {
      MoreEdges(g, entries, edges, more, h, body);
    }
  }

  /** `found` lists every natural loop once, by header, its members in order. */
  ghost predicate LoopsAre(g: Graph, entries: seq<int>, found: seq<(int, seq<int>)>) {
    && (forall i, j :: 0 <= i < j < |found| ==> found[i].0 < found[j].0)
    && (forall i :: 0 <= i < |found| ==> LoopIs(g, entries, found[i].0, found[i].1))
    && (forall h :: IsHeader(g, entries, h) ==> exists i :: 0 <= i < |found| && found[i].0 == h)
  }

  ghost predicate LoopIs(g: Graph, entries: seq<int>, h: int, members: seq<int>) {
    IsHeader(g, entries, h) && Ascending(members) && forall x :: x in members <==> InLoop(g, entries, h, x)
  }

  /** An edge that is no back edge leaves what is collected as it is. */
  lemma EdgePassed(
      g: Graph, entries: seq<int>, edges: seq<(int, int)>, bodies: map<int, set<int>>, index: int, header: int)
    requires AllCollected(g, entries, edges, bodies) && !BackEdge(g, entries, index, header)
    ensures AllCollected(g, entries, edges + [(index, header)], bodies)
  {
    hide Collected, HasSource, Source, BackEdge;
    forall h
      ensures HasSource(g, entries, edges + [(index, header)], h) <==> HasSource(g, entries, edges, h)
      ensures h in bodies ==> Collected(g, entries, edges + [(index, header)], h, bodies[h])
    {
      OtherEdge(g, entries, edges, index, header, h);
    }
  }

  /** The header's body so far. */
  function BodySoFar(bodies: map<int, set<int>>, header: int): set<int> {
    if header in bodies then bodies[header] else {header}
  }

  lemma SoFarSound(
      g: Graph, entries: seq<int>, edges: seq<(int, int)>, bodies: map<int, set<int>>, index: int, header: int)
    requires AllCollected(g, entries, edges, bodies)
    ensures Sound(g, entries, edges + [(index, header)], header, BodySoFar(bodies, header))
    ensures ClosedBut(g, header, BodySoFar(bodies, header), [])
  {
    hide Source, HasSource;
    if header in bodies {
      MoreEdges(g, entries, edges, edges + [(index, header)], header, bodies[header]);
    }
  }

  /** A back edge's source and all that leads to it have been put into its header's body. */
  lemma EdgeTaken(
      g: Graph, entries: seq<int>, edges: seq<(int, int)>, bodies: map<int, set<int>>, index: int, header: int,
      body: set<int>)
    requires AllCollected(g, entries, edges, bodies) && BackEdge(g, entries, index, header)
    requires Sound(g, entries, edges + [(index, header)], header, body) && ClosedBut(g, header, body, [])
    requires index in body && BodySoFar(bodies, header) <= body
    ensures AllCollected(g, entries, edges + [(index, header)], bodies[header := body])
  {
    var more := edges + [(index, header)];
    assert (index, header) in more && Source(g, entries, more, header, index);
    SourcesIn(g, entries, edges, index, header, bodies, BodySoFar(bodies, header), body);
    hide Sound, ClosedBut, Source, BackEdge;
    assert Collected(g, entries, more, header, body);
    hide Collected;
    forall h | h != header
      ensures HasSource(g, entries, more, h) <==> HasSource(g, entries, edges, h)
      ensures h in bodies ==> Collected(g, entries, more, h, bodies[h])
    {
      OtherEdge(g, entries, edges, index, header, h);
    }
  }

  /** One edge: nothing unless it is a back edge, else its header's body takes the edge's source. */
  method TakeEdge(
      g: Graph, idom: seq<int>, predecessors: map<int, seq<int>>, bodies0: map<int, set<int>>, index: int, header: int,
      ghost entries: seq<int>, ghost edges: seq<(int, int)>, ghost nodes: seq<int>)
    returns (bodies: map<int, set<int>>)
    requires WellFormed(g) && IsIdom(g, entries, idom) && PredecessorsIn(g, nodes, predecessors)
    requires forall n :: 0 <= n < |g| ==> n in nodes
    requires Edge(g, index, header) && AllCollected(g, entries, edges, bodies0)
    ensures AllCollected(g, entries, edges + [(index, header)], bodies)
  {
    hide AllCollected, Sound, ClosedBut, PredecessorsIn, Reached, Dominates;
    ghost var more := edges + [(index, header)];
    var back := IsDominator(idom, header, index, g, entries);
    bodies := bodies0;
    if !back {
      EdgePassed(g, entries, edges, bodies, index, header);
      return;
    }
    SoFarSound(g, entries, edges, bodies, index, header);
    assert (index, header) in more && Source(g, entries, more, header, index);
    var body := AddSource(g, predecessors, header, index, BodySoFar(bodies, header), entries, more, nodes);
    EdgeTaken(g, entries, edges, bodies, index, header, body);
    bodies := bodies[header := body];
  }

  lemma SourcesIn(
      g: Graph, entries: seq<int>, edges: seq<(int, int)>, index: int, header: int, bodies: map<int, set<int>>,
      before: set<int>, body: set<int>)
    requires AllCollected(g, entries, edges, bodies) && before <= body && index in body
    requires header in bodies ==> before == bodies[header]
    ensures forall t :: Source(g, entries, edges + [(index, header)], header, t) ==> t in body
  {
    forall t | Source(g, entries, edges + [(index, header)], header, t) ensures t in body {
      if t != index {
        assert Source(g, entries, edges, header, t);
        assert HasSource(g, entries, edges, header);
        assert Collected(g, entries, edges, header, bodies[header]);
      }
    }
  }

  /** The bodies by header, over all edges. */
  method Bodies(
      g: Graph, idom: seq<int>, ghost entries: seq<int>)
    returns (bodies: map<int, set<int>>, edges: seq<(int, int)>)
    requires WellFormed(g) && IsIdom(g, entries, idom)
    ensures forall t, h :: (t, h) in edges <==> Edge(g, t, h)
    ensures AllCollected(g, entries, edges, bodies)
  {
    var nodes := seq(|g|, i => i);
    forall n | 0 <= n < |g| ensures n in nodes { assert nodes[n] == n; }
    var predecessors := Predecessors(g, nodes);
    edges := EdgesUpTo(g, |g|);
    bodies := map[];
    for k := 0 to |edges|
      invariant AllCollected(g, entries, edges[..k], bodies)
    {
      assert edges[..k + 1] == edges[..k] + [edges[k]];
      assert (edges[k].0, edges[k].1) in edges;
      bodies := TakeEdge(g, idom, predecessors, bodies, edges[k].0, edges[k].1, entries, edges[..k], nodes);
    }
    assert edges[..|edges|] == edges;
  }

  function Listing(bodies: map<int, set<int>>, headers: seq<int>): (found: seq<(int, seq<int>)>)
    requires forall h :: h in headers ==> h in bodies
    ensures |found| == |headers|
    ensures forall i :: 0 <= i < |headers| ==>
      headers[i] in bodies && found[i] == (headers[i], Sorted(bodies[headers[i]]))
  {
    if headers == [] then [] else
      var header := headers[0];
      assert header in headers;
      [(header, Sorted(bodies[header]))] + Listing(bodies, headers[1..])
  }

  method NaturalLoops(text: seq<Insn>, entries: seq<int>) returns (found: seq<(int, seq<int>)>)
    requires forall e :: e in entries ==> 0 <= e < |text|
    ensures exists where :: IsWhere(text, where) && LoopsAre(SuccessorLists(text, where), entries, found)
  {
    var where := WhereIs(text);
    SuccessorsInRange(text, where);
    var successors := SuccessorLists(text, where);
    var idom := Dominators.Dominators(successors, entries);
    var bodies, edges := Bodies(successors, idom, entries);
    var headers := Sorted(bodies.Keys);
    found := Listing(bodies, headers);
    Listed(successors, entries, edges, bodies, headers, found);
  }

  lemma Listed(
      g: Graph, entries: seq<int>, edges: seq<(int, int)>, bodies: map<int, set<int>>, headers: seq<int>,
      found: seq<(int, seq<int>)>)
    requires forall t, h :: (t, h) in edges <==> Edge(g, t, h)
    requires AllCollected(g, entries, edges, bodies)
    requires Ascending(headers) && forall h :: h in headers <==> h in bodies
    requires |found| == |headers|
    requires forall i :: 0 <= i < |headers| ==>
      headers[i] in bodies && found[i] == (headers[i], Sorted(bodies[headers[i]]))
    ensures LoopsAre(g, entries, found)
  {
    forall h, t ensures Source(g, entries, edges, h, t) <==> BackEdge(g, entries, t, h) {}
    forall i | 0 <= i < |found| ensures LoopIs(g, entries, found[i].0, found[i].1) {
      var h := headers[i];
      assert HasSource(g, entries, edges, h);
      forall x ensures x in bodies[h] <==> InLoop(g, entries, h, x) {
        CollectedExactly(g, entries, edges, h, bodies[h], x);
      }
    }
    forall h | IsHeader(g, entries, h) ensures exists i :: 0 <= i < |found| && found[i].0 == h {
      assert HasSource(g, entries, edges, h) && h in headers;
      var i :| 0 <= i < |headers| && headers[i] == h;
      assert found[i].0 == h;
    }
  }
}
