/**
 * `dominators` and `_dominates` of tools/innerloops.py: the immediate dominators of a control-flow graph with several
 * entries.
 */
module Dominators {
  import opened ControlFlow
  import opened DepthFirst
  import opened Forest
  import opened DominatorStep

  const UNREACHED := -2

  /**
   * `idom[b]` is the immediate dominator of `b`: -2 if no entry reaches `b`, -1 if only `b` itself dominates `b`,
   * else the strict dominator of `b` that all strict dominators of `b` dominate.
   */
  ghost predicate IdomAt(g: Graph, entries: seq<int>, idom: seq<int>, b: int)
    requires |idom| == |g| && 0 <= b < |g|
  {
    if !Reached(g, entries, b) then idom[b] == -2
    else if idom[b] == -1 then forall a :: Dominates(g, entries, a, b) ==> a == b
    else
      && 0 <= idom[b] < |g| && idom[b] != b && Dominates(g, entries, idom[b], b)
      && forall a :: Dominates(g, entries, a, b) && a != b ==> Dominates(g, entries, a, idom[b])
  }

  ghost predicate IsIdom(g: Graph, entries: seq<int>, idom: seq<int>) {
    |idom| == |g| && forall b :: 0 <= b < |g| ==> IdomAt(g, entries, idom, b)
  }

  // The pieces of the iteration

  ghost predicate Ranked(par: Parents, rank: Ranks) {
    && IsForest(par, rank) && ROOT !in rank
    && (forall x :: x in par ==> x in rank)
    && (forall x, y :: x in rank && y in rank && rank[x] == rank[y] ==> x == y)
  }

  lemma ClimbOne(par: Parents, rank: Ranks, a: int, b: int)
    requires Ranked(par, rank) && Node(par, a) && Node(par, b) && Rk(rank, a) > Rk(rank, b)
    ensures a in par && Node(par, par[a]) && Rk(rank, par[a]) < Rk(rank, a)
    ensures forall z :: z in Anc(par, rank, par[a]) && z in Anc(par, rank, b) <==>
      z in Anc(par, rank, a) && z in Anc(par, rank, b)
  {
    AncUnfold(par, rank, a);
    AncUnfold(par, rank, b);
    if a in Anc(par, rank, b) { AncRank(par, rank, b, a); }
  }

  /** The nearest common ancestor of `a0` and `b0`: what is above it is exactly what is above both. */
  method Intersect(par: Parents, rank: Ranks, a0: int, b0: int) returns (a: int)
    requires Ranked(par, rank) && Node(par, a0) && Node(par, b0)
    ensures Node(par, a)
    ensures forall z :: z in Anc(par, rank, a) <==> z in Anc(par, rank, a0) && z in Anc(par, rank, b0)
  {
    a := a0;
    var b := b0;
    while a != b
      invariant Node(par, a) && Node(par, b)
      invariant forall z :: z in Anc(par, rank, a) && z in Anc(par, rank, b) <==>
        z in Anc(par, rank, a0) && z in Anc(par, rank, b0)
      decreases Rk(rank, a) + Rk(rank, b)
    {
      ghost var height := Rk(rank, a) + Rk(rank, b);
      assert Rk(rank, a) != Rk(rank, b);
      while a != ROOT && (b == ROOT || rank[a] > rank[b])
        invariant Node(par, a) && Node(par, b)
        invariant forall z :: z in Anc(par, rank, a) && z in Anc(par, rank, b) <==>
          z in Anc(par, rank, a0) && z in Anc(par, rank, b0)
        invariant Rk(rank, a) + Rk(rank, b) < height
          || (Rk(rank, a) + Rk(rank, b) == height && Rk(rank, a) != Rk(rank, b))
        decreases Rk(rank, a)
      {
        ClimbOne(par, rank, a, b);
        a := par[a];
      }
      while b != ROOT && (a == ROOT || rank[b] > rank[a])
        invariant Node(par, a) && Node(par, b)
        invariant forall z :: z in Anc(par, rank, a) && z in Anc(par, rank, b) <==>
          z in Anc(par, rank, a0) && z in Anc(par, rank, b0)
        invariant Rk(rank, a) + Rk(rank, b) < height
          || (Rk(rank, a) + Rk(rank, b) == height && Rk(rank, a) < Rk(rank, b))
        decreases Rk(rank, b)
      {
        ClimbOne(par, rank, b, a);
        b := par[b];
      }
    }
  }

  function Known(predecessors: seq<int>, idom: Parents): (done: seq<int>)
    ensures forall p :: p in done <==> p in predecessors && p in idom
  {
    if |predecessors| == 0 then []
    else
      var rest := Known(predecessors[1..], idom);
      assert predecessors == [predecessors[0]] + predecessors[1..];
      if predecessors[0] in idom then [predecessors[0]] + rest else rest
  }

  ghost predicate AboveAll(par: Parents, rank: Ranks, done: seq<int>, z: int) {
    forall p :: p in done ==> z in Anc(par, rank, p)
  }

  lemma AboveOneMore(par: Parents, rank: Ranks, done: seq<int>, k: nat, z: int)
    requires k < |done|
    ensures AboveAll(par, rank, done[..k + 1], z) <==> AboveAll(par, rank, done[..k], z) && z in Anc(par, rank, done[k])
  {
    assert done[..k + 1] == done[..k] + [done[k]];
    assert done[k] in done[..k + 1];
  }

  /** The nearest common ancestor of all of `done`. */
  method NearestCommon(par: Parents, rank: Ranks, done: seq<int>) returns (up: int)
    requires Ranked(par, rank) && |done| > 0 && forall p :: p in done ==> p in par
    ensures Node(par, up)
    ensures forall z :: z in Anc(par, rank, up) <==> AboveAll(par, rank, done, z)
  {
    up := done[0];
    for k := 1 to |done|
      invariant Node(par, up)
      invariant forall z :: z in Anc(par, rank, up) <==> AboveAll(par, rank, done[..k], z)
    {
      up := Intersect(par, rank, done[k], up);
      forall z ensures z in Anc(par, rank, up) <==> AboveAll(par, rank, done[..k + 1], z) {
        AboveOneMore(par, rank, done, k, z);
      }
    }
    assert done[..|done|] == done;
  }

  ghost predicate PredecessorsIn(g: Graph, nodes: seq<int>, predecessors: map<int, seq<int>>) {
    && (forall s, p :: s in predecessors && p in predecessors[s] ==> p in nodes && Edge(g, p, s))
    && (forall p, s :: p in nodes && Edge(g, p, s) ==> s in predecessors && p in predecessors[s])
  }

  /** The nodes of `nodes` with an edge to each node. */
  method Predecessors(g: Graph, nodes: seq<int>) returns (predecessors: map<int, seq<int>>)
    requires forall n :: n in nodes ==> 0 <= n < |g|
    ensures PredecessorsIn(g, nodes, predecessors)
  {
    predecessors := map[];
    for i := 0 to |nodes|
      invariant forall s, p :: s in predecessors && p in predecessors[s] ==> p in nodes && Edge(g, p, s)
      invariant forall p, s :: p in nodes[..i] && Edge(g, p, s) ==> s in predecessors && p in predecessors[s]
    {
      var node := nodes[i];
      assert node in nodes;
      for k := 0 to |g[node]|
        invariant forall s, p :: s in predecessors && p in predecessors[s] ==> p in nodes && Edge(g, p, s)
        invariant forall p, s :: p in nodes[..i] && Edge(g, p, s) ==> s in predecessors && p in predecessors[s]
        invariant forall s :: s in g[node][..k] ==> s in predecessors && node in predecessors[s]
      {
        var s := g[node][k];
        predecessors := predecessors[s := (if s in predecessors then predecessors[s] else []) + [node]];
      }
    }
    assert nodes[..|nodes|] == nodes;
  }

  // The sum of the parents' ranks falls with every change

  ghost function Cost(par: Parents, rank: Ranks, top: nat, x: int): nat {
    if x in par then Rk(rank, par[x]) else top
  }

  ghost function Weight(order: seq<int>, par: Parents, rank: Ranks, top: nat): nat {
    if |order| == 0 then 0 else Cost(par, rank, top, order[0]) + Weight(order[1..], par, rank, top)
  }

  lemma {:induction false} WeightSame(order: seq<int>, par: Parents, rank: Ranks, top: nat, m: int, up: int)
    requires m !in order
    ensures Weight(order, par[m := up], rank, top) == Weight(order, par, rank, top)
  {
    if |order| == 0 {
    } else {
      assert order[0] in order;
      WeightSame(order[1..], par, rank, top, m, up);
    }
  }

  lemma {:induction false} WeightFalls(order: seq<int>, par: Parents, rank: Ranks, top: nat, i: nat, up: int)
    requires i < |order| && forall j, k :: 0 <= j < k < |order| ==> order[j] != order[k]
    requires Rk(rank, up) < Cost(par, rank, top, order[i])
    ensures Weight(order, par[order[i] := up], rank, top) < Weight(order, par, rank, top)
  {
    if i == 0 {
      WeightSame(order[1..], par, rank, top, order[0], up);
    } else {
      assert order[0] != order[i];
      WeightFalls(order[1..], par, rank, top, i - 1, up);
    }
  }

  // The iteration

  /** `rank` is the inverse of `order`. */
  ghost predicate Inverse(order: seq<int>, rank: Ranks) {
    && (forall i {:trigger order[i]} :: 0 <= i < |order| ==> order[i] in rank && rank[order[i]] == i)
    && (forall n {:trigger n in rank} :: n in rank ==> rank[n] < |order| && order[rank[n]] == n)
  }

  /** The order of a search over the reached nodes, with its ranks. */
  ghost predicate InOrder(g: Graph, entries: seq<int>, order: seq<int>, tree: Parents, rank: Ranks) {
    Setting(g, entries, tree, rank) && Inverse(order, rank) && ROOT !in rank && tree.Keys == rank.Keys
  }

  method RankOf(g: Graph, entries: seq<int>, order: seq<int>, ghost tree: Parents) returns (rank: Ranks)
    requires WellFormed(g) && Entries(g, entries) && SpanningOrder(g, entries, order, tree)
    ensures InOrder(g, entries, order, tree, rank)
  {
    rank := map[];
    for at := 0 to |order|
      invariant forall i {:trigger order[i]} :: 0 <= i < at ==> order[i] in rank && rank[order[i]] == i
      invariant forall n {:trigger n in rank} :: n in rank ==> rank[n] < at && order[rank[n]] == n
    {
      rank := rank[order[at] := at];
    }
    SpanningRanks(g, entries, order, tree, rank);
  }

  lemma SpanningRanks(g: Graph, entries: seq<int>, order: seq<int>, tree: Parents, rank: Ranks)
    requires WellFormed(g) && Entries(g, entries) && SpanningOrder(g, entries, order, tree) && Inverse(order, rank)
    ensures InOrder(g, entries, order, tree, rank)
  {
    forall n ensures n in tree <==> n in rank {
      if n in rank { assert order[rank[n]] in order; }
    }
    assert Hangs(g, entries, tree, ROOT);
    forall n ensures Linked(tree, rank, n) {
      assert Hangs(g, entries, tree, n);
      if n in tree && tree[n] != ROOT {
        assert order[rank[n]] == n && order[rank[tree[n]]] == tree[n];
      }
    }
  }

  lemma IsRanked(g: Graph, entries: seq<int>, order: seq<int>, par: Parents, tree: Parents, rank: Ranks)
    requires InOrder(g, entries, order, tree, rank) && Approximates(g, entries, par, tree, rank)
    ensures Ranked(par, rank)
  {
    forall x | x in par ensures x in rank {
      assert Within(par, tree, rank, x);
    }
  }

  lemma Start(g: Graph, entries: seq<int>, order: seq<int>, tree: Parents, rank: Ranks, par: Parents)
    requires InOrder(g, entries, order, tree, rank)
    requires forall x :: x in par <==> x in entries
    requires forall x :: x in par ==> par[x] == ROOT
    ensures Approximates(g, entries, par, tree, rank)
  {
    forall x ensures Linked(par, rank, x) && Within(par, tree, rank, x) {
      if x in entries {
        EntryReached(g, entries, x);
        AncUnfold(tree, rank, x);
        AncRoot(tree, rank, tree[x]);
      }
    }
    forall y ensures Bound(g, entries, par, rank, y) {
      if y in par {
        AncRoot(par, rank, y);
        forall a | Dominates(g, entries, a, y) ensures a in Anc(par, rank, y) {
          EntryDominators(g, entries, a, y);
        }
      }
    }
    forall n ensures Capped(g, entries, par, rank, n) {}
  }

  /** Whatever is above the parent of `n` is above every predecessor of `n`. */
  ghost predicate Fixed(g: Graph, entries: seq<int>, par: Parents, rank: Ranks, n: int) {
    n in par && n !in entries ==> forall z :: z in Anc(par, rank, par[n]) ==> Common(g, par, rank, n, z)
  }

  ghost predicate AllFixed(g: Graph, entries: seq<int>, par: Parents, rank: Ranks, nodes: seq<int>) {
    forall n :: n in nodes ==> Fixed(g, entries, par, rank, n)
  }

  lemma CommonIsAbove(g: Graph, par: Parents, rank: Ranks, node: int, done: seq<int>)
    requires forall p :: p in done <==> p in par && Edge(g, p, node)
    ensures forall z :: AboveAll(par, rank, done, z) <==> Common(g, par, rank, node, z)
  {
  }

  lemma EntryVisited(g: Graph, entries: seq<int>, order: seq<int>, tree: Parents, rank: Ranks, par: Parents, node: int)
    requires InOrder(g, entries, order, tree, rank) && Approximates(g, entries, par, tree, rank)
    requires node in tree && node in entries && PassedTo(entries, par, tree, rank, Rk(rank, node))
    ensures PassedTo(entries, par, tree, rank, Rk(rank, node) + 1) && Fixed(g, entries, par, rank, node)
  {
    SameRank(g, entries, order, tree, rank);
    forall y | Rk(rank, y) < Rk(rank, node) + 1 ensures Settled(entries, par, tree, rank, y) {
      assert Rk(rank, y) < Rk(rank, node) ==> Settled(entries, par, tree, rank, y);
    }
  }

  lemma NodeVisited(
      g: Graph, entries: seq<int>, order: seq<int>, tree: Parents, rank: Ranks, par: Parents, node: int, up: int)
    requires InOrder(g, entries, order, tree, rank) && Approximates(g, entries, par, tree, rank)
    requires node in tree && node !in entries && PassedTo(entries, par, tree, rank, Rk(rank, node))
    requires Node(par, up) && forall z :: z in Anc(par, rank, up) <==> Common(g, par, rank, node, z)
    ensures Approximates(g, entries, par[node := up], tree, rank)
    ensures PassedTo(entries, par[node := up], tree, rank, Rk(rank, node) + 1)
    ensures node !in par || par[node] != up ==> Rk(rank, up) < Cost(par, rank, |order| + 1, node)
    ensures node in par && par[node] == up ==> par[node := up] == par && Fixed(g, entries, par, rank, node)
  {
    SameRank(g, entries, order, tree, rank);
    UpdateKeeps(g, entries, par, tree, rank, node, up, par[node := up]);
    if node in par && par[node] != up {
      IsRanked(g, entries, order, par, tree, rank);
      assert Linked(par, rank, node);
      DifferentRank(par, rank, par[node], up);
    }
  }

  /** One node of a pass: its parent becomes the nearest common ancestor of its predecessors. */
  method Visit(g: Graph, entries: seq<int>, predecessors: map<int, seq<int>>, rank: Ranks, idom: Parents, node: int,
               ghost order: seq<int>, ghost tree: Parents)
    returns (idom': Parents, changed: bool, ghost up: int)
    requires InOrder(g, entries, order, tree, rank) && Approximates(g, entries, idom, tree, rank)
    requires node in tree && PassedTo(entries, idom, tree, rank, Rk(rank, node))
    requires PredecessorsIn(g, order, predecessors)
    ensures Approximates(g, entries, idom', tree, rank) && PassedTo(entries, idom', tree, rank, Rk(rank, node) + 1)
    ensures changed ==> idom' == idom[node := up] && Rk(rank, up) < Cost(idom, rank, |order| + 1, node)
    ensures !changed ==> idom' == idom && Fixed(g, entries, idom, rank, node)
  {
    idom', changed, up := idom, false, ROOT;
    if node in entries {
      EntryVisited(g, entries, order, tree, rank, idom, node);
      return;
    }
    var done := Known(if node in predecessors then predecessors[node] else [], idom);
    DoneAre(g, entries, order, predecessors, rank, idom, tree, node, done);
    if |done| > 0 {
      IsRanked(g, entries, order, idom, tree, rank);
      var nearest := NearestCommon(idom, rank, done);
      CommonIsAbove(g, idom, rank, node, done);
      NodeVisited(g, entries, order, tree, rank, idom, node, nearest);
      if node !in idom || idom[node] != nearest {
        idom', changed, up := idom[node := nearest], true, nearest;
      }
    }
  }

  lemma DifferentRank(par: Parents, rank: Ranks, a: int, b: int)
    requires Ranked(par, rank) && Node(par, a) && Node(par, b) && a != b
    ensures Rk(rank, a) != Rk(rank, b)
  {
  }

  lemma SameRank(g: Graph, entries: seq<int>, order: seq<int>, tree: Parents, rank: Ranks)
    requires InOrder(g, entries, order, tree, rank)
    ensures forall x, y :: x in tree && y in tree && Rk(rank, x) == Rk(rank, y) ==> x == y
    ensures forall x :: x in tree ==> 1 <= Rk(rank, x) <= |order|
  {
  }

  /** `done` lists the predecessors of `node` that have a parent; the one `node` hangs from is among them. */
  lemma DoneAre(
      g: Graph, entries: seq<int>, order: seq<int>, predecessors: map<int, seq<int>>, rank: Ranks, idom: Parents,
      tree: Parents, node: int, done: seq<int>)
    requires InOrder(g, entries, order, tree, rank) && Approximates(g, entries, idom, tree, rank)
    requires node in tree && node !in entries && PassedTo(entries, idom, tree, rank, Rk(rank, node))
    requires PredecessorsIn(g, order, predecessors)
    requires forall p :: p in done <==> node in predecessors && p in predecessors[node] && p in idom
    ensures |done| > 0
    ensures forall p :: p in done <==> p in idom && Edge(g, p, node)
  {
    forall p ensures p in done <==> p in idom && Edge(g, p, node) {
      assert Within(idom, tree, rank, p);
    }
    assert Hangs(g, entries, tree, node) && Linked(tree, rank, node);
    assert Edge(g, tree[node], node) && tree[node] in done;
  }

  method Dominators(g: Graph, entries: seq<int>) returns (idom: seq<int>)
    requires WellFormed(g) && Entries(g, entries)
    ensures IsIdom(g, entries, idom)
  {
    var order;
    ghost var tree;
    order, tree := ReversePostorder(g, entries);
    var rank := RankOf(g, entries, order, tree);
    forall n | n in order ensures 0 <= n < |g| {
      assert Hangs(g, entries, tree, n);
    }
    var predecessors := Predecessors(g, order);
    var par: Parents := map e | e in entries :: ROOT;
    Start(g, entries, order, tree, rank, par);
    var changed := true;
    while changed
      invariant Approximates(g, entries, par, tree, rank)
      invariant !changed ==> PassedTo(entries, par, tree, rank, |order| + 1) && AllFixed(g, entries, par, rank, order)
      decreases Weight(order, par, rank, |order| + 1), changed
    {
      par, changed := Pass(g, entries, order, predecessors, rank, par, tree);
    }
    idom := seq(|g|, at requires 0 <= at < |g| => if at in par then par[at] else UNREACHED);
    FixpointIsIdom(g, entries, order, tree, rank, par, idom);
  }

  lemma PassStarts(g: Graph, entries: seq<int>, order: seq<int>, tree: Parents, rank: Ranks, par: Parents)
    requires InOrder(g, entries, order, tree, rank)
    ensures PassedTo(entries, par, tree, rank, 1)
    ensures forall i :: 0 <= i < |order| ==> order[i] in tree && Rk(rank, order[i]) == i + 1
  {
    SameRank(g, entries, order, tree, rank);
  }

  lemma FixedOneMore(g: Graph, entries: seq<int>, par: Parents, rank: Ranks, order: seq<int>, i: nat)
    requires i < |order| && AllFixed(g, entries, par, rank, order[..i]) && Fixed(g, entries, par, rank, order[i])
    ensures AllFixed(g, entries, par, rank, order[..i + 1])
  {
    assert order[..i + 1] == order[..i] + [order[i]];
  }

  /** One pass over the order. */
  method Pass(
      g: Graph, entries: seq<int>, order: seq<int>, predecessors: map<int, seq<int>>, rank: Ranks, par0: Parents,
      ghost tree: Parents)
    returns (par: Parents, changed: bool)
    requires InOrder(g, entries, order, tree, rank) && Approximates(g, entries, par0, tree, rank)
    requires PredecessorsIn(g, order, predecessors)
    ensures Approximates(g, entries, par, tree, rank) && PassedTo(entries, par, tree, rank, |order| + 1)
    ensures if changed then Weight(order, par, rank, |order| + 1) < Weight(order, par0, rank, |order| + 1)
            else par == par0 && AllFixed(g, entries, par, rank, order)
  {
    hide InOrder, Approximates, PredecessorsIn, PassedTo, Fixed, Weight;
    par, changed := par0, false;
    PassStarts(g, entries, order, tree, rank, par);
    for i := 0 to |order|
      invariant Approximates(g, entries, par, tree, rank) && PassedTo(entries, par, tree, rank, i + 1)
      invariant if changed then Weight(order, par, rank, |order| + 1) < Weight(order, par0, rank, |order| + 1)
                else par == par0 && AllFixed(g, entries, par, rank, order[..i])
    {
      var moved;
      ghost var was, up := par, ROOT;
      par, moved, up := Visit(g, entries, predecessors, rank, par, order[i], order, tree);
      if moved {
        WeightFalls(order, was, rank, |order| + 1, i, up);
        changed := true;
      } else if !changed {
        FixedOneMore(g, entries, par, rank, order, i);
      }
    }
    assert order[..|order|] == order;
  }

  // At the fixpoint

  lemma {:induction false} ChainOnWalks(
      g: Graph, entries: seq<int>, par: Parents, rank: Ranks, w: seq<int>, b: int, a: int)
    requires IsForest(par, rank) && Rooted(entries, par)
    requires forall n :: Reached(g, entries, n) ==> n in par && Fixed(g, entries, par, rank, n)
    requires Walk(g, entries, w, b) && a in Anc(par, rank, b) && a != ROOT
    ensures a in w
    decreases |w|
  {
    AncUnfold(par, rank, b);
    if a != b {
      if b in entries {
        AncUnfold(par, rank, ROOT);
        assert false;
      }
      var k := |w| - 2;
      WalkPrefix(g, entries, w, b, k);
      assert Reached(g, entries, w[k]) && Edge(g, w[k], b) && Common(g, par, rank, b, a);
      ChainOnWalks(g, entries, par, rank, w[..k + 1], w[k], a);
    }
  }

  /**
   * At the fixpoint the chain above a reached node is the set of its dominators, and its parent the nearest of them.
   */
  lemma FixpointIsIdom(
      g: Graph, entries: seq<int>, order: seq<int>, tree: Parents, rank: Ranks, par: Parents, idom: seq<int>)
    requires InOrder(g, entries, order, tree, rank) && Approximates(g, entries, par, tree, rank)
    requires PassedTo(entries, par, tree, rank, |order| + 1) && AllFixed(g, entries, par, rank, order)
    requires |idom| == |g| && forall at :: 0 <= at < |g| ==> idom[at] == if at in par then par[at] else UNREACHED
    ensures IsIdom(g, entries, idom)
  {
    SameRank(g, entries, order, tree, rank);
    forall n ensures Reached(g, entries, n) <==> n in par {
      assert Within(par, tree, rank, n);
    }
    forall b | 0 <= b < |g| ensures IdomAt(g, entries, idom, b) {
      if b in par { ParentIsIdom(g, entries, order, tree, rank, par, b); }
    }
  }

  lemma ParentIsIdom(g: Graph, entries: seq<int>, order: seq<int>, tree: Parents, rank: Ranks, par: Parents, b: int)
    requires InOrder(g, entries, order, tree, rank) && Approximates(g, entries, par, tree, rank)
    requires AllFixed(g, entries, par, rank, order)
    requires forall n :: Reached(g, entries, n) <==> n in par
    requires b in par
    ensures par[b] == ROOT ==> forall a :: Dominates(g, entries, a, b) ==> a == b
    ensures par[b] != ROOT ==> 0 <= par[b] < |g| && par[b] != b && Dominates(g, entries, par[b], b)
    ensures par[b] != ROOT ==> forall a :: Dominates(g, entries, a, b) && a != b ==> Dominates(g, entries, a, par[b])
  {
    var d := par[b];
    AncUnfold(par, rank, b);
    AncUnfold(par, rank, ROOT);
    AncRoot(par, rank, d);
    if d != ROOT {
      assert Within(par, tree, rank, d) && Hangs(g, entries, tree, d);
      ChainIsDominators(g, entries, order, tree, rank, par, b, d);
    }
    forall a | Dominates(g, entries, a, b) && a != b ensures d != ROOT && Dominates(g, entries, a, d) {
      ChainIsDominators(g, entries, order, tree, rank, par, b, a);
      assert d != ROOT;
      ChainIsDominators(g, entries, order, tree, rank, par, d, a);
    }
  }

  lemma ChainIsDominators(
      g: Graph, entries: seq<int>, order: seq<int>, tree: Parents, rank: Ranks, par: Parents, b: int, a: int)
    requires InOrder(g, entries, order, tree, rank) && Approximates(g, entries, par, tree, rank)
    requires AllFixed(g, entries, par, rank, order)
    requires forall n :: Reached(g, entries, n) <==> n in par
    requires b in par
    ensures Dominates(g, entries, a, b) <==> a in Anc(par, rank, b) && a != ROOT
  {
    if a in Anc(par, rank, b) && a != ROOT {
      forall w | Walk(g, entries, w, b) ensures a in w {
        ChainOnWalks(g, entries, par, rank, w, b, a);
      }
    }
    if Dominates(g, entries, a, b) {
      assert Bound(g, entries, par, rank, b);
      var w :| Walk(g, entries, w, b);
      assert a in w;
    }
  }

  // What the result says

  /** Every entry hangs from the virtual root, whatever else jumps to it. */
  lemma EntryUnderRoot(g: Graph, entries: seq<int>, idom: seq<int>, e: int)
    requires Entries(g, entries) && IsIdom(g, entries, idom) && e in entries
    ensures idom[e] == ROOT
  {
    EntryReached(g, entries, e);
    assert IdomAt(g, entries, idom, e);
    if idom[e] != ROOT { EntryDominators(g, entries, idom[e], e); }
  }

  /** The immediate dominators are unique. */
  lemma IdomUnique(g: Graph, entries: seq<int>, idom: seq<int>, idom': seq<int>)
    requires Entries(g, entries) && IsIdom(g, entries, idom) && IsIdom(g, entries, idom')
    ensures idom == idom'
  {
    forall b | 0 <= b < |g| ensures idom[b] == idom'[b] {
      assert IdomAt(g, entries, idom, b) && IdomAt(g, entries, idom', b);
      var a, a' := idom[b], idom'[b];
      if Reached(g, entries, b) && a != ROOT && a' != ROOT {
        assert Dominates(g, entries, a, a') && Dominates(g, entries, a', a);
        var p :| Walk(g, entries, p, b);
        var k :| 0 <= k < |p| && p[k] == a;
        WalkPrefix(g, entries, p, b, k);
        DominatesAntisymmetric(g, entries, a', a);
      }
    }
  }
}
