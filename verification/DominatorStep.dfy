/** One update of Cooper, Harvey and Kennedy's iteration, and the invariants that every update keeps. */
module DominatorStep {
  import opened ControlFlow
  import opened DepthFirst
  import opened Forest

  ghost predicate Edge(g: Graph, p: int, n: int) {
    0 <= p < |g| && n in g[p]
  }

  /** What the depth-first search leaves: a spanning forest of the reached nodes, ranked. */
  ghost predicate Setting(g: Graph, entries: seq<int>, tree: Parents, rank: Ranks) {
    && WellFormed(g) && Entries(g, entries)
    && IsTree(g, entries, tree) && IsForest(tree, rank)
    && (forall n :: Reached(g, entries, n) <==> n in tree)
  }

  /** `z` is above every predecessor of `n` that has a parent so far. */
  ghost predicate Common(g: Graph, par: Parents, rank: Ranks, n: int, z: int) {
    forall p :: p in par && Edge(g, p, n) ==> z in Anc(par, rank, p)
  }

  ghost predicate Rooted(entries: seq<int>, par: Parents) {
    forall e :: e in entries ==> e in par && par[e] == ROOT
  }

  /** The chain above `y` misses no dominator of `y`: the approximation is never too low. */
  ghost predicate Bound(g: Graph, entries: seq<int>, par: Parents, rank: Ranks, y: int) {
    y in par ==> forall a :: Dominates(g, entries, a, y) ==> a in Anc(par, rank, y)
  }

  /** Recomputing `n` would not move it down. */
  ghost predicate Capped(g: Graph, entries: seq<int>, par: Parents, rank: Ranks, n: int) {
    n in par && n !in entries ==>
      forall z :: Common(g, par, rank, n, z) && Rk(rank, z) < Rk(rank, n) ==> Rk(rank, z) <= Rk(rank, par[n])
  }

  /** The parent of `y` is on the current chain of the node `y` hangs from in the search tree. */
  ghost predicate Settled(entries: seq<int>, par: Parents, tree: Parents, rank: Ranks, y: int) {
    y in par && y in tree && y !in entries ==> par[y] in Anc(par, rank, tree[y])
  }

  /** What holds of `idom` throughout the iteration. */
  ghost predicate Approximates(g: Graph, entries: seq<int>, par: Parents, tree: Parents, rank: Ranks) {
    && IsForest(par, rank) && Rooted(entries, par)
    && (forall y :: Within(par, tree, rank, y))
    && (forall y :: Bound(g, entries, par, rank, y))
    && (forall n :: Capped(g, entries, par, rank, n))
  }

  /** In the pass, the nodes before rank `r` have parents, on the chains of their tree parents. */
  ghost predicate PassedTo(entries: seq<int>, par: Parents, tree: Parents, rank: Ranks, r: nat) {
    && (forall y :: y in tree && Rk(rank, y) < r ==> y in par)
    && (forall y :: Rk(rank, y) < r ==> Settled(entries, par, tree, rank, y))
  }

  // Dominance along edges and along the search tree

  /** What dominates a node strictly dominates each of its reached predecessors. */
  lemma DominatesPredecessor(g: Graph, entries: seq<int>, a: int, n: int, p: int)
    requires WellFormed(g) && Dominates(g, entries, a, n) && a != n && Edge(g, p, n)
    ensures Dominates(g, entries, a, p)
  {
    forall w | Walk(g, entries, w, p) ensures a in w {
      WalkEdge(g, entries, w, p, n);
      assert a in w + [n];
    }
  }

  lemma EntryDominators(g: Graph, entries: seq<int>, a: int, e: int)
    requires Entries(g, entries) && e in entries && Dominates(g, entries, a, e)
    ensures a == e
  {
    assert Walk(g, entries, [e], e);
  }

  /** Down the search tree from `m` to `y` there is a path of nodes ranked no earlier than `m`. */
  lemma {:induction false} TreePath(
      g: Graph, entries: seq<int>, tree: Parents, rank: Ranks, m: int, y: int)
    returns (p: seq<int>)
    requires Setting(g, entries, tree, rank) && y in tree && m in Anc(tree, rank, y) && m != ROOT
    ensures PathBetween(g, p, m, y)
    ensures forall z :: z in p ==> Rk(rank, m) <= Rk(rank, z)
    decreases Rk(rank, y)
  {
    assert Hangs(g, entries, tree, y);
    AncUnfold(tree, rank, y);
    if m == y {
      p := [y];
    } else {
      AncUnfold(tree, rank, tree[y]);
      AncRank(tree, rank, y, m);
      var q := TreePath(g, entries, tree, rank, m, tree[y]);
      assert PathBetween(g, [tree[y], y], tree[y], y);
      PathJoin(g, q, [tree[y], y]);
      p := q + [tree[y], y][1..];
    }
  }

  /** A dominator of `y` ranked before a search-tree ancestor `m` of `y` dominates `m`. */
  lemma DominatesTreeAncestor(g: Graph, entries: seq<int>, tree: Parents, rank: Ranks, a: int, m: int, y: int)
    requires Setting(g, entries, tree, rank) && y in tree && m in Anc(tree, rank, y) && m != ROOT
    requires Dominates(g, entries, a, y) && Rk(rank, a) < Rk(rank, m)
    ensures Dominates(g, entries, a, m)
  {
    var q := TreePath(g, entries, tree, rank, m, y);
    forall w | Walk(g, entries, w, m) ensures a in w {
      WalkJoin(g, entries, w, m, q, y);
      assert a in w + q[1..];
      assert a !in q;
    }
  }

  // Where the recomputed parent lies

  /**
   * Once the nodes up to `p` are settled, what is above `p` in `par` is above every tree ancestor of `p` ranked later
   * than it.
   */
  lemma {:induction false} SettledChain(
      g: Graph, entries: seq<int>, par: Parents, tree: Parents, rank: Ranks, p: int, w: int, v: int)
    requires Setting(g, entries, tree, rank) && Approximates(g, entries, par, tree, rank)
    requires PassedTo(entries, par, tree, rank, Rk(rank, p) + 1) && Node(tree, p)
    requires w in Anc(par, rank, p) && v in Anc(tree, rank, p) && Rk(rank, w) <= Rk(rank, v)
    ensures w in Anc(par, rank, v)
    decreases Rk(rank, p)
  {
    AncUnfold(tree, rank, p);
    if v != p {
      assert Node(par, p) && Settled(entries, par, tree, rank, p);
      AncUnfold(par, rank, p);
      AncRank(tree, rank, p, v);
      if p in entries {
        assert par[p] == ROOT;
        AncUnfold(par, rank, ROOT);
        AncRoot(par, rank, v);
      } else {
        assert Within(par, tree, rank, p);
        AncRank(tree, rank, tree[p], par[p]);
        AncTrans(par, rank, tree[p], par[p]);
        SettledChain(g, entries, par, tree, rank, tree[p], w, v);
      }
    }
  }

  /**
   * The nearest common ancestor of the predecessors of `m` lies above the node `m` hangs from, and not below the old
   * parent of `m`.
   */
  lemma Recomputed(g: Graph, entries: seq<int>, par: Parents, tree: Parents, rank: Ranks, m: int, up: int)
    requires Setting(g, entries, tree, rank) && Approximates(g, entries, par, tree, rank)
    requires m in tree && m !in entries && PassedTo(entries, par, tree, rank, Rk(rank, m))
    requires Node(par, up) && forall z :: z in Anc(par, rank, up) <==> Common(g, par, rank, m, z)
    ensures tree[m] in par && up in Anc(par, rank, tree[m]) && up in Anc(tree, rank, tree[m])
      && Rk(rank, up) < Rk(rank, m)
    ensures m in par ==> up in Anc(par, rank, par[m])
  {
    assert Hangs(g, entries, tree, m) && Linked(tree, rank, m);
    assert Edge(g, tree[m], m);
    AncRoot(par, rank, up);
    AncRank(par, rank, tree[m], up);
    AncWithin(par, tree, rank, tree[m]);
    if m in par {
      assert Capped(g, entries, par, rank, m) && Within(par, tree, rank, m);
      SettledChain(g, entries, par, tree, rank, tree[m], up, par[m]);
    }
  }

  // What one update keeps

  /** An update as `Recomputed` describes it: `m` gets the parent `up`, which is above its old parent if it had one. */
  ghost predicate Update(par: Parents, tree: Parents, rank: Ranks, m: int, up: int, par': Parents) {
    && m in tree && m != ROOT && par' == par[m := up]
    && Node(par, up) && Rk(rank, up) < Rk(rank, m) && up in Anc(tree, rank, tree[m])
    && (m in par ==> up in Anc(par, rank, par[m]))
  }

  lemma UpdateForest(par: Parents, tree: Parents, rank: Ranks, m: int, up: int, par': Parents)
    requires IsForest(par, rank) && Update(par, tree, rank, m, up, par')
    requires forall y :: Within(par, tree, rank, y)
    ensures IsForest(par', rank)
    ensures forall y :: Within(par', tree, rank, y)
  {
    if m in par { MoveUp(par, rank, m, up, par'); } else { Hook(par, rank, m, up, par'); }
    forall y ensures Within(par', tree, rank, y) {
      assert Within(par, tree, rank, y);
    }
  }

  /** No chain grows, and those of nodes ranked before `m` stay as they are. */
  lemma UpdateChains(par: Parents, tree: Parents, rank: Ranks, m: int, up: int, par': Parents, y: int)
    requires IsForest(par, rank) && Update(par, tree, rank, m, up, par') && Node(par, y)
    ensures Anc(par', rank, y) <= Anc(par, rank, y)
    ensures Rk(rank, y) < Rk(rank, m) ==> Anc(par', rank, y) == Anc(par, rank, y)
  {
    if m in par {
      MoveUp(par, rank, m, up, par');
      AncWithin(par', par, rank, y);
      if Rk(rank, y) < Rk(rank, m) { AncBelow(par, rank, m, up, y); }
    } else {
      AncBelow(par, rank, m, up, y);
    }
  }

  lemma UpdateCapped(
      g: Graph, entries: seq<int>, par: Parents, tree: Parents, rank: Ranks, m: int, up: int, par': Parents, n: int)
    requires IsForest(par, rank) && Update(par, tree, rank, m, up, par')
    requires Capped(g, entries, par, rank, n)
    requires forall z :: z in Anc(par, rank, up) <==> Common(g, par, rank, m, z)
    ensures Capped(g, entries, par', rank, n)
  {
    if n in par' && n !in entries {
      forall z | Common(g, par', rank, n, z) && Rk(rank, z) < Rk(rank, n) ensures Rk(rank, z) <= Rk(rank, par'[n]) {
        forall p | p in par && Edge(g, p, n) ensures z in Anc(par, rank, p) {
          UpdateChains(par, tree, rank, m, up, par', p);
        }
        assert Common(g, par, rank, n, z);
        if n == m { AncRank(par, rank, up, z); }
      }
    }
  }

  lemma UpdateBoundAt(
      g: Graph, entries: seq<int>, par: Parents, tree: Parents, rank: Ranks, m: int, up: int, par': Parents, a: int)
    requires Setting(g, entries, tree, rank) && Approximates(g, entries, par, tree, rank)
    requires Update(par, tree, rank, m, up, par') && m !in entries
    requires forall z :: z in Anc(par, rank, up) <==> Common(g, par, rank, m, z)
    requires Dominates(g, entries, a, m)
    ensures a in Anc(par', rank, m)
  {
    UpdateForest(par, tree, rank, m, up, par');
    AncUnfold(par', rank, m);
    if a != m {
      forall p | p in par && Edge(g, p, m) ensures a in Anc(par, rank, p) {
        DominatesPredecessor(g, entries, a, m, p);
        assert Bound(g, entries, par, rank, p);
      }
      assert Common(g, par, rank, m, a);
      UpdateChains(par, tree, rank, m, up, par', up);
    }
  }

  lemma UpdateBound(
      g: Graph, entries: seq<int>, par: Parents, tree: Parents, rank: Ranks, m: int, up: int, par': Parents, y: int)
    requires Setting(g, entries, tree, rank) && Approximates(g, entries, par, tree, rank)
    requires Update(par, tree, rank, m, up, par') && m !in entries
    requires forall z :: z in Anc(par, rank, up) <==> Common(g, par, rank, m, z)
    ensures Bound(g, entries, par', rank, y)
  {
    if y in par' {
      forall a | Dominates(g, entries, a, y) ensures a in Anc(par', rank, y) {
        if y == m {
          UpdateBoundAt(g, entries, par, tree, rank, m, up, par', a);
        } else {
          assert Bound(g, entries, par, rank, y);
          UpdateForest(par, tree, rank, m, up, par');
          if m !in par {
            AncBelow(par, rank, m, up, y);
          } else if Rk(rank, m) <= Rk(rank, a) {
            AncKept(par, rank, m, up, y, a);
          } else if m !in Anc(par, rank, y) {
            Bypassed(par, rank, m, up, par', y);
          } else {
            AncWithin(par, tree, rank, y);
            assert Within(par, tree, rank, y);
            DominatesTreeAncestor(g, entries, tree, rank, a, m, y);
            UpdateBoundAt(g, entries, par, tree, rank, m, up, par', a);
            AncKept(par, rank, m, up, y, m);
            AncTrans(par', rank, y, m);
          }
        }
      }
    }
  }

  /** A chain that misses the changed node does not change. */
  lemma {:induction false} Bypassed(par: Parents, rank: Ranks, m: int, up: int, par': Parents, y: int)
    requires IsForest(par, rank) && IsForest(par', rank) && par' == par[m := up]
    requires Node(par, y) && m !in Anc(par, rank, y)
    ensures Anc(par', rank, y) == Anc(par, rank, y)
    decreases Rk(rank, y)
  {
    AncUnfold(par, rank, y);
    AncUnfold(par', rank, y);
    if y != ROOT { Bypassed(par, rank, m, up, par', par[y]); }
  }

  lemma UpdatePassed(
      entries: seq<int>, par: Parents, tree: Parents, rank: Ranks, m: int, up: int, par': Parents, y: int)
    requires IsForest(par, rank) && IsForest(tree, rank) && Update(par, tree, rank, m, up, par')
    requires PassedTo(entries, par, tree, rank, Rk(rank, m)) && up in Anc(par, rank, tree[m]) && Node(par, tree[m])
    requires Rk(rank, y) < Rk(rank, m) || y == m
    ensures Settled(entries, par', tree, rank, y)
  {
    if y in par' && y in tree && y !in entries {
      assert Linked(tree, rank, y);
      assert y != m ==> Settled(entries, par, tree, rank, y);
      assert Node(par, tree[y]);
      UpdateChains(par, tree, rank, m, up, par', tree[y]);
    }
  }

  /** Everything the update keeps, together. */
  lemma UpdateKeeps(
      g: Graph, entries: seq<int>, par: Parents, tree: Parents, rank: Ranks, m: int, up: int, par': Parents)
    requires Setting(g, entries, tree, rank) && Approximates(g, entries, par, tree, rank)
    requires m in tree && m !in entries && PassedTo(entries, par, tree, rank, Rk(rank, m))
    requires Node(par, up) && forall z :: z in Anc(par, rank, up) <==> Common(g, par, rank, m, z)
    requires forall y :: y in tree && Rk(rank, y) == Rk(rank, m) ==> y == m
    requires par' == par[m := up]
    ensures Approximates(g, entries, par', tree, rank)
    ensures PassedTo(entries, par', tree, rank, Rk(rank, m) + 1)
    ensures m in par ==> Rk(rank, up) <= Rk(rank, par[m])
    ensures Rk(rank, up) < Rk(rank, m)
  {
    Recomputed(g, entries, par, tree, rank, m, up);
    assert Update(par, tree, rank, m, up, par');
    if m in par { AncUnfold(par, rank, m); AncRank(par, rank, par[m], up); }
    UpdateForest(par, tree, rank, m, up, par');
    forall y ensures Bound(g, entries, par', rank, y) {
      UpdateBound(g, entries, par, tree, rank, m, up, par', y);
    }
    forall n ensures Capped(g, entries, par', rank, n) {
      assert Capped(g, entries, par, rank, n);
      UpdateCapped(g, entries, par, tree, rank, m, up, par', n);
    }
    forall y | Rk(rank, y) < Rk(rank, m) + 1 ensures Settled(entries, par', tree, rank, y) {
      if y in tree { UpdatePassed(entries, par, tree, rank, m, up, par', y); }
    }
  }
}
