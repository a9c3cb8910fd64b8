/** Parent maps ranked by an order: the chains of ancestors that `intersect` and `_dominates` climb. */
module Forest {
  import opened DepthFirst

  type Parents = map<int, int>
  type Ranks = map<int, nat>

  /** 0 for the virtual root (and anything unranked), else one more than the place in the order. */
  function Rk(rank: Ranks, x: int): nat {
    if x in rank then rank[x] + 1 else 0
  }

  /** `x` and everything above it in `par`, the virtual root included. */
  ghost function Anc(par: Parents, rank: Ranks, x: int): set<int>
    decreases Rk(rank, x)
  {
    if x in par && Rk(rank, par[x]) < Rk(rank, x) then {x} + Anc(par, rank, par[x]) else {x}
  }

  ghost predicate Linked(par: Parents, rank: Ranks, x: int) {
    x in par ==> Rk(rank, par[x]) < Rk(rank, x) && (par[x] == ROOT || par[x] in par)
  }

  /** Every parent is ranked before its child and is itself a node, or the virtual root. */
  ghost predicate IsForest(par: Parents, rank: Ranks) {
    ROOT !in par && forall x :: Linked(par, rank, x)
  }

  ghost predicate Node(par: Parents, x: int) {
    x == ROOT || x in par
  }

  lemma AncUnfold(par: Parents, rank: Ranks, x: int)
    requires IsForest(par, rank) && Node(par, x)
    ensures x == ROOT ==> Anc(par, rank, x) == {ROOT}
    ensures x != ROOT ==>
      && Rk(rank, par[x]) < Rk(rank, x) && Node(par, par[x])
      && Anc(par, rank, x) == {x} + Anc(par, rank, par[x])
  {
    assert Linked(par, rank, x);
  }

  lemma {:induction false} AncRank(par: Parents, rank: Ranks, x: int, z: int)
    requires IsForest(par, rank) && Node(par, x) && z in Anc(par, rank, x)
    ensures Node(par, z) && (z == x || Rk(rank, z) < Rk(rank, x))
    decreases Rk(rank, x)
  {
    AncUnfold(par, rank, x);
    if x != ROOT && z != x {
      AncRank(par, rank, par[x], z);
    }
  }

  lemma {:induction false} AncRoot(par: Parents, rank: Ranks, x: int)
    requires IsForest(par, rank) && Node(par, x)
    ensures ROOT in Anc(par, rank, x) && x in Anc(par, rank, x)
    decreases Rk(rank, x)
  {
    AncUnfold(par, rank, x);
    if x != ROOT { AncRoot(par, rank, par[x]); }
  }

  lemma {:induction false} AncTrans(par: Parents, rank: Ranks, x: int, y: int)
    requires IsForest(par, rank) && Node(par, x) && y in Anc(par, rank, x)
    ensures Anc(par, rank, y) <= Anc(par, rank, x)
    decreases Rk(rank, x)
  {
    AncUnfold(par, rank, x);
    if x != ROOT && y != x { AncTrans(par, rank, par[x], y); }
  }

  /** A map whose every parent is a strict ancestor in another map only has ancestors that one has. */
  lemma {:induction false} AncWithin(par: Parents, whole: Parents, rank: Ranks, x: int)
    requires IsForest(par, rank) && IsForest(whole, rank) && Node(par, x)
    requires forall y :: Within(par, whole, rank, y)
    ensures Anc(par, rank, x) <= Anc(whole, rank, x)
    decreases Rk(rank, x)
  {
    AncUnfold(par, rank, x);
    if x != ROOT {
      assert Within(par, whole, rank, x);
      AncUnfold(whole, rank, x);
      AncWithin(par, whole, rank, par[x]);
      AncTrans(whole, rank, whole[x], par[x]);
    }
  }

  /** The parent of `y` in `par` is a strict ancestor of `y` in `whole`. */
  ghost predicate Within(par: Parents, whole: Parents, rank: Ranks, y: int) {
    y in par ==> y in whole && par[y] in Anc(whole, rank, whole[y])
  }

  // Changing one parent

  /** Chains that start below the changed node do not see the change. */
  lemma {:induction false} AncBelow(par: Parents, rank: Ranks, m: int, up: int, x: int)
    requires IsForest(par, rank) && Node(par, x)
    requires m != ROOT && (Rk(rank, x) < Rk(rank, m) || (m !in par && x != m))
    ensures Anc(par[m := up], rank, x) == Anc(par, rank, x)
    decreases Rk(rank, x)
  {
    AncUnfold(par, rank, x);
    if x != ROOT {
      assert x != m && par[m := up][x] == par[x];
      AncBelow(par, rank, m, up, par[x]);
    }
  }

  /** The part of a chain at or after the changed node is kept. */
  lemma {:induction false} AncKept(par: Parents, rank: Ranks, m: int, up: int, x: int, z: int)
    requires IsForest(par, rank) && Node(par, x) && m in par && IsForest(par[m := up], rank)
    requires z in Anc(par, rank, x) && Rk(rank, m) <= Rk(rank, z)
    ensures z in Anc(par[m := up], rank, x)
    decreases Rk(rank, x)
  {
    var par' := par[m := up];
    AncUnfold(par, rank, x);
    AncRank(par, rank, x, z);
    AncRoot(par', rank, x);
    if z != x {
      AncUnfold(par', rank, x);
      AncKept(par, rank, m, up, par[x], z);
    }
  }

  /** Moving a node up its own chain keeps the forest and only shortens chains. */
  lemma MoveUp(par: Parents, rank: Ranks, m: int, up: int, par': Parents)
    requires IsForest(par, rank) && m in par && up in Anc(par, rank, par[m])
    requires par' == par[m := up]
    ensures IsForest(par', rank)
    ensures forall y :: Within(par', par, rank, y)
  {
    AncUnfold(par, rank, m);
    AncRank(par, rank, par[m], up);
    forall y ensures Within(par', par, rank, y) && Linked(par', rank, y) {
      assert Linked(par, rank, y);
      if y in par {
        AncUnfold(par, rank, y);
        AncRoot(par, rank, par[y]);
      }
    }
  }

  lemma Hook(par: Parents, rank: Ranks, m: int, up: int, par': Parents)
    requires IsForest(par, rank) && m !in par && m != ROOT && Node(par, up) && Rk(rank, up) < Rk(rank, m)
    requires par' == par[m := up]
    ensures IsForest(par', rank)
  {
    forall y ensures Linked(par', rank, y) {
      assert Linked(par, rank, y);
    }
  }
}
