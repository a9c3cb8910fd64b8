/** The depth-first search that opens `dominators`: one search per entry, in reverse postorder. */
module DepthFirst {
  import opened ControlFlow
  import Lists

  /** The virtual root above the entries. */
  const ROOT := -1

  /** `n` hangs in `tree` from another of its nodes along an edge, or, an entry, from the virtual root. */
  ghost predicate Hangs(g: Graph, entries: seq<int>, tree: map<int, int>, n: int) {
    n in tree ==>
      && 0 <= n < |g|
      && if tree[n] == ROOT then n in entries else tree[n] in tree && 0 <= tree[n] < |g| && n in g[tree[n]]
  }

  ghost predicate IsTree(g: Graph, entries: seq<int>, tree: map<int, int>) {
    forall n :: Hangs(g, entries, tree, n)
  }

  /** `order` lists the reached nodes once each, each after the node it hangs from. */
  ghost predicate SpanningOrder(g: Graph, entries: seq<int>, order: seq<int>, tree: map<int, int>) {
    && IsTree(g, entries, tree)
    && (forall n :: Reached(g, entries, n) <==> n in tree)
    && (forall n :: n in order <==> n in tree)
    && Backwards(order, tree)
  }

  /** No node twice, and none hangs from itself or a later one. */
  ghost predicate Backwards(order: seq<int>, tree: map<int, int>) {
    && (forall i, j :: 0 <= i < j < |order| ==> order[i] != order[j])
    && (forall i, j :: 0 <= i <= j < |order| && order[i] in tree ==> tree[order[i]] != order[j])
  }

  function Above(stack: seq<int>): int {
    if |stack| == 0 then ROOT else stack[|stack| - 1]
  }

  /** The finished nodes: each once, and none hangs from itself or one finished before it. */
  ghost predicate Finished(order: seq<int>, tree: map<int, int>) {
    |order| > 0 ==>
      var last, before := order[|order| - 1], order[..|order| - 1];
      last in tree && last !in before && tree[last] !in order && Finished(before, tree)
  }

  /** The open nodes: each once, and each hangs from the one below it. */
  ghost predicate Piled(stack: seq<int>, tree: map<int, int>) {
    |stack| > 0 ==>
      var top, below := stack[|stack| - 1], stack[..|stack| - 1];
      top in tree && top !in below && tree[top] == Above(below) && Piled(below, tree)
  }

  /** A known node is either finished or open. */
  ghost predicate Colours(g: Graph, order: seq<int>, stack: seq<int>, tree: map<int, int>) {
    && (forall n :: n in tree <==> n in order || n in stack)
    && (forall n :: n in order ==> n !in stack)
    && Finished(order, tree) && Piled(stack, tree)
  }

  /** The first `k` successors of `u` are known. */
  ghost predicate KnownUpTo(g: Graph, tree: map<int, int>, u: int, k: int) {
    0 <= u < |g| && 0 <= k <= |g[u]| && forall v :: v in g[u][..k] ==> v in tree
  }

  /** Finished nodes have only known successors, and so has each open one as far as its iterator has gone. */
  ghost predicate Explored(g: Graph, order: seq<int>, stack: seq<int>, next: seq<nat>, tree: map<int, int>) {
    && |next| == |stack|
    && (forall u :: u in order ==> 0 <= u < |g| && KnownUpTo(g, tree, u, |g[u]|))
    && (forall i :: 0 <= i < |stack| ==> KnownUpTo(g, tree, stack[i], next[i]))
  }

  lemma SizeBelow(s: set<int>, n: nat)
    requires forall x :: x in s ==> 0 <= x < n
    ensures |s| <= n
  {
    if n == 0 {
      assert forall x :: x in s ==> false;
    } else {
      SizeBelow(s - {n - 1}, n - 1);
      if n - 1 in s { assert s == (s - {n - 1}) + {n - 1}; } else { assert s == s - {n - 1}; }
    }
  }

  ghost predicate InRange(g: Graph, nodes: set<int>) {
    forall n :: n in nodes ==> 0 <= n < |g|
  }

  lemma ReachedEdge(g: Graph, entries: seq<int>, u: int, v: int)
    requires WellFormed(g) && Reached(g, entries, u) && 0 <= u < |g| && v in g[u]
    ensures Reached(g, entries, v)
  {
    var p :| Walk(g, entries, p, u);
    WalkEdge(g, entries, p, u, v);
  }

  lemma EntryReached(g: Graph, entries: seq<int>, e: int)
    requires Entries(g, entries) && e in entries
    ensures Reached(g, entries, e)
  {
    assert Walk(g, entries, [e], e);
  }

  // A new node is opened

  lemma FinishedGrows(order: seq<int>, tree: map<int, int>, nxt: int, parent: int)
    requires Finished(order, tree) && nxt !in tree
    ensures Finished(order, tree[nxt := parent])
  {
    if |order| > 0 { FinishedGrows(order[..|order| - 1], tree, nxt, parent); }
  }

  lemma PiledGrows(stack: seq<int>, tree: map<int, int>, nxt: int, parent: int)
    requires Piled(stack, tree) && nxt !in tree
    ensures Piled(stack, tree[nxt := parent])
  {
    if |stack| > 0 { PiledGrows(stack[..|stack| - 1], tree, nxt, parent); }
  }

  lemma Open(g: Graph, order: seq<int>, stack: seq<int>, tree: map<int, int>, nxt: int)
    requires Colours(g, order, stack, tree) && nxt !in tree
    ensures Colours(g, order, stack + [nxt], tree[nxt := Above(stack)])
  {
    FinishedGrows(order, tree, nxt, Above(stack));
    PiledGrows(stack, tree, nxt, Above(stack));
    assert (stack + [nxt])[..|stack|] == stack;
  }

  lemma TreeGrows(g: Graph, entries: seq<int>, tree: map<int, int>, nxt: int, parent: int)
    requires IsTree(g, entries, tree) && 0 <= nxt < |g| && nxt !in tree
    requires if parent == ROOT then nxt in entries else parent in tree && 0 <= parent < |g| && nxt in g[parent]
    ensures IsTree(g, entries, tree[nxt := parent])
  {
    var tree' := tree[nxt := parent];
    forall n ensures Hangs(g, entries, tree', n) {
      assert Hangs(g, entries, tree, n);
    }
  }

  lemma ExploreOpen(
      g: Graph, order: seq<int>, stack: seq<int>, next: seq<nat>, tree: map<int, int>, nxt: int, parent: int)
    requires Explored(g, order, stack, next, tree) && 0 <= nxt < |g|
    ensures Explored(g, order, stack + [nxt], next + [0], tree[nxt := parent])
  {
    var tree' := tree[nxt := parent];
    forall u | u in order ensures KnownUpTo(g, tree', u, |g[u]|) {
      assert KnownUpTo(g, tree, u, |g[u]|);
    }
    forall i | 0 <= i < |stack| ensures KnownUpTo(g, tree', stack[i], next[i]) {
      assert KnownUpTo(g, tree, stack[i], next[i]);
    }
    assert KnownUpTo(g, tree', nxt, 0);
  }

  // The topmost open node is finished

  lemma ExploreFinish(g: Graph, order: seq<int>, stack: seq<int>, next: seq<nat>, tree: map<int, int>)
    requires |stack| > 0 && Explored(g, order, stack, next, tree)
    requires 0 <= Above(stack) < |g| && next[|stack| - 1] == |g[Above(stack)]|
    ensures Explored(g, order + [Above(stack)], stack[..|stack| - 1], next[..|stack| - 1], tree)
  {
    assert KnownUpTo(g, tree, stack[|stack| - 1], next[|stack| - 1]);
  }

  lemma Finish(g: Graph, order: seq<int>, stack: seq<int>, tree: map<int, int>)
    requires |stack| > 0 && Colours(g, order, stack, tree) && ROOT !in tree
    ensures Colours(g, order + [Above(stack)], stack[..|stack| - 1], tree)
  {
    var top, below := stack[|stack| - 1], stack[..|stack| - 1];
    assert stack == below + [top];
    assert (order + [top])[..|order|] == order;
    assert |below| > 0 ==> tree[top] in below;
  }

  // The search is over

  lemma FinishedAt(order: seq<int>, tree: map<int, int>, i: int, j: int)
    requires Finished(order, tree) && 0 <= i <= j < |order|
    ensures order[j] in tree && tree[order[j]] != order[i] && (i < j ==> order[i] != order[j])
  {
    if j < |order| - 1 {
      FinishedAt(order[..|order| - 1], tree, i, j);
    }
  }

  lemma ReachedKnown(g: Graph, entries: seq<int>, order: seq<int>, tree: map<int, int>)
    requires forall n :: n in tree <==> n in order
    requires Explored(g, order, [], [], tree) && forall e :: e in entries ==> e in tree
    ensures forall n :: Reached(g, entries, n) ==> n in tree
  {
    forall u, v | u in tree && 0 <= u < |g| && v in g[u] ensures v in tree {
      assert KnownUpTo(g, tree, u, |g[u]|) && g[u][..|g[u]|] == g[u];
    }
    forall n | Reached(g, entries, n) ensures n in tree {
      var p :| Walk(g, entries, p, n);
      ClosedHoldsWalks(g, entries, tree.Keys, p, n);
    }
  }

  lemma ReversedOrder(order: seq<int>, tree: map<int, int>)
    requires Finished(order, tree)
    ensures forall n :: n in Lists.Reversed(order) <==> n in order
    ensures Backwards(Lists.Reversed(order), tree)
  {
    var r := Lists.Reversed(order);
    forall n ensures n in r <==> n in order {
      if n in order {
        var i :| 0 <= i < |order| && order[i] == n;
        assert r[|order| - 1 - i] == n;
      }
    }
    forall i, j | 0 <= i <= j < |r| ensures (i < j ==> r[i] != r[j]) && r[i] in tree && tree[r[i]] != r[j] {
      FinishedAt(order, tree, |r| - 1 - j, |r| - 1 - i);
    }
  }

  /**
   * With nothing open, the finished nodes are exactly the reached ones, and reversed each hangs from an earlier one.
   */
  lemma Complete(g: Graph, entries: seq<int>, order: seq<int>, tree: map<int, int>)
    requires Colours(g, order, [], tree) && Explored(g, order, [], [], tree) && IsTree(g, entries, tree)
    requires AllReached(g, entries, tree) && forall e :: e in entries ==> e in tree
    ensures SpanningOrder(g, entries, Lists.Reversed(order), tree)
  {
    ReachedKnown(g, entries, order, tree);
    ReversedOrder(order, tree);
  }

  /** Where an iterator over `successors` stops, started at `from`: at the first unseen one, or at the end. */
  method NextUnseen(successors: seq<int>, from: nat, seen: set<int>) returns (rest: nat)
    requires from <= |successors| && forall s :: s in successors[..from] ==> s in seen
    ensures from <= rest <= |successors|
    ensures forall s :: s in successors[..rest] ==> s in seen
    ensures rest < |successors| ==> successors[rest] !in seen
  {
    rest := from;
    while rest < |successors| && successors[rest] in seen
      invariant from <= rest <= |successors|
      invariant forall s :: s in successors[..rest] ==> s in seen
    {
      rest := rest + 1;
    }
  }

  /** What holds whenever the search looks at its topmost open node. */
  ghost predicate Searching(
      g: Graph, entries: seq<int>, order: seq<int>, stack: seq<int>, next: seq<nat>, tree: map<int, int>)
  {
    && Colours(g, order, stack, tree) && Explored(g, order, stack, next, tree) && IsTree(g, entries, tree)
    && AllReached(g, entries, tree)
  }

  ghost predicate AllReached(g: Graph, entries: seq<int>, tree: map<int, int>) {
    forall n :: n in tree ==> 0 <= n < |g| && Reached(g, entries, n)
  }

  lemma ReachedGrows(g: Graph, entries: seq<int>, tree: map<int, int>, nxt: int, parent: int)
    requires WellFormed(g) && Entries(g, entries) && AllReached(g, entries, tree)
    requires if parent == ROOT then nxt in entries else parent in tree && nxt in g[parent]
    ensures AllReached(g, entries, tree[nxt := parent]) && 0 <= nxt < |g| && |tree.Keys + {nxt}| <= |g|
  {
    if parent == ROOT {
      EntryReached(g, entries, nxt);
    } else {
      ReachedEdge(g, entries, parent, nxt);
    }
    SizeBelow(tree.Keys + {nxt}, |g|);
  }

  lemma SearchOpen(
      g: Graph, entries: seq<int>, order: seq<int>, stack: seq<int>, next: seq<nat>, tree: map<int, int>, nxt: int)
    requires WellFormed(g) && Entries(g, entries) && Searching(g, entries, order, stack, next, tree) && nxt !in tree
    requires if |stack| == 0
      then nxt in entries else Above(stack) in tree && 0 <= Above(stack) < |g| && nxt in g[Above(stack)]
    ensures Searching(g, entries, order, stack + [nxt], next + [0], tree[nxt := Above(stack)])
    ensures |tree.Keys + {nxt}| <= |g|
  {
    ReachedGrows(g, entries, tree, nxt, Above(stack));
    Open(g, order, stack, tree, nxt);
    TreeGrows(g, entries, tree, nxt, Above(stack));
    ExploreOpen(g, order, stack, next, tree, nxt, Above(stack));
  }

  lemma SearchPass(
      g: Graph, entries: seq<int>, order: seq<int>, stack: seq<int>, next: seq<nat>, tree: map<int, int>, rest: nat)
    requires |stack| > 0 && Searching(g, entries, order, stack, next, tree)
    requires KnownUpTo(g, tree, Above(stack), rest)
    ensures Searching(g, entries, order, stack, next[|stack| - 1 := rest], tree)
    ensures 0 <= Above(stack) < |g|
    ensures rest == |g[Above(stack)]| ==>
      Searching(g, entries, order + [Above(stack)], stack[..|stack| - 1], next[..|stack| - 1], tree)
  {
    var next' := next[|stack| - 1 := rest];
    forall i | 0 <= i < |stack| ensures KnownUpTo(g, tree, stack[i], next'[i]) {
      assert KnownUpTo(g, tree, stack[i], next[i]);
    }
    if rest == |g[Above(stack)]| {
      assert next'[..|stack| - 1] == next[..|stack| - 1];
      ExploreFinish(g, order, stack, next', tree);
      Finish(g, order, stack, tree);
    }
  }

  lemma Topmost(g: Graph, entries: seq<int>, order: seq<int>, stack: seq<int>, next: seq<nat>, tree: map<int, int>)
    requires |stack| > 0 && Searching(g, entries, order, stack, next, tree)
    ensures 0 <= Above(stack) < |g| && Above(stack) in tree && |next| == |stack|
      && KnownUpTo(g, tree, Above(stack), next[|stack| - 1])
  {
    assert KnownUpTo(g, tree, stack[|stack| - 1], next[|stack| - 1]);
  }

  /** The search from one unseen entry, on top of what earlier searches left. */
  method Search(g: Graph, entries: seq<int>, entry: int, order0: seq<int>, seen0: set<int>, ghost tree0: map<int, int>)
    returns (order: seq<int>, seen: set<int>, ghost tree: map<int, int>)
    requires WellFormed(g) && Entries(g, entries) && entry in entries && entry !in seen0
    requires tree0.Keys == seen0 && Searching(g, entries, order0, [], [], tree0)
    ensures tree.Keys == seen && Searching(g, entries, order, [], [], tree)
    ensures entry in seen && seen0 <= seen
  {
    hide Searching, WellFormed, Entries;
    SearchOpen(g, entries, order0, [], [], tree0, entry);
    var stack, next: seq<nat> := [entry], [0];
    assert [] + [entry] == [entry] && [] + [0] == next;
    order, seen, tree := order0, seen0 + {entry}, tree0[entry := ROOT];
    ghost var unseen := |g| - |seen|;
    while stack != []
      invariant tree.Keys == seen && Searching(g, entries, order, stack, next, tree)
      invariant entry in seen && seen0 <= seen && |next| == |stack|
      invariant unseen == |g| - |seen| >= 0
      decreases unseen, |stack|
    {
      var top := |stack| - 1;
      var node := stack[top];
      Topmost(g, entries, order, stack, next, tree);
      var rest := NextUnseen(g[node], next[top], seen);
      SearchPass(g, entries, order, stack, next, tree, rest);
      if rest == |g[node]| {
        order, stack, next := order + [node], stack[..top], next[..top];
      } else {
        var nxt := g[node][rest];
        SearchOpen(g, entries, order, stack, next[top := rest], tree, nxt);
        seen, tree := seen + {nxt}, tree[nxt := node];
        stack, next := stack + [nxt], next[top := rest] + [0];
        unseen := unseen - 1;
      }
    }
  }

  method ReversePostorder(g: Graph, entries: seq<int>) returns (order: seq<int>, ghost tree: map<int, int>)
    requires WellFormed(g) && Entries(g, entries)
    ensures SpanningOrder(g, entries, order, tree)
    ensures forall n :: n in order <==> Reached(g, entries, n)
    ensures forall i, j :: 0 <= i < j < |order| ==> order[i] != order[j]
  {
    order, tree := [], map[];
    var seen: set<int> := {};
    for k := 0 to |entries|
      invariant tree.Keys == seen && Searching(g, entries, order, [], [], tree)
      invariant forall e :: e in entries[..k] ==> e in seen
    {
      var entry := entries[k];
      if entry in seen { continue; }
      order, seen, tree := Search(g, entries, entry, order, seen, tree);
    }
    Complete(g, entries, order, tree);
    order := Lists.Reversed(order);
  }
}
