/**
 * `share` of tools/leaf_sites.py, over the reals: the cost of container code pushed up the call graph, through
 * container frames only, to its first callers outside. `Share` and `Spread` are its specification.
 */
module LeafSites {
  import opened Distributions

  datatype Name = Name(text: string)

  const ROOT := Name("(root)")
  const SELF := Name("(self)")

  /** A caller and the inclusive cost of its calls. */
  datatype Edge = Edge(caller: Name, cost: nat)

  type Dist = map<Name, real>

  const NOWHERE: Dist := map[]

  /** The callers of every function, and which functions are container code. */
  datatype Graph = Graph(edges: map<Name, seq<Edge>>, container: set<Name>)

  datatype Answer = Answer(out: Dist, memo: map<Name, Dist>)

  function Cost(es: seq<Edge>): nat {
    if es == [] then 0 else es[0].cost + Cost(es[1..])
  }

  /** `sum(callers.values()) or 1` */
  function Divisor(es: seq<Edge>): (t: nat)
    ensures t > 0
  {
    if Cost(es) == 0 then 1 else Cost(es)
  }

  function Callers(g: Graph, fn: Name): seq<Edge> {
    if fn in g.edges then g.edges[fn] else []
  }

  function Portion(cost: nat, t: nat): real
    requires t > 0
  {
    cost as real / t as real
  }

  /** The distribution of `fn` over its sites, and the answers remembered on the way. */
  function Share(g: Graph, fn: Name, depth: nat, memo: map<Name, Dist>): (r: Answer)
    decreases if depth > 12 then 0 else 13 - depth, 1, 0
  {
    if fn in memo then Answer(memo[fn], memo)
    else if Callers(g, fn) == [] || depth > 12 then Answer(map[ROOT := 1.0], memo[fn := map[ROOT := 1.0]])
    else
      var r := Spread(g, fn, Callers(g, fn), Divisor(Callers(g, fn)), depth, memo, map[]);
      Answer(r.out, r.memo[fn := r.out])
  }

  /** The callers `es` of `fn`, each in proportion, added to `out`. */
  function Spread(g: Graph, fn: Name, es: seq<Edge>, t: nat, depth: nat, memo: map<Name, Dist>, out: Dist): (r: Answer)
    requires t > 0 && depth <= 12
    decreases 13 - depth, 0, |es|
  {
    if es == [] then Answer(out, memo) else
      var one := Caller(g, fn, es[0].caller, depth, memo);
      Spread(g, fn, es[1..], t, depth, one.memo, Added(out, one.out, Portion(es[0].cost, t)))
  }

  /** Where what a caller is charged goes: to itself, or if it is container code to its own sites. */
  function Caller(g: Graph, fn: Name, c: Name, depth: nat, memo: map<Name, Dist>): (r: Answer)
    requires depth <= 12
    decreases 12 - depth, 2, 0
  {
    if c == fn then Answer(map[SELF := 1.0], memo)
    else if c in g.container then Share(g, c, depth + 1, memo)
    else Answer(map[c := 1.0], memo)
  }

  // Every answer is a distribution

  ghost predicate CalledBy(g: Graph, fn: Name, c: Name) {
    exists e :: e in Callers(g, fn) && e.caller == c
  }

  ghost predicate CallsContainer(g: Graph, c: Name) {
    exists fn :: fn in g.container && CalledBy(g, fn, c)
  }

  ghost predicate CallsItself(g: Graph) {
    exists fn :: fn in g.container && CalledBy(g, fn, fn)
  }

  /** A site: a caller from outside container code, `(root)`, or, if some container function calls itself, `(self)`. */
  ghost predicate Outside(g: Graph, k: Name) {
    k == ROOT || (k == SELF && CallsItself(g)) || (k !in g.container && CallsContainer(g, k))
  }

  /** Weights at sites outside container code. */
  ghost predicate AtSites(g: Graph, d: Dist) {
    forall k :: k in d ==> Outside(g, k) && d[k] >= 0.0
  }

  ghost predicate IsDistribution(g: Graph, d: Dist) {
    AtSites(g, d) && Total(d) == 1.0
  }

  ghost predicate Remembers(g: Graph, memo: map<Name, Dist>) {
    forall f :: f in memo ==> IsDistribution(g, memo[f])
  }

  /** Container code that is called at all is called at some cost. */
  ghost predicate Costed(g: Graph) {
    forall f :: f in g.container && Callers(g, f) != [] ==> Cost(Callers(g, f)) > 0
  }

  lemma PortionSum(a: nat, b: nat, t: nat)
    requires t > 0
    ensures Portion(a + b, t) == Portion(a, t) + Portion(b, t) && Portion(a, t) >= 0.0
  {
    assert (a + b) as real == a as real + b as real;
    QuotientSum(a as real, b as real, t as real);
  }

  lemma QuotientSum(a: real, b: real, t: real)
    requires t > 0.0 && a >= 0.0
    ensures (a + b) / t == a / t + b / t && a / t >= 0.0
  {
    assert (a / t) * t == a;
    NegativeTimes(a / t, t);
  }

  lemma NegativeTimes(q: real, t: real)
    requires t > 0.0
    ensures q < 0.0 ==> q * t < 0.0
  {
  }

  lemma PortionWhole(t: nat)
    requires t > 0
    ensures Portion(t, t) == 1.0 && Portion(0, t) == 0.0
  {
  }

  lemma PlusNatural(u: real, v: real, factor: real)
    requires u >= 0.0 && v >= 0.0 && factor >= 0.0
    ensures Plus(u, v, factor) >= 0.0
  {
  }

  lemma AddedAtSites(g: Graph, out: Dist, sub: Dist, factor: real)
    requires AtSites(g, out) && AtSites(g, sub) && factor >= 0.0
    ensures AtSites(g, Added(out, sub, factor))
  {
    hide Plus;
    forall k | k in Added(out, sub, factor)
      ensures Outside(g, k) && Added(out, sub, factor)[k] >= 0.0
    {
      PlusNatural(Get(out, k), Get(sub, k), factor);
    }
  }

  lemma OneSite(g: Graph, k: Name)
    requires Outside(g, k)
    ensures IsDistribution(g, map[k := 1.0])
  {
    TotalOne(k, 1.0);
  }

  /** Cycles or not: every answer, and everything remembered, is a distribution over sites. */
  lemma {:induction false} ShareIsDistribution(g: Graph, fn: Name, depth: nat, memo: map<Name, Dist>)
    requires Costed(g) && Remembers(g, memo) && fn in g.container
    ensures IsDistribution(g, Share(g, fn, depth, memo).out) && Remembers(g, Share(g, fn, depth, memo).memo)
    decreases if depth > 12 then 0 else 13 - depth, 1, 0
  {
    hide AtSites, Divisor, Portion, Spread, Caller, IsDistribution;
    if fn !in memo {
      OneSite(g, ROOT);
      var es := Callers(g, fn);
      if es != [] && depth <= 12 {
        var t := Divisor(es);
        NoSites(g);
        DivisorIs(es);
        CallersCall(g, fn);
        SpreadIsDistribution(g, fn, es, t, depth, memo, map[]);
        PortionWhole(t);
        WholeIsDistribution(g, Spread(g, fn, es, t, depth, memo, map[]).out);
      }
    }
  }

  lemma CallersCall(g: Graph, fn: Name)
    ensures forall e :: e in Callers(g, fn) ==> CalledBy(g, fn, e.caller)
  {
  }

  lemma DivisorIs(es: seq<Edge>)
    requires Cost(es) > 0
    ensures Divisor(es) == Cost(es)
  {
  }

  lemma NoSites(g: Graph)
    ensures AtSites(g, NOWHERE) && Total(NOWHERE) == 0.0
  {
    TotalNothing(NOWHERE);
  }

  lemma WholeIsDistribution(g: Graph, d: Dist)
    requires AtSites(g, d) && Total(d) == 1.0
    ensures IsDistribution(g, d)
  {
  }

  lemma PlusOne(u: real, factor: real)
    ensures Plus(u, 1.0, factor) == u + factor
  {
  }

  lemma {:induction false} SpreadIsDistribution(g: Graph, fn: Name, es: seq<Edge>, t: nat, depth: nat,
                                                memo: map<Name, Dist>, out: Dist)
    requires t > 0 && depth <= 12 && Costed(g) && Remembers(g, memo) && AtSites(g, out)
    requires fn in g.container && forall e :: e in es ==> CalledBy(g, fn, e.caller)
    ensures Remembers(g, Spread(g, fn, es, t, depth, memo, out).memo)
    ensures AtSites(g, Spread(g, fn, es, t, depth, memo, out).out)
    ensures Total(Spread(g, fn, es, t, depth, memo, out).out) == Total(out) + Portion(Cost(es), t)
    decreases 13 - depth, 0, |es|
  {
    hide Costed, Remembers, AtSites, Share, Caller, Added, Plus, Portion, Get, Total, CalledBy;
    if es == [] {
      PortionWhole(t);
    } else {
      var p, one := Portion(es[0].cost, t), Caller(g, fn, es[0].caller, depth, memo);
      CallerIsDistribution(g, fn, es[0].caller, depth, memo);
      PortionSum(es[0].cost, Cost(es[1..]), t);
      AddedAtSites(g, out, one.out, p);
      TotalAdded(out, one.out, p);
      PlusOne(Total(out), p);
      SpreadIsDistribution(g, fn, es[1..], t, depth, one.memo, Added(out, one.out, p));
    }
  }

  lemma {:induction false} CallerIsDistribution(g: Graph, fn: Name, c: Name, depth: nat, memo: map<Name, Dist>)
    requires depth <= 12 && Costed(g) && Remembers(g, memo) && fn in g.container && CalledBy(g, fn, c)
    ensures IsDistribution(g, Caller(g, fn, c, depth, memo).out) && Remembers(g, Caller(g, fn, c, depth, memo).memo)
    decreases 12 - depth, 2, 0
  {
    if c == fn {
      OneSite(g, SELF);
    } else if c in g.container {
      ShareIsDistribution(g, c, depth + 1, memo);
    } else {
      OneSite(g, c);
    }
  }

  // The memo

  ghost predicate Kept(memo: map<Name, Dist>, later: map<Name, Dist>) {
    forall f :: f in memo ==> f in later && later[f] == memo[f]
  }

  /** An answer is remembered, and what is remembered never changes. */
  lemma {:induction false} ShareRemembers(g: Graph, fn: Name, depth: nat, memo: map<Name, Dist>)
    ensures var r := Share(g, fn, depth, memo); Kept(memo, r.memo) && fn in r.memo && r.memo[fn] == r.out
    decreases if depth > 12 then 0 else 13 - depth, 1, 0
  {
    hide Spread, Caller, Divisor;
    if fn !in memo && Callers(g, fn) != [] && depth <= 12 {
      SpreadRemembers(g, fn, Callers(g, fn), Divisor(Callers(g, fn)), depth, memo, map[]);
    }
  }

  lemma {:induction false} SpreadRemembers(
      g: Graph, fn: Name, es: seq<Edge>, t: nat, depth: nat, memo: map<Name, Dist>, out: Dist)
    requires t > 0 && depth <= 12
    ensures Kept(memo, Spread(g, fn, es, t, depth, memo, out).memo)
    decreases 13 - depth, 0, |es|
  {
    hide Share, Added, Portion;
    if es == [] {
    } else {
      var c, one := es[0].caller, Caller(g, fn, es[0].caller, depth, memo);
      if c != fn && c in g.container { ShareRemembers(g, c, depth + 1, memo); }
      SpreadRemembers(g, fn, es[1..], t, depth, one.memo, Added(out, one.out, Portion(es[0].cost, t)));
    }
  }

  /** A chain of callers, each step within container code and each function with the next as its only caller. */
  ghost predicate Chain(g: Graph, chain: seq<Name>) {
    && chain != []
    && (forall i, j {:trigger chain[i], chain[j]} :: 0 <= i < j < |chain| && j == i + 1 ==>
      Only(g, chain[i], chain[j]))
  }

  ghost predicate Only(g: Graph, fn: Name, c: Name) {
    c != fn && c in g.container && |Callers(g, fn)| == 1 && Callers(g, fn)[0].caller == c && Callers(g, fn)[0].cost > 0
  }

  /** After thirteen steps a chain is cut, whoever calls the function it has come to: all goes to `(root)`. */
  lemma {:induction false} ChainCut(g: Graph, chain: seq<Name>, depth: nat, memo: map<Name, Dist>)
    requires Chain(g, chain) && depth + |chain| == 14 && forall fn :: fn in chain ==> fn !in memo
    ensures Share(g, chain[0], depth, memo).out == map[ROOT := 1.0]
    decreases |chain|
  {
    if |chain| == 1 {
    } else {
      var rest := chain[1..];
      ChainLess(g, chain);
      ChainCut(g, rest, depth + 1, memo);
      assert chain[0] in chain && Only(g, chain[0], rest[0]);
      OneCaller(g, chain[0], rest[0], depth, memo);
    }
  }

  lemma ChainLess(g: Graph, chain: seq<Name>)
    requires Chain(g, chain) && |chain| > 1
    ensures Chain(g, chain[1..]) && Only(g, chain[0], chain[1]) && forall fn :: fn in chain[1..] ==> fn in chain
  {
    hide Only;
    var rest := chain[1..];
    forall i, j {:trigger rest[i], rest[j]} | 0 <= i < j < |rest| && j == i + 1
      ensures Only(g, rest[i], rest[j])
    {
      assert rest[i] == chain[i + 1] && rest[j] == chain[j + 1];
    }
  }

  /** A function with one caller, in container code, is shared as that caller is. */
  lemma OneCaller(g: Graph, fn: Name, c: Name, depth: nat, memo: map<Name, Dist>)
    requires Only(g, fn, c) && fn !in memo && depth <= 12
    requires Share(g, c, depth + 1, memo).out == map[ROOT := 1.0]
    ensures Share(g, fn, depth, memo).out == map[ROOT := 1.0]
  {
    var es := Callers(g, fn);
    var t := Divisor(es);
    assert es[1..] == [] && Cost(es) == es[0].cost + Cost(es[1..]);
    var one := Caller(g, fn, c, depth, memo);
    assert one.out == map[ROOT := 1.0];
    PortionWhole(t);
    PlusNothing(0.0, 1.0);
    assert Added(map[], one.out, 1.0) == map[ROOT := 1.0] by { RootOnce(); }
    hide Share, Added, Portion;
    assert Spread(g, fn, es, t, depth, memo, map[])
        == Spread(g, fn, es[1..], t, depth, one.memo, Added(map[], one.out, Portion(es[0].cost, t)));
    SharesSpread(g, fn, depth, memo);
  }

  lemma RootOnce()
    ensures Added(map[], map[ROOT := 1.0], 1.0) == map[ROOT := 1.0]
  {
    var d := Added(map[], map[ROOT := 1.0], 1.0);
    assert d.Keys == {ROOT} && d[ROOT] == 1.0;
  }

  lemma SharesSpread(g: Graph, fn: Name, depth: nat, memo: map<Name, Dist>)
    requires fn !in memo && Callers(g, fn) != [] && depth <= 12
    ensures Share(g, fn, depth, memo).out
         == Spread(g, fn, Callers(g, fn), Divisor(Callers(g, fn)), depth, memo, map[]).out
  {
    hide Spread;
  }

  /** Callers that cost nothing get nothing. */
  lemma {:induction false} SpreadOfNothing(g: Graph, fn: Name, es: seq<Edge>, t: nat, depth: nat,
                                           memo: map<Name, Dist>, out: Dist)
    requires t > 0 && depth <= 12 && Cost(es) == 0
    ensures Total(Spread(g, fn, es, t, depth, memo, out).out) == Total(out)
    decreases |es|
  {
    hide Caller, Added, Portion, Plus, Total;
    if es == [] {
    } else {
      var one := Caller(g, fn, es[0].caller, depth, memo);
      PortionWhole(t);
      TotalAdded(out, one.out, 0.0);
      PlusZero(Total(out), Total(one.out));
      SpreadOfNothing(g, fn, es[1..], t, depth, one.memo, Added(out, one.out, 0.0));
    }
  }

  lemma PlusZero(u: real, v: real)
    ensures Plus(u, v, 0.0) == u
  {
  }

  // Without cycles, the answer is what proportion says

  /** Container callers but the function itself rank lower: no cycle goes through container code. */
  ghost predicate Ranked(g: Graph, rank: Name -> nat) {
    forall fn, e :: e in Callers(g, fn) ==> Lower(g, rank, fn, e.caller)
  }

  ghost predicate Lower(g: Graph, rank: Name -> nat, fn: Name, c: Name) {
    c == fn || c !in g.container || rank(c) < rank(fn)
  }

  /** The share of one unit of `fn`'s cost that `site` answers for. */
  ghost function Weight(g: Graph, rank: Name -> nat, fn: Name, site: Name): real
    requires Ranked(g, rank)
    decreases rank(fn), 1, 0
  {
    var es := Callers(g, fn);
    if es == [] then Unit(site, ROOT) else WeightVia(g, rank, fn, es, Divisor(es), site)
  }

  ghost function WeightVia(g: Graph, rank: Name -> nat, fn: Name, es: seq<Edge>, t: nat, site: Name): real
    requires Ranked(g, rank) && t > 0 && forall e :: e in es ==> e in Callers(g, fn)
    decreases rank(fn), 0, |es|
  {
    if es == [] then 0.0 else
      var c := es[0].caller;
      assert es[0] in es && Lower(g, rank, fn, c);
      Plus(WeightVia(g, rank, fn, es[1..], t, site),
           if c == fn then Unit(site, SELF) else if c in g.container then Weight(g, rank, c, site) else Unit(site, c),
           Portion(es[0].cost, t))
  }

  function Unit(site: Name, k: Name): real {
    if site == k then 1.0 else 0.0
  }

  ghost predicate IsShare(g: Graph, rank: Name -> nat, fn: Name, d: Dist)
    requires Ranked(g, rank)
  {
    forall site :: Get(d, site) == Weight(g, rank, fn, site)
  }

  ghost predicate RemembersShares(g: Graph, rank: Name -> nat, memo: map<Name, Dist>)
    requires Ranked(g, rank)
  {
    forall f :: f in memo ==> IsShare(g, rank, f, memo[f])
  }

  lemma GetAdded(out: Dist, sub: Dist, factor: real, k: Name)
    ensures Get(Added(out, sub, factor), k) == Plus(Get(out, k), Get(sub, k), factor)
  {
    PlusNothing(0.0, factor);
  }

  /**
   * When container chains have no cycle and at most twelve steps, the depth limit never cuts and what is
   * remembered never matters: the answer is the share that proportion defines.
   */
  lemma {:induction false} ShareIsWeight(g: Graph, rank: Name -> nat, fn: Name, depth: nat, memo: map<Name, Dist>)
    requires Ranked(g, rank) && RemembersShares(g, rank, memo) && rank(fn) + depth <= 12
    ensures IsShare(g, rank, fn, Share(g, fn, depth, memo).out)
    ensures RemembersShares(g, rank, Share(g, fn, depth, memo).memo)
    decreases 13 - depth, 1, 0
  {
    hide Divisor, Spread, Ranked, WeightVia, Lower;
    if fn !in memo {
      var es := Callers(g, fn);
      if es == [] {
        assert IsShare(g, rank, fn, map[ROOT := 1.0]);
      } else {
        var t := Divisor(es);
        SpreadIsWeight(g, rank, fn, es, t, depth, memo, map[]);
        var d := Spread(g, fn, es, t, depth, memo, map[]).out;
        forall site
          ensures Get(d, site) == Weight(g, rank, fn, site)
        {
          assert Get(d, site) == Get(NOWHERE, site) + WeightVia(g, rank, fn, es, t, site);
        }
      }
    }
  }

  lemma {:induction false} SpreadIsWeight(g: Graph, rank: Name -> nat, fn: Name, es: seq<Edge>, t: nat, depth: nat,
                                          memo: map<Name, Dist>, out: Dist)
    requires Ranked(g, rank) && RemembersShares(g, rank, memo) && rank(fn) + depth <= 12 && t > 0
    requires forall e :: e in es ==> e in Callers(g, fn)
    ensures RemembersShares(g, rank, Spread(g, fn, es, t, depth, memo, out).memo)
    ensures forall site ::
      Get(Spread(g, fn, es, t, depth, memo, out).out, site) == Get(out, site) + WeightVia(g, rank, fn, es, t, site)
    decreases 13 - depth, 0, |es|
  {
    if es == [] {
    } else {
      var c, p := es[0].caller, Portion(es[0].cost, t);
      assert es[0] in es && Lower(g, rank, fn, c);
      hide RemembersShares, Ranked, Share, Added, Plus, Get, Weight, Lower;
      var one := Caller(g, fn, c, depth, memo);
      if c != fn && c in g.container { ShareIsWeight(g, rank, c, depth + 1, memo); }
      var out' := Added(out, one.out, p);
      SpreadIsWeight(g, rank, fn, es[1..], t, depth, one.memo, out');
      var d := Spread(g, fn, es, t, depth, memo, out).out;
      forall site
        ensures Get(d, site) == Get(out, site) + WeightVia(g, rank, fn, es, t, site)
      {
        var rest := WeightVia(g, rank, fn, es[1..], t, site);
        CallerWeight(g, fn, c, depth, memo, site);
        GetAdded(out, one.out, p, site);
        PlusMoves(Get(out, site), rest, Get(one.out, site), p);
        assert Get(d, site) == Get(out', site) + rest;
      }
    }
  }

  lemma CallerWeight(g: Graph, fn: Name, c: Name, depth: nat, memo: map<Name, Dist>, site: Name)
    requires depth <= 12
    ensures c == fn ==> Get(Caller(g, fn, c, depth, memo).out, site) == Unit(site, SELF)
    ensures c != fn && c !in g.container ==> Get(Caller(g, fn, c, depth, memo).out, site) == Unit(site, c)
  {
    hide Share;
  }

  lemma PlusMoves(a: real, b: real, v: real, factor: real)
    ensures Plus(a, v, factor) + b == a + Plus(b, v, factor)
  {
  }

  // Sites by class

  /** A function's own cost. */
  datatype SelfCost = SelfCost(fn: Name, cost: nat)

  /** A site, and the class of the container code that costs it. */
  datatype Cell = Cell(site: Name, klass: Name)

  function InClass(d: Dist, k: Name): map<Cell, real> {
    map s | s in d :: Cell(s, k) := d[s]
  }

  ghost function OfClass(m: map<Cell, real>, k: Name): map<Cell, real> {
    map c | c in m && c.klass == k :: m[c]
  }

  /** The own cost of the first `n` functions that are container code of class `k`. */
  function ClassCost(costs: seq<SelfCost>, klass: map<Name, Name>, k: Name, n: nat): nat
    requires n <= |costs|
  {
    if n == 0 then 0 else
      var one := costs[n - 1];
      ClassCost(costs, klass, k, n - 1) + if one.fn in klass && klass[one.fn] == k then one.cost else 0
  }

  lemma InClassLess(d: Dist, s: Name, k: Name)
    requires s in d
    ensures Cell(s, k) in InClass(d, k) && InClass(d, k)[Cell(s, k)] == d[s]
    ensures InClass(d, k) - {Cell(s, k)} == InClass(d - {s}, k)
  {
    var m, m' := InClass(d, k) - {Cell(s, k)}, InClass(d - {s}, k);
    forall c
      ensures c in m <==> c in m'
    {
    }
    assert m.Keys == m'.Keys;
  }

  lemma InClassOfNothing(d: Dist, k: Name)
    requires d.Keys == {}
    ensures InClass(d, k).Keys == {}
  {
  }

  lemma {:induction false} TotalInClass(d: Dist, k: Name)
    ensures Total(InClass(d, k)) == Total(d)
    decreases |d|
  {
    hide *;
    if d.Keys == {} {
      InClassOfNothing(d, k);
      TotalNothing(d);
      TotalNothing(InClass(d, k));
    } else {
      var s :| s in d.Keys;
      TotalInClass(d - {s}, k);
      InClassLess(d, s, k);
      TotalWithout(d, s);
      TotalWithout(InClass(d, k), Cell(s, k));
    }
  }

  /** Cost charged to one class changes no other. */
  lemma OfClassAdded(m: map<Cell, real>, d: Dist, k: Name, factor: real, j: Name)
    ensures OfClass(Added(m, InClass(d, k), factor), j)
         == if j == k then Added(OfClass(m, j), InClass(d, k), factor) else OfClass(m, j)
  {
    var sub := InClass(d, k);
    var r := OfClass(Added(m, sub, factor), j);
    forall c: Cell | c in m && c !in sub
      ensures Plus(Get(m, c), Get(sub, c), factor) == m[c]
    {
      PlusNothing(m[c], factor);
    }
    hide Plus;
    var expected := if j == k then Added(OfClass(m, j), sub, factor) else OfClass(m, j);
    assert r.Keys == expected.Keys;
    assert forall c :: c in r ==> r[c] == expected[c];
  }

  /** Every class has at the sites what its functions cost themselves. */
  ghost predicate Charged(g: Graph, costs: seq<SelfCost>, klass: map<Name, Name>, site: map<Cell, real>, n: nat) {
    && n <= |costs|
    && (forall k :: Total(OfClass(site, k)) == ClassCost(costs, klass, k, n) as real)
    && (forall c :: c in site ==> Outside(g, c.site))
  }

  lemma NothingCharged(g: Graph, costs: seq<SelfCost>, klass: map<Name, Name>)
    ensures Charged(g, costs, klass, map[], 0)
  {
    forall k
      ensures Total(OfClass(map[], k)) == ClassCost(costs, klass, k, 0) as real
    {
      TotalNothing(OfClass(map[], k));
    }
  }

  lemma OneCharged(g: Graph, costs: seq<SelfCost>, klass: map<Name, Name>, site: map<Cell, real>, n: nat, d: Dist)
    requires n < |costs| && Charged(g, costs, klass, site, n)
    requires costs[n].fn in klass && IsDistribution(g, d)
    ensures Charged(g, costs, klass, Added(site, InClass(d, klass[costs[n].fn]), costs[n].cost as real), n + 1)
  {
    var k, cost := klass[costs[n].fn], costs[n].cost;
    var site' := Added(site, InClass(d, k), cost as real);
    hide Added, Get, Plus;
    forall j
      ensures Total(OfClass(site', j)) == ClassCost(costs, klass, j, n + 1) as real
    {
      OfClassAdded(site, d, k, cost as real, j);
      TotalAdded(OfClass(site, j), InClass(d, k), cost as real);
      TotalInClass(d, k);
      PlusOne(Total(OfClass(site, j)), cost as real);
    }
    assert forall c :: c in site' ==> Outside(g, c.site) by { ChargedSites(g, site, d, k, cost as real); }
  }

  lemma ChargedSites(g: Graph, site: map<Cell, real>, d: Dist, k: Name, factor: real)
    requires (forall c :: c in site ==> Outside(g, c.site)) && AtSites(g, d)
    ensures forall c :: c in Added(site, InClass(d, k), factor) ==> Outside(g, c.site)
  {
  }

  lemma NoneCharged(g: Graph, costs: seq<SelfCost>, klass: map<Name, Name>, site: map<Cell, real>, n: nat)
    requires n < |costs| && Charged(g, costs, klass, site, n) && costs[n].fn !in klass
    ensures Charged(g, costs, klass, site, n + 1)
  {
    forall k
      ensures ClassCost(costs, klass, k, n + 1) == ClassCost(costs, klass, k, n)
    {
    }
  }

  /** The cells and the memo after a number of functions. */
  datatype Charges = Charges(site: map<Cell, real>, memo: map<Name, Dist>)

  /** What the first `n` functions are charged, each container function by its share of its own cost. */
  function Charging(g: Graph, costs: seq<SelfCost>, klass: map<Name, Name>, n: nat, memo: map<Name, Dist>): Charges
    requires n <= |costs|
  {
    if n == 0 then Charges(map[], memo) else
      var before, one := Charging(g, costs, klass, n - 1, memo), costs[n - 1];
      if one.fn in klass then
        var r := Share(g, one.fn, 0, before.memo);
        Charges(Added(before.site, InClass(r.out, klass[one.fn]), one.cost as real), r.memo)
      else before
  }

  lemma {:induction false} ChargingIsCharged(
      g: Graph, costs: seq<SelfCost>, klass: map<Name, Name>, n: nat, memo: map<Name, Dist>)
    requires n <= |costs| && klass.Keys == g.container && Costed(g) && Remembers(g, memo)
    ensures Charged(g, costs, klass, Charging(g, costs, klass, n, memo).site, n)
    ensures Remembers(g, Charging(g, costs, klass, n, memo).memo)
    decreases n
  {
    hide Costed, Remembers, Charged, Share, IsDistribution, Added, InClass;
    if n == 0 {
      NothingCharged(g, costs, klass);
    } else {
      ChargingIsCharged(g, costs, klass, n - 1, memo);
      var before := Charging(g, costs, klass, n - 1, memo);
      if costs[n - 1].fn in klass {
        ShareIsDistribution(g, costs[n - 1].fn, 0, before.memo);
        OneCharged(g, costs, klass, before.site, n - 1, Share(g, costs[n - 1].fn, 0, before.memo).out);
      } else {
        NoneCharged(g, costs, klass, before.site, n - 1);
      }
    }
  }

  /** What the first `n` functions are charged by the answers in `memo`. */
  ghost function ByMemo(costs: seq<SelfCost>, klass: map<Name, Name>, n: nat, memo: map<Name, Dist>): map<Cell, real>
    requires n <= |costs| && forall i :: 0 <= i < n && costs[i].fn in klass ==> costs[i].fn in memo
  {
    if n == 0 then map[] else
      var before, one := ByMemo(costs, klass, n - 1, memo), costs[n - 1];
      if one.fn in klass then Added(before, InClass(memo[one.fn], klass[one.fn]), one.cost as real) else before
  }

  /** The functions share one memo: each is charged by the answer that is in it at the end. */
  lemma {:induction false} ChargedByMemo(
      g: Graph, costs: seq<SelfCost>, klass: map<Name, Name>, n: nat, memo: map<Name, Dist>)
    requires n <= |costs|
    ensures var r := Charging(g, costs, klass, n, memo);
            && Kept(memo, r.memo) && (forall i :: 0 <= i < n && costs[i].fn in klass ==> costs[i].fn in r.memo)
            && r.site == ByMemo(costs, klass, n, r.memo)
    decreases n
  {
    hide Share, Added, InClass;
    if n == 0 {
    } else {
      ChargedByMemo(g, costs, klass, n - 1, memo);
      var before := Charging(g, costs, klass, n - 1, memo).memo;
      var after := Charging(g, costs, klass, n, memo).memo;
      if costs[n - 1].fn in klass { ShareRemembers(g, costs[n - 1].fn, 0, before); }
      KeptByMemo(costs, klass, n - 1, before, after);
    }
  }

  lemma {:induction false} KeptByMemo(
      costs: seq<SelfCost>, klass: map<Name, Name>, n: nat, memo: map<Name, Dist>, later: map<Name, Dist>)
    requires n <= |costs| && Kept(memo, later)
    requires forall i :: 0 <= i < n && costs[i].fn in klass ==> costs[i].fn in memo
    ensures ByMemo(costs, klass, n, memo) == ByMemo(costs, klass, n, later)
    decreases n
  {
    hide Added, InClass;
    if n == 0 {
    } else {
      KeptByMemo(costs, klass, n - 1, memo, later);
    }
  }

  /** From an empty memo, nothing of these costs is lost. */
  ghost predicate Conserves(g: Graph, costs: seq<SelfCost>, klass: map<Name, Name>) {
    Charged(g, costs, klass, Charging(g, costs, klass, |costs|, map[]).site, |costs|)
  }

  /** A unit of cost of a function called at no cost is lost. */
  lemma UnitLost(g: Graph, klass: map<Name, Name>, fn: Name)
    requires fn in klass && Total(Share(g, fn, 0, map[]).out) == 0.0
    ensures !Conserves(g, [SelfCost(fn, 1)], klass)
  {
    var costs, k, d := [SelfCost(fn, 1)], klass[fn], Share(g, fn, 0, map[]).out;
    var empty: map<Cell, real> := map[];
    assert Charging(g, costs, klass, 0, map[]).site == empty;
    var site := Charging(g, costs, klass, 1, map[]).site;
    assert site == Added(empty, InClass(d, k), 1.0);
    assert ClassCost(costs, klass, k, 1) == 1;
    hide *;
    OfClassAdded(empty, d, k, 1.0, k);
    TotalAdded(OfClass(empty, k), InClass(d, k), 1.0);
    TotalInClass(d, k);
    NoCells(k);
    PlusNothing(Total(OfClass(empty, k)), 1.0);
    NotCharged(g, costs, klass, k);
  }

  lemma NoCells(k: Name)
    ensures Total(OfClass(map[], k)) == 0.0
  {
    TotalNothing(OfClass(map[], k));
  }

  lemma NotCharged(g: Graph, costs: seq<SelfCost>, klass: map<Name, Name>, k: Name)
    requires |costs| == 1 && ClassCost(costs, klass, k, 1) == 1
    requires Total(OfClass(Charging(g, costs, klass, 1, map[]).site, k)) == 0.0
    ensures !Conserves(g, costs, klass)
  {
    hide Charging, Total, OfClass, ClassCost;
  }

  /** Every list of own costs arrives in full exactly when no container function is called at no cost. */
  lemma ConservesIffCosted(g: Graph, klass: map<Name, Name>)
    requires klass.Keys == g.container
    ensures (forall costs :: Conserves(g, costs, klass)) <==> Costed(g)
  {
    if Costed(g) {
      forall costs
        ensures Conserves(g, costs, klass)
      {
        ChargingIsCharged(g, costs, klass, |costs|, map[]);
      }
    } else {
      var fn :| fn in g.container && Callers(g, fn) != [] && Cost(Callers(g, fn)) == 0;
      SpreadOfNothing(g, fn, Callers(g, fn), 1, 0, map[], map[]);
      NoSites(g);
      assert Total(Share(g, fn, 0, map[]).out) == 0.0;
      hide Conserves;
      UnitLost(g, klass, fn);
    }
  }

  /** The recursion itself, with the memo as state. */
  class Sharing {
    const g: Graph
    var memo: map<Name, Dist>

    constructor (g: Graph)
      ensures this.g == g && memo == map[]
    {
      this.g := g;
      memo := map[];
    }

    method Ask(fn: Name, depth: nat) returns (out: Dist)
      modifies this`memo
      ensures Answer(out, memo) == Share(g, fn, depth, old(memo))
      decreases if depth > 12 then 0 else 13 - depth
    {
      if fn in memo { return memo[fn]; }
      var callers := Callers(g, fn);
      if callers == [] || depth > 12 {
        memo := memo[fn := map[ROOT := 1.0]];
        return map[ROOT := 1.0];
      }
      var t := Divisor(callers);
      out := map[];
      for i := 0 to |callers|
        invariant Spread(g, fn, callers, t, depth, old(memo), map[])
               == Spread(g, fn, callers[i..], t, depth, memo, out)
      {
        var c, w := callers[i].caller, callers[i].cost;
        assert callers[i..][0] == callers[i] && callers[i..][1..] == callers[i + 1..];
        if c in g.container || c == fn {
          var sub;
          if c != fn { sub := Ask(c, depth + 1); } else { sub := map[SELF := 1.0]; }
          out := Add(out, sub, Portion(w, t));
        } else {
          out := Add(out, map[c := 1.0], Portion(w, t));
        }
      }
      memo := memo[fn := out];
    }

    /** The container cost by site and class, each function by its share; where `Costed` holds, nothing is lost. */
    method Charge(costs: seq<SelfCost>, klass: map<Name, Name>) returns (site: map<Cell, real>)
      requires klass.Keys == g.container
      modifies this`memo
      ensures Charges(site, memo) == Charging(g, costs, klass, |costs|, old(memo))
      ensures Costed(g) && Remembers(g, old(memo)) ==>
        Charged(g, costs, klass, site, |costs|) && Remembers(g, memo)
    {
      hide Costed, Remembers, Charged, Share, IsDistribution, Added, InClass;
      site := map[];
      for i := 0 to |costs|
        invariant Charges(site, memo) == Charging(g, costs, klass, i, old(memo))
      {
        var fn, c := costs[i].fn, costs[i].cost;
        if fn in klass {
          var out := Ask(fn, 0);
          site := Add(site, InClass(out, klass[fn]), c as real);
        }
      }
      if Costed(g) && Remembers(g, old(memo)) { ChargingIsCharged(g, costs, klass, |costs|, old(memo)); }
    }
  }
}
