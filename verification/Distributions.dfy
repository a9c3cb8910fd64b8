/** Maps of weights, as tools/leaf_sites.py adds them up in its Counters. */
module Distributions {

  function Get<K>(m: map<K, real>, k: K): real {
    if k in m then m[k] else 0.0
  }

  /** `out` after `out[k] += v * factor` for every `k` and `v` of `sub`. */
  function Added<K>(out: map<K, real>, sub: map<K, real>, factor: real): map<K, real> {
    map k | k in out.Keys + sub.Keys :: Plus(Get(out, k), Get(sub, k), factor)
  }

  function Plus(u: real, v: real, factor: real): real {
    u + v * factor
  }

  lemma PlusNothing(u: real, factor: real)
    ensures Plus(u, 0.0, factor) == u
  {
  }

  /** One more key. */
  lemma AddedOne<K>(out: map<K, real>, sub: map<K, real>, factor: real, k: K, v: real)
    requires k !in sub
    ensures Added(out, sub[k := v], factor) == Added(out, sub, factor)[k := Plus(Get(out, k), v, factor)]
    ensures Get(Added(out, sub, factor), k) == Get(out, k)
  {
    PlusNothing(Get(out, k), factor);
    hide Plus;
    assert Get(sub, k) == 0.0;
    assert (out.Keys + sub.Keys) + {k} == out.Keys + sub[k := v].Keys;
    var r, r' := Added(out, sub, factor)[k := Plus(Get(out, k), v, factor)], Added(out, sub[k := v], factor);
    assert r.Keys == r'.Keys;
    forall j | j in r
      ensures r[j] == r'[j]
    {
      if j != k { assert Get(sub[k := v], j) == Get(sub, j); }
    }
  }

  lemma AddedNothing<K>(out: map<K, real>, sub: map<K, real>, factor: real)
    requires sub.Keys == {}
    ensures Added(out, sub, factor) == out
  {
    forall k | k in out
      ensures Added(out, sub, factor)[k] == out[k]
    {
      PlusNothing(out[k], factor);
    }
    assert out.Keys + sub.Keys == out.Keys;
  }

  ghost function Total<K>(m: map<K, real>): real {
    if m.Keys == {} then 0.0 else
      var k :| k in m.Keys;
      m[k] + Total(m - {k})
  }

  lemma {:induction false} TotalWithout<K>(m: map<K, real>, k: K)
    requires k in m
    ensures Total(m) == m[k] + Total(m - {k})
    decreases |m|
  {
    var j :| j in m.Keys && Total(m) == m[j] + Total(m - {j});
    if j != k {
      TotalWithout(m - {j}, k);
      TotalWithout(m - {k}, j);
      assert m - {j} - {k} == m - {k} - {j};
    }
  }

  lemma TotalNothing<K>(m: map<K, real>)
    requires m.Keys == {}
    ensures Total(m) == 0.0
  {
  }

  lemma TotalUpdate<K>(m: map<K, real>, k: K, v: real)
    ensures Total(m[k := v]) == Total(m) - Get(m, k) + v
  {
    TotalWithout(m[k := v], k);
    if k in m {
      TotalWithout(m, k);
      assert m[k := v] - {k} == m - {k};
    } else {
      assert m[k := v] - {k} == m;
    }
  }

  lemma TotalOne<K>(k: K, v: real)
    ensures Total(map[k := v]) == v
  {
    var none: map<K, real> := map[];
    TotalUpdate(none, k, v);
    assert none[k := v] == map[k := v];
  }

  lemma PlusTotal(total: real, less: real, u: real, v: real, factor: real)
    ensures Plus(total, less, factor) - u + Plus(u, v, factor) == Plus(total, v + less, factor)
  {
  }

  /** Adding a distribution adds its total. */
  lemma {:induction false} TotalAdded<K>(out: map<K, real>, sub: map<K, real>, factor: real)
    ensures Total(Added(out, sub, factor)) == Plus(Total(out), Total(sub), factor)
    decreases |sub|
  {
    hide *;
    if sub.Keys == {} {
      AddedNothing(out, sub, factor);
      TotalNothing(sub);
      PlusNothing(Total(out), factor);
    } else {
      var k :| k in sub.Keys;
      var v, less := sub[k], sub - {k};
      TotalAdded(out, less, factor);
      TotalWithout(sub, k);
      AddedOne(out, less, factor, k, v);
      TotalUpdate(Added(out, less, factor), k, Plus(Get(out, k), v, factor));
      PlusTotal(Total(out), Total(less), Get(out, k), v, factor);
      assert Added(out, sub, factor) == Added(out, less[k := v], factor) by { assert less[k := v] == sub; }
    }
  }

  /** The loop that adds the weights one by one, in any order. */
  method Add<K(==)>(out0: map<K, real>, sub: map<K, real>, factor: real) returns (out: map<K, real>)
    ensures out == Added(out0, sub, factor)
  {
    out := out0;
    var rest := sub.Keys;
    ghost var done: map<K, real> := map[];
    AddedNothing(out0, done, factor);
    while rest != {}
      invariant rest <= sub.Keys && done.Keys == sub.Keys - rest
      invariant forall k :: k in done ==> done[k] == sub[k]
      invariant out == Added(out0, done, factor)
      decreases rest
    {
      var k :| k in rest;
      AddedOne(out0, done, factor, k, sub[k]);
      out := out[k := Plus(Get(out, k), sub[k], factor)];
      done := done[k := sub[k]];
      rest := rest - {k};
    }
    assert done == sub;
  }
}
