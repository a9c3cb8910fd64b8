/**
 * `self_times` of tools/compile_map.py: for each complete event of a trace, the time spent in it and not in the
 * events nested in it. Timestamps and durations are whole microseconds.
 */
module SelfTimes {
  import opened Lists

  datatype Key = Key(text: string)

  datatype Event = Event(key: Key, ts: int, dur: nat) {
    function End(): int {
      ts + dur
    }
  }

  ghost predicate Inside(e: Event, f: Event) {
    f.ts <= e.ts && e.End() <= f.End()
  }

  ghost predicate Apart(e: Event, f: Event) {
    e.End() <= f.ts || f.End() <= e.ts
  }

  /** Any two events are nested or apart. */
  ghost predicate Laminar(events: seq<Event>) {
    forall e, f :: e in events && f in events ==> Apart(e, f) || Inside(e, f) || Inside(f, e)
  }

  // Sorting

  /** The order of the keys `(ts, -dur)`. */
  predicate NotAfter(e: Event, f: Event) {
    e.ts < f.ts || (e.ts == f.ts && e.dur >= f.dur)
  }

  ghost predicate Ordered(s: seq<Event>) {
    forall i, j :: 0 <= i < j < |s| ==> NotAfter(s[i], s[j])
  }

  function Insert(e: Event, s: seq<Event>): seq<Event> {
    if s == [] then [e] else if NotAfter(e, s[0]) then [e] + s else [s[0]] + Insert(e, s[1..])
  }

  function Sorted(s: seq<Event>): seq<Event> {
    if s == [] then [] else Insert(s[0], Sorted(s[1..]))
  }

  lemma OrderedFrom(e: Event, s: seq<Event>)
    requires Ordered(s) && forall k :: 0 <= k < |s| ==> NotAfter(e, s[k])
    ensures Ordered([e] + s)
  {
  }

  lemma {:induction false} InsertOrdered(e: Event, s: seq<Event>)
    requires Ordered(s)
    ensures Ordered(Insert(e, s)) && multiset(Insert(e, s)) == multiset(s) + multiset{e}
    ensures |Insert(e, s)| == |s| + 1
    decreases |s|
  {
    if s == [] {
    } else if NotAfter(e, s[0]) {
      OrderedFrom(e, s);
    } else {
      InsertOrdered(e, s[1..]);
      assert s == [s[0]] + s[1..];
      var r := Insert(e, s[1..]);
      forall k | 0 <= k < |r|
        ensures NotAfter(s[0], r[k])
      {
        assert r[k] in multiset(r);
        assert r[k] == e || r[k] in s[1..];
      }
      OrderedFrom(s[0], r);
      hide Ordered, NotAfter;
    }
  }

  lemma FirstOff(s: seq<Event>)
    requires s != []
    ensures multiset(s) == multiset(s[1..]) + multiset{s[0]}
  {
    assert s == [s[0]] + s[1..];
  }

  lemma {:induction false} SortedOrdered(s: seq<Event>)
    ensures Ordered(Sorted(s)) && multiset(Sorted(s)) == multiset(s)
    ensures |Sorted(s)| == |s|
    decreases |s|
  {
    if s == [] {
    } else {
      SortedOrdered(s[1..]);
      InsertOrdered(s[0], Sorted(s[1..]));
      FirstOff(s);
      hide Ordered, Insert;
    }
  }

  /** The events of one key, in their order. */
  ghost function OfKey(s: seq<Event>, ts: int, dur: nat): seq<Event> {
    Filter(s, (e: Event) => e.ts == ts && e.dur == dur)
  }

  lemma {:induction false} InsertStable(e: Event, s: seq<Event>, ts: int, dur: nat)
    ensures OfKey(Insert(e, s), ts, dur) == (if e.ts == ts && e.dur == dur then [e] else []) + OfKey(s, ts, dur)
    decreases |s|
  {
    if s == [] {
    } else if NotAfter(e, s[0]) {
      assert ([e] + s)[1..] == s;
    } else {
      InsertStable(e, s[1..], ts, dur);
      assert ([s[0]] + Insert(e, s[1..]))[1..] == Insert(e, s[1..]);
    }
  }

  /** Events that begin together and last as long stay in the order of the trace. */
  lemma {:induction false} SortedStable(s: seq<Event>, ts: int, dur: nat)
    ensures OfKey(Sorted(s), ts, dur) == OfKey(s, ts, dur)
    decreases |s|
  {
    if s == [] {
    } else {
      SortedStable(s[1..], ts, dur);
      InsertStable(s[0], Sorted(s[1..]), ts, dur);
    }
  }

  // What an event's own time is

  /** The last event before `i` that still runs when the `j`-th begins, -1 when there is none. */
  function Holder(s: seq<Event>, j: nat, i: nat): (p: int)
    requires i <= j < |s|
    ensures -1 <= p < i
    ensures p >= 0 ==> s[p].End() > s[j].ts
    ensures forall q :: p < q < i ==> s[q].End() <= s[j].ts
  {
    if i == 0 then -1 else if s[i - 1].End() > s[j].ts then i - 1 else Holder(s, j, i - 1)
  }

  function Parent(s: seq<Event>, j: nat): (p: int)
    requires j < |s|
    ensures -1 <= p < j
  {
    Holder(s, j, j)
  }

  /** Time in the children of `i` among the first `k` events. */
  function InChildren(s: seq<Event>, i: nat, k: nat): (r: int)
    requires k <= |s|
    ensures k <= i + 1 ==> r == 0
  {
    if k == 0 then 0
    else InChildren(s, i, k - 1) + if Parent(s, k - 1) == i then s[k - 1].dur else 0
  }

  /** Duration less the children's. */
  function OwnTime(s: seq<Event>, i: nat): int
    requires i < |s|
  {
    s[i].dur - InChildren(s, i, |s|)
  }

  // No own time is negative

  /** Where the last child of `i` among the first `k` events ends. */
  function ChildrenEnd(s: seq<Event>, i: nat, k: nat): int
    requires i < |s| && k <= |s|
  {
    if k == 0 then s[i].ts else if Parent(s, k - 1) == i then s[k - 1].End() else ChildrenEnd(s, i, k - 1)
  }

  /** In an ordered laminar family the holder contains what it holds. */
  lemma HolderContains(s: seq<Event>, j: nat)
    requires Ordered(s) && Laminar(s) && j < |s| && Parent(s, j) >= 0
    ensures Inside(s[j], s[Parent(s, j)])
  {
    assert NotAfter(s[Parent(s, j)], s[j]);
    assert s[j] in s && s[Parent(s, j)] in s;
  }

  /** A child begins where the children before it have ended. */
  lemma {:induction false} ChildrenApart(s: seq<Event>, i: nat, j: nat, k: nat)
    requires Ordered(s) && j < |s| && Parent(s, j) == i && k <= j
    ensures ChildrenEnd(s, i, k) <= s[j].ts
    decreases k
  {
    if k == 0 {
      assert NotAfter(s[i], s[j]);
    } else if Parent(s, k - 1) == i {
      assert i < k - 1;
    } else {
      ChildrenApart(s, i, j, k - 1);
    }
  }

  lemma {:induction false} ChildrenFit(s: seq<Event>, i: nat, k: nat)
    requires Ordered(s) && Laminar(s) && i < |s| && k <= |s|
    ensures s[i].ts + InChildren(s, i, k) <= ChildrenEnd(s, i, k) <= s[i].End()
    decreases k
  {
    hide Laminar, Ordered, Parent, Inside;
    if k == 0 {
    } else {
      ChildrenFit(s, i, k - 1);
      if Parent(s, k - 1) == i {
        ChildrenApart(s, i, k - 1, k - 1);
        HolderContains(s, k - 1);
        EndsWithin(s[k - 1], s[i]);
      }
    }
  }

  lemma EndsWithin(e: Event, f: Event)
    requires Inside(e, f)
    ensures f.ts <= e.ts && e.End() <= f.End()
  {
  }

  /** The children fit in their parent, so the cut at zero cuts nothing. */
  lemma OwnTimeNatural(s: seq<Event>, i: nat)
    requires Ordered(s) && Laminar(s) && i < |s|
    ensures 0 <= OwnTime(s, i) <= s[i].dur
  {
    ChildrenFit(s, i, |s|);
    ChildrenNatural(s, i, |s|);
  }

  lemma {:induction false} ChildrenNatural(s: seq<Event>, i: nat, k: nat)
    requires k <= |s|
    ensures InChildren(s, i, k) >= 0
    decreases k
  {
    if k == 0 {
    } else {
      ChildrenNatural(s, i, k - 1);
    }
  }

  // Own times add up to the time covered

  /** The own times of the first `m` events, children counted among the first `k`. */
  function OwnTotal(s: seq<Event>, m: nat, k: nat): int
    requires m <= |s| && k <= |s|
  {
    if m == 0 then 0 else OwnTotal(s, m - 1, k) + s[m - 1].dur - InChildren(s, m - 1, k)
  }

  /** The durations of the first `k` events that none holds. */
  function OutermostTotal(s: seq<Event>, k: nat): int
    requires k <= |s|
  {
    if k == 0 then 0 else OutermostTotal(s, k - 1) + if Parent(s, k - 1) == -1 then s[k - 1].dur else 0
  }

  lemma {:induction false} OneMoreChild(s: seq<Event>, m: nat, k: nat)
    requires m <= |s| && k < |s|
    ensures OwnTotal(s, m, k + 1) == OwnTotal(s, m, k) - if 0 <= Parent(s, k) < m then s[k].dur else 0
    decreases m
  {
    if m == 0 {
    } else {
      OneMoreChild(s, m - 1, k);
    }
  }

  /** What one event loses, another has: own times add up to the durations of the outermost events. */
  lemma {:induction false} OwnTimesAddUp(s: seq<Event>, k: nat)
    requires k <= |s|
    ensures OwnTotal(s, k, k) == OutermostTotal(s, k)
    decreases k
  {
    if k == 0 {
    } else {
      OwnTimesAddUp(s, k - 1);
      OneMoreChild(s, k - 1, k - 1);
    }
  }

  predicate During(t: int, from: int, to: int) {
    from <= t < to
  }

  function Instants(from: int, to: int): (instants: set<int>)
    ensures forall t :: t in instants <==> from <= t < to
  {
    set t | from <= t < to && During(t, from, to)
  }

  function Span(e: Event): set<int> {
    Instants(e.ts, e.End())
  }

  /** The instants at which some event runs. */
  ghost function Covered(s: seq<Event>): set<int> {
    if s == [] then {} else Covered(s[..|s| - 1]) + Span(s[|s| - 1])
  }

  /** Every instant covered is in an event, and the other way round. */
  lemma {:induction false} CoveredIs(s: seq<Event>, t: int)
    ensures t in Covered(s) <==> exists e :: e in s && t in Span(e)
    decreases |s|
  {
    if s == [] {
    } else {
      CoveredIs(s[..|s| - 1], t);
      assert s == s[..|s| - 1] + [s[|s| - 1]];
    }
  }

  lemma {:induction false} InstantsSize(from: int, n: nat)
    ensures |Instants(from, from + n)| == n
    decreases n
  {
    if n == 0 {
    } else {
      InstantsSize(from, n - 1);
      var all, fewer := Instants(from, from + n), Instants(from, from + (n - 1));
      forall t | t in all
        ensures t in fewer + {from + n - 1}
      {
        assert t < from + (n - 1) ==> During(t, from, from + (n - 1));
      }
      forall t | t in fewer
        ensures t in all
      {
        assert During(t, from, from + n);
      }
      assert During(from + n - 1, from, from + n);
      assert all == fewer + {from + n - 1};
    }
  }

  /** What began after all others ended covers instants of its own. */
  lemma {:induction false} CoveredApart(s: seq<Event>, e: Event)
    requires forall i :: 0 <= i < |s| ==> s[i].End() <= e.ts
    ensures Covered(s) !! Span(e)
    decreases |s|
  {
    if s == [] {
    } else {
      CoveredApart(s[..|s| - 1], e);
    }
  }

  lemma {:induction false} CoveredWithin(s: seq<Event>, e: Event, f: Event)
    requires f in s && Inside(e, f)
    ensures Span(e) <= Covered(s)
    decreases |s|
  {
    var last := s[|s| - 1];
    if f != last {
      assert s == s[..|s| - 1] + [last];
      CoveredWithin(s[..|s| - 1], e, f);
    } else {
      forall t | t in Span(e)
        ensures t in Span(f)
      {
        assert During(t, f.ts, f.End());
      }
    }
  }

  /** The outermost events cover every instant that any event covers, and each of them once. */
  lemma {:induction false} OutermostCover(s: seq<Event>, k: nat)
    requires Ordered(s) && Laminar(s) && k <= |s|
    ensures OutermostTotal(s, k) == |Covered(s[..k])|
    decreases k
  {
    hide Span, Ordered, Laminar, Holder;
    if k == 0 {
    } else {
      OutermostCover(s, k - 1);
      assert s[..k][..k - 1] == s[..k - 1];
      assert Covered(s[..k]) == Covered(s[..k - 1]) + Span(s[k - 1]);
      if Parent(s, k - 1) == -1 {
        OutermostAdds(s, k - 1);
      } else {
        HeldAddsNothing(s, k - 1);
      }
    }
  }

  lemma OutermostAdds(s: seq<Event>, k: nat)
    requires k < |s| && Parent(s, k) == -1
    ensures |Covered(s[..k]) + Span(s[k])| == |Covered(s[..k])| + s[k].dur
  {
    hide Span, Covered;
    CoveredApart(s[..k], s[k]);
    SpanSize(s[k]);
  }

  lemma HeldAddsNothing(s: seq<Event>, k: nat)
    requires k < |s| && Ordered(s) && Laminar(s) && Parent(s, k) >= 0
    ensures Covered(s[..k]) + Span(s[k]) == Covered(s[..k])
  {
    hide Span, Covered, Ordered, Laminar, Inside;
    HolderContains(s, k);
    assert s[..k][Parent(s, k)] == s[Parent(s, k)];
    CoveredWithin(s[..k], s[k], s[Parent(s, k)]);
  }

  lemma SpanSize(e: Event)
    ensures |Span(e)| == e.dur
  {
    InstantsSize(e.ts, e.dur);
  }

  // The stack walk

  /** What earlier events the stack holds: all but those that ended by `now`, the later on top. */
  ghost predicate Stacked(s: seq<Event>, stack: seq<nat>, k: nat, now: int) {
    && k <= |s|
    && (forall a :: 0 <= a < |stack| ==> stack[a] < k)
    && (forall a, b :: 0 <= a < b < |stack| ==> stack[a] < stack[b])
    && (forall i :: 0 <= i < k ==> i in stack || s[i].End() <= now)
  }

  lemma Popped(s: seq<Event>, stack: seq<nat>, k: nat, now: int)
    requires Stacked(s, stack, k, now) && stack != [] && s[stack[|stack| - 1]].End() <= now
    ensures Stacked(s, stack[..|stack| - 1], k, now)
  {
    var top := stack[|stack| - 1];
    assert stack == stack[..|stack| - 1] + [top];
    assert forall i :: i in stack ==> i in stack[..|stack| - 1] || i == top;
  }

  lemma ParentIs(s: seq<Event>, k: nat, p: int)
    requires k < |s| && -1 <= p < k && (p >= 0 ==> s[p].End() > s[k].ts)
    requires forall q :: p < q < k ==> s[q].End() <= s[k].ts
    ensures Parent(s, k) == p
  {
  }

  /** With the ended events popped, the top of the stack is the next event's parent. */
  lemma TopIsParent(s: seq<Event>, stack: seq<nat>, k: nat)
    requires k < |s| && Stacked(s, stack, k, s[k].ts)
    requires stack != [] ==> s[stack[|stack| - 1]].End() > s[k].ts
    ensures Parent(s, k) == if stack == [] then -1 else stack[|stack| - 1]
  {
    var top := if stack == [] then -1 else stack[|stack| - 1];
    forall q | top < q < k
      ensures s[q].End() <= s[k].ts
    {
      assert q !in stack;
    }
    ParentIs(s, k, top);
  }

  lemma Pushed(s: seq<Event>, stack: seq<nat>, k: nat)
    requires k < |s| && Ordered(s) && Stacked(s, stack, k, s[k].ts)
    ensures k + 1 < |s| ==> Stacked(s, stack + [k], k + 1, s[k + 1].ts)
  {
    if k + 1 < |s| {
      assert NotAfter(s[k], s[k + 1]);
      forall i | 0 <= i < k + 1
        ensures i in stack + [k] || s[i].End() <= s[k + 1].ts
      {
        assert i == k || i in stack || s[i].End() <= s[k].ts;
      }
    }
  }

  /** Own times when the first `k` events have been taken from their parents. */
  ghost predicate OwnSoFar(s: seq<Event>, own: seq<int>, k: nat) {
    k <= |s| && |own| == |s| && forall i :: 0 <= i < |s| ==> own[i] == s[i].dur - InChildren(s, i, k)
  }

  /** Own times of the events in order; no laminarity is needed for the walk itself. */
  method OwnTimes(done: seq<Event>) returns (own: seq<int>)
    requires Ordered(done)
    ensures OwnSoFar(done, own, |done|)
  {
    hide Stacked, Ordered, Parent;
    own := seq(|done|, i requires 0 <= i < |done| => done[i].dur);
    var stack: seq<nat> := [];
    NothingStacked(done);
    for k := 0 to |done|
      invariant OwnSoFar(done, own, k)
      invariant forall i :: 0 <= i < |stack| ==> stack[i] < k
      invariant k < |done| ==> Stacked(done, stack, k, done[k].ts)
    {
      while stack != [] && done[stack[|stack| - 1]].End() <= done[k].ts
        invariant forall i :: 0 <= i < |stack| ==> stack[i] < k
        invariant Stacked(done, stack, k, done[k].ts)
        decreases |stack|
      {
        Popped(done, stack, k, done[k].ts);
        stack := stack[..|stack| - 1];
      }
      TopIsParent(done, stack, k);
      if stack != [] {
        var top := stack[|stack| - 1];
        own := own[top := own[top] - done[k].dur];
      }
      Pushed(done, stack, k);
      stack := stack + [k];
    }
  }

  lemma NothingStacked(s: seq<Event>)
    ensures s != [] ==> Stacked(s, [], 0, s[0].ts)
  {
  }

  /** Own times of the first `n` events of a name, cut at zero. */
  function NameTotal(s: seq<Event>, own: seq<int>, key: Key, n: nat): (r: nat)
    requires n <= |s| == |own|
  {
    if n == 0 then 0
    else NameTotal(s, own, key, n - 1) + if s[n - 1].key == key && own[n - 1] > 0 then own[n - 1] else 0
  }

  ghost predicate Named(s: seq<Event>, key: Key, n: nat) {
    exists i :: 0 <= i < |s| && i < n && s[i].key == key
  }

  lemma NamedMore(s: seq<Event>, n: nat)
    requires n < |s|
    ensures forall key :: Named(s, key, n + 1) <==> Named(s, key, n) || key == s[n].key
  {
    forall key
      ensures Named(s, key, n + 1) <==> Named(s, key, n) || key == s[n].key
    {
      if Named(s, key, n + 1) {
        var i :| 0 <= i < n + 1 && s[i].key == key;
        assert i == n || Named(s, key, n);
      }
    }
  }

  lemma NamedBy(s: seq<Event>, key: Key)
    ensures Named(s, key, |s|) <==> exists e :: e in s && e.key == key
  {
    if Named(s, key, |s|) {
      var i :| 0 <= i < |s| && s[i].key == key;
      assert s[i] in s;
    }
  }

  lemma SameKeys(s: seq<Event>, t: seq<Event>)
    requires multiset(s) == multiset(t)
    ensures forall key :: Named(s, key, |s|) <==> Named(t, key, |t|)
  {
    SameMembers(s, t);
    forall key
      ensures Named(s, key, |s|) <==> Named(t, key, |t|)
    {
      NamedBy(s, key);
      NamedBy(t, key);
    }
  }

  lemma {:induction false} NoName(s: seq<Event>, own: seq<int>, key: Key, n: nat)
    requires n <= |s| == |own| && !Named(s, key, n)
    ensures NameTotal(s, own, key, n) == 0
    decreases n
  {
    if n == 0 {
    } else {
      NoName(s, own, key, n - 1);
    }
  }

  /** Every name of the first `n` events, with its total. */
  ghost predicate Tallied(s: seq<Event>, own: seq<int>, out: map<Key, int>, n: nat) {
    && n <= |s| == |own|
    && (forall key :: key in out <==> Named(s, key, n))
    && (forall key :: key in out ==> out[key] == NameTotal(s, own, key, n))
  }

  lemma TalliedMore(s: seq<Event>, own: seq<int>, out: map<Key, int>, n: nat, total: int)
    requires n < |s| && Tallied(s, own, out, n)
    requires total == (if s[n].key in out then out[s[n].key] else 0) + if own[n] > 0 then own[n] else 0
    ensures Tallied(s, own, out[s[n].key := total], n + 1)
  {
    NamedMore(s, n);
    if s[n].key !in out { NoName(s, own, s[n].key, n); }
  }

  /** The time by name: for every name of an event, the own times of the events of that name. */
  method SelfTimes(events: seq<Event>) returns (out: map<Key, int>, ghost own: seq<int>)
    ensures OwnSoFar(Sorted(events), own, |events|)
    ensures Tallied(Sorted(events), own, out, |events|)
    ensures forall key :: key in out <==> Named(events, key, |events|)
  {
    hide NameTotal, Named, Ordered, OwnSoFar;
    var done := Sorted(events);
    SortedOrdered(events);
    var times := OwnTimes(done);
    own := times;
    out := map[];
    NoneTallied(done, times);
    for k := 0 to |done|
      invariant |times| == |done| && Tallied(done, times, out, k)
    {
      var before := if done[k].key in out then out[done[k].key] else 0;
      var total := before + if times[k] > 0 then times[k] else 0;
      TalliedMore(done, times, out, k, total);
      out := out[done[k].key := total];
    }
    SameKeys(events, done);
  }

  lemma NoneTallied(s: seq<Event>, own: seq<int>)
    requires OwnSoFar(s, own, |s|)
    ensures |own| == |s| && Tallied(s, own, map[], 0)
  {
  }

  function Sum(s: seq<int>): int {
    if s == [] then 0 else Sum(s[..|s| - 1]) + s[|s| - 1]
  }

  lemma {:induction false} SumIsOwnTotal(s: seq<Event>, own: seq<int>, m: nat)
    requires OwnSoFar(s, own, |s|) && m <= |s|
    ensures Sum(own[..m]) == OwnTotal(s, m, |s|)
    decreases m
  {
    if m == 0 {
    } else {
      SumIsOwnTotal(s, own, m - 1);
      assert own[..m][..m - 1] == own[..m - 1];
    }
  }

  /**
   * For every laminar family, whatever the order of its list: no own time is negative, so none is cut, and
   * together they are the number of instants at which anything runs.
   */
  lemma SelfTimesPartition(events: seq<Event>, own: seq<int>)
    requires Laminar(events) && OwnSoFar(Sorted(events), own, |events|)
    ensures forall i :: 0 <= i < |own| ==> own[i] >= 0
    ensures Sum(own) == |Covered(events)|
  {
    hide OwnSoFar, Ordered;
    var s := Sorted(events);
    SortedOrdered(events);
    LaminarSorted(events);
    NoneNegative(s, own);
    SumIsOwnTotal(s, own, |s|);
    OwnTimesAddUp(s, |s|);
    OutermostCover(s, |s|);
    assert own[..|own|] == own && s[..|s|] == s;
    SameCovered(events, s);
  }

  lemma LaminarSorted(events: seq<Event>)
    requires Laminar(events)
    ensures Laminar(Sorted(events))
  {
    SortedOrdered(events);
    SameMembers(events, Sorted(events));
  }

  lemma NoneNegative(s: seq<Event>, own: seq<int>)
    requires Ordered(s) && Laminar(s) && OwnSoFar(s, own, |s|)
    ensures |own| == |s| && forall i :: 0 <= i < |own| ==> own[i] >= 0
  {
    hide Ordered, Laminar;
    forall i | 0 <= i < |own|
      ensures own[i] >= 0
    {
      OwnTimeNatural(s, i);
    }
  }

  lemma SameCovered(s: seq<Event>, t: seq<Event>)
    requires multiset(s) == multiset(t)
    ensures Covered(s) == Covered(t)
  {
    SameMembers(s, t);
    forall x: int
      ensures x in Covered(s) <==> x in Covered(t)
    {
      CoveredIs(s, x);
      CoveredIs(t, x);
    }
  }

  lemma SameMembers(s: seq<Event>, t: seq<Event>)
    requires multiset(s) == multiset(t)
    ensures forall e :: e in s <==> e in t
  {
    forall e
      ensures e in s <==> e in t
    {
      assert e in multiset(s) <==> e in multiset(t);
    }
  }

  // By name

  function NamesTotal(ks: seq<Key>, s: seq<Event>, own: seq<int>, n: nat): int
    requires n <= |s| == |own|
  {
    if ks == [] then 0 else NamesTotal(ks[1..], s, own, n) + NameTotal(s, own, ks[0], n)
  }

  lemma {:induction false} OneMoreEvent(ks: seq<Key>, s: seq<Event>, own: seq<int>, n: nat)
    requires n < |s| == |own| && Distinct(ks)
    ensures NamesTotal(ks, s, own, n + 1)
         == NamesTotal(ks, s, own, n) + if s[n].key in ks && own[n] > 0 then own[n] else 0
    decreases |ks|
  {
    if ks == [] {
    } else {
      OneMoreEvent(ks[1..], s, own, n);
      assert ks == [ks[0]] + ks[1..];
      assert ks[0] !in ks[1..];
    }
  }

  lemma {:induction false} NamesAddUp(ks: seq<Key>, s: seq<Event>, own: seq<int>, n: nat)
    requires n <= |s| == |own| && Distinct(ks) && forall i :: 0 <= i < n ==> s[i].key in ks && own[i] >= 0
    ensures NamesTotal(ks, s, own, n) == Sum(own[..n])
    decreases n
  {
    if n == 0 {
      NamesOfNothing(ks, s, own);
    } else {
      NamesAddUp(ks, s, own, n - 1);
      OneMoreEvent(ks, s, own, n - 1);
      assert own[..n][..n - 1] == own[..n - 1];
    }
  }

  lemma {:induction false} NamesOfNothing(ks: seq<Key>, s: seq<Event>, own: seq<int>)
    requires |s| == |own|
    ensures NamesTotal(ks, s, own, 0) == 0
    decreases |ks|
  {
    if ks == [] {
    } else {
      NamesOfNothing(ks[1..], s, own);
    }
  }

  function Reported(ks: seq<Key>, out: map<Key, int>): int
    requires forall key :: key in ks ==> key in out
  {
    if ks == [] then 0 else Reported(ks[1..], out) + out[ks[0]]
  }

  lemma {:induction false} ReportedIs(ks: seq<Key>, s: seq<Event>, own: seq<int>, out: map<Key, int>)
    requires Tallied(s, own, out, |s|) && forall key :: key in ks ==> key in out
    ensures Reported(ks, out) == NamesTotal(ks, s, own, |s|)
    decreases |ks|
  {
    if ks == [] {
    } else {
      ReportedIs(ks[1..], s, own, out);
    }
  }

  /** What is reported for all the names together is the time at which anything ran. */
  lemma ReportedCovers(events: seq<Event>, own: seq<int>, out: map<Key, int>, ks: seq<Key>)
    requires Laminar(events) && OwnSoFar(Sorted(events), own, |events|)
    requires Tallied(Sorted(events), own, out, |events|)
    requires Distinct(ks) && forall key :: key in ks <==> key in out
    ensures Reported(ks, out) == |Covered(events)|
  {
    var s := Sorted(events);
    SortedOrdered(events);
    SelfTimesPartition(events, own);
    ReportedIs(ks, s, own, out);
    forall i | 0 <= i < |s|
      ensures s[i].key in ks
    {
      assert Named(s, s[i].key, |s|);
    }
    NamesAddUp(ks, s, own, |s|);
    assert own[..|s|] == own;
  }
}
