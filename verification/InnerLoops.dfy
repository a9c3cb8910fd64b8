/** `loops` of tools/innerloops.py: the innermost loops of one code segment, from its bytes on. */
module InnerLoops {
  import opened Lists
  import opened ControlFlow
  import opened DepthFirst
  import opened Instructions
  import opened Decoding
  import opened NaturalLoops

  /** A call instruction names `a`. */
  ghost predicate Called(text: seq<Insn>, a: int) {
    exists i :: 0 <= i < |text| && text[i].flow == Call && text[i].target == At(a)
  }

  /** The known targets of the call instructions. */
  function CallTargets(text: seq<Insn>): (targets: seq<int>)
    ensures forall a :: a in targets <==> Called(text, a)
  {
    if text == [] then [] else
      var init, last := text[..|text| - 1], text[|text| - 1];
      assert text == init + [last];
      CalledMore(init, last);
      CallTargets(init) + (if last.flow == Call && last.target.At? then [last.target.address] else [])
  }

  lemma CalledMore(text: seq<Insn>, one: Insn)
    ensures forall a :: Called(text + [one], a) <==> Called(text, a) || (one.flow == Call && one.target == At(a))
  {
    var more := text + [one];
    assert more[|text|] == one;
    forall a
      ensures Called(more, a) <==> Called(text, a) || (one.flow == Call && one.target == At(a))
    {
      if Called(text, a) {
        var i :| 0 <= i < |text| && text[i].flow == Call && text[i].target == At(a);
        assert more[i] == text[i];
      }
    }
  }

  ghost predicate PlaceOf(addresses: seq<int>, where: map<int, int>, e: int) {
    exists a :: a in addresses && a in where && where[a] == e
  }

  /** The indices of those of the addresses that hold an instruction. */
  function Places(addresses: seq<int>, where: map<int, int>): (places: seq<int>)
    ensures forall e :: e in places <==> PlaceOf(addresses, where, e)
  {
    if addresses == [] then [] else
      var init, last := addresses[..|addresses| - 1], addresses[|addresses| - 1];
      assert forall a :: a in addresses <==> a in init || a == last;
      Places(init, where) + (if last in where then [where[last]] else [])
  }

  /** The text's graph, by the index of each address. */
  ghost predicate GraphOf(text: seq<Insn>, where: map<int, int>, g: Graph) {
    IsWhere(text, where) && g == SuccessorLists(text, where)
  }

  lemma WhereExactly(text: seq<Insn>, where: map<int, int>, i: int)
    requires IsWhere(text, where) && 0 <= i < |text|
    requires forall j, k :: 0 <= j < k < |text| ==> text[j].ip < text[k].ip
    ensures text[i].ip in where && where[text[i].ip] == i
  {
    assert text[i].ip in where;
    assert text[where[text[i].ip]].ip == text[i].ip;
  }

  /** With the starts and the call targets among the entries, everything decoded is reached. */
  lemma {:induction false} PathReached(
      code: Code, starts: seq<int>, text: seq<Insn>, where: map<int, int>, g: Graph, entries: seq<int>, p: seq<int>)
    requires IsDecoded(code, starts, text) && GraphOf(text, where, g) && WellFormed(g) && Entries(g, entries)
    requires forall a :: a in starts && a in where ==> where[a] in entries
    requires forall a :: a in CallTargets(text) && a in where ==> where[a] in entries
    requires FlowPath(code, starts, p)
    ensures p[|p| - 1] in where && Reached(g, entries, where[p[|p| - 1]])
    decreases |p|
  {
    var a := p[|p| - 1];
    Held(code, starts, text, where, p);
    if |p| == 1 {
      EntryReached(g, entries, where[a]);
    } else {
      var q := p[..|p| - 1];
      var b := q[|q| - 1];
      assert FlowPath(code, starts, q) && FlowsTo(code.decode(b).one, a);
      PathReached(code, starts, text, where, g, entries, q);
      var one := text[where[b]];
      assert code.decode(b) == Valid(one);
      FlowsOrCalls(one, where, a);
      if where[a] in g[where[b]] {
        ReachedEdge(g, entries, where[b], where[a]);
      } else {
        assert one.flow == Call && one.target == At(a);
        EntryReached(g, entries, where[a]);
      }
    }
  }

  lemma FlowsOrCalls(one: Insn, where: map<int, int>, a: int)
    requires FlowsTo(one, a) && a in where
    ensures where[a] in Successors(one, where) || (one.flow == Call && one.target == At(a))
  {
    SuccessorIs(one, where, where[a]);
  }

  lemma Held(code: Code, starts: seq<int>, text: seq<Insn>, where: map<int, int>, p: seq<int>)
    requires IsDecoded(code, starts, text) && IsWhere(text, where) && FlowPath(code, starts, p)
    ensures p[|p| - 1] in where
  {
    assert FlowReached(code, starts, p[|p| - 1]);
    assert Has(text, p[|p| - 1]);
  }

  lemma EveryInstructionReached(
      code: Code, starts: seq<int>, text: seq<Insn>, where: map<int, int>, g: Graph, entries: seq<int>)
    requires IsDecoded(code, starts, text) && GraphOf(text, where, g) && WellFormed(g) && Entries(g, entries)
    requires forall a :: a in starts && a in where ==> where[a] in entries
    requires forall a :: a in CallTargets(text) && a in where ==> where[a] in entries
    ensures forall i :: 0 <= i < |text| ==> Reached(g, entries, i)
  {
    forall i | 0 <= i < |text| ensures Reached(g, entries, i) {
      var a := text[i].ip;
      assert Has(text, a);
      var p :| FlowPath(code, starts, p) && p[|p| - 1] == a;
      PathReached(code, starts, text, where, g, entries, p);
      WhereExactly(text, where, i);
    }
  }

  // The innermost filter

  function Headers(found: seq<(int, seq<int>)>): (headers: set<int>)
    ensures forall i :: 0 <= i < |found| ==> found[i].0 in headers
    ensures forall h :: h in headers ==> exists i :: 0 <= i < |found| && found[i].0 == h
  {
    set i | 0 <= i < |found| :: found[i].0
  }

  /** No other loop's header is a member, and no call is, unless calls are wanted. */
  ghost predicate Kept(g: Graph, entries: seq<int>, text: seq<Insn>, calls: bool, h: int) {
    && (forall x :: InLoop(g, entries, h, x) && x != h ==> !IsHeader(g, entries, x))
    && (calls || forall x :: InLoop(g, entries, h, x) && 0 <= x < |text| ==>
          text[x].flow != Call && text[x].flow != IndirectCall)
  }

  predicate KeptByMembers(headers: set<int>, text: seq<Insn>, calls: bool, h: int, members: seq<int>) {
    && (forall x :: x in members && x != h ==> x !in headers)
    && (calls || forall x :: x in members && 0 <= x < |text| ==> !text[x].Calls())
  }

  lemma KeptTogether(
      g: Graph, entries: seq<int>, text: seq<Insn>, calls: bool, headers: set<int>, h: int, members: seq<int>)
    requires LoopIs(g, entries, h, members)
    requires forall x :: x in headers <==> IsHeader(g, entries, x)
    ensures KeptByMembers(headers, text, calls, h, members) <==> Kept(g, entries, text, calls, h)
  {
  }

  /** Innermost loops do not overlap. */
  lemma KeptDisjoint(g: Graph, entries: seq<int>, text: seq<Insn>, calls: bool, h1: int, h2: int, x: int)
    requires WellFormed(g) && h1 != h2 && IsHeader(g, entries, h1) && IsHeader(g, entries, h2)
    requires Kept(g, entries, text, calls, h1) && Kept(g, entries, text, calls, h2) && Reached(g, entries, x)
    ensures !(InLoop(g, entries, h1, x) && InLoop(g, entries, h2, x))
  {
    if InLoop(g, entries, h1, x) && InLoop(g, entries, h2, x) {
      NestedOrDisjoint(g, entries, h1, h2, x);
      assert InLoop(g, entries, h1, h1) && InLoop(g, entries, h2, h2);
    }
  }

  /** What `loops` keeps: the natural loops, in order, that `Kept` describes. */
  ghost predicate Selected(g: Graph, entries: seq<int>, text: seq<Insn>, calls: bool, kept: seq<(int, seq<int>)>) {
    && (forall i, j :: 0 <= i < j < |kept| ==> kept[i].0 < kept[j].0)
    && (forall i :: 0 <= i < |kept| ==>
      LoopIs(g, entries, kept[i].0, kept[i].1) && Kept(g, entries, text, calls, kept[i].0))
    && (forall h :: IsHeader(g, entries, h) && Kept(g, entries, text, calls, h) ==>
      exists i :: 0 <= i < |kept| && kept[i].0 == h)
  }

  method Innermost(found: seq<(int, seq<int>)>, text: seq<Insn>, calls: bool, ghost g: Graph, ghost entries: seq<int>)
    returns (kept: seq<(int, seq<int>)>)
    requires LoopsAre(g, entries, found)
    ensures Selected(g, entries, text, calls, kept)
  {
    var headers := Headers(found);
    forall h ensures h in headers <==> IsHeader(g, entries, h) {
      if h in headers {
        var i :| 0 <= i < |found| && found[i].0 == h;
        assert LoopIs(g, entries, found[i].0, found[i].1);
      }
    }
    kept := [];
    for k := 0 to |found|
      invariant SelectedUpTo(g, entries, text, calls, found, k, kept)
    {
      var (header, members) := found[k];
      assert LoopIs(g, entries, found[k].0, found[k].1);
      KeptTogether(g, entries, text, calls, headers, header, members);
      SelectNext(g, entries, text, calls, found, k, kept);
      if KeptByMembers(headers, text, calls, header, members) {
        kept := kept + [(header, members)];
      }
    }
    SelectedAll(g, entries, text, calls, found, kept);
  }

  ghost predicate KeptLoop(g: Graph, entries: seq<int>, text: seq<Insn>, calls: bool, loop: (int, seq<int>)) {
    LoopIs(g, entries, loop.0, loop.1) && Kept(g, entries, text, calls, loop.0)
  }

  ghost predicate SelectedUpTo(
      g: Graph, entries: seq<int>, text: seq<Insn>, calls: bool, found: seq<(int, seq<int>)>, k: nat,
      kept: seq<(int, seq<int>)>)
    requires k <= |found|
  {
    && (forall i, j :: 0 <= i < j < |kept| ==> kept[i].0 < kept[j].0)
    && (forall i, j :: 0 <= i < |kept| && k <= j < |found| ==> kept[i].0 < found[j].0)
    && (forall i :: 0 <= i < |kept| ==> KeptLoop(g, entries, text, calls, kept[i]))
    && (forall j :: 0 <= j < k && Kept(g, entries, text, calls, found[j].0) ==> found[j] in kept)
  }

  lemma SelectNext(
      g: Graph, entries: seq<int>, text: seq<Insn>, calls: bool, found: seq<(int, seq<int>)>, k: nat,
      kept: seq<(int, seq<int>)>)
    requires k < |found| && SelectedUpTo(g, entries, text, calls, found, k, kept)
    requires forall i, j :: 0 <= i < j < |found| ==> found[i].0 < found[j].0
    requires LoopIs(g, entries, found[k].0, found[k].1)
    ensures Kept(g, entries, text, calls, found[k].0) ==>
      SelectedUpTo(g, entries, text, calls, found, k + 1, kept + [found[k]])
    ensures !Kept(g, entries, text, calls, found[k].0) ==> SelectedUpTo(g, entries, text, calls, found, k + 1, kept)
  {
    var more := kept + [found[k]];
    assert more[|kept|] == found[k] && forall l :: l in kept ==> l in more;
  }

  lemma SelectedAll(
      g: Graph, entries: seq<int>, text: seq<Insn>, calls: bool, found: seq<(int, seq<int>)>,
      kept: seq<(int, seq<int>)>)
    requires LoopsAre(g, entries, found) && SelectedUpTo(g, entries, text, calls, found, |found|, kept)
    ensures Selected(g, entries, text, calls, kept)
  {
    forall h | IsHeader(g, entries, h) && Kept(g, entries, text, calls, h)
      ensures exists i :: 0 <= i < |kept| && kept[i].0 == h
    {
      var j :| 0 <= j < |found| && found[j].0 == h;
      assert found[j] in kept;
    }
    forall i | 0 <= i < |kept|
      ensures LoopIs(g, entries, kept[i].0, kept[i].1) && Kept(g, entries, text, calls, kept[i].0)
    {
      assert KeptLoop(g, entries, text, calls, kept[i]);
    }
  }

  /** An address `loops` takes for an entry: the start, a public name, a procedure's name or the target of a call. */
  ghost predicate EntryAddress(text: seq<Insn>, start: int, publics: seq<int>, named: seq<int>, a: int) {
    a == start || a in publics || a in named || Called(text, a)
  }

  ghost predicate EntryAt(
      text: seq<Insn>, start: int, publics: seq<int>, named: seq<int>, where: map<int, int>, e: int)
  {
    exists a :: EntryAddress(text, start, publics, named, a) && a in where && where[a] == e
  }

  /** The entries are the instructions at the entry addresses, each listed once. */
  ghost predicate EntriesAre(
      text: seq<Insn>, start: int, publics: seq<int>, named: seq<int>, where: map<int, int>, entries: seq<int>) {
    && Distinct(entries)
    && forall e :: e in entries <==> EntryAt(text, start, publics, named, where, e)
  }

  /**
   * The innermost loops of the code reached from `start` and the public names: each is exactly a natural loop of the
   * decoded text's graph, with the entries that the names and the calls give. All of the text is reached from them,
   * and no two loops share an instruction.
   */
  method Loops(code: Code, start: int, publics: seq<int>, named: seq<int>, calls: bool)
    returns (kept: seq<(int, seq<int>)>, ghost text: seq<Insn>, ghost g: Graph, ghost entries: seq<int>)
    requires WellFormedCode(code)
    ensures IsDecoded(code, [start] + publics, text)
    ensures exists where :: GraphOf(text, where, g) && EntriesAre(text, start, publics, named, where, entries)
    ensures forall i :: 0 <= i < |text| ==> Reached(g, entries, i)
    ensures Selected(g, entries, text, calls, kept)
    ensures forall i, j, x :: 0 <= i < j < |kept| && x in kept[i].1 ==> x !in kept[j].1
  {
    var decoded := Decode(code, [start] + publics);
    var where := WhereIs(decoded);
    var wanted := [start] + publics + named + CallTargets(decoded);
    var list := Once(Places(wanted, where));
    EntriesTaken(decoded, start, publics, named, where);
    var found := NaturalLoops.NaturalLoops(decoded, list);
    ghost var where' :| IsWhere(decoded, where') && LoopsAre(SuccessorLists(decoded, where'), list, found);
    WhereUnique(decoded, where, where');
    text, entries, g := decoded, list, SuccessorLists(decoded, where);
    WantedReached(code, start, publics, named, text, where, g, entries);
    kept := Innermost(found, decoded, calls, g, entries);
    Disjoint(g, entries, text, calls, kept);
  }

  lemma EntriesTaken(text: seq<Insn>, start: int, publics: seq<int>, named: seq<int>, where: map<int, int>)
    requires IsWhere(text, where)
    ensures var entries := Once(Places([start] + publics + named + CallTargets(text), where));
            && EntriesAre(text, start, publics, named, where, entries)
            && forall e :: e in entries ==> 0 <= e < |text|
  {
    var wanted := [start] + publics + named + CallTargets(text);
    OnceHas(Places(wanted, where));
    assert forall a :: a in wanted <==> EntryAddress(text, start, publics, named, a);
    hide Called, EntryAddress, Once, Distinct;
    forall e
      ensures PlaceOf(wanted, where, e) <==> EntryAt(text, start, publics, named, where, e)
    {
    }
    assert forall e :: PlaceOf(wanted, where, e) ==> 0 <= e < |text|;
  }

  lemma WantedReached(
      code: Code, start: int, publics: seq<int>, named: seq<int>, text: seq<Insn>, where: map<int, int>, g: Graph,
      entries: seq<int>)
    requires IsDecoded(code, [start] + publics, text) && GraphOf(text, where, g)
    requires EntriesAre(text, start, publics, named, where, entries) && forall e :: e in entries ==> 0 <= e < |text|
    ensures WellFormed(g)
    ensures forall i :: 0 <= i < |text| ==> Reached(g, entries, i)
  {
    SuccessorsInRange(text, where);
    forall a | (a in [start] + publics || a in CallTargets(text)) && a in where
      ensures where[a] in entries
    {
      assert EntryAddress(text, start, publics, named, a);
      assert EntryAt(text, start, publics, named, where, where[a]);
    }
    EveryInstructionReached(code, [start] + publics, text, where, g, entries);
  }

  lemma Disjoint(g: Graph, entries: seq<int>, text: seq<Insn>, calls: bool, kept: seq<(int, seq<int>)>)
    requires WellFormed(g) && Selected(g, entries, text, calls, kept) && |g| == |text|
    requires forall i :: 0 <= i < |text| ==> Reached(g, entries, i)
    ensures forall i, j, x :: 0 <= i < j < |kept| && x in kept[i].1 ==> x !in kept[j].1
  {
    forall i, j, x | 0 <= i < j < |kept| && x in kept[i].1 ensures x !in kept[j].1 {
      assert LoopIs(g, entries, kept[i].0, kept[i].1) && LoopIs(g, entries, kept[j].0, kept[j].1);
      InRangeMember(g, entries, kept[i].0, x);
      KeptDisjoint(g, entries, text, calls, kept[i].0, kept[j].0, x);
    }
  }

  lemma InRangeMember(g: Graph, entries: seq<int>, h: int, x: int)
    requires WellFormed(g) && InLoop(g, entries, h, x)
    ensures 0 <= x < |g|
  {
  }
}
