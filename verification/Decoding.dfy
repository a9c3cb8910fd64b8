/** `_decoded` of tools/innerloops.py: the instructions that control reaches, found by following it. */
module Decoding {
  import opened Instructions
  import opened DepthFirst
  import opened Sorting

  /** The decoder's answer at an address. */
  datatype Decoded = Invalid | Valid(one: Insn)

  /** Code of `size` bytes: what the decoder makes of each address. */
  datatype Code = Code(size: nat, decode: int -> Decoded)

  ghost predicate WellFormedCode(code: Code) {
    forall a :: code.decode(a).Valid? ==> code.decode(a).one.ip == a
  }

  predicate Decodable(code: Code, a: int) {
    0 <= a < code.size && code.decode(a).Valid?
  }

  /** Control passes from `one` to address `s`: by falling through, or as its known branch or call target. */
  ghost predicate FlowsTo(one: Insn, s: int) {
    PassesTo(one, s) || (one.flow == Call && one.target == At(s))
  }

  /** Decodable addresses, control passing from each to the next, from one of `starts`. */
  ghost predicate FlowPath(code: Code, starts: seq<int>, p: seq<int>) {
    && |p| > 0 && p[0] in starts
    && (forall i :: 0 <= i < |p| ==> Decodable(code, p[i]))
    && (forall i, j :: 0 <= i < j < |p| && j == i + 1 ==> FlowsTo(code.decode(p[i]).one, p[j]))
  }

  ghost predicate FlowReached(code: Code, starts: seq<int>, a: int) {
    exists p :: FlowPath(code, starts, p) && p[|p| - 1] == a
  }

  ghost predicate Has(text: seq<Insn>, a: int) {
    exists i :: 0 <= i < |text| && text[i].ip == a
  }

  /** The reached instructions, in address order. */
  ghost predicate IsDecoded(code: Code, starts: seq<int>, text: seq<Insn>) {
    && (forall i, j :: 0 <= i < j < |text| ==> text[i].ip < text[j].ip)
    && (forall i :: 0 <= i < |text| ==> code.decode(text[i].ip) == Valid(text[i]))
    && (forall a :: Has(text, a) <==> FlowReached(code, starts, a))
  }

  lemma FlowStart(code: Code, starts: seq<int>, a: int)
    requires a in starts && Decodable(code, a)
    ensures FlowReached(code, starts, a)
  {
    assert FlowPath(code, starts, [a]);
  }

  lemma FlowStep(code: Code, starts: seq<int>, a: int, s: int)
    requires FlowReached(code, starts, a) && FlowsTo(code.decode(a).one, s) && Decodable(code, s)
    ensures FlowReached(code, starts, s)
  {
    var p :| FlowPath(code, starts, p) && p[|p| - 1] == a;
    assert FlowPath(code, starts, p + [s]);
  }

  /**
   * Among the addresses that hold the decodable starts and are closed under control flow, the reached ones are the
   * fewest.
   */
  lemma {:induction false} LeastClosed(code: Code, starts: seq<int>, s: set<int>, p: seq<int>)
    requires forall e :: e in starts && Decodable(code, e) ==> e in s
    requires forall a, b :: a in s && Decodable(code, a) && Decodable(code, b) && FlowsTo(code.decode(a).one, b) ==>
      b in s
    requires FlowPath(code, starts, p)
    ensures p[|p| - 1] in s
    decreases |p|
  {
    if |p| <= 1 {
    } else {
      var q := p[..|p| - 1];
      assert FlowPath(code, starts, q);
      LeastClosed(code, starts, s, q);
      assert FlowsTo(code.decode(p[|p| - 2]).one, p[|p| - 1]);
    }
  }

  // The worklist

  ghost predicate Pursued(code: Code, starts: seq<int>, a: int) {
    Decodable(code, a) ==> FlowReached(code, starts, a)
  }

  ghost predicate Found(code: Code, starts: seq<int>, found: map<int, Insn>) {
    forall a :: a in found ==> Decodable(code, a) && found[a] == code.decode(a).one && FlowReached(code, starts, a)
  }

  ghost predicate AllPursued(code: Code, starts: seq<int>, pending: seq<int>) {
    forall a :: a in pending ==> Pursued(code, starts, a)
  }

  /** Where `one` passes control has been found, waits, or is where the walk is. */
  ghost predicate Followed(code: Code, found: map<int, Insn>, pending: seq<int>, at: int, one: Insn) {
    forall s :: FlowsTo(one, s) && Decodable(code, s) ==> s in found || s in pending || s == at
  }

  ghost predicate AllFollowed(code: Code, found: map<int, Insn>, pending: seq<int>, at: int) {
    forall a :: a in found ==> Followed(code, found, pending, at, found[a])
  }

  ghost predicate Started(code: Code, starts: seq<int>, found: map<int, Insn>, pending: seq<int>, at: int) {
    forall e :: e in starts && Decodable(code, e) ==> e in found || e in pending || e == at
  }

  ghost predicate Walking(code: Code, starts: seq<int>, found: map<int, Insn>, pending: seq<int>, at: int) {
    && Found(code, starts, found) && AllPursued(code, starts, pending) && Pursued(code, starts, at)
    && AllFollowed(code, found, pending, at) && Started(code, starts, found, pending, at)
  }

  function InRange(code: Code, entries: seq<int>): (pending: seq<int>)
    ensures forall e :: e in pending <==> e in entries && 0 <= e < code.size
  {
    if entries == [] then [] else
      var rest := InRange(code, entries[1..]);
      assert entries == [entries[0]] + entries[1..];
      if 0 <= entries[0] < code.size then [entries[0]] + rest else rest
  }

  /**
   * The instruction at `at` is recorded and where it may jump waits; the walk goes on at its fall-through, or,
   * `next`, nowhere new.
   */
  lemma Record(
      code: Code, starts: seq<int>, found: map<int, Insn>, pending: seq<int>, at: int, pending': seq<int>, next: int)
    requires Walking(code, starts, found, pending, at) && Decodable(code, at) && at !in found
    requires forall a :: a in pending' <==>
      a in pending
      || ((code.decode(at).one.Branches() || code.decode(at).one.flow == Call) && code.decode(at).one.target == At(a))
    requires next == at || next == code.decode(at).one.nextIp
    requires (next == at) == code.decode(at).one.Ends() || next == at == code.decode(at).one.nextIp
    ensures Walking(code, starts, found[at := code.decode(at).one], pending', next)
  {
    var one, found' := code.decode(at).one, found[at := code.decode(at).one];
    forall a | a in pending' ensures Pursued(code, starts, a) {
      assert a in pending ==> Pursued(code, starts, a);
      if Decodable(code, a) && FlowsTo(one, a) { FlowStep(code, starts, at, a); }
    }
    if Decodable(code, next) && next != at { FlowStep(code, starts, at, next); }
    forall a | a in found' ensures Followed(code, found', pending', next, found'[a]) {
      assert a in found ==> Followed(code, found, pending, at, found[a]);
    }
  }

  /** Where no walk is. */
  const NOWHERE := -1

  /** A walk whose place is found, or holds no instruction, is over. */
  lemma Rest(code: Code, starts: seq<int>, found: map<int, Insn>, pending: seq<int>, at: int)
    requires Walking(code, starts, found, pending, at) && (Decodable(code, at) ==> at in found)
    ensures Walking(code, starts, found, pending, NOWHERE)
  {
    forall a | a in found ensures Followed(code, found, pending, NOWHERE, found[a]) {
      assert Followed(code, found, pending, at, found[a]);
    }
  }

  /** A waiting address is taken up. */
  lemma TakeUp(code: Code, starts: seq<int>, found: map<int, Insn>, pending: seq<int>, at: int)
    requires Walking(code, starts, found, pending + [at], NOWHERE)
    ensures Walking(code, starts, found, pending, at)
  {
    assert at in pending + [at];
    forall a | a in pending ensures Pursued(code, starts, a) {
      assert a in pending + [at];
    }
    forall a | a in found ensures Followed(code, found, pending, at, found[a]) {
      assert Followed(code, found, pending + [at], NOWHERE, found[a]);
    }
  }

  lemma FoundFits(code: Code, starts: seq<int>, found: map<int, Insn>, at: int)
    requires Found(code, starts, found) && Decodable(code, at) && at !in found
    ensures |found.Keys| < code.size
  {
    SizeBelow(found.Keys + {at}, code.size);
  }

  /** One walk from `from`, until control ends, leaves the code, or meets what is found. */
  method Follow(code: Code, from: int, found0: map<int, Insn>, pending0: seq<int>, ghost starts: seq<int>)
    returns (found: map<int, Insn>, pending: seq<int>)
    requires Walking(code, starts, found0, pending0, from)
    ensures Walking(code, starts, found, pending, NOWHERE)
    ensures |found| > |found0| || (found == found0 && pending == pending0)
  {
    found, pending := found0, pending0;
    var at := from;
    while 0 <= at < code.size && at !in found
      invariant Walking(code, starts, found, pending, at)
      invariant |found| > |found0| || (found == found0 && pending == pending0)
      decreases code.size - |found|
    {
      if code.decode(at).Invalid? { break; }
      var one := code.decode(at).one;
      FoundFits(code, starts, found, at);
      var pending' := pending;
      if (one.Branches() || one.flow == Call) && one.target.At? {
        pending' := pending + [one.target.address];
      }
      var next := if one.Ends() then at else one.nextIp;
      Record(code, starts, found, pending, at, pending', next);
      found, pending := found[at := one], pending';
      if one.Ends() { break; }
      at := one.nextIp;
    }
    Rest(code, starts, found, pending, at);
  }

  /** The last waiting address is followed. */
  method FollowLast(code: Code, found0: map<int, Insn>, pending0: seq<int>, ghost starts: seq<int>)
    returns (found: map<int, Insn>, pending: seq<int>)
    requires |pending0| > 0 && Walking(code, starts, found0, pending0, NOWHERE)
    ensures Walking(code, starts, found, pending, NOWHERE)
    ensures |found| > |found0| || (|found| == |found0| && |pending| < |pending0|)
    ensures |found| <= code.size
  {
    var at, rest := pending0[|pending0| - 1], pending0[..|pending0| - 1];
    assert pending0 == rest + [at];
    TakeUp(code, starts, found0, rest, at);
    found, pending := Follow(code, at, found0, rest, starts);
    AllFit(code, starts, found);
  }

  method Decode(code: Code, entries: seq<int>) returns (text: seq<Insn>)
    requires WellFormedCode(code)
    ensures IsDecoded(code, entries, text)
  {
    var found: map<int, Insn> := map[];
    var pending := InRange(code, entries);
    Begin(code, entries, pending);
    while pending != []
      invariant Walking(code, entries, found, pending, NOWHERE) && |found| <= code.size
      decreases code.size - |found|, |pending|
    {
      found, pending := FollowLast(code, found, pending, entries);
    }
    text := Texts(found, Sorted(found.Keys));
    Complete(code, entries, found, text);
  }

  lemma AllFit(code: Code, starts: seq<int>, found: map<int, Insn>)
    requires Found(code, starts, found)
    ensures |found| <= code.size
  {
    SizeBelow(found.Keys, code.size);
  }

  lemma Begin(code: Code, starts: seq<int>, pending: seq<int>)
    requires forall e :: e in pending <==> e in starts && 0 <= e < code.size
    ensures Walking(code, starts, map[], pending, NOWHERE)
  {
    forall a | a in pending ensures Pursued(code, starts, a) {
      if Decodable(code, a) { FlowStart(code, starts, a); }
    }
  }

  function Texts(found: map<int, Insn>, addresses: seq<int>): (text: seq<Insn>)
    requires forall a :: a in addresses ==> a in found
    ensures |text| == |addresses| && forall i :: 0 <= i < |text| ==>
      addresses[i] in found && text[i] == found[addresses[i]]
  {
    if addresses == [] then [] else
      var first := addresses[0];
      assert first in addresses;
      [found[first]] + Texts(found, addresses[1..])
  }

  /** With nothing waiting, what is found is what is reached. */
  lemma FoundIsReached(code: Code, starts: seq<int>, found: map<int, Insn>)
    requires Walking(code, starts, found, [], NOWHERE)
    ensures forall a :: a in found <==> FlowReached(code, starts, a)
  {
    forall a, b | a in found.Keys && Decodable(code, a) && Decodable(code, b) && FlowsTo(code.decode(a).one, b)
      ensures b in found.Keys
    {
      assert Followed(code, found, [], NOWHERE, found[a]);
    }
    forall a | FlowReached(code, starts, a) ensures a in found {
      var p :| FlowPath(code, starts, p) && p[|p| - 1] == a;
      LeastClosed(code, starts, found.Keys, p);
    }
  }

  ghost predicate Named(found: map<int, Insn>) {
    forall a :: a in found ==> found[a].ip == a
  }

  lemma TextsInOrder(found: map<int, Insn>, addresses: seq<int>)
    requires Ascending(addresses) && (forall a :: a in addresses <==> a in found) && Named(found)
    ensures forall i, j :: 0 <= i < j < |addresses| ==> Texts(found, addresses)[i].ip < Texts(found, addresses)[j].ip
    ensures forall a :: Has(Texts(found, addresses), a) <==> a in found
  {
    var text := Texts(found, addresses);
    assert forall i :: 0 <= i < |text| ==> text[i].ip == addresses[i];
    forall a ensures Has(text, a) <==> a in found {
      if a in addresses {
        var i :| 0 <= i < |addresses| && addresses[i] == a;
        assert text[i].ip == a;
      }
    }
  }

  lemma Complete(code: Code, starts: seq<int>, found: map<int, Insn>, text: seq<Insn>)
    requires WellFormedCode(code) && Walking(code, starts, found, [], NOWHERE)
    requires text == Texts(found, Sorted(found.Keys))
    ensures IsDecoded(code, starts, text)
  {
    FoundIsReached(code, starts, found);
    TextsInOrder(found, Sorted(found.Keys));
    forall i | 0 <= i < |text| ensures code.decode(text[i].ip) == Valid(text[i]) {
      assert text[i] == found[Sorted(found.Keys)[i]];
    }
  }

  /** The result does not depend on the order of the entries, nor on repetitions among them. */
  lemma EntriesOrderIrrelevant(code: Code, starts: seq<int>, starts': seq<int>, text: seq<Insn>, text': seq<Insn>)
    requires forall e :: e in starts <==> e in starts'
    requires IsDecoded(code, starts, text) && IsDecoded(code, starts', text')
    ensures text == text'
  {
    forall a | FlowReached(code, starts, a) ensures FlowReached(code, starts', a) {
      var p :| FlowPath(code, starts, p) && p[|p| - 1] == a;
      assert FlowPath(code, starts', p);
    }
    forall a | FlowReached(code, starts', a) ensures FlowReached(code, starts, a) {
      var p :| FlowPath(code, starts', p) && p[|p| - 1] == a;
      assert FlowPath(code, starts, p);
    }
    assert forall a :: Has(text, a) <==> Has(text', a);
    SameAscending(code, text, text');
  }

  lemma {:induction false} SameAscending(code: Code, s: seq<Insn>, t: seq<Insn>)
    requires forall i, j :: 0 <= i < j < |s| ==> s[i].ip < s[j].ip
    requires forall i, j :: 0 <= i < j < |t| ==> t[i].ip < t[j].ip
    requires forall i :: 0 <= i < |s| ==> code.decode(s[i].ip) == Valid(s[i])
    requires forall i :: 0 <= i < |t| ==> code.decode(t[i].ip) == Valid(t[i])
    requires forall a :: Has(s, a) <==> Has(t, a)
    ensures s == t
    decreases |s|
  {
    if |t| > 0 { assert Has(t, t[0].ip); }
    if |s| == 0 {
    } else {
      assert Has(s, s[0].ip);
      assert s[0].ip == t[0].ip;
      TailHas(s);
      TailHas(t);
      SameAscending(code, s[1..], t[1..]);
      assert s == [s[0]] + s[1..] && t == [t[0]] + t[1..];
    }
  }

  lemma TailHas(s: seq<Insn>)
    requires |s| > 0 && forall i, j :: 0 <= i < j < |s| ==> s[i].ip < s[j].ip
    ensures forall a :: Has(s[1..], a) <==> Has(s, a) && a != s[0].ip
  {
    forall a ensures Has(s[1..], a) <==> Has(s, a) && a != s[0].ip {
      if Has(s, a) && a != s[0].ip {
        var i :| 0 <= i < |s| && s[i].ip == a;
        assert s[1..][i - 1].ip == a;
      }
      if Has(s[1..], a) {
        var i :| 0 <= i < |s[1..]| && s[1..][i].ip == a;
        assert s[i + 1].ip == a;
      }
    }
  }
}
