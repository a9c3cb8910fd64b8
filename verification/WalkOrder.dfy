/**
 * The order of the blocks, told without the walk: the next block listed is the first label not yet listed on the last
 * line of the latest block listed that has one. With the entry first, this leaves one order only.
 */
module WalkOrder {
  import opened Lists
  import opened Names
  import opened IrFunctions

  // Labels not yet listed, by their places on a last line

  /** The tokens of the last line of `b`; none if it is a phi. */
  ghost function LastLine(f: Function, b: Name): seq<Token> {
    if b in Labels(f) && BodyOf(f, b) != [] && BodyOf(f, b)[|BodyOf(f, b)| - 1].Plain?
    then BodyOf(f, b)[|BodyOf(f, b)| - 1].tokens else []
  }

  /** Token `j` is a label that is not in `seen`. */
  ghost predicate NewAt(tokens: seq<Token>, seen: seq<Name>, j: int) {
    0 <= j < |tokens| && tokens[j].LabelRef? && tokens[j].name !in seen
  }

  /** `x` is the first label on the last line of `b` that is not in `seen`. */
  ghost predicate FirstNew(f: Function, b: Name, seen: seq<Name>, x: Name) {
    exists j :: NewAt(LastLine(f, b), seen, j) && LastLine(f, b)[j].name == x
      && forall i :: 0 <= i < j ==> !NewAt(LastLine(f, b), seen, i)
  }

  ghost predicate NothingNew(f: Function, b: Name, seen: seq<Name>) {
    forall j :: !NewAt(LastLine(f, b), seen, j)
  }

  /** The same, by places in a list of labels. */
  ghost predicate FirstOf(labels: seq<Name>, seen: seq<Name>, x: Name) {
    exists p :: 0 <= p < |labels| && labels[p] == x && x !in seen && forall q :: 0 <= q < p ==> labels[q] in seen
  }

  ghost predicate NoneOf(labels: seq<Name>, seen: seq<Name>) {
    forall x :: x in labels ==> x in seen
  }

  lemma FirstOfLonger(s: seq<Name>, last: Name, seen: seq<Name>, x: Name)
    requires FirstOf(s + [last], seen, x)
    ensures FirstOf(s, seen, x) || (x == last && x !in seen && NoneOf(s, seen))
  {
    var t := s + [last];
    var p :| 0 <= p < |t| && t[p] == x && x !in seen && forall q :: 0 <= q < p ==> t[q] in seen;
    assert forall q :: 0 <= q < |s| ==> t[q] == s[q];
  }

  lemma FirstOfShorter(s: seq<Name>, last: Name, seen: seq<Name>, x: Name)
    requires FirstOf(s, seen, x) || (x == last && x !in seen && NoneOf(s, seen))
    ensures FirstOf(s + [last], seen, x)
  {
    var t := s + [last];
    assert forall q :: 0 <= q < |s| ==> t[q] == s[q];
    if FirstOf(s, seen, x) {
      var p :| 0 <= p < |s| && s[p] == x && x !in seen && forall q :: 0 <= q < p ==> s[q] in seen;
      assert t[p] == x;
    } else {
      assert t[|s|] == x;
    }
  }

  lemma {:induction false} FirstOnce(labels: seq<Name>, seen: seq<Name>, x: Name)
    requires FirstOf(Once(labels), seen, x)
    ensures FirstOf(labels, seen, x)
    decreases |labels|
  {
    var init, last := labels[..|labels| - 1], labels[|labels| - 1];
    OnceHas(init);
    LastOff(labels);
    assert Once(labels) == if last in Once(init) then Once(init) else Once(init) + [last];
    hide Once, Distinct, FirstOf;
    if last !in Once(init) { FirstOfLonger(Once(init), last, seen, x); }
    if FirstOf(Once(init), seen, x) { FirstOnce(init, seen, x); }
    FirstOfShorter(init, last, seen, x);
  }

  lemma FirstIs(first: Name, later: seq<Name>, seen: seq<Name>, x: Name)
    requires FirstOf([first] + later, seen, x)
    ensures first !in seen ==> first == x
    ensures first in seen ==> FirstOf(later, seen, x)
  {
    var labels := [first] + later;
    var p :| 0 <= p < |labels| && labels[p] == x && x !in seen && forall q :: 0 <= q < p ==> labels[q] in seen;
    assert labels[0] == first && labels[1..] == later;
    if first in seen {
      assert p > 0 && labels[1..][p - 1] == labels[p];
      forall q | 0 <= q < p - 1
        ensures labels[1..][q] in seen
      {
        assert labels[1..][q] == labels[q + 1];
      }
    }
  }

  lemma NewLater(tokens: seq<Token>, seen: seq<Name>, j: nat)
    requires tokens != [] && !NewAt(tokens, seen, 0)
    requires NewAt(tokens[1..], seen, j) && forall i :: 0 <= i < j ==> !NewAt(tokens[1..], seen, i)
    ensures NewAt(tokens, seen, j + 1) && tokens[j + 1] == tokens[1..][j]
    ensures forall i :: 0 <= i < j + 1 ==> !NewAt(tokens, seen, i)
  {
    forall i | 0 <= i < j + 1
      ensures !NewAt(tokens, seen, i)
    {
      if i > 0 { assert !NewAt(tokens[1..], seen, i - 1); }
    }
  }

  /** Among labels of the tokens the first new one is the first new token. */
  lemma {:induction false} FirstToken(tokens: seq<Token>, seen: seq<Name>, x: Name) returns (j: nat)
    requires FirstOf(TokenLabels(tokens), seen, x)
    ensures NewAt(tokens, seen, j) && tokens[j].name == x && forall i :: 0 <= i < j ==> !NewAt(tokens, seen, i)
    decreases |tokens|
  {
    var later := TokenLabels(tokens[1..]);
    assert TokenLabels(tokens) == if tokens[0].LabelRef? then [tokens[0].name] + later else [] + later;
    assert [] + later == later;
    hide FirstOf, TokenLabels;
    if tokens[0].LabelRef? { FirstIs(tokens[0].name, later, seen, x); }
    if NewAt(tokens, seen, 0) {
      j := 0;
    } else {
      j := FirstToken(tokens[1..], seen, x);
      NewLater(tokens, seen, j);
      j := j + 1;
    }
  }

  lemma LastLineSuccessors(f: Function, b: Name)
    ensures SuccessorsOf(f, b) == Once(TokenLabels(LastLine(f, b)))
  {
  }

  lemma FirstSuccessor(f: Function, b: Name, seen: seq<Name>, x: Name)
    requires FirstOf(SuccessorsOf(f, b), seen, x)
    ensures FirstNew(f, b, seen, x)
  {
    LastLineSuccessors(f, b);
    hide FirstOf, LastLine, SuccessorsOf;
    FirstOnce(TokenLabels(LastLine(f, b)), seen, x);
    var j := FirstToken(LastLine(f, b), seen, x);
  }

  lemma NoSuccessor(f: Function, b: Name, seen: seq<Name>)
    requires NoneOf(SuccessorsOf(f, b), seen)
    ensures NothingNew(f, b, seen)
  {
    LastLineSuccessors(f, b);
    var tokens := LastLine(f, b);
    OnceHas(TokenLabels(tokens));
    hide LastLine, SuccessorsOf, Once;
    forall j
      ensures !NewAt(tokens, seen, j)
    {
      if 0 <= j < |tokens| && tokens[j].LabelRef? { LabelOfToken(tokens, j); }
    }
  }

  // The stack in layers

  /**
   * Of `stack`, the top is what is left of the last block's successors, below it what is left of those of the block
   * before, and so on; what is not left is in `seen`.
   */
  ghost predicate Layered(f: Function, done: seq<Name>, seen: seq<Name>, stack: seq<Name>)
    decreases |done|
  {
    if done == [] then stack == [] else
      exists r: nat {:trigger LayerOf(f, done[|done| - 1], seen, stack, r)} ::
        LayerOf(f, done[|done| - 1], seen, stack, r)
        && Layered(f, done[..|done| - 1], seen, stack[..|stack| - r])
  }

  /** The top `r` of the stack are the last `r` successors of `b`, the first on top, and the others are in `seen`. */
  ghost predicate LayerOf(f: Function, b: Name, seen: seq<Name>, stack: seq<Name>, r: nat) {
    var s := SuccessorsOf(f, b);
    && r <= |s| && r <= |stack| && stack[|stack| - r..] == Reversed(s)[..r]
    && forall q :: 0 <= q < |s| - r ==> s[q] in seen
  }

  lemma {:induction false} LayersSeen(f: Function, done: seq<Name>, seen: seq<Name>, more: seq<Name>, stack: seq<Name>)
    requires Layered(f, done, seen, stack) && forall x :: x in seen ==> x in more
    ensures Layered(f, done, more, stack)
    decreases |done|
  {
    hide SuccessorsOf, Reversed;
    if done == [] {
    } else {
      var r: nat :| LayerOf(f, done[|done| - 1], seen, stack, r)
        && Layered(f, done[..|done| - 1], seen, stack[..|stack| - r]);
      LayersSeen(f, done[..|done| - 1], seen, more, stack[..|stack| - r]);
      assert LayerOf(f, done[|done| - 1], more, stack, r);
    }
  }

  /** Popping a label that has been seen. */
  lemma {:induction false} LayersPop(f: Function, done: seq<Name>, seen: seq<Name>, rest: seq<Name>, id: Name)
    requires Layered(f, done, seen, rest + [id]) && id in seen
    ensures Layered(f, done, seen, rest)
    decreases |done|
  {
    var stack, b, before := rest + [id], done[|done| - 1], done[..|done| - 1];
    var r: nat :| LayerOf(f, b, seen, stack, r) && Layered(f, before, seen, stack[..|stack| - r]);
    if r == 0 {
      assert stack[..|stack| - r] == stack;
      LayersPop(f, before, seen, rest, id);
      LayerEmpty(f, b, seen, stack, rest);
      assert rest[..|rest| - 0] == rest;
    } else {
      LayerPop(f, b, seen, rest, id, r);
      assert stack[..|stack| - r] == rest[..|rest| - (r - 1)];
    }
  }

  lemma LayerEmpty(f: Function, b: Name, seen: seq<Name>, stack: seq<Name>, other: seq<Name>)
    requires LayerOf(f, b, seen, stack, 0)
    ensures LayerOf(f, b, seen, other, 0)
  {
    hide SuccessorsOf;
  }

  lemma LayerPop(f: Function, b: Name, seen: seq<Name>, rest: seq<Name>, id: Name, r: nat)
    requires r > 0 && LayerOf(f, b, seen, rest + [id], r) && id in seen
    ensures LayerOf(f, b, seen, rest, r - 1)
  {
    hide SuccessorsOf;
    var s, stack := SuccessorsOf(f, b), rest + [id];
    assert stack[|stack| - r..][r - 1] == id && Reversed(s)[..r][r - 1] == s[|s| - r];
    assert rest[|rest| - (r - 1)..] == stack[|stack| - r..][..r - 1];
    assert Reversed(s)[..r][..r - 1] == Reversed(s)[..r - 1];
  }

  /** Taking a block puts all its successors on top. */
  lemma LayersTake(f: Function, done: seq<Name>, rest: seq<Name>, id: Name)
    requires Layered(f, done, done, rest + [id])
    ensures Layered(f, done + [id], done + [id], rest + Reversed(SuccessorsOf(f, id)))
  {
    var seen, s := done + [id], SuccessorsOf(f, id);
    var stack := rest + Reversed(s);
    hide SuccessorsOf;
    LayersSeen(f, done, done, seen, rest + [id]);
    LayersPop(f, done, seen, rest, id);
    assert seen[..|seen| - 1] == done && seen[|seen| - 1] == id;
    assert stack[..|stack| - |s|] == rest && stack[|stack| - |s|..] == Reversed(s)[..|s|];
    assert LayerOf(f, id, seen, stack, |s|);
  }

  /** The top, when it is new, is the first new label of the latest block that has one. */
  ghost predicate Latest(f: Function, done: seq<Name>, seen: seq<Name>, x: Name)
    decreases |done|
  {
    done != [] && (
      var b := done[|done| - 1];
      || FirstOf(SuccessorsOf(f, b), seen, x)
      || (NoneOf(SuccessorsOf(f, b), seen) && Latest(f, done[..|done| - 1], seen, x)))
  }

  lemma {:induction false} TopLatest(f: Function, done: seq<Name>, seen: seq<Name>, rest: seq<Name>, id: Name)
    requires Layered(f, done, seen, rest + [id]) && id !in seen
    ensures Latest(f, done, seen, id)
    decreases |done|
  {
    var stack, b, before := rest + [id], done[|done| - 1], done[..|done| - 1];
    var r: nat :| LayerOf(f, b, seen, stack, r) && Layered(f, before, seen, stack[..|stack| - r]);
    hide SuccessorsOf, LayerOf, FirstOf, NoneOf, Layered;
    LayerTop(f, b, seen, rest, id, r);
    if r == 0 {
      assert stack[..|stack| - r] == stack;
      TopLatest(f, before, seen, rest, id);
    }
  }

  lemma LayerTop(f: Function, b: Name, seen: seq<Name>, rest: seq<Name>, id: Name, r: nat)
    requires LayerOf(f, b, seen, rest + [id], r) && id !in seen
    ensures if r == 0 then NoneOf(SuccessorsOf(f, b), seen) else FirstOf(SuccessorsOf(f, b), seen, id)
  {
    var s, stack := SuccessorsOf(f, b), rest + [id];
    hide SuccessorsOf;
    if r > 0 {
      assert stack[|stack| - r..][r - 1] == id && Reversed(s)[..r][r - 1] == s[|s| - r];
      assert s[|s| - r] == id;
    }
  }

  // The order

  /** Block `x` may be listed after `listed`: it is the first new label of the latest block that has one. */
  ghost predicate Next(f: Function, listed: seq<Name>, x: Name) {
    exists i :: 0 <= i < |listed| && FirstNew(f, listed[i], listed, x)
      && forall k :: i < k < |listed| ==> NothingNew(f, listed[k], listed)
  }

  lemma {:induction false} LatestIsNext(f: Function, done: seq<Name>, seen: seq<Name>, x: Name) returns (i: nat)
    requires Latest(f, done, seen, x)
    ensures i < |done| && FirstNew(f, done[i], seen, x) && forall k :: i < k < |done| ==> NothingNew(f, done[k], seen)
    decreases |done|
  {
    hide FirstNew, NothingNew, SuccessorsOf, FirstOf, NoneOf;
    var b, before := done[|done| - 1], done[..|done| - 1];
    if FirstOf(SuccessorsOf(f, b), seen, x) {
      FirstSuccessor(f, b, seen, x);
      i := |done| - 1;
    } else {
      NoSuccessor(f, b, seen);
      i := LatestIsNext(f, before, seen, x);
      assert forall k :: 0 <= k < |before| ==> before[k] == done[k];
    }
  }

  ghost predicate NextFrom(f: Function, order: seq<Name>, n: nat) {
    forall k {:trigger order[..k]} :: n <= k < |order| ==> Next(f, order[..k], order[k])
  }

  lemma {:induction false} WalkInOrder(f: Function, done: seq<Name>, stack: seq<Name>)
    requires Runs(f) && WalkState(f, done, stack) && Layered(f, done, done, stack)
    ensures NextFrom(f, Walk(f, done, stack), |done|)
    decreases |LabelSet(f) - NameSet(done)|, |stack|
  {
    if stack == [] {
    } else {
      var id, rest := stack[|stack| - 1], stack[..|stack| - 1];
      LastOff(stack);
      StackTop(f, done, rest, id);
      assert Readable(f, id);
      hide Runs, WalkState, Layered, Next, SuccessorsOf, Walk;
      WalkStep(f, done, rest, id);
      if id in done {
        LayersPop(f, done, done, rest, id);
        WalkInOrder(f, done, rest);
      } else {
        var next := rest + Reversed(SuccessorsOf(f, id));
        LayersTake(f, done, rest, id);
        WalkInOrder(f, done + [id], next);
        TopLatest(f, done, done, rest, id);
        var i := LatestIsNext(f, done, done, id);
        WalkKeeps(f, done + [id], next);
        OneMoreNext(f, Walk(f, done + [id], next), done, id);
      }
    }
  }

  lemma OneMoreNext(f: Function, order: seq<Name>, done: seq<Name>, id: Name)
    requires NextFrom(f, order, |done| + 1) && done + [id] <= order && Next(f, done, id)
    ensures NextFrom(f, order, |done|)
  {
    hide Next;
    assert order[..|done|] == done && order[|done|] == id;
  }

  /** The order starts with the entry, and every block after it is the next in this sense. */
  lemma OrderDepthFirst(f: Function)
    requires Runs(f)
    ensures |Order(f)| > 0 && Order(f)[0] == Entry(f)
    ensures NextFrom(f, Order(f), 1)
    ensures forall b :: b in Order(f) ==> NothingNew(f, b, Order(f))
  {
    var e := Entry(f);
    OrderIsReached(f);
    hide NothingNew;
    forall b | b in Order(f)
      ensures NothingNew(f, b, Order(f))
    {
      NoSuccessor(f, b, Order(f));
    }
    EntryTaken(f);
    hide Runs, WalkState, Layered, Next, SuccessorsOf, Walk;
    var next := Reversed(SuccessorsOf(f, e));
    WalkInOrder(f, [e], next);
    WalkKeeps(f, [e], next);
  }

  lemma EntryTaken(f: Function)
    requires Runs(f)
    ensures var next := Reversed(SuccessorsOf(f, Entry(f)));
            && WalkState(f, [Entry(f)], next) && Layered(f, [Entry(f)], [Entry(f)], next)
            && Order(f) == Walk(f, [Entry(f)], next)
  {
    var e := Entry(f);
    EntryWaits(f);
    EntryLayer(f, e);
    hide *;
    assert [] + [e] == [e] && [] + Reversed(SuccessorsOf(f, e)) == Reversed(SuccessorsOf(f, e));
    WalkStep(f, [], [], e);
    OrderIs(f);
  }

  lemma EntryWaits(f: Function)
    requires Runs(f)
    ensures WalkState(f, [], [Entry(f)]) && Entry(f) in Labels(f)
  {
    var e := Entry(f);
    assert LabelPath(f, [e]);
    assert ReachedLabel(f, e) && e in [e];
    assert Readable(f, e);
  }

  lemma OrderIs(f: Function)
    requires |f.blocks| > 0
    ensures Order(f) == Walk(f, [], [Entry(f)])
  {
  }

  lemma EntryLayer(f: Function, e: Name)
    ensures Layered(f, [e], [e], Reversed(SuccessorsOf(f, e)))
  {
    var s, one := SuccessorsOf(f, e), [e];
    var stack := Reversed(s);
    hide SuccessorsOf, Reversed;
    assert one[..|one| - 1] == [] && one[|one| - 1] == e && stack[..|stack| - |s|] == [];
    assert stack[|stack| - |s|..] == stack && stack[..|s|] == stack;
    assert LayerOf(f, e, one, stack, |s|);
    assert Layered(f, one[..|one| - 1], one, stack[..|stack| - |s|]);
  }

  /** No other list of blocks does. */
  lemma NextUnique(f: Function, listed: seq<Name>, x: Name, y: Name)
    requires Next(f, listed, x) && Next(f, listed, y)
    ensures x == y
  {
    var i :| 0 <= i < |listed| && FirstNew(f, listed[i], listed, x)
      && forall k :: i < k < |listed| ==> NothingNew(f, listed[k], listed);
    var j :| 0 <= j < |listed| && FirstNew(f, listed[j], listed, y)
      && forall k :: j < k < |listed| ==> NothingNew(f, listed[k], listed);
    OneFirst(f, listed[i], listed, x);
    OneFirst(f, listed[j], listed, y);
    hide FirstNew, NothingNew;
    assert i == j;
    FirstsEqual(f, listed[i], listed, x, y);
  }

  lemma OneFirst(f: Function, b: Name, seen: seq<Name>, x: Name)
    requires FirstNew(f, b, seen, x)
    ensures !NothingNew(f, b, seen)
  {
    hide LastLine;
  }

  lemma FirstsEqual(f: Function, b: Name, seen: seq<Name>, x: Name, y: Name)
    requires FirstNew(f, b, seen, x) && FirstNew(f, b, seen, y)
    ensures x == y
  {
    hide LastLine;
    var j :| NewAt(LastLine(f, b), seen, j) && LastLine(f, b)[j].name == x
      && forall i :: 0 <= i < j ==> !NewAt(LastLine(f, b), seen, i);
    var k :| NewAt(LastLine(f, b), seen, k) && LastLine(f, b)[k].name == y
      && forall i :: 0 <= i < k ==> !NewAt(LastLine(f, b), seen, i);
    assert j == k;
  }
}
