/** Isomorphic functions have the same form. */
module SameForm {
  import opened Lists
  import opened Names
  import opened IrFunctions
  import opened ArmSorting
  import opened Canonical
  import opened Phis
  import opened Isomorphism

  ghost predicate AllIn(m: Bijection, s: seq<Name>) {
    forall x :: x in s ==> x in m
  }

  lemma InjectiveHat(m: Bijection, f: Function, g: Function, s: seq<Name>)
    requires IsBijection(m, f, g) && AllIn(m, s)
    ensures InjectiveOn(Hats(m).labels, s)
  {
  }

  /** The two functions, isomorphic and valid. */
  ghost predicate Pair(m: Bijection, f: Function, g: Function) {
    Isomorphic(m, f, g) && Valid(f) && Valid(g)
  }

  lemma PairIs(m: Bijection, f: Function, g: Function)
    requires Pair(m, f, g)
    ensures IsBijection(m, f, g) && Valid(f) && Valid(g) && |f.blocks| > 0 && |g.blocks| > 0
    ensures Entry(f) in m && m[Entry(f)] == Entry(g)
  {
  }

  function Mapped(m: Bijection, s: seq<Name>): seq<Name> {
    Image(Hats(m).labels, s)
  }

  // The depth-first orders correspond

  lemma {:induction false} LabelsMapped(m: Bijection, tokens: seq<Token>)
    ensures TokenLabels(RenameTokens(Hats(m), tokens)) == Mapped(m, TokenLabels(tokens))
    decreases |tokens|
  {
    if tokens == [] {
    } else {
      LabelsMapped(m, tokens[1..]);
      assert RenameTokens(Hats(m), tokens)[1..] == RenameTokens(Hats(m), tokens[1..]);
    }
  }

  lemma BodiesMatch(m: Bijection, f: Function, g: Function, b: Name)
    requires Pair(m, f, g) && ReachedLabel(f, b)
    ensures b in m && b in Labels(f) && m[b] in Labels(g) && ReachedLabel(g, m[b])
    ensures BodyMatches(m, g, BodyOf(f, b), BodyOf(g, m[b]))
    ensures BodyOf(f, b) != []
  {
    RenamedAre(f);
    RenamedAre(g);
    assert Renamed(f, b);
    assert SameKind(m, f, g, b) && BlockMatches(m, f, g, b);
    ValidBlock(f, b);
  }

  lemma SuccessorsMapped(m: Bijection, f: Function, g: Function, b: Name)
    requires Pair(m, f, g) && ReachedLabel(f, b)
    ensures b in m && SuccessorsOf(g, m[b]) == Mapped(m, SuccessorsOf(f, b)) && AllIn(m, SuccessorsOf(f, b))
  {
    hide Pair, Isomorphic, IsBijection, Valid;
    PairIs(m, f, g);
    BodiesMatch(m, f, g, b);
    ValidRuns(f);
    OrderIsReached(f);
    forall x | x in SuccessorsOf(f, b) ensures x in m {
      assert Renamed(f, x);
    }
    var s, t := BodyOf(f, b), BodyOf(g, m[b]);
    var last := |s| - 1;
    assert StmtMatches(m, s[last], t[last]);
    if s[last].Plain? {
      var labels := TokenLabels(s[last].tokens);
      LabelsMapped(m, s[last].tokens);
      OnceHas(labels);
      assert AllIn(m, labels);
      InjectiveHat(m, f, g, labels);
      OnceMapped(Hats(m).labels, labels);
    }
  }

  lemma BackwardsMapped(m: Bijection, s: seq<Name>)
    ensures Reversed(Mapped(m, s)) == Mapped(m, Reversed(s))
  {
  }

  lemma MappedIn(m: Bijection, f: Function, g: Function, s: seq<Name>, x: Name)
    requires IsBijection(m, f, g) && AllIn(m, s) && x in m
    ensures m[x] in Mapped(m, s) <==> x in s
  {
    if x in s {
      var i :| 0 <= i < |s| && s[i] == x;
      assert Mapped(m, s)[i] == m[x];
    }
  }

  lemma MappedJoin(m: Bijection, s: seq<Name>, t: seq<Name>)
    ensures Mapped(m, s + t) == Mapped(m, s) + Mapped(m, t)
  {
  }

  lemma MappedOne(m: Bijection, x: Name)
    requires x in m
    ensures Mapped(m, [x]) == [m[x]] && Mapped(m, []) == []
  {
  }

  lemma {:induction false} WalksCorrespond(m: Bijection, f: Function, g: Function, done: seq<Name>, stack: seq<Name>)
    requires Pair(m, f, g) && WalkState(f, done, stack)
    ensures Walk(g, Mapped(m, done), Mapped(m, stack)) == Mapped(m, Walk(f, done, stack))
    decreases |LabelSet(f) - NameSet(done)|, |stack|
  {
    hide Pair, Isomorphic, IsBijection, Valid, WalkState, BodyMatches, ReachedLabel, AllKnown, AllIn, Mapped,
      SuccessorsOf, Reversed, Labels;
    PairIs(m, f, g);
    MappedOne(m, Entry(f));
    if stack == [] {
    } else {
      var id, rest := stack[|stack| - 1], stack[..|stack| - 1];
      LastOff(stack);
      StackTop(f, done, rest, id);
      BodiesMatch(m, f, g, id);
      WalkStep(f, done, rest, id);
      SuccessorsMapped(m, f, g, id);
      DoneIn(m, f, g, done);
      MappedIn(m, f, g, done, id);
      MappedOne(m, id);
      MappedJoin(m, rest, [id]);
      if id in done {
        WalksCorrespond(m, f, g, done, rest);
        WalkPops(g, Mapped(m, done), Mapped(m, rest), m[id]);
      } else {
        var next := Reversed(SuccessorsOf(f, id));
        WalksCorrespond(m, f, g, done + [id], rest + next);
        BackwardsMapped(m, SuccessorsOf(f, id));
        MappedJoin(m, done, [id]);
        MappedJoin(m, rest, next);
        WalkPops(g, Mapped(m, done), Mapped(m, rest), m[id]);
      }
    }
  }

  lemma DoneIn(m: Bijection, f: Function, g: Function, done: seq<Name>)
    requires IsBijection(m, f, g) && AllKnown(f, done)
    ensures AllIn(m, done)
  {
    forall x | x in done ensures x in m {
      assert Known(f, x) && Renamed(f, x);
    }
  }

  lemma OrdersCorrespond(m: Bijection, f: Function, g: Function)
    requires Pair(m, f, g)
    ensures Order(g) == Mapped(m, Order(f))
  {
    hide Pair, Isomorphic, IsBijection, Valid;
    PairIs(m, f, g);
    EntryReached(f);
    WalksCorrespond(m, f, g, [], [Entry(f)]);
    assert Mapped(m, []) == [] && Mapped(m, [Entry(f)]) == [Entry(g)];
  }

  // So do the definitions

  lemma {:induction false} DefsMapped(m: Bijection, g: Function, s: seq<Stmt>, t: seq<Stmt>)
    requires BodyMatches(m, g, s, t)
    ensures Defs(t) == Mapped(m, Defs(s))
    decreases |s|
  {
    if s == [] {
    } else {
      var last := |s| - 1;
      assert StmtMatches(m, s[last], t[last]);
      assert BodyMatches(m, g, s[..last], t[..last]);
      DefsMapped(m, g, s[..last], t[..last]);
    }
  }

  lemma {:induction false} DefsOfMapped(m: Bijection, f: Function, g: Function, order: seq<Name>)
    requires Pair(m, f, g) && forall x :: x in order ==> ReachedLabel(f, x)
    ensures DefsOf(g, Mapped(m, order)) == Mapped(m, DefsOf(f, order))
    decreases |order|
  {
    hide Pair, Isomorphic, IsBijection, Valid, BodyMatches, ReachedLabel;
    PairIs(m, f, g);
    if order == [] {
    } else {
      var last, before := order[|order| - 1], order[..|order| - 1];
      LastOff(order);
      BodiesMatch(m, f, g, last);
      DefsMapped(m, g, BodyOf(f, last), BodyOf(g, m[last]));
      DefsOfMapped(m, f, g, before);
      MappedJoin(m, before, [last]);
      MappedJoin(m, DefsOf(f, before), Defs(BodyOf(f, last)));
      assert Mapped(m, order)[..|order| - 1] == Mapped(m, before);
    }
  }

  // So corresponding names are given the same name

  lemma MappedAt(m: Bijection, s: seq<Name>, i: nat)
    requires i < |s| && s[i] in m
    ensures i < |Mapped(m, s)| && Mapped(m, s)[i] == m[s[i]]
  {
  }

  /** Corresponding names have the same place in the lists of reached blocks and defined values. */
  lemma SamePlace(m: Bijection, f: Function, g: Function, x: Name) returns (i: nat)
    requires Pair(m, f, g) && x in m
    ensures ReachedLabel(f, x) ==>
      ReachedLabel(g, m[x]) && i < |Order(f)| && Order(f)[i] == x && i < |Order(g)| && Order(g)[i] == m[x]
    ensures !ReachedLabel(f, x) ==>
      && DefinedIn(g, m[x]) && !ReachedLabel(g, m[x])
      && i < |DefsOf(f, Order(f))| && DefsOf(f, Order(f))[i] == x
      && i < |DefsOf(g, Order(g))| && DefsOf(g, Order(g))[i] == m[x]
  {
    OrdersCorrespond(m, f, g);
    ValidRuns(f);
    OrderIsReached(f);
    DefsOfMapped(m, f, g, Order(f));
    PairIs(m, f, g);
    hide Pair, Isomorphic, Valid, BodyMatches, ReachedLabel, DefinedIn;
    assert SameKind(m, f, g, x);
    i := GivenAt(f, x);
    GivenHas(f, x);
    GivenHas(g, m[x]);
    MappedAt(m, if ReachedLabel(f, x) then Order(f) else DefsOf(f, Order(f)), i);
  }

  lemma GivenTheSame(m: Bijection, f: Function, g: Function, x: Name)
    requires Pair(m, f, g) && (x !in m ==> !Renamed(g, x))
    ensures GivenTo(g).Any(Hat(m, x)) == GivenTo(f).Any(x)
  {
    if x in m {
      var i := SamePlace(m, f, g, x);
      PlaceGiven(f, x, i);
      PlaceGiven(g, m[x], i);
    } else {
      GivenHas(f, x);
      GivenHas(g, x);
    }
  }

  lemma LabelGivenTheSame(m: Bijection, f: Function, g: Function, x: Name)
    requires Pair(m, f, g) && (x !in m ==> !Renamed(g, x)) && LegibleLabel(f, x) && LegibleLabel(g, Hat(m, x))
    ensures GivenTo(g).Label(Hat(m, x)) == GivenTo(f).Label(x)
  {
    PairIs(m, f, g);
    GivenTheSame(m, f, g, x);
    LabelOnce(f, x);
    LabelOnce(g, Hat(m, x));
  }

  lemma PlaceGiven(f: Function, x: Name, i: nat)
    requires Valid(f) && Renamed(f, x)
    requires if ReachedLabel(f, x) then i < |Order(f)| && Order(f)[i] == x
             else i < |DefsOf(f, Order(f))| && DefsOf(f, Order(f))[i] == x
    ensures GivenTo(f).Any(x) == if ReachedLabel(f, x) then BlockName(i) else ValueName(i)
  {
    GivenHas(f, x);
    RenamedAre(f);
    hide Valid, ReachedLabel, DefinedIn, Order, DefsOf;
    if ReachedLabel(f, x) {
      MapsAt(Order(f), i);
    } else {
      MapsAt(DefsOf(f, Order(f)), i);
    }
  }

  lemma RenderTheSame(m: Bijection, f: Function, g: Function, leq: (Arm, Arm) -> bool, s: Stmt, t: Stmt)
    requires Pair(m, f, g) && TotalOrder(leq) && StmtMatches(m, s, t) && Steady(m, g, s)
    requires LegibleLabels(f, s) && LegibleLabels(g, t)
    ensures Rendered(GivenTo(g), leq, t) == Rendered(GivenTo(f), leq, s)
  {
    var rf, rg := Renames(GivenTo(f)), Renames(GivenTo(g));
    NamesTheSame(m, f, g, s, t);
    hide *;
    RenderedIs(GivenTo(f), leq, s);
    RenderedIs(GivenTo(g), leq, t);
    SameShape(m, s, t);
    RenderDef(m, rf, rg, s, t);
    if s.Plain? {
      RenderPlain(m, rf, rg, s, t);
    } else {
      RenderKind(m, rf, rg, s);
      RenderArms(m, rf, rg, leq, s, t);
    }
  }

  /** On pieces all of whose names are names of `s`. */
  lemma RenderPieces(m: Bijection, rf: Renaming, rg: Renaming, s: Stmt, pieces: seq<Piece>)
    requires SameNames(m, rf, rg, s) && forall x :: Named(x) in pieces ==> StmtNames(s, x)
    ensures RenamePieces(rg, RenamePieces(Hats(m), pieces)) == RenamePieces(rf, pieces)
  {
    hide StmtNames, LabelIn;
    forall i | 0 <= i < |pieces|
      ensures RenamePiece(rg, RenamePiece(Hats(m), pieces[i])) == RenamePiece(rf, pieces[i])
    {
      assert pieces[i].Named? ==> Named(pieces[i].name) in pieces;
    }
  }

  lemma RenderKind(m: Bijection, rf: Renaming, rg: Renaming, s: Stmt)
    requires SameNames(m, rf, rg, s) && s.Phi?
    ensures RenamePieces(rg, RenamePieces(Hats(m), s.kind)) == RenamePieces(rf, s.kind)
  {
    RenderPieces(m, rf, rg, s, s.kind);
  }

  lemma NamesTheSame(m: Bijection, f: Function, g: Function, s: Stmt, t: Stmt)
    requires Pair(m, f, g) && StmtMatches(m, s, t) && Steady(m, g, s)
    requires LegibleLabels(f, s) && LegibleLabels(g, t)
    ensures SameNames(m, Renames(GivenTo(f)), Renames(GivenTo(g)), s)
  {
    var rf, rg := Renames(GivenTo(f)), Renames(GivenTo(g));
    PairIs(m, f, g);
    hide Pair, Valid, IsBijection, Renamed, LegibleLabel, StmtMatches;
    forall x | StmtNames(s, x) ensures rg.others(Hat(m, x)) == rf.others(x) {
      GivenTheSame(m, f, g, x);
    }
    forall x | LabelIn(s, x) ensures rg.labels(Hat(m, x)) == rf.labels(x) {
      LabelIsNamed(s, x);
      LabelMatches(m, s, t, x);
      LabelGivenTheSame(m, f, g, x);
    }
  }

  lemma LabelIsNamed(s: Stmt, x: Name)
    requires LabelIn(s, x)
    ensures StmtNames(s, x)
  {
    if s.Plain? {
      var i :| 0 <= i < |s.tokens| && s.tokens[i] == LabelRef(x);
      assert TokenNames(s.tokens[i], x);
    } else {
      var i :| 0 <= i < |s.arms| && s.arms[i].block == x && LabelPlace(s.arms[i]);
      assert ArmNames(s.arms[i], x);
    }
  }

  lemma LabelMatches(m: Bijection, s: Stmt, t: Stmt, x: Name)
    requires StmtMatches(m, s, t) && LabelIn(s, x)
    ensures LabelIn(t, Hat(m, x))
  {
    if s.Plain? {
      var i :| 0 <= i < |s.tokens| && s.tokens[i] == LabelRef(x);
      assert t.tokens[i] == RenameToken(Hats(m), s.tokens[i]);
    } else {
      var i :| 0 <= i < |s.arms| && s.arms[i].block == x && LabelPlace(s.arms[i]);
      var hat := RenameArms(Hats(m), s.arms);
      PlaceKept(Hats(m), s.arms[i]);
      hide LabelPlace;
      assert hat[i] in multiset(t.arms);
      var k :| 0 <= k < |t.arms| && t.arms[k] == hat[i];
    }
  }

  lemma SameShape(m: Bijection, s: Stmt, t: Stmt)
    requires StmtMatches(m, s, t)
    ensures (s.Plain? <==> t.Plain?) && (s.Phi? ==> t.Phi? && t.kind == RenamePieces(Hats(m), s.kind))
  {
  }

  /** On the names of `s`, renaming after `m` is renaming. */
  ghost predicate SameNames(m: Bijection, rf: Renaming, rg: Renaming, s: Stmt) {
    && (forall x :: StmtNames(s, x) ==> rg.others(Hat(m, x)) == rf.others(x))
    && (forall x :: LabelIn(s, x) ==> rg.labels(Hat(m, x)) == rf.labels(x))
  }

  lemma RenderDef(m: Bijection, rf: Renaming, rg: Renaming, s: Stmt, t: Stmt)
    requires SameNames(m, rf, rg, s) && StmtMatches(m, s, t)
    ensures RenameDef(rg, t.def) == RenameDef(rf, s.def)
  {
    assert s.def.Defines? ==> StmtNames(s, s.def.name);
  }

  lemma RenderPlain(m: Bijection, rf: Renaming, rg: Renaming, s: Stmt, t: Stmt)
    requires SameNames(m, rf, rg, s) && StmtMatches(m, s, t) && s.Plain?
    ensures RenameTokens(rg, t.tokens) == RenameTokens(rf, s.tokens)
  {
    forall i | 0 <= i < |s.tokens| ensures RenameToken(rg, t.tokens[i]) == RenameToken(rf, s.tokens[i]) {
      assert !s.tokens[i].Text? ==> TokenNames(s.tokens[i], s.tokens[i].name) && StmtNames(s, s.tokens[i].name);
      assert s.tokens[i].LabelRef? ==> LabelIn(s, s.tokens[i].name);
    }
  }

  lemma RenderArms(m: Bijection, rf: Renaming, rg: Renaming, leq: (Arm, Arm) -> bool, s: Stmt, t: Stmt)
    requires SameNames(m, rf, rg, s) && StmtMatches(m, s, t) && s.Phi? && TotalOrder(leq)
    ensures Sorted(leq, Found(RenameArms(rg, t.arms))) == Sorted(leq, Found(RenameArms(rf, s.arms)))
  {
    var hat := RenameArms(Hats(m), s.arms);
    forall i | 0 <= i < |s.arms| ensures RenameArm(rg, hat[i]) == RenameArm(rf, s.arms[i]) {
      ArmRenderedTheSame(m, rf, rg, s, i);
    }
    hide RenameArm, TotalOrder, Sorted, SameNames, Found, StmtMatches;
    assert RenameArms(rg, hat) == RenameArms(rf, s.arms);
    MatchedArms(m, s, t);
    MappedSame(a => RenameArm(rg, a), t.arms, hat);
    FoundSame(RenameArms(rg, t.arms), RenameArms(rf, s.arms));
    SortedEqual(leq, Found(RenameArms(rg, t.arms)), Found(RenameArms(rf, s.arms)));
  }

  lemma MatchedArms(m: Bijection, s: Stmt, t: Stmt)
    requires StmtMatches(m, s, t) && s.Phi?
    ensures t.Phi? && multiset(t.arms) == multiset(RenameArms(Hats(m), s.arms))
  {
  }

  lemma ArmRenderedTheSame(m: Bijection, rf: Renaming, rg: Renaming, s: Stmt, i: nat)
    requires SameNames(m, rf, rg, s) && s.Phi? && i < |s.arms|
    ensures RenameArm(rg, RenameArm(Hats(m), s.arms[i])) == RenameArm(rf, s.arms[i])
  {
    var a := s.arms[i];
    forall x | ArmNames(a, x)
      ensures StmtNames(s, x)
    {
    }
    assert ArmNames(a, a.block);
    assert LabelPlace(a) ==> LabelIn(s, a.block);
    hide StmtNames, LabelIn, LabelPlace;
    PlaceKept(Hats(m), a);
    RenderPieces(m, rf, rg, s, a.operand);
  }

  ghost predicate AllLegibleLabels(f: Function, body: seq<Stmt>)
    requires |f.blocks| > 0
  {
    forall k :: 0 <= k < |body| ==> LegibleLabels(f, body[k])
  }

  lemma BodyTheSame(m: Bijection, f: Function, g: Function, leq: (Arm, Arm) -> bool, s: seq<Stmt>, t: seq<Stmt>)
    requires Pair(m, f, g) && TotalOrder(leq) && BodyMatches(m, g, s, t)
    requires AllLegibleLabels(f, s) && AllLegibleLabels(g, t)
    ensures RenderedBody(GivenTo(f), leq, s) == RenderedBody(GivenTo(g), leq, t)
  {
    hide Pair, StmtMatches, Steady, Rendered, Isomorphic, Valid, LegibleLabels;
    PairIs(m, f, g);
    forall k | 0 <= k < |s|
      ensures Rendered(GivenTo(f), leq, s[k]) == Rendered(GivenTo(g), leq, t[k])
    {
      RenderTheSame(m, f, g, leq, s[k], t[k]);
    }
  }

  lemma LegibleBody(f: Function, b: Name)
    requires |f.blocks| > 0 && LabelsLegible(f) && ReachedLabel(f, b) && b in Labels(f)
    ensures AllLegibleLabels(f, BodyOf(f, b))
  {
    hide ReachedLabel, LegibleLabels;
    forall k | 0 <= k < |BodyOf(f, b)|
      ensures LegibleLabels(f, BodyOf(f, b)[k])
    {
      assert Shown(f, b, k);
    }
  }

  lemma BlockTheSame(m: Bijection, f: Function, g: Function, leq: (Arm, Arm) -> bool, b: Name)
    requires Pair(m, f, g) && TotalOrder(leq) && ReachedLabel(f, b) && |f.blocks| > 0 && |g.blocks| > 0
    requires LabelsLegible(f) && LabelsLegible(g)
    ensures b in m
    ensures RenderedBlock(f, GivenTo(f), leq, b) == RenderedBlock(g, GivenTo(g), leq, m[b])
  {
    BodiesMatch(m, f, g, b);
    LegibleBody(f, b);
    LegibleBody(g, m[b]);
    hide Pair, GivenTo, BodyMatches, ReachedLabel, AllLegibleLabels, LabelsLegible;
    BodyTheSame(m, f, g, leq, BodyOf(f, b), BodyOf(g, m[b]));
  }

  /** Isomorphic functions in which no label is renamed twice have equal forms. */
  lemma IsomorphicSameForm(m: Bijection, f: Function, g: Function, leq: (Arm, Arm) -> bool)
    requires Pair(m, f, g) && TotalOrder(leq) && |f.blocks| > 0 && |g.blocks| > 0
    requires LabelsLegible(f) && LabelsLegible(g)
    ensures FormOf(f, leq) == FormOf(g, leq)
  {
    hide Pair, Isomorphic, IsBijection, Valid, LabelsLegible, GivenTo, Order, RenderedBlock, ReachedLabel, TotalOrder;
    PairIs(m, f, g);
    OrdersCorrespond(m, f, g);
    ValidRuns(f);
    OrderIsReached(f);
    var bf, bg := RenderedBlocks(f, GivenTo(f), leq, Order(f)), RenderedBlocks(g, GivenTo(g), leq, Order(g));
    forall i | 0 <= i < |Order(f)|
      ensures bf[i] == bg[i]
    {
      assert Order(f)[i] in Order(f);
      BlockTheSame(m, f, g, leq, Order(f)[i]);
    }
    assert bf == bg;
  }
}
