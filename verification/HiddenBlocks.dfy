/** Blocks that control reaches and the form does not show: whatever they do, the form is the same. */
module HiddenBlocks {
  import opened Lists
  import opened Names
  import opened IrFunctions
  import opened ArmSorting
  import opened Canonical
  import opened Isomorphism
  import opened FormDecides
  import opened FormLimits
  import opened Terminators

  /** Every label on a line of a listed block names a block. */
  ghost predicate Linked(f: Function)
    requires |f.blocks| > 0
  {
    forall b, x :: b in Order(f) && GoesTo(f, b, x) ==> x in Labels(f)
  }

  // A line more in a block that is not listed

  const EXTRA := Plain(NoValue, [Text("extra")])

  function Longer(f: Function, c: Name): Function
    requires c in Labels(f)
  {
    WithBody(f, c, [EXTRA] + BodyOf(f, c))
  }

  lemma {:induction false} ExtraDefs(body: seq<Stmt>)
    ensures Defs([EXTRA] + body) == Defs(body)
    decreases |body|
  {
    if body == [] {
      assert ([EXTRA] + body)[..0] == [];
    } else {
      var last := |body| - 1;
      assert ([EXTRA] + body)[..last + 1] == [EXTRA] + body[..last];
      ExtraDefs(body[..last]);
    }
  }

  lemma LongerSkeleton(f: Function, c: Name)
    requires Valid(f) && c in Labels(f)
    ensures SameSkeleton(f, Longer(f, c)) && Valid(Longer(f, c)) && Entry(Longer(f, c)) == Entry(f)
  {
    ValidBlock(f, c);
    ExtraDefs(BodyOf(f, c));
    assert BodySuccessors([EXTRA] + BodyOf(f, c)) == BodySuccessors(BodyOf(f, c));
    hide Valid, BodySuccessors;
    BodySkeleton(f, c, [EXTRA] + BodyOf(f, c));
  }

  /** Every other block stays as it is. */
  lemma OthersStay(f: Function, c: Name, b: Name)
    requires Valid(f) && c in Labels(f) && b != c
    ensures b in Labels(f) <==> b in Labels(Longer(f, c))
    ensures b in Labels(f) && b in Labels(Longer(f, c)) ==> BodyOf(Longer(f, c), b) == BodyOf(f, b)
  {
    hide BlockValid;
    WithBodyIs(f, c, [EXTRA] + BodyOf(f, c));
  }

  lemma LongerForm(f: Function, c: Name, leq: (Arm, Arm) -> bool)
    requires Valid(f) && c in Labels(f) && c !in Order(f)
    ensures FormOf(f, leq) == FormOf(Longer(f, c), leq)
  {
    var g := Longer(f, c);
    LongerSkeleton(f, c);
    GivenSame(f, g);
    forall i | 0 <= i < |Order(f)|
      ensures RenderedBlock(f, GivenTo(f), leq, Order(f)[i]) == RenderedBlock(g, GivenTo(f), leq, Order(f)[i])
    {
      assert Order(f)[i] in Order(f);
      hide Valid, Order, GivenTo, Longer;
      OthersStay(f, c, Order(f)[i]);
    }
    hide Valid, Order, GivenTo, Longer, RenderedBlock, SameSkeleton;
    assert RenderedBlocks(f, GivenTo(f), leq, Order(f)) == RenderedBlocks(g, GivenTo(g), leq, Order(g));
  }

  /** Functions of one skeleton find the same names legible. */
  lemma LegibleSame(f: Function, g: Function, x: Name)
    requires Valid(f) && Valid(g) && SameSkeleton(f, g) && Entry(f) == Entry(g) && |f.blocks| > 0 && |g.blocks| > 0
    ensures (LegibleName(f, x) <==> LegibleName(g, x)) && (LegibleLabel(f, x) <==> LegibleLabel(g, x))
  {
    ReachedSame(f, g);
    GivenSame(f, g);
    hide Valid, SameSkeleton, Order, DefsOf, GivenTo, ReachedLabel, Renamed;
  }

  lemma LongerLine(f: Function, c: Name, b: Name, k: nat)
    requires Valid(f) && c in Labels(f) && c !in Order(f) && Shown(Longer(f, c), b, k)
    ensures Shown(f, b, k) && BodyOf(f, b)[k] == BodyOf(Longer(f, c), b)[k]
  {
    LongerSkeleton(f, c);
    ReachedSame(f, Longer(f, c));
    hide Valid, SameSkeleton, Order, ReachedLabel, Longer;
    ReachedOther(f, c, b);
    OthersStay(f, c, b);
  }

  lemma LongerLegible(f: Function, c: Name)
    requires Valid(f) && c in Labels(f) && c !in Order(f) && Legible(f) && |Longer(f, c).blocks| > 0
    ensures Legible(Longer(f, c))
  {
    var g := Longer(f, c);
    LongerSkeleton(f, c);
    hide Valid, SameSkeleton, Order, ReachedLabel, Longer, LegibleName, LegibleLabel, StmtNames, LabelIn;
    forall x
      ensures (LegibleName(f, x) <==> LegibleName(g, x)) && (LegibleLabel(f, x) <==> LegibleLabel(g, x))
    {
      LegibleSame(f, g, x);
    }
    forall b, k
      ensures LineLegible(g, b, k)
    {
      if Shown(g, b, k) {
        LongerLine(f, c, b, k);
        assert LineLegible(f, b, k);
      }
    }
  }

  lemma ReachedOther(f: Function, c: Name, b: Name)
    requires Valid(f) && c !in Order(f) && ReachedLabel(f, b)
    ensures b != c && b in Labels(f)
  {
    RenamedAre(f);
  }

  // It is not the same

  /** A label on a line that is the same in both functions stays. */
  lemma LabelFixed(m: Bijection, f: Function, g: Function, b: Name, x: Name)
    requires ControlIsomorphic(m, f, g) && ControlReached(f, b) && b in m && m[b] == b && GoesTo(f, b, x)
    requires b in Labels(g) && BodyOf(g, b) == BodyOf(f, b)
    ensures x in m && m[x] == x
  {
    hide ControlIsomorphic, ControlReached, Labels, BodyOf, LeadsTo;
    BodiesOver(m, f, g, b);
    var s := BodyOf(f, b);
    var k :| 0 <= k < |s| && LeadsTo(s[k], x);
    LineFixed(m, s[k], x);
    ControlStep(f, b, x);
    ControlledMapped(m, f, g, x);
  }

  lemma LineFixed(m: Bijection, s: Stmt, x: Name)
    requires StmtMatches(m, s, s) && LeadsTo(s, x)
    ensures Hat(m, x) == x
  {
    var j :| 0 <= j < |s.tokens| && s.tokens[j] == LabelRef(x);
    assert s.tokens[j] == RenameToken(Hats(m), s.tokens[j]);
  }

  lemma {:induction false} ListedFixed(m: Bijection, f: Function, c: Name, p: seq<Name>)
    requires Valid(f) && c in Labels(f) && c !in Order(f) && ControlIsomorphic(m, f, Longer(f, c)) && LabelPath(f, p)
    ensures p[|p| - 1] in m && m[p[|p| - 1]] == p[|p| - 1]
    decreases |p|
  {
    hide *;
    PathIs(f, p);
    if |p| == 1 {
      LongerSkeleton(f, c);
      EntryOver(m, f, Longer(f, c));
    } else {
      var b := p[|p| - 2];
      ListedFixed(m, f, c, p[..|p| - 1]);
      ListedControlled(f, p[..|p| - 1]);
      SuccessorGoes(f, b, p[|p| - 1]);
      ReachedOther(f, c, b);
      OthersStay(f, c, b);
      LabelFixed(m, f, Longer(f, c), b, p[|p| - 1]);
    }
  }

  lemma LongerApart(m: Bijection, f: Function, b: Name, c: Name)
    requires Valid(f) && b in Order(f) && GoesTo(f, b, c) && c in Labels(f) && c !in Order(f)
    ensures !ControlIsomorphic(m, f, Longer(f, c))
  {
    var g := Longer(f, c);
    RenamedAre(f);
    var p :| LabelPath(f, p) && p[|p| - 1] == b;
    ListedControlled(f, p);
    if ControlIsomorphic(m, f, g) {
      ListedFixed(m, f, c, p);
      hide *;
      ReachedOther(f, c, b);
      OthersStay(f, c, b);
      LabelFixed(m, f, g, b, c);
      ControlStep(f, b, c);
      LongerBody(f, c);
      BodiesOver(m, f, g, c);
    }
  }

  lemma LongerBody(f: Function, c: Name)
    requires Valid(f) && c in Labels(f)
    ensures c in Labels(Longer(f, c)) && |BodyOf(Longer(f, c), c)| == |BodyOf(f, c)| + 1
  {
    hide BlockValid;
    WithBodyIs(f, c, [EXTRA] + BodyOf(f, c));
  }

  /**
   * A block that a listed one leads to and that is not listed: a function with another body there has the same form.
   */
  lemma HiddenBlockConfuses(f: Function, b: Name, c: Name, leq: (Arm, Arm) -> bool) returns (g: Function)
    requires Valid(f) && b in Order(f) && GoesTo(f, b, c) && c in Labels(f) && c !in Order(f)
    ensures Valid(g) && (Legible(f) ==> Legible(g))
    ensures FormOf(f, leq) == FormOf(g, leq) && !exists m :: ControlIsomorphic(m, f, g)
  {
    g := Longer(f, c);
    LongerSkeleton(f, c);
    LongerForm(f, c, leq);
    hide Valid, GoesTo, Order, ControlIsomorphic, Legible, FormOf, Longer, SameSkeleton;
    BlocksPresent(g, g);
    if Legible(f) { LongerLegible(f, c); }
    forall m
      ensures !ControlIsomorphic(m, f, g)
    {
      LongerApart(m, f, b, c);
    }
  }

  /** Equality of forms tells whether the functions are the same in all that control reaches. */
  ghost predicate ControlDecided(f: Function, g: Function, leq: (Arm, Arm) -> bool) {
    FormOf(f, leq) == FormOf(g, leq) <==> exists m :: ControlIsomorphic(m, f, g)
  }

  /**
   * The exact condition: a legible function is told from every other that differs in a block control reaches, if and
   * only if every label of a listed block is listed.
   */
  lemma WholeIffDecided(f: Function, leq: (Arm, Arm) -> bool)
    requires Valid(f) && Legible(f) && Linked(f) && TotalOrder(leq)
    ensures Whole(f) <==> forall g :: Valid(g) && Legible(g) ==> ControlDecided(f, g, leq)
  {
    BlocksPresent(f, f);
    hide Valid, Legible, ControlDecided, TotalOrder, Order, GoesTo;
    if Whole(f) {
      forall g | Valid(g) && Legible(g)
        ensures ControlDecided(f, g, leq)
      {
        WholeDecided(f, g, leq);
      }
    } else {
      var b, c :| b in Order(f) && GoesTo(f, b, c) && c !in Order(f);
      var g := HiddenBlockConfuses(f, b, c, leq);
      Undecided(f, g, leq);
    }
  }

  lemma WholeDecided(f: Function, g: Function, leq: (Arm, Arm) -> bool)
    requires Valid(f) && Valid(g) && Legible(f) && Legible(g) && Whole(f) && TotalOrder(leq)
    ensures ControlDecided(f, g, leq)
  {
    hide Valid, Legible, Whole, TotalOrder, FormOf, ControlIsomorphic;
    FormDecidesControl(f, g, leq);
  }

  lemma Undecided(f: Function, g: Function, leq: (Arm, Arm) -> bool)
    requires FormOf(f, leq) == FormOf(g, leq) && !exists m :: ControlIsomorphic(m, f, g)
    ensures !ControlDecided(f, g, leq)
  {
    hide FormOf, ControlIsomorphic;
  }

  // A switch

  const CASE: Name := Name("case")
  const OTHER: Name := Name("other")

  const RETURN := [Plain(NoValue, [Text("ret void")])]

  /**
   * A switch as it is printed: its default on the first line, a case on each of the next, and a last line without
   * labels.
   */
  const SWITCH := [
    Plain(NoValue, [Text("switch i8 0, "), LabelRef(OTHER), Text(" [")]),
    Plain(NoValue, [Text("i8 1, "), LabelRef(CASE)]),
    Plain(NoValue, [Text("]")])
  ]

  const SWITCHING := Function([Block(E, SWITCH), Block(CASE, RETURN), Block(OTHER, RETURN)])

  lemma SwitchingLabels()
    ensures Labels(SWITCHING) == [E, CASE, OTHER] && Distinct(Labels(SWITCHING))
    ensures BodyOf(SWITCHING, E) == SWITCH && BodyOf(SWITCHING, CASE) == RETURN && BodyOf(SWITCHING, OTHER) == RETURN
  {
    assert E.text[0] == 'e' && CASE.text[0] == 'c' && OTHER.text[0] == 'o';
    assert Labels(SWITCHING) == [E, CASE, OTHER];
    IndexOfAt(Labels(SWITCHING), 0);
    IndexOfAt(Labels(SWITCHING), 1);
    IndexOfAt(Labels(SWITCHING), 2);
  }

  lemma {:induction false} NoDefsIn(body: seq<Stmt>)
    requires forall k :: 0 <= k < |body| ==> body[k].def == NoValue
    ensures Defs(body) == []
    decreases |body|
  {
    if body == [] {
    } else {
      NoDefsIn(body[..|body| - 1]);
    }
  }

  lemma SwitchingBodies()
    ensures BodySuccessors(SWITCH) == [] && BodySuccessors(RETURN) == [] && Defs(SWITCH) == [] && Defs(RETURN) == []
  {
    NoLabels(SWITCH[2].tokens);
    NoLabels(RETURN[0].tokens);
    NoDefsIn(SWITCH);
    NoDefsIn(RETURN);
  }

  lemma SwitchingIs()
    ensures Valid(SWITCHING) && Order(SWITCHING) == [E]
    ensures CASE in Labels(SWITCHING) && GoesTo(SWITCHING, E, CASE)
  {
    SwitchingLabels();
    SwitchingBodies();
    hide BodySuccessors, Defs, BodyOf, Labels, Order, Walk;
    assert LeadsTo(SWITCH[1], CASE) by {
      assert SWITCH[1].tokens[1] == LabelRef(CASE);
    }
    assert forall b :: b in Labels(SWITCHING) ==> BlockValid(SWITCHING, b);
    OneBlockOrder(SWITCHING);
  }

  /** The form of a function that ends its entry with a switch shows the entry alone: what a case does is not in it. */
  lemma SwitchHidesCases(leq: (Arm, Arm) -> bool)
    ensures CASE in Labels(SWITCHING)
    ensures var f, g := SWITCHING, Longer(SWITCHING, CASE);
            && Valid(f) && Valid(g) && Order(f) == [E] && ControlReached(f, CASE)
            && FormOf(f, leq) == FormOf(g, leq) && !exists m :: ControlIsomorphic(m, f, g)
  {
    var f := SWITCHING;
    SwitchingIs();
    SwitchNames();
    hide *;
    LongerSkeleton(f, CASE);
    LongerForm(f, CASE, leq);
    ValidRuns(f);
    ShownIffWhole(f);
    ControlStep(f, E, CASE);
    forall m
      ensures !ControlIsomorphic(m, f, Longer(f, CASE))
    {
      LongerApart(m, f, E, CASE);
    }
  }

  lemma SwitchNames()
    ensures CASE !in [E] && E in [E]
  {
    assert E.text[0] == 'e' && CASE.text[0] == 'c';
  }
}
