/**
 * What `canonical` drops of a phi: every word of its type after the first, and each arm whose operand has a bracket.
 * Functions that differ in those alone have the same form.
 */
module DroppedText {
  import opened Lists
  import opened Names
  import opened IrFunctions
  import opened Canonical
  import opened Phis
  import opened Isomorphism
  import opened FormLimits
  import opened KeptNames

  // The line without what is dropped

  function Cut(s: Stmt): Stmt {
    if s.Phi? then Phi(s.def, s.kind, [], Found(s.arms)) else s
  }

  lemma CutRendered(given: Given, leq: (Arm, Arm) -> bool, s: Stmt)
    ensures Rendered(given, leq, Cut(s)) == Rendered(given, leq, s)
  {
    if s.Phi? {
      var r := Renames(given);
      hide Rendered, Found;
      RenderedIs(given, leq, s);
      RenderedIs(given, leq, Cut(s));
      FoundRenamed(r, Found(s.arms));
      FoundRenamed(r, s.arms);
      FoundAgain(s.arms);
    }
  }

  /** A line that loses something is no longer as long. */
  lemma CutApart(m: Bijection, s: Stmt)
    requires !InFull(s)
    ensures !StmtMatches(m, s, Cut(s))
  {
    if s.rest == [] {
      var i :| 0 <= i < |s.arms| && Bracketed(s.arms[i]);
      FoundFewer(s.arms, i);
      var hat := RenameArms(Hats(m), s.arms);
      hide Found, Bracketed;
      assert |hat| == |multiset(hat)| && |Found(s.arms)| == |multiset(Found(s.arms))|;
    } else {
      assert |RenamePieces(Hats(m), s.rest)| == |s.rest|;
    }
  }

  lemma CutNames(s: Stmt, x: Name)
    ensures StmtNames(Cut(s), x) ==> StmtNames(s, x)
    ensures LabelIn(Cut(s), x) ==> LabelIn(s, x)
  {
    if s.Phi? {
      var t := Cut(s);
      forall j: nat | j < |t.arms|
        ensures exists i :: 0 <= i < |s.arms| && s.arms[i] == t.arms[j]
      {
        var i := FoundFrom(s.arms, j);
      }
      hide Found, LabelPlace, Bracketed;
    }
  }

  // No worse

  /** The names and labels of the line were there before. */
  ghost predicate LineLess(f: Function, g: Function, c: Name, j: int) {
    Shown(g, c, j) ==>
      && Shown(f, c, j)
      && (forall z :: StmtNames(BodyOf(g, c)[j], z) ==> StmtNames(BodyOf(f, c)[j], z))
      && (forall z :: LabelIn(BodyOf(g, c)[j], z) ==> LabelIn(BodyOf(f, c)[j], z))
  }

  lemma CutLine(f: Function, b: Name, k: nat, c: Name, j: int)
    requires Shown(f, b, k) && Distinct(Labels(f))
    requires ReachedLabel(WithLine(f, b, k, Cut(BodyOf(f, b)[k])), c) ==> ReachedLabel(f, c)
    ensures LineLess(f, WithLine(f, b, k, Cut(BodyOf(f, b)[k])), c, j)
  {
    WithBodyIs(f, b, BodyOf(f, b)[k := Cut(BodyOf(f, b)[k])]);
    forall z
      ensures StmtNames(Cut(BodyOf(f, b)[k]), z) ==> StmtNames(BodyOf(f, b)[k], z)
      ensures LabelIn(Cut(BodyOf(f, b)[k]), z) ==> LabelIn(BodyOf(f, b)[k], z)
    {
      CutNames(BodyOf(f, b)[k], z);
    }
    hide WithBody, Cut, ReachedLabel, StmtNames, LabelIn, Labels, BodyOf;
  }

  lemma LessLabels(f: Function, g: Function)
    requires |f.blocks| > 0 && |g.blocks| > 0 && LabelsLegible(f) && GivenTo(f) == GivenTo(g)
    requires (forall x :: ReachedLabel(g, x) ==> ReachedLabel(f, x)) && forall c, j :: LineLess(f, g, c, j)
    ensures LabelsLegible(g)
  {
    hide GivenTo, ReachedLabel, LabelIn, StmtNames, BodyOf, Labels;
    forall c, j, z | Shown(g, c, j) && LabelIn(BodyOf(g, c)[j], z)
      ensures LegibleLabel(g, z)
    {
      assert LineLess(f, g, c, j);
      assert LegibleLabel(f, z);
    }
  }

  lemma LessMistakes(f: Function, g: Function)
    requires |f.blocks| > 0 && |g.blocks| > 0 && Order(f) == Order(g) && DefsOf(f, Order(f)) == DefsOf(g, Order(g))
    requires (forall x :: Renamed(f, x) <==> Renamed(g, x)) && forall c, j :: LineLess(f, g, c, j)
    ensures forall x :: Mistaken(g, x) ==> Mistaken(f, x)
  {
    hide Order, DefsOf, Renamed, ReachedLabel, LabelIn, StmtNames, BodyOf, Labels;
    forall z | Mistaken(g, z)
      ensures Mistaken(f, z)
    {
      var c, j :| Shown(g, c, j) && StmtNames(BodyOf(g, c)[j], z) && !LegibleName(g, z);
      assert LineLess(f, g, c, j);
    }
  }

  lemma CutNoWorse(f: Function, g: Function, b: Name, k: nat)
    requires Valid(f) && Valid(g) && Shown(f, b, k) && !InFull(BodyOf(f, b)[k]) && LabelsLegible(f)
    requires g == WithLine(f, b, k, Cut(BodyOf(f, b)[k])) && SameSkeleton(f, g) && Entry(f) == Entry(g)
    ensures NoWorse(f, g)
  {
    GivenSame(f, g);
    ReachedSame(f, g);
    forall c, j
      ensures LineLess(f, g, c, j)
    {
      CutLine(f, b, k, c, j);
    }
    assert !AllInFull(f);
    hide *;
    LessLabels(f, g);
    LessMistakes(f, g);
    NoWorseIs(f, g);
  }

  // It is not the same

  lemma CutRole(f: Function, b: Name, k: nat)
    requires b in Labels(f) && k < |BodyOf(f, b)| && BodyOf(f, b)[k].Phi?
    ensures SameRole(f, b, k, Cut(BodyOf(f, b)[k]))
  {
  }

  lemma CutNotSame(m: Bijection, f: Function, g: Function, b: Name, k: nat)
    requires Valid(f) && Valid(g) && Shown(f, b, k) && !InFull(BodyOf(f, b)[k])
    requires g == WithLine(f, b, k, Cut(BodyOf(f, b)[k])) && SameSkeleton(f, g) && Entry(f) == Entry(g)
    ensures !Isomorphic(m, f, g)
  {
    WithBodyIs(f, b, BodyOf(f, b)[k := Cut(BodyOf(f, b)[k])]);
    CutApart(m, BodyOf(f, b)[k]);
    hide Valid, Cut, Isomorphic, SameSkeleton, InFull, StmtMatches, WithBody, ReachedLabel;
    if Isomorphic(m, f, g) {
      SameLines(m, f, g, b, k);
    }
  }

  /** Cutting one shown line: the form stays, and no bijection maps one function to the other. */
  lemma CutKeepsForm(f: Function, leq: (Arm, Arm) -> bool, b: Name, k: nat)
    requires Valid(f) && Shown(f, b, k) && !InFull(BodyOf(f, b)[k])
    ensures var g := WithLine(f, b, k, Cut(BodyOf(f, b)[k]));
            && |f.blocks| > 0 && Valid(g) && SameSkeleton(f, g) && Entry(f) == Entry(g)
            && FormOf(g, leq) == FormOf(f, leq) && forall m :: !Isomorphic(m, f, g)
  {
    var t := Cut(BodyOf(f, b)[k]);
    assert BodyOf(f, b)[k].Phi?;
    CutRole(f, b, k);
    hide Valid, InFull, Cut, Rendered, Isomorphic, SameRole, FormOf, SameSkeleton;
    RenamedAre(f);
    var g := WithLine(f, b, k, t);
    SkeletonKept(f, b, k, t);
    CutRendered(GivenTo(f), leq, BodyOf(f, b)[k]);
    FormKept(f, b, k, t, leq);
    forall m
      ensures !Isomorphic(m, f, g)
    {
      CutNotSame(m, f, g, b, k);
    }
  }

  /**
   * Every function that shows a phi with a second word to its type, or an arm with a bracket in its operand: without
   * them it has the same form and is not isomorphic.
   */
  lemma DroppedConfuses(f: Function, leq: (Arm, Arm) -> bool, b: Name, k: nat) returns (g: Function)
    requires Valid(f) && Shown(f, b, k) && !InFull(BodyOf(f, b)[k])
    ensures Valid(g) && |f.blocks| > 0 && (LabelsLegible(f) ==> NoWorse(f, g))
    ensures FormOf(g, leq) == FormOf(f, leq) && forall m :: !Isomorphic(m, f, g)
  {
    CutKeepsForm(f, leq, b, k);
    g := WithLine(f, b, k, Cut(BodyOf(f, b)[k]));
    hide Valid, InFull, Cut, Isomorphic, FormOf, LabelsLegible, NoWorse, SameSkeleton, WithLine;
    if LabelsLegible(f) { CutNoWorse(f, g, b, k); }
  }

  // An address space

  const LOOP: Name := Name("loop")

  /** `%x = phi ptr`, then `rest`, with one arm, in the block after the entry. */
  function Pointers(rest: seq<Piece>): Function {
    Function([
      Block(E, [Plain(NoValue, [Text("br "), LabelRef(LOOP)])]),
      Block(LOOP, [
        Phi(Defines(X), [Words("ptr")], rest, [Arm([Words("null")], E)]),
        Plain(NoValue, [Text("ret void")])])])
  }

  lemma PointerNames()
    ensures E != LOOP && X != LOOP && X != E
  {
    assert E.text[0] == 'e' && LOOP.text[0] == 'l' && X.text[0] == 'x';
  }

  lemma PointersLabels(rest: seq<Piece>)
    ensures var f := Pointers(rest);
            && Labels(f) == [E, LOOP] && Distinct(Labels(f))
            && BodyOf(f, E) == f.blocks[0].body && BodyOf(f, LOOP) == f.blocks[1].body
            && IndexOf(Labels(f), LOOP) == 1
  {
    var f := Pointers(rest);
    PointerNames();
    assert Labels(f) == [E, LOOP];
    IndexOfAt(Labels(f), 0);
    IndexOfAt(Labels(f), 1);
  }

  lemma PointersBodies(rest: seq<Piece>)
    ensures var f := Pointers(rest);
            && BodySuccessors(f.blocks[0].body) == [LOOP] && BodySuccessors(f.blocks[1].body) == []
            && Defs(f.blocks[0].body) == [] && Defs(f.blocks[1].body) == [X]
  {
    var first, second := Pointers(rest).blocks[0].body, Pointers(rest).blocks[1].body;
    assert first[..0] == [];
    assert second[..1] == [second[0]] && [second[0]][..0] == [];
    NoLabels(second[1].tokens);
    assert TokenLabels(first[0].tokens) == [LOOP] by {
      assert first[0].tokens[1..] == [LabelRef(LOOP)] && [LabelRef(LOOP)][1..] == [];
    }
    hide TokenLabels;
    assert Once([LOOP]) == [LOOP] by { assert [LOOP][..0] == []; }
  }

  lemma PointersValid(rest: seq<Piece>)
    ensures Valid(Pointers(rest)) && ReachedLabel(Pointers(rest), LOOP)
  {
    PointersLabels(rest);
    PointersBodies(rest);
    PointerNames();
    hide BodySuccessors, Defs, BodyOf, Labels;
    assert LabelPath(Pointers(rest), [E, LOOP]) && [E, LOOP][1] == LOOP;
  }

  /** `phi ptr addrspace(1)` and `phi ptr` have one form. */
  lemma AddressSpaceDropped(leq: (Arm, Arm) -> bool)
    ensures var f, g := Pointers([Words("addrspace(1)")]), Pointers([]);
            Valid(f) && Valid(g) && FormOf(f, leq) == FormOf(g, leq) && !exists m :: Isomorphic(m, f, g)
  {
    var f, g := Pointers([Words("addrspace(1)")]), Pointers([]);
    PointersValid([Words("addrspace(1)")]);
    PointersValid([]);
    PointersLabels([Words("addrspace(1)")]);
    PointersCut();
    hide Valid, FormOf, Isomorphic, BodyOf, Labels, ReachedLabel, Cut, WithLine;
    CutKeepsForm(f, leq, LOOP, 0);
  }

  lemma PointersCut()
    ensures var f := Pointers([Words("addrspace(1)")]);
            LOOP in Labels(f) && 0 < |BodyOf(f, LOOP)| && !InFull(BodyOf(f, LOOP)[0])
            && WithLine(f, LOOP, 0, Cut(BodyOf(f, LOOP)[0])) == Pointers([])
  {
    var f, g := Pointers([Words("addrspace(1)")]), Pointers([]);
    PointersLabels([Words("addrspace(1)")]);
    var line := f.blocks[1].body[0];
    FoundAll(line.arms);
    assert Cut(line) == g.blocks[1].body[0];
    hide Cut, Labels, BodyOf, Found, IndexOf;
    assert f.blocks[1].body[0 := Cut(line)] == g.blocks[1].body;
    assert f.blocks[1 := Block(LOOP, g.blocks[1].body)] == g.blocks;
  }
}
