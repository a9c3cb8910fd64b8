/** A kept name that is given to something else: another function then has the same form and is not the same. */
module KeptNames {
  import opened Lists
  import opened Names
  import opened IrFunctions
  import opened Canonical
  import opened Phis
  import opened Isomorphism
  import opened SameForm
  import opened FormLimits

  // One line replaced

  /** `f` with `t` for line `k` of block `b`. */
  function WithLine(f: Function, b: Name, k: nat, t: Stmt): Function
    requires b in Labels(f) && k < |BodyOf(f, b)|
  {
    WithBody(f, b, BodyOf(f, b)[k := t])
  }

  /** A line that defines the same value and, where it is the last one, goes to the same blocks. */
  ghost predicate SameRole(f: Function, b: Name, k: nat, t: Stmt)
    requires b in Labels(f) && k < |BodyOf(f, b)|
  {
    var s := BodyOf(f, b)[k];
    && t.def == s.def && (t.Phi? <==> s.Phi?)
    && (k == |BodyOf(f, b)| - 1 && s.Plain? ==> TokenLabels(t.tokens) == TokenLabels(s.tokens))
  }

  lemma {:induction false} DefsReplaced(body: seq<Stmt>, k: nat, t: Stmt)
    requires k < |body| && t.def == body[k].def
    ensures Defs(body[k := t]) == Defs(body)
    decreases |body|
  {
    var last := |body| - 1;
    if k < last {
      assert body[k := t][..last] == body[..last][k := t];
      DefsReplaced(body[..last], k, t);
    } else {
      assert body[k := t][..last] == body[..last];
    }
  }

  lemma SkeletonKept(f: Function, b: Name, k: nat, t: Stmt)
    requires Valid(f) && b in Labels(f) && k < |BodyOf(f, b)| && SameRole(f, b, k, t)
    ensures SameSkeleton(f, WithLine(f, b, k, t)) && Valid(WithLine(f, b, k, t))
    ensures Entry(WithLine(f, b, k, t)) == Entry(f)
  {
    var body := BodyOf(f, b);
    DefsReplaced(body, k, t);
    assert BodySuccessors(body[k := t]) == BodySuccessors(body);
    hide Valid, SameRole, BodySuccessors;
    BodySkeleton(f, b, body[k := t]);
  }

  /** A line rendered like the one it replaces leaves the form as it was. */
  lemma FormKept(f: Function, b: Name, k: nat, t: Stmt, leq: (Arm, Arm) -> bool)
    requires Valid(f) && b in Labels(f) && k < |BodyOf(f, b)| && SameRole(f, b, k, t)
    requires Rendered(GivenTo(f), leq, t) == Rendered(GivenTo(f), leq, BodyOf(f, b)[k])
    ensures FormOf(WithLine(f, b, k, t), leq) == FormOf(f, leq)
  {
    var g := WithLine(f, b, k, t);
    SkeletonKept(f, b, k, t);
    GivenSame(f, g);
    forall c
      ensures RenderedBlock(g, GivenTo(f), leq, c) == RenderedBlock(f, GivenTo(f), leq, c)
    {
      BlockKept(f, b, k, t, leq, c);
    }
    hide *;
    SameLinesSameForm(f, g, leq);
  }

  lemma BlockKept(f: Function, b: Name, k: nat, t: Stmt, leq: (Arm, Arm) -> bool, c: Name)
    requires Distinct(Labels(f)) && |f.blocks| > 0 && b in Labels(f) && k < |BodyOf(f, b)|
    requires Rendered(GivenTo(f), leq, t) == Rendered(GivenTo(f), leq, BodyOf(f, b)[k])
    ensures RenderedBlock(WithLine(f, b, k, t), GivenTo(f), leq, c) == RenderedBlock(f, GivenTo(f), leq, c)
  {
    WithBodyIs(f, b, BodyOf(f, b)[k := t]);
    hide Rendered, GivenTo, WithBody, Labels, BodyOf;
  }

  // A name replaced

  function Instead(x: Name, y: Name): Name -> Name {
    z => if z == x then y else z
  }

  function InLine(x: Name, y: Name, s: Stmt): Stmt {
    RenameStmt(Renaming(Instead(x, y), Instead(x, y)), s)
  }

  /** `z` is a name of a phi, but of no arm. */
  ghost predicate KindNames(s: Stmt, z: Name) {
    s.Phi? && (Named(z) in s.kind || Named(z) in s.rest)
  }

  lemma PieceInstead(x: Name, y: Name, pieces: seq<Piece>, z: Name)
    requires Named(z) in RenamePieces(Renaming(Instead(x, y), Instead(x, y)), pieces)
    ensures (z == x ==> x == y) && (z == y || Named(z) in pieces)
  {
    var t := RenamePieces(Renaming(Instead(x, y), Instead(x, y)), pieces);
    var i :| 0 <= i < |t| && t[i] == Named(z);
    assert pieces[i].Named? && pieces[i] in pieces;
  }

  lemma KindsInstead(x: Name, y: Name, s: Stmt, z: Name)
    requires x != y
    ensures KindNames(InLine(x, y, s), z) ==> z != x && (z == y || KindNames(s, z))
  {
    var t := InLine(x, y, s);
    if s.Phi? && Named(z) in t.kind { PieceInstead(x, y, s.kind, z); }
    if s.Phi? && Named(z) in t.rest { PieceInstead(x, y, s.rest, z); }
  }

  lemma ArmInstead(x: Name, y: Name, a: Arm, z: Name)
    requires x != y && ArmNames(RenameArm(Renaming(Instead(x, y), Instead(x, y)), a), z)
    ensures z != x && (z == y || ArmNames(a, z))
  {
    var t := RenameArm(Renaming(Instead(x, y), Instead(x, y)), a);
    if Named(z) in t.operand { PieceInstead(x, y, a.operand, z); }
  }

  lemma NameInstead(x: Name, y: Name, s: Stmt, z: Name)
    requires x != y && StmtNames(InLine(x, y, s), z)
    ensures z != x && (z == y || StmtNames(s, z))
  {
    var r, t := Renaming(Instead(x, y), Instead(x, y)), InLine(x, y, s);
    KindsInstead(x, y, s, z);
    if t.def != Defines(z) && !KindNames(t, z) {
      if s.Plain? {
        var i :| 0 <= i < |t.tokens| && TokenNames(t.tokens[i], z);
        assert t.tokens[i] == RenameToken(r, s.tokens[i]);
        assert z == y || TokenNames(s.tokens[i], z);
      } else {
        var i :| 0 <= i < |t.arms| && ArmNames(t.arms[i], z);
        assert t.arms[i] == RenameArm(r, s.arms[i]);
        hide ArmNames, RenameArm;
        ArmInstead(x, y, s.arms[i], z);
      }
    }
  }

  lemma LabelInstead(x: Name, y: Name, s: Stmt, z: Name)
    requires LabelIn(InLine(x, y, s), z)
    ensures z == y || LabelIn(s, z)
  {
    var r, t := Renaming(Instead(x, y), Instead(x, y)), InLine(x, y, s);
    if s.Plain? {
      var i :| 0 <= i < |t.tokens| && t.tokens[i] == LabelRef(z);
      assert t.tokens[i] == RenameToken(r, s.tokens[i]);
      assert z == y || s.tokens[i] == LabelRef(z);
    } else {
      var i :| 0 <= i < |t.arms| && t.arms[i].block == z && LabelPlace(t.arms[i]);
      assert t.arms[i] == RenameArm(r, s.arms[i]);
      PlaceKept(r, s.arms[i]);
      assert z == y || s.arms[i].block == z;
    }
  }

  lemma NotNamed(x: Name, y: Name, s: Stmt)
    requires x != y
    ensures !StmtNames(InLine(x, y, s), x)
    ensures forall z :: StmtNames(InLine(x, y, s), z) ==> z == y || StmtNames(s, z)
    ensures forall z :: LabelIn(InLine(x, y, s), z) ==> z == y || LabelIn(s, z)
  {
    hide *;
    forall z | StmtNames(InLine(x, y, s), z)
      ensures z != x && (z == y || StmtNames(s, z))
    {
      NameInstead(x, y, s, z);
    }
    forall z | LabelIn(InLine(x, y, s), z)
      ensures z == y || LabelIn(s, z)
    {
      LabelInstead(x, y, s, z);
    }
  }

  /** What is given to a taken name's owner is that name, in label places too. */
  lemma Owner(f: Function, x: Name) returns (y: Name)
    requires Valid(f) && Taken(f, x) && !Renamed(f, x)
    ensures Renamed(f, y) && GivenTo(f).Any(y) == x && GivenTo(f).Label(y) == x
    ensures GivenTo(f).Any(x) == x && GivenTo(f).Label(x) == x && x != y
  {
    GivenHas(f, x);
    RenamedAre(f);
    var i: nat :| (i < |Order(f)| && x == BlockName(i)) || (i < |DefsOf(f, Order(f))| && x == ValueName(i));
    y := if i < |Order(f)| && x == BlockName(i) then Order(f)[i] else DefsOf(f, Order(f))[i];
    hide Valid, ReachedLabel, DefinedIn, Order, DefsOf;
    if i < |Order(f)| && x == BlockName(i) {
      assert y in Order(f);
      MapsAt(Order(f), i);
    } else {
      assert y in DefsOf(f, Order(f));
      MapsAt(DefsOf(f, Order(f)), i);
    }
    GivenHas(f, y);
  }

  lemma TokensInstead(given: Given, x: Name, y: Name, tokens: seq<Token>)
    requires given.Any(x) == given.Any(y) && given.Label(x) == given.Label(y)
    ensures RenameTokens(Renames(given), RenameTokens(Renaming(Instead(x, y), Instead(x, y)), tokens))
         == RenameTokens(Renames(given), tokens)
  {
  }

  lemma PiecesInstead(given: Given, x: Name, y: Name, pieces: seq<Piece>)
    requires given.Any(x) == given.Any(y)
    ensures RenamePieces(Renames(given), RenamePieces(Renaming(Instead(x, y), Instead(x, y)), pieces))
         == RenamePieces(Renames(given), pieces)
  {
  }

  lemma ArmsInstead(given: Given, x: Name, y: Name, arms: seq<Arm>)
    requires given.Any(x) == given.Any(y) && given.Label(x) == given.Label(y)
    ensures RenameArms(Renames(given), RenameArms(Renaming(Instead(x, y), Instead(x, y)), arms))
         == RenameArms(Renames(given), arms)
  {
    var r, t, rg :=
      Renaming(Instead(x, y), Instead(x, y)), RenameArms(Renaming(Instead(x, y), Instead(x, y)), arms), Renames(given);
    forall i | 0 <= i < |arms|
      ensures RenameArm(rg, t[i]) == RenameArm(rg, arms[i])
    {
      assert t[i] == RenameArm(r, arms[i]);
      PlaceKept(r, arms[i]);
      PiecesInstead(given, x, y, arms[i].operand);
      hide LabelPlace, RenamePieces;
    }
    hide RenameArm;
  }

  lemma RenderedInstead(given: Given, x: Name, y: Name, s: Stmt, leq: (Arm, Arm) -> bool)
    requires given.Any(x) == given.Any(y) && given.Label(x) == given.Label(y)
    ensures Rendered(given, leq, InLine(x, y, s)) == Rendered(given, leq, s)
  {
    var t := InLine(x, y, s);
    RenderedIs(given, leq, s);
    RenderedIs(given, leq, t);
    assert RenameDef(Renames(given), t.def) == RenameDef(Renames(given), s.def);
    hide Rendered, RenameDef, RenameTokens, RenameArms, RenamePieces, Found;
    if s.Plain? {
      TokensInstead(given, x, y, s.tokens);
    } else {
      PiecesInstead(given, x, y, s.kind);
      ArmsInstead(given, x, y, s.arms);
    }
  }

  lemma {:induction false} LabelsInstead(x: Name, y: Name, tokens: seq<Token>)
    requires x !in TokenLabels(tokens)
    ensures TokenLabels(RenameTokens(Renaming(Instead(x, y), Instead(x, y)), tokens)) == TokenLabels(tokens)
    decreases |tokens|
  {
    if tokens == [] {
    } else {
      var r := Renaming(Instead(x, y), Instead(x, y));
      LabelsInstead(x, y, tokens[1..]);
      assert RenameTokens(r, tokens)[1..] == RenameTokens(r, tokens[1..]);
    }
  }

  lemma ShownDefines(f: Function, b: Name, k: nat)
    requires Shown(f, b, k) && BodyOf(f, b)[k].def.Defines?
    ensures DefinedIn(f, BodyOf(f, b)[k].def.name)
  {
    LineDefines(BodyOf(f, b), k);
  }

  lemma LastLineLeads(f: Function, b: Name, x: Name)
    requires ReachedLabel(f, b) && b in Labels(f) && BodyOf(f, b) != []
    requires var last := BodyOf(f, b)[|BodyOf(f, b)| - 1]; last.Plain? && x in TokenLabels(last.tokens)
    ensures ReachedLabel(f, x)
  {
    OnceHas(TokenLabels(BodyOf(f, b)[|BodyOf(f, b)| - 1].tokens));
    SuccessorsReached(f, b);
    assert x in SuccessorsOf(f, b);
  }

  /** A shown line defines only names that are replaced, and a last line goes only to blocks that are. */
  lemma KeptNotDefined(f: Function, b: Name, k: nat, x: Name)
    requires Valid(f) && Shown(f, b, k) && !Renamed(f, x)
    ensures BodyOf(f, b)[k].def != Defines(x)
    ensures k == |BodyOf(f, b)| - 1 && BodyOf(f, b)[k].Plain? ==> x !in TokenLabels(BodyOf(f, b)[k].tokens)
  {
    var body := BodyOf(f, b);
    if body[k].def.Defines? {
      ShownDefines(f, b, k);
    }
    if k == |body| - 1 && body[k].Plain? && x in TokenLabels(body[k].tokens) {
      hide ReachedLabel;
      LastLineLeads(f, b, x);
    }
  }

  lemma {:induction false} LineDefines(body: seq<Stmt>, k: nat)
    requires k < |body| && body[k].def.Defines?
    ensures body[k].def.name in Defs(body)
    decreases |body|
  {
    if k >= |body| - 1 {
    } else {
      LineDefines(body[..|body| - 1], k);
    }
  }

  // Not isomorphic

  /** Between functions of one skeleton only the identity could map one to the other. */
  lemma OnlyIdentity(m: Bijection, f: Function, g: Function)
    requires Pair(m, f, g) && SameSkeleton(f, g) && |f.blocks| > 0 && |g.blocks| > 0 && Entry(f) == Entry(g)
    ensures forall x :: Hat(m, x) == x
  {
    GivenSame(f, g);
    hide Pair, SameSkeleton, Order, DefsOf;
    forall x
      ensures Hat(m, x) == x
    {
      if x in m { var i := SamePlace(m, f, g, x); }
    }
  }

  lemma SamePieces(m: Bijection, pieces: seq<Piece>)
    requires forall z :: Hat(m, z) == z
    ensures RenamePieces(Hats(m), pieces) == pieces
  {
  }

  lemma SameArms(m: Bijection, arms: seq<Arm>)
    requires forall z :: Hat(m, z) == z
    ensures RenameArms(Hats(m), arms) == arms
  {
    forall i | 0 <= i < |arms|
      ensures RenameArm(Hats(m), arms[i]) == arms[i]
    {
      SamePieces(m, arms[i].operand);
    }
    hide RenameArm;
  }

  lemma MatchesItself(m: Bijection, s: Stmt, t: Stmt, x: Name)
    requires StmtMatches(m, s, t) && StmtNames(s, x) && forall z :: Hat(m, z) == z
    ensures StmtNames(t, x)
  {
    if s.Plain? {
      assert RenameTokens(Hats(m), s.tokens) == s.tokens;
      if s.def != Defines(x) {
        var i :| 0 <= i < |s.tokens| && TokenNames(s.tokens[i], x);
        assert TokenNames(t.tokens[i], x);
      }
    } else {
      SamePieces(m, s.kind);
      SamePieces(m, s.rest);
      SameArms(m, s.arms);
      if s.def != Defines(x) && !KindNames(s, x) {
        var i :| 0 <= i < |s.arms| && ArmNames(s.arms[i], x);
        assert s.arms[i] in multiset(t.arms);
        var j :| 0 <= j < |t.arms| && t.arms[j] == s.arms[i];
      }
    }
  }

  /**
   * `g` renames no label twice, keeps no name that is given but one `f` keeps too, and loses part of a phi only if `f`
   * does.
   */
  ghost predicate NoWorse(f: Function, g: Function) {
    && |f.blocks| > 0 && |g.blocks| > 0 && LabelsLegible(g)
    && (AllInFull(f) ==> AllInFull(g))
    && forall x :: Mistaken(g, x) ==> Mistaken(f, x)
  }

  /** A line shown in both functions, where `g` may have `y` for other names of `f`. */
  ghost predicate LineInstead(f: Function, g: Function, y: Name, c: Name, j: int) {
    Shown(g, c, j) ==>
      && Shown(f, c, j)
      && (forall z :: StmtNames(BodyOf(g, c)[j], z) ==> z == y || StmtNames(BodyOf(f, c)[j], z))
      && (forall z :: LabelIn(BodyOf(g, c)[j], z) ==> z == y || LabelIn(BodyOf(f, c)[j], z))
      && (InFull(BodyOf(f, c)[j]) ==> InFull(BodyOf(g, c)[j]))
  }

  lemma LinesInstead(f: Function, g: Function, b: Name, k: nat, x: Name, y: Name, c: Name, j: int)
    requires Shown(f, b, k) && Distinct(Labels(f)) && x != y && (ReachedLabel(g, c) ==> ReachedLabel(f, c))
    requires g == WithLine(f, b, k, InLine(x, y, BodyOf(f, b)[k]))
    ensures LineInstead(f, g, y, c, j)
  {
    WithBodyIs(f, b, BodyOf(f, b)[k := InLine(x, y, BodyOf(f, b)[k])]);
    NotNamed(x, y, BodyOf(f, b)[k]);
    StaysInFull(Renaming(Instead(x, y), Instead(x, y)), BodyOf(f, b)[k]);
    hide InFull, WithBody, InLine, ReachedLabel, StmtNames, LabelIn, Labels, BodyOf;
  }

  /** Where `y` owns `x`, writing `y` for a kept `x` in one line makes nothing worse. */
  lemma InsteadNoWorse(f: Function, g: Function, b: Name, k: nat, x: Name, y: Name)
    requires Valid(f) && Valid(g) && Shown(f, b, k) && LabelsLegible(f) && SameSkeleton(f, g) && Entry(f) == Entry(g)
    requires g == WithLine(f, b, k, InLine(x, y, BodyOf(f, b)[k])) && x != y
    requires Renamed(f, y) && GivenTo(f).Any(y) == x && GivenTo(f).Any(x) == x
    ensures NoWorse(f, g)
  {
    GivenSame(f, g);
    ReachedSame(f, g);
    forall c, j
      ensures LineInstead(f, g, y, c, j)
    {
      LinesInstead(f, g, b, k, x, y, c, j);
    }
    hide *;
    KeptLabels(f, g, y);
    KeptMistakes(f, g, y);
    KeptInFull(f, g, y);
    NoWorseIs(f, g);
  }

  lemma KeptInFull(f: Function, g: Function, y: Name)
    requires forall c, j :: LineInstead(f, g, y, c, j)
    ensures AllInFull(f) ==> AllInFull(g)
  {
    hide InFull, ReachedLabel, LabelIn, StmtNames, BodyOf, Labels;
    forall c, j | AllInFull(f) && Shown(g, c, j)
      ensures InFull(BodyOf(g, c)[j])
    {
      assert LineInstead(f, g, y, c, j);
    }
  }

  lemma NoWorseIs(f: Function, g: Function)
    requires |f.blocks| > 0 && |g.blocks| > 0 && LabelsLegible(g)
    requires (AllInFull(f) ==> AllInFull(g)) && forall x :: Mistaken(g, x) ==> Mistaken(f, x)
    ensures NoWorse(f, g)
  {
  }

  lemma KeptLabels(f: Function, g: Function, y: Name)
    requires |f.blocks| > 0 && |g.blocks| > 0 && LabelsLegible(f) && GivenTo(f) == GivenTo(g)
    requires forall x :: ReachedLabel(g, x) ==> ReachedLabel(f, x)
    requires forall c, j :: LineInstead(f, g, y, c, j)
    requires var given := GivenTo(f); given.Any(given.Any(y)) == given.Any(y)
    ensures LabelsLegible(g)
  {
    hide GivenTo, ReachedLabel, LabelIn, StmtNames, BodyOf, Labels;
    forall c, j, z | Shown(g, c, j) && LabelIn(BodyOf(g, c)[j], z)
      ensures LegibleLabel(g, z)
    {
      assert LineInstead(f, g, y, c, j);
      assert z == y || LegibleLabel(f, z);
    }
  }

  lemma KeptMistakes(f: Function, g: Function, y: Name)
    requires |f.blocks| > 0 && |g.blocks| > 0 && Order(f) == Order(g) && DefsOf(f, Order(f)) == DefsOf(g, Order(g))
    requires Renamed(f, y) && forall x :: Renamed(f, x) <==> Renamed(g, x)
    requires forall c, j :: LineInstead(f, g, y, c, j)
    ensures forall x :: Mistaken(g, x) ==> Mistaken(f, x)
  {
    hide Order, DefsOf, Renamed, ReachedLabel, LabelIn, StmtNames, BodyOf, Labels;
    forall z | Mistaken(g, z)
      ensures Mistaken(f, z)
    {
      var c, j :| Shown(g, c, j) && StmtNames(BodyOf(g, c)[j], z) && !LegibleName(g, z);
      assert LineInstead(f, g, y, c, j);
    }
  }

  /** The theorem's half for kept names. */
  lemma KeptNameConfuses(f: Function, leq: (Arm, Arm) -> bool, x: Name) returns (g: Function)
    requires Valid(f) && Mistaken(f, x) && LabelsLegible(f)
    ensures Valid(g) && NoWorse(f, g) && FormOf(g, leq) == FormOf(f, leq) && forall m :: !Isomorphic(m, f, g)
  {
    var b, k :| Shown(f, b, k) && StmtNames(BodyOf(f, b)[k], x) && !LegibleName(f, x);
    var s := BodyOf(f, b)[k];
    var y := Owner(f, x);
    var t := InLine(x, y, s);
    KeptNotDefined(f, b, k, x);
    if s.Plain? && k == |BodyOf(f, b)| - 1 { LabelsInstead(x, y, s.tokens); }
    assert SameRole(f, b, k, t);
    RenderedInstead(GivenTo(f), x, y, s, leq);
    g := WithLine(f, b, k, t);
    SkeletonKept(f, b, k, t);
    FormKept(f, b, k, t, leq);
    InsteadNoWorse(f, g, b, k, x, y);
    NotNamed(x, y, s);
    WithBodyIs(f, b, BodyOf(f, b)[k := t]);
    forall m
      ensures !Isomorphic(m, f, g)
    {
      NotTheSame(m, f, g, b, k, x);
    }
  }

  lemma NotTheSame(m: Bijection, f: Function, g: Function, b: Name, k: nat, x: Name)
    requires Valid(f) && Valid(g) && SameSkeleton(f, g) && Entry(f) == Entry(g) && Shown(f, b, k)
    requires b in Labels(g) && |BodyOf(g, b)| == |BodyOf(f, b)|
    requires StmtNames(BodyOf(f, b)[k], x) && !StmtNames(BodyOf(g, b)[k], x)
    ensures !Isomorphic(m, f, g)
  {
    if Isomorphic(m, f, g) {
      SameLines(m, f, g, b, k);
      hide *;
      MatchesItself(m, BodyOf(f, b)[k], BodyOf(g, b)[k], x);
    }
  }

  lemma SameLines(m: Bijection, f: Function, g: Function, b: Name, k: nat)
    requires Valid(f) && Valid(g) && Isomorphic(m, f, g) && SameSkeleton(f, g) && Entry(f) == Entry(g) && Shown(f, b, k)
    requires b in Labels(g) && |BodyOf(g, b)| == |BodyOf(f, b)|
    ensures forall z :: Hat(m, z) == z
    ensures StmtMatches(m, BodyOf(f, b)[k], BodyOf(g, b)[k])
  {
    OnlyIdentity(m, f, g);
    BodiesMatch(m, f, g, b);
    hide Isomorphic, Valid, SameSkeleton, ReachedLabel, Labels, BodyOf, StmtMatches;
    assert Hat(m, b) == b;
  }
}
