/** Functions with the same form are isomorphic: the form decides isomorphism. */
module FormDecides {
  import opened Lists
  import opened Names
  import opened IrFunctions
  import opened ArmSorting
  import opened Canonical
  import opened Phis
  import opened Isomorphism
  import opened SameForm

  // Reading the blocks back from the lines

  lemma {:induction false} LinesDetermine(s: seq<seq<Stmt>>, t: seq<seq<Stmt>>, n: nat)
    requires Lines(s, n) == Lines(t, n)
    ensures s == t
    decreases |s|
  {
    if s == [] || t == [] {
      assert s != [] ==> Lines(s, n) != [];
      assert t != [] ==> Lines(t, n) != [];
    } else {
      FirstBody(s, t, n);
      var a := [Head(BlockName(n))] + StatementLines(s[0]);
      assert Lines(s, n) == a + Lines(s[1..], n + 1) && Lines(t, n) == a + Lines(t[1..], n + 1);
      assert Lines(s, n)[|a|..] == Lines(s[1..], n + 1) && Lines(t, n)[|a|..] == Lines(t[1..], n + 1);
      LinesDetermine(s[1..], t[1..], n + 1);
      assert s == [s[0]] + s[1..] && t == [t[0]] + t[1..];
    }
  }

  /** Line `1 + k` of the blocks from `n` on: a statement of the first body, or a head, or nothing. */
  lemma LineAt(s: seq<seq<Stmt>>, n: nat, k: nat)
    requires s != [] && k <= |s[0]|
    ensures k < |s[0]| ==> 1 + k < |Lines(s, n)| && Lines(s, n)[1 + k] == Statement(s[0][k])
    ensures k == |s[0]| && 1 + k < |Lines(s, n)| ==> Lines(s, n)[1 + k].Head?
  {
    var a := [Head(BlockName(n))] + StatementLines(s[0]);
    assert Lines(s, n) == a + Lines(s[1..], n + 1);
  }

  lemma FirstBody(s: seq<seq<Stmt>>, t: seq<seq<Stmt>>, n: nat)
    requires Lines(s, n) == Lines(t, n) && s != [] && t != []
    ensures s[0] == t[0]
  {
    var k := if |s[0]| < |t[0]| then |s[0]| else |t[0]|;
    LineAt(s, n, k);
    LineAt(t, n, k);
    forall i | 0 <= i < k ensures s[0][i] == t[0][i] {
      LineAt(s, n, i);
      LineAt(t, n, i);
    }
  }

  /** Equal forms mean as many reached blocks, rendered alike one by one. */
  lemma BlocksAlike(f: Function, g: Function, leq: (Arm, Arm) -> bool)
    requires Valid(f) && Valid(g) && FormOf(f, leq) == FormOf(g, leq)
    ensures |Order(f)| == |Order(g)|
    ensures forall i :: 0 <= i < |Order(f)| ==> BlockAlike(f, g, leq, i)
  {
    ValidRuns(f);
    ValidRuns(g);
    OrderIsReached(f);
    OrderIsReached(g);
    var s, t := RenderedBlocks(f, GivenTo(f), leq, Order(f)), RenderedBlocks(g, GivenTo(g), leq, Order(g));
    LinesDetermine(s, t, 0);
    forall i | 0 <= i < |Order(f)| ensures BlockAlike(f, g, leq, i) {
      assert Order(f)[i] in Order(f) && Order(g)[i] in Order(g);
      assert s[i] == t[i];
    }
  }

  ghost predicate BlockAlike(f: Function, g: Function, leq: (Arm, Arm) -> bool, i: nat)
    requires |f.blocks| > 0 && |g.blocks| > 0 && i < |Order(f)| && i < |Order(g)|
  {
    && Order(f)[i] in Labels(f) && Order(g)[i] in Labels(g)
    && RenderedBody(GivenTo(f), leq, BodyOf(f, Order(f)[i])) == RenderedBody(GivenTo(g), leq, BodyOf(g, Order(g)[i]))
  }

  // The definitions line up

  lemma {:induction false} DefsAlike(rf: Given, rg: Given, leq: (Arm, Arm) -> bool, s: seq<Stmt>, t: seq<Stmt>)
    requires RenderedBody(rf, leq, s) == RenderedBody(rg, leq, t)
    ensures |s| == |t| && |Defs(s)| == |Defs(t)|
    decreases |s|
  {
    hide Rendered;
    assert |RenderedBody(rf, leq, s)| == |s| && |RenderedBody(rg, leq, t)| == |t|;
    if s == [] {
    } else {
      var last := |s| - 1;
      assert RenderedBody(rf, leq, s)[..last] == RenderedBody(rf, leq, s[..last]);
      assert RenderedBody(rg, leq, t)[..last] == RenderedBody(rg, leq, t[..last]);
      DefsAlike(rf, rg, leq, s[..last], t[..last]);
      assert Rendered(rf, leq, s[last]) == Rendered(rg, leq, t[last]);
      DefinesAlike(rf, rg, leq, s[last], t[last]);
    }
  }

  lemma DefinesAlike(rf: Given, rg: Given, leq: (Arm, Arm) -> bool, a: Stmt, b: Stmt)
    requires Rendered(rf, leq, a) == Rendered(rg, leq, b)
    ensures a.def.Defines? <==> b.def.Defines?
  {
  }

  lemma {:induction false} DefsOfAlike(f: Function, g: Function, leq: (Arm, Arm) -> bool, k: nat)
    requires Valid(f) && Valid(g) && |Order(f)| == |Order(g)| && k <= |Order(f)|
    requires forall i :: 0 <= i < |Order(f)| ==> BlockAlike(f, g, leq, i)
    ensures |DefsOf(f, Order(f)[..k])| == |DefsOf(g, Order(g)[..k])|
  {
    BlocksPresent(f, g);
    hide *;
    if k == 0 {
      assert Order(f)[..k] == [] && Order(g)[..k] == [];
      NoDefs(f);
      NoDefs(g);
    } else {
      BlockDefs(f, g, leq, k - 1);
      DefsOfAlike(f, g, leq, k - 1);
      LastDefs(f, Order(f), k);
      LastDefs(g, Order(g), k);
    }
  }

  lemma BlocksPresent(f: Function, g: Function)
    requires Valid(f) && Valid(g)
    ensures |f.blocks| > 0 && |g.blocks| > 0
  {
  }

  lemma BlockDefs(f: Function, g: Function, leq: (Arm, Arm) -> bool, i: nat)
    requires |f.blocks| > 0 && |g.blocks| > 0 && i < |Order(f)| && i < |Order(g)| && BlockAlike(f, g, leq, i)
    ensures Order(f)[i] in Labels(f) && Order(g)[i] in Labels(g)
    ensures |Defs(BodyOf(f, Order(f)[i]))| == |Defs(BodyOf(g, Order(g)[i]))|
  {
    DefsAlike(GivenTo(f), GivenTo(g), leq, BodyOf(f, Order(f)[i]), BodyOf(g, Order(g)[i]));
  }

  lemma NoDefs(f: Function)
    ensures DefsOf(f, []) == []
  {
  }

  lemma LastDefs(f: Function, order: seq<Name>, k: nat)
    requires 0 < k <= |order| && order[k - 1] in Labels(f)
    ensures DefsOf(f, order[..k]) == DefsOf(f, order[..k - 1]) + Defs(BodyOf(f, order[k - 1]))
  {
    assert order[..k][..k - 1] == order[..k - 1];
  }

  // The bijection the form describes

  /** Equal places in the two lists correspond. */
  function Pairing(s: seq<Name>, t: seq<Name>): Bijection
    requires |s| == |t|
  {
    if s == [] then map[] else Pairing(s[..|s| - 1], t[..|t| - 1])[s[|s| - 1] := t[|t| - 1]]
  }

  lemma {:induction false} PairingHas(s: seq<Name>, t: seq<Name>, x: Name)
    requires |s| == |t|
    ensures x in Pairing(s, t) <==> x in s
    decreases |s|
  {
    if s == [] {
    } else {
      LastOff(s);
      PairingHas(s[..|s| - 1], t[..|t| - 1], x);
    }
  }

  lemma {:induction false} PairingAt(s: seq<Name>, t: seq<Name>, i: nat)
    requires |s| == |t| && i < |s| && Distinct(s)
    ensures s[i] in Pairing(s, t) && Pairing(s, t)[s[i]] == t[i]
    decreases |s|
  {
    if i >= |s| - 1 {
    } else {
      PairingAt(s[..|s| - 1], t[..|t| - 1], i);
    }
  }

  /** What equal forms leave us with. */
  ghost predicate Alike(f: Function, g: Function, leq: (Arm, Arm) -> bool) {
    && Valid(f) && Valid(g) && TotalOrder(leq)
    && |Order(f)| == |Order(g)| && |DefsOf(f, Order(f))| == |DefsOf(g, Order(g))|
    && forall i :: 0 <= i < |Order(f)| ==> BlockAlike(f, g, leq, i)
  }

  lemma SizesAlike(f: Function, g: Function, leq: (Arm, Arm) -> bool)
    requires Alike(f, g, leq)
    ensures |f.blocks| > 0 && |g.blocks| > 0
    ensures |Order(f)| == |Order(g)| && |DefsOf(f, Order(f))| == |DefsOf(g, Order(g))|
  {
  }

  function ByPlace(f: Function, g: Function): Bijection
    requires |f.blocks| > 0 && |g.blocks| > 0
    requires |Order(f)| == |Order(g)| && |DefsOf(f, Order(f))| == |DefsOf(g, Order(g))|
  {
    Pairing(Order(f), Order(g)) + Pairing(DefsOf(f, Order(f)), DefsOf(g, Order(g)))
  }

  lemma ByPlaceHas(f: Function, g: Function, leq: (Arm, Arm) -> bool, x: Name)
    requires Alike(f, g, leq)
    ensures x in ByPlace(f, g) <==> Renamed(f, x)
  {
    RenamedAre(f);
    PairingHas(Order(f), Order(g), x);
    PairingHas(DefsOf(f, Order(f)), DefsOf(g, Order(g)), x);
  }

  lemma ByPlaceAt(f: Function, g: Function, leq: (Arm, Arm) -> bool, i: nat)
    requires Alike(f, g, leq)
    ensures i < |Order(f)| ==> Order(f)[i] in ByPlace(f, g) && ByPlace(f, g)[Order(f)[i]] == Order(g)[i]
    ensures i < |DefsOf(f, Order(f))| ==>
              DefsOf(f, Order(f))[i] in ByPlace(f, g) && ByPlace(f, g)[DefsOf(f, Order(f))[i]] == DefsOf(g, Order(g))[i]
  {
    RenamedAre(f);
    hide Valid, BlockAlike;
    if i < |Order(f)| {
      PairingAt(Order(f), Order(g), i);
      PairingHas(DefsOf(f, Order(f)), DefsOf(g, Order(g)), Order(f)[i]);
      assert Order(f)[i] in Order(f);
    }
    if i < |DefsOf(f, Order(f))| {
      PairingAt(DefsOf(f, Order(f)), DefsOf(g, Order(g)), i);
    }
  }

  /** The place of a replaced name, and that its counterpart has the same one. */
  lemma PlaceOf(f: Function, g: Function, leq: (Arm, Arm) -> bool, x: Name) returns (i: nat)
    requires Alike(f, g, leq) && Renamed(f, x)
    ensures x in ByPlace(f, g)
    ensures ReachedLabel(f, x) ==>
      && i < |Order(f)| && Order(f)[i] == x
      && Order(g)[i] == ByPlace(f, g)[x] && GivenTo(f).Any(x) == BlockName(i)
    ensures !ReachedLabel(f, x) ==>
      && i < |DefsOf(f, Order(f))| && DefsOf(f, Order(f))[i] == x
      && DefsOf(g, Order(g))[i] == ByPlace(f, g)[x] && GivenTo(f).Any(x) == ValueName(i)
  {
    i := GivenAt(f, x);
    hide Valid, BlockAlike;
    ByPlaceAt(f, g, leq, i);
  }

  /** Legible names given the same name correspond. */
  lemma Corresponds(f: Function, g: Function, leq: (Arm, Arm) -> bool, x: Name, y: Name)
    requires Alike(f, g, leq) && LegibleName(f, x) && LegibleName(g, y) && GivenTo(f).Any(x) == GivenTo(g).Any(y)
    ensures Hat(ByPlace(f, g), x) == y && (x !in ByPlace(f, g) ==> !Renamed(g, x))
  {
    ByPlaceHas(f, g, leq, x);
    GivenHas(f, x);
    GivenHas(g, y);
    hide Valid, BlockAlike, ReachedLabel, DefinedIn;
    if Renamed(g, y) {
      var j := GivenAt(g, y);
      assert Taken(f, GivenTo(g).Any(y));
      assert Renamed(f, x);
    }
    if Renamed(f, x) {
      var i := PlaceOf(f, g, leq, x);
      assert Taken(g, GivenTo(f).Any(x));
      assert Renamed(g, y);
      var j := GivenAt(g, y);
      NamesDiffer(i, j);
      NamesDiffer(j, i);
    }
  }

  lemma CorrespondsLabel(f: Function, g: Function, leq: (Arm, Arm) -> bool, x: Name, y: Name)
    requires Alike(f, g, leq) && LegibleName(f, x) && LegibleName(g, y) && LegibleLabel(f, x) && LegibleLabel(g, y)
    requires GivenTo(f).Label(x) == GivenTo(g).Label(y)
    ensures Hat(ByPlace(f, g), x) == y && (x !in ByPlace(f, g) ==> !Renamed(g, x))
  {
    LabelOnce(f, x);
    LabelOnce(g, y);
    hide Alike;
    Corresponds(f, g, leq, x, y);
  }

  ghost predicate LegibleStmt(f: Function, s: Stmt)
    requires |f.blocks| > 0
  {
    LegibleNames(f, s) && LegibleLabels(f, s) && InFull(s)
  }

  ghost predicate LegibleArm(f: Function, a: Arm)
    requires |f.blocks| > 0
  {
    (forall x :: ArmNames(a, x) ==> LegibleName(f, x)) && (LabelPlace(a) ==> LegibleLabel(f, a.block))
  }

  lemma ArmLegible(f: Function, s: Stmt, i: nat)
    requires |f.blocks| > 0 && LegibleStmt(f, s) && s.Phi? && i < |s.arms|
    ensures LegibleArm(f, s.arms[i])
  {
    hide LegibleName, LegibleLabel;
    forall x | ArmNames(s.arms[i], x)
      ensures LegibleName(f, x)
    {
      assert StmtNames(s, x);
    }
    assert LabelPlace(s.arms[i]) ==> LabelIn(s, s.arms[i].block);
  }

  ghost predicate LegiblePieces(f: Function, pieces: seq<Piece>)
    requires |f.blocks| > 0
  {
    forall x :: Named(x) in pieces ==> LegibleName(f, x)
  }

  lemma KindLegible(f: Function, s: Stmt)
    requires |f.blocks| > 0 && LegibleStmt(f, s) && s.Phi?
    ensures LegiblePieces(f, s.kind) && s.rest == [] && Found(s.arms) == s.arms
  {
    hide LegibleName, LegibleLabel, Bracketed, Found;
    forall x | Named(x) in s.kind
      ensures LegibleName(f, x)
    {
      assert StmtNames(s, x);
    }
    FoundAll(s.arms);
  }

  /** Pieces given the same names correspond. */
  lemma PiecesCorrespond(f: Function, g: Function, leq: (Arm, Arm) -> bool, s: seq<Piece>, t: seq<Piece>)
    requires Alike(f, g, leq) && RenamePieces(Renames(GivenTo(f)), s) == RenamePieces(Renames(GivenTo(g)), t)
    requires LegiblePieces(f, s) && LegiblePieces(g, t)
    ensures t == RenamePieces(Hats(ByPlace(f, g)), s)
    ensures forall x :: Named(x) in s && x !in ByPlace(f, g) ==> !Renamed(g, x)
  {
    var rf, rg, m := Renames(GivenTo(f)), Renames(GivenTo(g)), ByPlace(f, g);
    hide Alike, Renamed, LegibleName, GivenTo, ByPlace;
    assert |RenamePieces(rf, s)| == |RenamePieces(rg, t)|;
    forall i | 0 <= i < |s|
      ensures t[i] == RenamePiece(Hats(m), s[i])
      ensures s[i].Named? && s[i].name !in m ==> !Renamed(g, s[i].name)
    {
      assert RenamePieces(rf, s)[i] == RenamePieces(rg, t)[i];
      if s[i].Named? {
        assert Named(s[i].name) in s && Named(t[i].name) in t;
        Corresponds(f, g, leq, s[i].name, t[i].name);
      }
    }
    assert t == RenamePieces(Hats(m), s);
  }

  /** Renaming keeps legible pieces apart. */
  lemma PiecesApart(g: Function, s: seq<Piece>, t: seq<Piece>)
    requires Valid(g) && RenamePieces(Renames(GivenTo(g)), s) == RenamePieces(Renames(GivenTo(g)), t)
    requires LegiblePieces(g, s) && LegiblePieces(g, t)
    ensures s == t
  {
    var r := Renames(GivenTo(g));
    hide LegibleName, GivenTo, Valid;
    assert |RenamePieces(r, s)| == |RenamePieces(r, t)|;
    forall i | 0 <= i < |s|
      ensures s[i] == t[i]
    {
      assert RenamePieces(r, s)[i] == RenamePieces(r, t)[i];
      if s[i].Named? {
        assert Named(s[i].name) in s && Named(t[i].name) in t;
        AnyApart(g, s[i].name, t[i].name);
      }
    }
  }

  /** Arms rendered alike have their blocks renamed in the same way. */
  lemma SameLabelPlace(rf: Renaming, rg: Renaming, a: Arm, b: Arm)
    requires RenameArm(rf, a) == RenameArm(rg, b)
    ensures LabelPlace(a) <==> LabelPlace(b)
  {
    PlaceKept(rf, a);
    PlaceKept(rg, b);
  }

  lemma TokenLegible(f: Function, s: Stmt, i: nat)
    requires |f.blocks| > 0 && LegibleStmt(f, s) && s.Plain? && i < |s.tokens| && !s.tokens[i].Text?
    ensures LegibleName(f, s.tokens[i].name)
    ensures s.tokens[i].LabelRef? ==> LegibleLabel(f, s.tokens[i].name)
  {
    hide LegibleName, LegibleLabel;
    assert TokenNames(s.tokens[i], s.tokens[i].name) && StmtNames(s, s.tokens[i].name);
    if s.tokens[i].LabelRef? { assert LabelIn(s, s.tokens[i].name); }
  }

  lemma DefCorresponds(f: Function, g: Function, leq: (Arm, Arm) -> bool, s: Stmt, t: Stmt)
    requires Alike(f, g, leq) && LegibleStmt(f, s) && LegibleStmt(g, t)
    requires RenameDef(Renames(GivenTo(f)), s.def) == RenameDef(Renames(GivenTo(g)), t.def)
    ensures t.def == RenameDef(Hats(ByPlace(f, g)), s.def)
    ensures forall x :: s.def == Defines(x) && x !in ByPlace(f, g) ==> !Renamed(g, x)
  {
    if s.def.Defines? {
      assert StmtNames(s, s.def.name) && StmtNames(t, t.def.name);
      assert LegibleName(f, s.def.name) && LegibleName(g, t.def.name);
      hide Alike, LegibleName;
      Corresponds(f, g, leq, s.def.name, t.def.name);
    }
  }

  lemma PlainCorresponds(f: Function, g: Function, leq: (Arm, Arm) -> bool, s: Stmt, t: Stmt)
    requires Alike(f, g, leq) && LegibleStmt(f, s) && LegibleStmt(g, t) && s.Plain?
    requires Rendered(GivenTo(f), leq, s) == Rendered(GivenTo(g), leq, t)
    ensures StmtMatches(ByPlace(f, g), s, t) && Steady(ByPlace(f, g), g, s)
  {
    var rf, rg, m := Renames(GivenTo(f)), Renames(GivenTo(g)), ByPlace(f, g);
    hide Alike, Renamed, LegibleStmt;
    DefCorresponds(f, g, leq, s, t);
    assert |RenameTokens(rf, s.tokens)| == |RenameTokens(rg, t.tokens)|;
    forall i | 0 <= i < |s.tokens|
      ensures t.tokens[i] == RenameToken(Hats(m), s.tokens[i])
      ensures !s.tokens[i].Text? && s.tokens[i].name !in m ==> !Renamed(g, s.tokens[i].name)
    {
      assert RenameTokens(rf, s.tokens)[i] == RenameTokens(rg, t.tokens)[i];
      if !s.tokens[i].Text? {
        TokenLegible(f, s, i);
        TokenLegible(g, t, i);
        var x, y := s.tokens[i].name, t.tokens[i].name;
        if s.tokens[i].LabelRef? { CorrespondsLabel(f, g, leq, x, y); } else { Corresponds(f, g, leq, x, y); }
      }
    }
    assert t.tokens == RenameTokens(Hats(m), s.tokens);
  }

  lemma ArmCorresponds(f: Function, g: Function, leq: (Arm, Arm) -> bool, a: Arm, b: Arm)
    requires Alike(f, g, leq) && RenameArm(Renames(GivenTo(f)), a) == RenameArm(Renames(GivenTo(g)), b)
    requires LegibleArm(f, a) && LegibleArm(g, b)
    ensures b == RenameArm(Hats(ByPlace(f, g)), a)
    ensures forall x :: ArmNames(a, x) && x !in ByPlace(f, g) ==> !Renamed(g, x)
  {
    assert ArmNames(a, a.block) && ArmNames(b, b.block);
    SameLabelPlace(Renames(GivenTo(f)), Renames(GivenTo(g)), a, b);
    hide Alike, Renamed, LegibleName, LegibleLabel, LabelPlace, GivenTo, ByPlace, RenamePieces;
    if LabelPlace(a) {
      CorrespondsLabel(f, g, leq, a.block, b.block);
    } else {
      Corresponds(f, g, leq, a.block, b.block);
    }
    PiecesCorrespond(f, g, leq, a.operand, b.operand);
  }

  /** Renaming keeps legible arms apart. */
  lemma ArmsApart(g: Function, a: Arm, b: Arm)
    requires Valid(g) && RenameArm(Renames(GivenTo(g)), a) == RenameArm(Renames(GivenTo(g)), b)
    requires LegibleArm(g, a) && LegibleArm(g, b)
    ensures a == b
  {
    assert ArmNames(a, a.block) && ArmNames(b, b.block);
    SameLabelPlace(Renames(GivenTo(g)), Renames(GivenTo(g)), a, b);
    hide LegibleName, LegibleLabel, LabelPlace, GivenTo, Valid, RenamePieces;
    if LabelPlace(a) {
      LabelOnce(g, a.block);
      LabelOnce(g, b.block);
    }
    AnyApart(g, a.block, b.block);
    PiecesApart(g, a.operand, b.operand);
  }

  lemma AnyApart(g: Function, x: Name, y: Name)
    requires Valid(g) && LegibleName(g, x) && LegibleName(g, y) && GivenTo(g).Any(x) == GivenTo(g).Any(y)
    ensures x == y
  {
    GivenHas(g, x);
    GivenHas(g, y);
    hide Valid, ReachedLabel, DefinedIn;
    if Renamed(g, y) {
      var j := GivenAt(g, y);
      assert Taken(g, GivenTo(g).Any(y));
      assert Renamed(g, x);
    }
    if Renamed(g, x) {
      var i := GivenAt(g, x);
      assert Taken(g, GivenTo(g).Any(x));
      assert Renamed(g, y);
      var j := GivenAt(g, y);
      NamesDiffer(i, j);
      NamesDiffer(j, i);
    }
  }

  lemma PhiCorresponds(f: Function, g: Function, leq: (Arm, Arm) -> bool, s: Stmt, t: Stmt)
    requires Alike(f, g, leq) && LegibleStmt(f, s) && LegibleStmt(g, t) && s.Phi?
    requires Rendered(GivenTo(f), leq, s) == Rendered(GivenTo(g), leq, t)
    ensures StmtMatches(ByPlace(f, g), s, t) && Steady(ByPlace(f, g), g, s)
  {
    SizesAlike(f, g, leq);
    AlikeOrder(f, g, leq);
    RenderedIs(GivenTo(f), leq, s);
    RenderedIs(GivenTo(g), leq, t);
    var rf, rg, m := Renames(GivenTo(f)), Renames(GivenTo(g)), ByPlace(f, g);
    hide *;
    KindLegible(f, s);
    KindLegible(g, t);
    FoundRenamed(rf, s.arms);
    FoundRenamed(rg, t.arms);
    SortedEqual(leq, RenameArms(rf, s.arms), RenameArms(rg, t.arms));
    DefCorresponds(f, g, leq, s, t);
    PiecesCorrespond(f, g, leq, s.kind, t.kind);
    forall i | 0 <= i < |s.arms|
      ensures exists k :: 0 <= k < |t.arms| && ArmMatches(m, g, rf, rg, s.arms[i], t.arms[k])
    {
      var k := Counterpart(f, g, leq, s, t, i);
    }
    ArmsCorrespond(f, g, leq, rf, m, s, t);
    PhiMatches(m, g, s, t);
  }

  /** An arm's counterpart: renamed to it, rendered like it, and steady. */
  ghost predicate ArmMatches(m: Bijection, g: Function, rf: Renaming, rg: Renaming, a: Arm, b: Arm) {
    && b == RenameArm(Hats(m), a) && RenameArm(rg, b) == RenameArm(rf, a)
    && forall x :: ArmNames(a, x) && x !in m ==> !Renamed(g, x)
  }

  lemma ArmsCorrespond(f: Function, g: Function, leq: (Arm, Arm) -> bool, rf: Renaming, m: Bijection, s: Stmt, t: Stmt)
    requires Alike(f, g, leq) && s.Phi? && t.Phi? && LegibleStmt(g, t)
    requires multiset(RenameArms(rf, s.arms)) == multiset(RenameArms(Renames(GivenTo(g)), t.arms))
    requires forall i :: 0 <= i < |s.arms| ==>
      exists k :: 0 <= k < |t.arms| && ArmMatches(m, g, rf, Renames(GivenTo(g)), s.arms[i], t.arms[k])
    ensures multiset(t.arms) == multiset(RenameArms(Hats(m), s.arms))
    ensures forall i, x :: 0 <= i < |s.arms| && ArmNames(s.arms[i], x) && x !in m ==> !Renamed(g, x)
  {
    SizesAlike(f, g, leq);
    hide Alike, LegibleStmt, ArmNames, Renamed, RenameArm;
    var rg, hat := Renames(GivenTo(g)), RenameArms(Hats(m), s.arms);
    forall i | 0 <= i < |s.arms|
      ensures hat[i] in t.arms && RenameArm(rg, hat[i]) == RenameArm(rf, s.arms[i])
    {
      var k :| 0 <= k < |t.arms| && ArmMatches(m, g, rf, rg, s.arms[i], t.arms[k]);
    }
    assert RenameArms(rg, hat) == RenameArms(rf, s.arms);
    HatsApart(f, g, leq, t, hat);
  }

  lemma PhiMatches(m: Bijection, g: Function, s: Stmt, t: Stmt)
    requires s.Phi? && t.Phi? && t.kind == RenamePieces(Hats(m), s.kind) && t.def == RenameDef(Hats(m), s.def)
    requires s.rest == [] && t.rest == [] && forall x :: Named(x) in s.kind && x !in m ==> !Renamed(g, x)
    requires multiset(t.arms) == multiset(RenameArms(Hats(m), s.arms))
    requires forall x :: s.def == Defines(x) && x !in m ==> !Renamed(g, x)
    requires forall i, x :: 0 <= i < |s.arms| && ArmNames(s.arms[i], x) && x !in m ==> !Renamed(g, x)
    ensures StmtMatches(m, s, t) && Steady(m, g, s)
  {
    hide ArmNames, Renamed;
  }

  lemma AlikeOrder(f: Function, g: Function, leq: (Arm, Arm) -> bool)
    requires Alike(f, g, leq)
    ensures TotalOrder(leq)
  {
  }

  /** Arms all taken from those of `t` and rendered like them are those of `t`. */
  lemma HatsApart(f: Function, g: Function, leq: (Arm, Arm) -> bool, t: Stmt, hat: seq<Arm>)
    requires Alike(f, g, leq) && t.Phi? && LegibleStmt(g, t) && forall i :: 0 <= i < |hat| ==> hat[i] in t.arms
    requires multiset(RenameArms(Renames(GivenTo(g)), hat)) == multiset(RenameArms(Renames(GivenTo(g)), t.arms))
    ensures multiset(t.arms) == multiset(hat)
  {
    var rg := Renames(GivenTo(g));
    forall a, b | a in multiset(hat) + multiset(t.arms) && b in multiset(hat) + multiset(t.arms)
      && RenameArm(rg, a) == RenameArm(rg, b)
      ensures a == b
    {
      ArmsOf(g, t, hat, a);
      ArmsOf(g, t, hat, b);
      ArmsApart(g, a, b);
    }
    hide Alike, LegibleStmt;
    MappedEqual(a => RenameArm(rg, a), hat, t.arms);
  }

  /** An arm of `t` that is rendered like arm `i` of `s`. */
  lemma Counterpart(f: Function, g: Function, leq: (Arm, Arm) -> bool, s: Stmt, t: Stmt, i: nat) returns (k: nat)
    requires Alike(f, g, leq) && LegibleStmt(f, s) && LegibleStmt(g, t) && s.Phi? && t.Phi? && i < |s.arms|
    requires multiset(RenameArms(Renames(GivenTo(f)), s.arms)) == multiset(RenameArms(Renames(GivenTo(g)), t.arms))
    ensures |f.blocks| > 0 && |g.blocks| > 0 && k < |t.arms|
    ensures ArmMatches(ByPlace(f, g), g, Renames(GivenTo(f)), Renames(GivenTo(g)), s.arms[i], t.arms[k])
  {
    SizesAlike(f, g, leq);
    var rf, rg, m := Renames(GivenTo(f)), Renames(GivenTo(g)), ByPlace(f, g);
    hide *;
    k := SameArm(rf, rg, s.arms, t.arms, i);
    ArmLegible(f, s, i);
    ArmLegible(g, t, k);
    ArmCorresponds(f, g, leq, s.arms[i], t.arms[k]);
    ArmMatchesIs(m, g, rf, rg, s.arms[i], t.arms[k]);
  }

  lemma SameArm(rf: Renaming, rg: Renaming, s: seq<Arm>, t: seq<Arm>, i: nat) returns (k: nat)
    requires i < |s| && multiset(RenameArms(rf, s)) == multiset(RenameArms(rg, t))
    ensures k < |t| && RenameArm(rf, s[i]) == RenameArm(rg, t[k])
  {
    hide RenameArm;
    assert RenameArms(rf, s)[i] in multiset(RenameArms(rg, t));
    k :| 0 <= k < |t| && RenameArms(rg, t)[k] == RenameArms(rf, s)[i];
  }

  lemma ArmMatchesIs(m: Bijection, g: Function, rf: Renaming, rg: Renaming, a: Arm, b: Arm)
    requires b == RenameArm(Hats(m), a) && RenameArm(rg, b) == RenameArm(rf, a)
    requires forall x :: ArmNames(a, x) && x !in m ==> !Renamed(g, x)
    ensures ArmMatches(m, g, rf, rg, a, b)
  {
  }

  lemma ArmsOf(g: Function, t: Stmt, hat: seq<Arm>, a: Arm)
    requires |g.blocks| > 0 && t.Phi? && LegibleStmt(g, t) && (forall i :: 0 <= i < |hat| ==> hat[i] in t.arms)
    requires a in multiset(hat) + multiset(t.arms)
    ensures LegibleArm(g, a)
  {
    hide LegibleStmt, LegibleArm;
    assert a in t.arms by {
      if a in hat { var i :| 0 <= i < |hat| && hat[i] == a; }
    }
    var k :| 0 <= k < |t.arms| && t.arms[k] == a;
    ArmLegible(g, t, k);
  }

  ghost predicate AllLegible(f: Function, body: seq<Stmt>)
    requires |f.blocks| > 0
  {
    forall k :: 0 <= k < |body| ==> LegibleStmt(f, body[k])
  }

  lemma BodyLegible(f: Function, b: Name)
    requires |f.blocks| > 0 && Legible(f) && ReachedLabel(f, b) && b in Labels(f)
    ensures AllLegible(f, BodyOf(f, b))
  {
    hide ReachedLabel, LegibleNames, LegibleLabels;
    forall k | 0 <= k < |BodyOf(f, b)|
      ensures LegibleStmt(f, BodyOf(f, b)[k])
    {
      assert LineLegible(f, b, k);
    }
  }

  lemma BlocksLegible(f: Function, g: Function, leq: (Arm, Arm) -> bool, i: nat)
    requires Alike(f, g, leq) && Legible(f) && Legible(g) && i < |Order(f)|
    ensures Order(f)[i] in Labels(f) && Order(g)[i] in Labels(g)
    ensures AllLegible(f, BodyOf(f, Order(f)[i])) && AllLegible(g, BodyOf(g, Order(g)[i]))
    ensures BlockAlike(f, g, leq, i)
  {
    assert BlockAlike(f, g, leq, i);
    ValidRuns(f);
    ValidRuns(g);
    OrderIsReached(f);
    OrderIsReached(g);
    hide Legible, AllLegible, ReachedLabel;
    assert Order(f)[i] in Order(f) && Order(g)[i] in Order(g);
    BodyLegible(f, Order(f)[i]);
    BodyLegible(g, Order(g)[i]);
  }

  lemma BodyCorresponds(f: Function, g: Function, leq: (Arm, Arm) -> bool, s: seq<Stmt>, t: seq<Stmt>)
    requires Alike(f, g, leq) && AllLegible(f, s) && AllLegible(g, t)
    requires RenderedBody(GivenTo(f), leq, s) == RenderedBody(GivenTo(g), leq, t)
    ensures BodyMatches(ByPlace(f, g), g, s, t)
  {
    SizesAlike(f, g, leq);
    hide Alike, LegibleStmt, StmtMatches, Steady, Rendered;
    assert |RenderedBody(GivenTo(f), leq, s)| == |RenderedBody(GivenTo(g), leq, t)|;
    forall k | 0 <= k < |s| ensures StmtMatches(ByPlace(f, g), s[k], t[k]) && Steady(ByPlace(f, g), g, s[k]) {
      assert RenderedBody(GivenTo(f), leq, s)[k] == RenderedBody(GivenTo(g), leq, t)[k];
      if s[k].Plain? { PlainCorresponds(f, g, leq, s[k], t[k]); } else { PhiCorresponds(f, g, leq, s[k], t[k]); }
    }
  }

  lemma ByPlaceBijection(f: Function, g: Function, leq: (Arm, Arm) -> bool)
    requires Alike(f, g, leq)
    ensures IsBijection(ByPlace(f, g), f, g)
  {
    var m := ByPlace(f, g);
    forall x ensures x in m <==> Renamed(f, x) { ByPlaceHas(f, g, leq, x); }
    forall x | x in m ensures SameKind(m, f, g, x) { PlaceKind(f, g, leq, x); }
    forall x, y | x in m && y in m && m[x] == m[y] ensures x == y { PlacesApart(f, g, leq, x, y); }
    forall y | Renamed(g, y) ensures Hit(m, y) { var x := PlaceBack(f, g, leq, y); }
  }

  lemma PlaceKind(f: Function, g: Function, leq: (Arm, Arm) -> bool, x: Name)
    requires Alike(f, g, leq) && Renamed(f, x)
    ensures x in ByPlace(f, g) && SameKind(ByPlace(f, g), f, g, x)
  {
    var i := PlaceOf(f, g, leq, x);
    RenamedAre(f);
    RenamedAre(g);
    var y := ByPlace(f, g)[x];
    assert if ReachedLabel(f, x) then y in Order(g) else y in DefsOf(g, Order(g));
  }

  lemma PlacesApart(f: Function, g: Function, leq: (Arm, Arm) -> bool, x: Name, y: Name)
    requires Alike(f, g, leq) && Renamed(f, x) && Renamed(f, y)
    requires x in ByPlace(f, g) && y in ByPlace(f, g) && ByPlace(f, g)[x] == ByPlace(f, g)[y]
    ensures x == y
  {
    PlaceKind(f, g, leq, x);
    PlaceKind(f, g, leq, y);
    GivenHas(g, ByPlace(f, g)[x]);
    RenamedAre(g);
    hide Valid, BlockAlike, ReachedLabel, DefinedIn;
    var i := PlaceOf(f, g, leq, x);
    var j := PlaceOf(f, g, leq, y);
    assert ReachedLabel(f, x) <==> ReachedLabel(f, y);
    assert i == j;
  }

  lemma PlaceBack(f: Function, g: Function, leq: (Arm, Arm) -> bool, y: Name) returns (x: Name)
    requires Alike(f, g, leq) && Renamed(g, y)
    ensures x in ByPlace(f, g) && ByPlace(f, g)[x] == y
  {
    var j := GivenAt(g, y);
    hide Valid, BlockAlike;
    ByPlaceAt(f, g, leq, j);
    x := if ReachedLabel(g, y) then Order(f)[j] else DefsOf(f, Order(f))[j];
  }

  lemma AlikeIsomorphic(f: Function, g: Function, leq: (Arm, Arm) -> bool)
    requires Alike(f, g, leq) && Legible(f) && Legible(g)
    ensures Isomorphic(ByPlace(f, g), f, g)
  {
    var m := ByPlace(f, g);
    ByPlaceBijection(f, g, leq);
    OrderStarts(f);
    OrderStarts(g);
    ByPlaceAt(f, g, leq, 0);
    forall b | ReachedLabel(f, b) && b in m && b in Labels(f) && m[b] in Labels(g)
      ensures BodyMatches(m, g, BodyOf(f, b), BodyOf(g, m[b]))
    {
      var i := PlaceOf(f, g, leq, b);
      BlocksLegible(f, g, leq, i);
      hide Alike, Legible, AllLegible, BodyMatches;
      BodyCorresponds(f, g, leq, BodyOf(f, b), BodyOf(g, m[b]));
    }
  }

  lemma SameFormAlike(f: Function, g: Function, leq: (Arm, Arm) -> bool)
    requires Valid(f) && Valid(g) && TotalOrder(leq) && FormOf(f, leq) == FormOf(g, leq)
    ensures Alike(f, g, leq)
  {
    BlocksAlike(f, g, leq);
    DefsOfAlike(f, g, leq, |Order(f)|);
    assert Order(f)[..|Order(f)|] == Order(f) && Order(g)[..|Order(g)|] == Order(g);
  }

  /**
   * The form decides whether two legible functions are the same: their forms are equal exactly when some bijection of
   * listed blocks and the values they define maps one to the other.
   */
  lemma FormDecidesIsomorphism(f: Function, g: Function, leq: (Arm, Arm) -> bool)
    requires Valid(f) && Valid(g) && Legible(f) && Legible(g) && TotalOrder(leq)
    ensures FormOf(f, leq) == FormOf(g, leq) <==> exists m :: Isomorphic(m, f, g)
  {
    if FormOf(f, leq) == FormOf(g, leq) {
      SameFormAlike(f, g, leq);
      AlikeIsomorphic(f, g, leq);
    }
    if exists m :: Isomorphic(m, f, g) {
      var m :| Isomorphic(m, f, g);
      LegibleIs(f);
      LegibleIs(g);
      IsomorphicSameForm(m, f, g, leq);
    }
  }
}
