/**
 * What control reaches, next to what `canonical` lists. Its walk follows the labels on a block's last line only. A
 * `switch` is printed over several lines, the last of them `]`, so the blocks it leads to may not be listed at all.
 */
module Terminators {
  import opened Lists
  import opened Names
  import opened IrFunctions
  import opened ArmSorting
  import opened Canonical
  import opened Isomorphism
  import opened SameForm
  import opened FormDecides

  // The whole terminator

  /** In IR text only a terminator has `label %x`, on whichever of its lines. */
  ghost predicate LeadsTo(s: Stmt, x: Name) {
    s.Plain? && LabelIn(s, x)
  }

  /** The terminator of block `b` names `x` on some line. */
  ghost predicate GoesTo(f: Function, b: Name, x: Name) {
    b in Labels(f) && exists k :: 0 <= k < |BodyOf(f, b)| && LeadsTo(BodyOf(f, b)[k], x)
  }

  ghost predicate ControlPath(f: Function, p: seq<Name>) {
    && |f.blocks| > 0 && |p| > 0 && p[0] == Entry(f)
    && forall i, j :: 0 <= i < j < |p| && j == i + 1 ==> GoesTo(f, p[i], p[j])
  }

  ghost predicate ControlReached(f: Function, x: Name) {
    exists p :: ControlPath(f, p) && p[|p| - 1] == x
  }

  /** Every label on any line of a listed block is listed. */
  ghost predicate Whole(f: Function)
    requires |f.blocks| > 0
  {
    forall b, x :: b in Order(f) && GoesTo(f, b, x) ==> x in Order(f)
  }

  /** The successors of a block are the labels its last line leads to. */
  lemma SuccessorsLead(f: Function, b: Name, x: Name)
    requires b in Labels(f) && BodyOf(f, b) != []
    ensures x in SuccessorsOf(f, b) <==> LeadsTo(BodyOf(f, b)[|BodyOf(f, b)| - 1], x)
  {
    var last := BodyOf(f, b)[|BodyOf(f, b)| - 1];
    if last.Plain? {
      OnceHas(TokenLabels(last.tokens));
      if x in TokenLabels(last.tokens) { var j := TokenOfLabel(last.tokens, x); }
      if LabelIn(last, x) {
        var j :| 0 <= j < |last.tokens| && last.tokens[j] == LabelRef(x);
        LabelOfToken(last.tokens, j);
      }
    }
  }

  lemma SuccessorGoes(f: Function, b: Name, x: Name)
    requires x in SuccessorsOf(f, b)
    ensures GoesTo(f, b, x)
  {
    SuccessorsLead(f, b, x);
  }

  lemma ControlStep(f: Function, b: Name, x: Name)
    requires ControlReached(f, b) && GoesTo(f, b, x)
    ensures ControlReached(f, x)
  {
    var p :| ControlPath(f, p) && p[|p| - 1] == b;
    hide GoesTo;
    assert ControlPath(f, p + [x]) && (p + [x])[|p|] == x;
  }

  lemma {:induction false} ListedControlled(f: Function, p: seq<Name>)
    requires LabelPath(f, p)
    ensures ControlReached(f, p[|p| - 1])
    decreases |p|
  {
    hide SuccessorsOf, GoesTo;
    if |p| == 1 {
      assert ControlPath(f, p);
    } else {
      assert LabelPath(f, p[..|p| - 1]);
      ListedControlled(f, p[..|p| - 1]);
      SuccessorGoes(f, p[|p| - 2], p[|p| - 1]);
      ControlStep(f, p[|p| - 2], p[|p| - 1]);
    }
  }

  lemma {:induction false} PathListed(f: Function, p: seq<Name>)
    requires Runs(f) && Whole(f) && ControlPath(f, p)
    ensures p[|p| - 1] in Order(f)
    decreases |p|
  {
    hide Order, GoesTo;
    if |p| == 1 {
      OrderIsReached(f);
    } else {
      assert ControlPath(f, p[..|p| - 1]);
      PathListed(f, p[..|p| - 1]);
      assert GoesTo(f, p[|p| - 2], p[|p| - 1]);
    }
  }

  /** The form shows every block that control reaches exactly when each label of a listed block is listed. */
  lemma ShownIffWhole(f: Function)
    requires Runs(f)
    ensures (forall x :: ControlReached(f, x) ==> x in Order(f)) <==> Whole(f)
    ensures forall x :: x in Order(f) ==> ControlReached(f, x)
  {
    OrderIsReached(f);
    hide Runs, Order, GoesTo;
    forall x | x in Order(f)
      ensures ControlReached(f, x)
    {
      var p :| LabelPath(f, p) && p[|p| - 1] == x;
      ListedControlled(f, p);
    }
    if forall x :: ControlReached(f, x) ==> x in Order(f) {
      forall b, x | b in Order(f) && GoesTo(f, b, x)
        ensures x in Order(f)
      {
        ControlStep(f, b, x);
      }
    }
    if Whole(f) {
      forall x | ControlReached(f, x)
        ensures x in Order(f)
      {
        var p :| ControlPath(f, p) && p[|p| - 1] == x;
        PathListed(f, p);
      }
    }
  }

  // Isomorphism over any set of blocks

  ghost predicate DefinedBy(f: Function, blocks: iset<Name>, x: Name) {
    exists b :: b in blocks && b in Labels(f) && x in Defs(BodyOf(f, b))
  }

  ghost predicate Replaced(f: Function, blocks: iset<Name>, x: Name) {
    x in blocks || DefinedBy(f, blocks, x)
  }

  ghost predicate LineOver(m: Bijection, g: Function, blocks: iset<Name>, s: Stmt, t: Stmt) {
    StmtMatches(m, s, t) && forall x :: StmtNames(s, x) && x !in m ==> !Replaced(g, blocks, x)
  }

  ghost predicate BlockOver(m: Bijection, f: Function, g: Function, to: iset<Name>, b: Name) {
    b in m && b in Labels(f) && m[b] in Labels(g) ==>
      && |BodyOf(f, b)| == |BodyOf(g, m[b])|
      && forall i :: 0 <= i < |BodyOf(f, b)| ==> LineOver(m, g, to, BodyOf(f, b)[i], BodyOf(g, m[b])[i])
  }

  ghost predicate KindOver(m: Bijection, f: Function, from: iset<Name>, g: Function, to: iset<Name>, x: Name)
    requires x in m
  {
    (x in from <==> m[x] in to) && (DefinedBy(f, from, x) <==> DefinedBy(g, to, m[x]))
  }

  /** `m` maps the blocks `from` of `f`, and the values they define, to the blocks `to` of `g` and theirs. */
  ghost predicate IsomorphicOver(m: Bijection, f: Function, from: iset<Name>, g: Function, to: iset<Name>) {
    && (forall x :: x in m <==> Replaced(f, from, x))
    && (forall x {:trigger KindOver(m, f, from, g, to, x)} :: x in m ==> KindOver(m, f, from, g, to, x))
    && (forall x, y :: x in m && y in m && m[x] == m[y] ==> x == y)
    && (forall y {:trigger Hit(m, y)} :: Replaced(g, to, y) ==> Hit(m, y))
    && |f.blocks| > 0 && |g.blocks| > 0 && Entry(f) in m && m[Entry(f)] == Entry(g)
    && (forall b {:trigger BlockOver(m, f, g, to, b)} :: b in from ==> BlockOver(m, f, g, to, b))
  }

  ghost function ListedIn(f: Function): iset<Name> {
    iset x | ReachedLabel(f, x)
  }

  ghost function ControlledIn(f: Function): iset<Name> {
    iset x | ControlReached(f, x)
  }

  /** The same up to names and layout, every block that control reaches taken into account. */
  ghost predicate ControlIsomorphic(m: Bijection, f: Function, g: Function) {
    IsomorphicOver(m, f, ControlledIn(f), g, ControlledIn(g))
  }

  lemma DefinedListed(f: Function, x: Name)
    ensures DefinedBy(f, ListedIn(f), x) <==> DefinedIn(f, x)
    ensures Replaced(f, ListedIn(f), x) <==> Renamed(f, x)
  {
    hide ReachedLabel, BodyOf, Labels;
    if DefinedIn(f, x) {
      var b :| ReachedLabel(f, b) && b in Labels(f) && x in Defs(BodyOf(f, b));
      assert b in ListedIn(f);
    }
    if DefinedBy(f, ListedIn(f), x) {
      var b :| b in ListedIn(f) && b in Labels(f) && x in Defs(BodyOf(f, b));
    }
  }

  lemma BlockListed(m: Bijection, f: Function, g: Function, b: Name)
    ensures (ReachedLabel(f, b) ==> BlockOver(m, f, g, ListedIn(g), b)) <==> BlockMatches(m, f, g, b)
  {
    hide ReachedLabel, DefinedIn, DefinedBy, Replaced, Renamed, StmtMatches, StmtNames, BodyOf, Labels;
    forall x
      ensures Replaced(g, ListedIn(g), x) <==> Renamed(g, x)
    {
      DefinedListed(g, x);
    }
  }

  /** Over the listed blocks this is isomorphism as the form decides it. */
  lemma ListedIsomorphic(m: Bijection, f: Function, g: Function)
    ensures IsomorphicOver(m, f, ListedIn(f), g, ListedIn(g)) <==> Isomorphic(m, f, g)
  {
    hide ReachedLabel, DefinedIn, DefinedBy, Replaced, Renamed, BlockOver, BlockMatches;
    forall x
      ensures (Replaced(f, ListedIn(f), x) <==> Renamed(f, x)) && (Replaced(g, ListedIn(g), x) <==> Renamed(g, x))
      ensures DefinedBy(f, ListedIn(f), x) <==> DefinedIn(f, x)
      ensures DefinedBy(g, ListedIn(g), x) <==> DefinedIn(g, x)
    {
      DefinedListed(f, x);
      DefinedListed(g, x);
    }
    forall b
      ensures (ReachedLabel(f, b) ==> BlockOver(m, f, g, ListedIn(g), b)) <==> BlockMatches(m, f, g, b)
    {
      BlockListed(m, f, g, b);
    }
    forall x | x in m
      ensures KindOver(m, f, ListedIn(f), g, ListedIn(g), x) <==> SameKind(m, f, g, x)
    {
    }
  }

  // Listing every block that control reaches

  lemma WholeListed(f: Function)
    requires Runs(f) && Whole(f)
    ensures ControlledIn(f) == ListedIn(f)
  {
    OrderIsReached(f);
    ShownIffWhole(f);
    hide Runs, Whole, Order, ReachedLabel, ControlReached;
  }

  lemma LeadsToMatching(m: Bijection, s: Stmt, t: Stmt, x: Name)
    requires StmtMatches(m, s, t) && LeadsTo(s, x)
    ensures LeadsTo(t, Hat(m, x))
  {
    LabelMatches(m, s, t, x);
  }

  lemma LeadsFromMatching(m: Bijection, s: Stmt, t: Stmt, y: Name) returns (x: Name)
    requires StmtMatches(m, s, t) && LeadsTo(t, y)
    ensures LeadsTo(s, x) && y == Hat(m, x)
  {
    var j :| 0 <= j < |t.tokens| && t.tokens[j] == LabelRef(y);
    assert t.tokens[j] == RenameToken(Hats(m), s.tokens[j]);
    x := s.tokens[j].name;
  }

  lemma LabelKept(f: Function, b: Name)
    requires Valid(f) && ReachedLabel(f, b)
    ensures b in Labels(f) && BodyOf(f, b) != []
  {
    RenamedAre(f);
    ValidBlock(f, b);
  }

  lemma BodiesOver(m: Bijection, f: Function, g: Function, b: Name)
    requires ControlIsomorphic(m, f, g) && ControlReached(f, b) && b in m && b in Labels(f) && m[b] in Labels(g)
    ensures |BodyOf(f, b)| == |BodyOf(g, m[b])|
    ensures forall i :: 0 <= i < |BodyOf(f, b)| ==> StmtMatches(m, BodyOf(f, b)[i], BodyOf(g, m[b])[i])
  {
    hide ControlReached, StmtMatches, Labels, BodyOf, DefinedBy;
    assert BlockOver(m, f, g, ControlledIn(g), b);
    forall i | 0 <= i < |BodyOf(f, b)|
      ensures StmtMatches(m, BodyOf(f, b)[i], BodyOf(g, m[b])[i])
    {
      assert LineOver(m, g, ControlledIn(g), BodyOf(f, b)[i], BodyOf(g, m[b])[i]);
    }
  }

  lemma ControlledMapped(m: Bijection, f: Function, g: Function, x: Name)
    requires ControlIsomorphic(m, f, g) && ControlReached(f, x)
    ensures x in m && ControlReached(g, m[x])
  {
    hide ControlReached, DefinedBy, BlockOver;
    assert x in ControlledIn(f) && Replaced(f, ControlledIn(f), x);
    assert KindOver(m, f, ControlledIn(f), g, ControlledIn(g), x);
  }

  /** The counterpart of a successor is a successor. */
  lemma SuccessorOver(m: Bijection, f: Function, g: Function, b: Name, x: Name)
    requires ControlIsomorphic(m, f, g) && Valid(f) && Valid(g) && ReachedLabel(f, b) && b in m && ReachedLabel(g, m[b])
    requires x in SuccessorsOf(f, b) && ControlReached(f, b) && ControlReached(f, x)
    ensures x in m && m[x] in SuccessorsOf(g, m[b])
  {
    hide *;
    LabelKept(f, b);
    LabelKept(g, m[b]);
    SuccessorsLead(f, b, x);
    BodiesOver(m, f, g, b);
    ControlledMapped(m, f, g, x);
    var last := |BodyOf(f, b)| - 1;
    LeadsToMatching(m, BodyOf(f, b)[last], BodyOf(g, m[b])[last], x);
    HatIs(m, x);
    SuccessorsLead(g, m[b], m[x]);
  }

  lemma HatIs(m: Bijection, x: Name)
    requires x in m
    ensures Hat(m, x) == m[x]
  {
  }

  lemma {:induction false} ReachedOver(m: Bijection, f: Function, g: Function, p: seq<Name>)
    requires ControlIsomorphic(m, f, g) && Valid(f) && Valid(g) && LabelPath(f, p)
    ensures p[|p| - 1] in m && ReachedLabel(g, m[p[|p| - 1]])
    decreases |p|
  {
    hide *;
    PathIs(f, p);
    if |p| == 1 {
      EntryOver(m, f, g);
    } else {
      var b, x := p[|p| - 2], p[|p| - 1];
      ReachedOver(m, f, g, p[..|p| - 1]);
      ListedControlled(f, p[..|p| - 1]);
      ListedControlled(f, p);
      SuccessorOver(m, f, g, b, x);
      NextReached(g, m[b], m[x]);
    }
  }

  lemma EntryOver(m: Bijection, f: Function, g: Function)
    requires ControlIsomorphic(m, f, g)
    ensures |f.blocks| > 0 && |g.blocks| > 0 && Entry(f) in m && m[Entry(f)] == Entry(g)
    ensures ReachedLabel(g, Entry(g))
  {
    hide ControlReached, BlockOver, SuccessorsOf;
    assert LabelPath(g, [Entry(g)]);
  }

  lemma NextReached(g: Function, b: Name, x: Name)
    requires ReachedLabel(g, b) && x in SuccessorsOf(g, b)
    ensures ReachedLabel(g, x)
  {
    SuccessorsReached(g, b);
  }

  /** Where `f` lists all that control reaches, an isomorphism over all of it is one over what is listed. */
  lemma ControlledIsListed(m: Bijection, f: Function, g: Function)
    requires ControlIsomorphic(m, f, g) && Valid(f) && Valid(g) && Whole(f)
    ensures Isomorphic(m, f, g)
  {
    ValidRuns(f);
    ValidRuns(g);
    WholeListed(f);
    ShownIffWhole(g);
    OrderIsReached(g);
    forall y | ControlReached(g, y)
      ensures ReachedLabel(g, y)
    {
      var x := ControlledFrom(m, f, g, y);
      var p :| LabelPath(f, p) && p[|p| - 1] == x;
      ReachedOver(m, f, g, p);
    }
    hide Valid, Whole, Runs, Order, ReachedLabel, ControlReached, IsomorphicOver, Isomorphic;
    assert ControlledIn(g) == ListedIn(g);
    ListedIsomorphic(m, f, g);
  }

  lemma ControlledFrom(m: Bijection, f: Function, g: Function, y: Name) returns (x: Name)
    requires ControlIsomorphic(m, f, g) && ControlReached(g, y) && ControlledIn(f) == ListedIn(f)
    ensures ReachedLabel(f, x) && x in m && m[x] == y
  {
    hide ControlReached, ReachedLabel, DefinedBy;
    assert y in ControlledIn(g) && Replaced(g, ControlledIn(g), y);
    assert Hit(m, y);
    x :| x in m && m[x] == y;
    assert KindOver(m, f, ControlledIn(f), g, ControlledIn(g), x);
  }

  lemma ListedFrom(m: Bijection, f: Function, g: Function, y: Name) returns (x: Name)
    requires Isomorphic(m, f, g) && ReachedLabel(g, y)
    ensures ReachedLabel(f, x) && x in m && m[x] == y
  {
    hide ReachedLabel, DefinedIn;
    assert Renamed(g, y);
    assert Hit(m, y);
    x :| x in m && m[x] == y;
    assert SameKind(m, f, g, x);
  }

  lemma WholeToo(m: Bijection, f: Function, g: Function)
    requires Pair(m, f, g) && |f.blocks| > 0 && |g.blocks| > 0 && Whole(f)
    ensures Whole(g)
  {
    RenamedAre(f);
    RenamedAre(g);
    forall c, y | c in Order(g) && GoesTo(g, c, y)
      ensures y in Order(g)
    {
      hide Valid, Isomorphic, Order, Whole, ReachedLabel, DefinedIn;
      var x := LedToFrom(m, f, g, c, y);
    }
  }

  lemma LedToFrom(m: Bijection, f: Function, g: Function, c: Name, y: Name) returns (x: Name)
    requires Pair(m, f, g) && |f.blocks| > 0 && Whole(f) && ReachedLabel(g, c) && GoesTo(g, c, y)
    ensures ReachedLabel(g, y)
  {
    RenamedAre(f);
    var b := ListedFrom(m, f, g, c);
    BodiesMatch(m, f, g, b);
    PairIs(m, f, g);
    hide Pair, Valid, Isomorphic, Order, ReachedLabel, DefinedIn, LeadsTo, StmtMatches, Labels, BodyOf;
    var k :| 0 <= k < |BodyOf(g, c)| && LeadsTo(BodyOf(g, c)[k], y);
    x := LeadsFromMatching(m, BodyOf(f, b)[k], BodyOf(g, c)[k], y);
    assert GoesTo(f, b, x);
    assert ReachedLabel(f, x) && Renamed(f, x);
    assert SameKind(m, f, g, x);
  }

  /**
   * Where every label of a listed block is listed, the form decides whether the functions are the same in every block
   * that control reaches.
   */
  lemma FormDecidesControl(f: Function, g: Function, leq: (Arm, Arm) -> bool)
    requires Valid(f) && Valid(g) && Legible(f) && Legible(g) && Whole(f) && TotalOrder(leq)
    ensures FormOf(f, leq) == FormOf(g, leq) <==> exists m :: ControlIsomorphic(m, f, g)
  {
    BlocksPresent(f, g);
    FormDecidesIsomorphism(f, g, leq);
    hide Legible, FormOf, Whole, ControlIsomorphic, Isomorphic, Valid;
    if exists m :: ControlIsomorphic(m, f, g) {
      var m :| ControlIsomorphic(m, f, g);
      ControlledIsListed(m, f, g);
    }
    if exists m :: Isomorphic(m, f, g) {
      var m :| Isomorphic(m, f, g);
      ListedIsControlled(m, f, g);
    }
  }

  lemma ListedIsControlled(m: Bijection, f: Function, g: Function)
    requires Isomorphic(m, f, g) && Valid(f) && Valid(g) && Whole(f)
    ensures ControlIsomorphic(m, f, g)
  {
    hide IsomorphicOver, Isomorphic, Whole, Runs;
    BlocksPresent(f, g);
    ValidRuns(f);
    ValidRuns(g);
    WholeToo(m, f, g);
    WholeListed(f);
    WholeListed(g);
    ListedIsomorphic(m, f, g);
  }
}
