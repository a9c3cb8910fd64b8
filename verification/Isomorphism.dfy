/** When two functions are the same up to names and layout: a bijection of their reached blocks and defined values. */
module Isomorphism {
  import opened Lists
  import opened Names
  import opened IrFunctions
  import opened Canonical

  type Bijection = map<Name, Name>

  function Hat(m: Bijection, x: Name): Name {
    if x in m then m[x] else x
  }

  function Hats(m: Bijection): Renaming {
    Renaming(x => Hat(m, x), x => Hat(m, x))
  }

  /** `t` is `s` with names replaced, up to the order of a phi's arms. */
  ghost predicate StmtMatches(m: Bijection, s: Stmt, t: Stmt) {
    match s
    case Plain(_, _) => t == RenameStmt(Hats(m), s)
    case Phi(d, kind, rest, arms) =>
      && t.Phi? && t.def == RenameDef(Hats(m), d)
      && t.kind == RenamePieces(Hats(m), kind) && t.rest == RenamePieces(Hats(m), rest)
      && multiset(t.arms) == multiset(RenameArms(Hats(m), arms))
  }

  /** The names of `s` that stay are not names `canonical` replaces in `g`. */
  ghost predicate Steady(m: Bijection, g: Function, s: Stmt) {
    forall x :: StmtNames(s, x) && x !in m ==> !Renamed(g, x)
  }

  ghost predicate BodyMatches(m: Bijection, g: Function, s: seq<Stmt>, t: seq<Stmt>) {
    |s| == |t| && forall i :: 0 <= i < |s| ==> StmtMatches(m, s[i], t[i]) && Steady(m, g, s[i])
  }

  ghost predicate SameKind(m: Bijection, f: Function, g: Function, x: Name)
    requires x in m
  {
    (ReachedLabel(f, x) <==> ReachedLabel(g, m[x])) && (DefinedIn(f, x) <==> DefinedIn(g, m[x]))
  }

  ghost predicate Hit(m: Bijection, y: Name) {
    exists x :: x in m && m[x] == y
  }

  ghost predicate IsBijection(m: Bijection, f: Function, g: Function) {
    && (forall x :: x in m <==> Renamed(f, x))
    && (forall x {:trigger SameKind(m, f, g, x)} :: x in m ==> SameKind(m, f, g, x))
    && (forall x, y :: x in m && y in m && m[x] == m[y] ==> x == y)
    && (forall y {:trigger Hit(m, y)} :: Renamed(g, y) ==> Hit(m, y))
  }

  /**
   * `m` maps the reached blocks of `f` to those of `g`, and the values they define likewise, the entry to the entry,
   * and every body to a body that matches; names that are not replaced stay.
   */
  ghost predicate Isomorphic(m: Bijection, f: Function, g: Function) {
    && IsBijection(m, f, g) && |f.blocks| > 0 && |g.blocks| > 0
    && Entry(f) in m && m[Entry(f)] == Entry(g)
    && (forall b {:trigger BlockMatches(m, f, g, b)} :: BlockMatches(m, f, g, b))
  }

  /** Where `b` is a reached block, its body matches that of its counterpart. */
  ghost predicate BlockMatches(m: Bijection, f: Function, g: Function, b: Name) {
    ReachedLabel(f, b) && b in m && b in Labels(f) && m[b] in Labels(g) ==>
      BodyMatches(m, g, BodyOf(f, b), BodyOf(g, m[b]))
  }

  // Names that could be mistaken

  /** A name that `canonical` gives to a block or value of `f`. */
  ghost predicate Taken(f: Function, x: Name)
    requires |f.blocks| > 0
  {
    exists i: nat ::
      || (i < |Order(f)| && x == BlockName(i))
      || (i < |DefsOf(f, Order(f))| && x == ValueName(i))
  }

  /** `x` is renamed as a label in `s`. */
  ghost predicate LabelIn(s: Stmt, x: Name) {
    if s.Plain? then exists i :: 0 <= i < |s.tokens| && s.tokens[i] == LabelRef(x)
    else exists i :: 0 <= i < |s.arms| && s.arms[i].block == x && LabelPlace(s.arms[i])
  }

  /** A name that stays is not one that is given. */
  ghost predicate LegibleName(f: Function, x: Name)
    requires |f.blocks| > 0
  {
    Renamed(f, x) || !Taken(f, x)
  }

  /** A label's new name is not renamed again. */
  ghost predicate LegibleLabel(f: Function, x: Name)
    requires |f.blocks| > 0
  {
    ReachedLabel(f, x) ==> GivenTo(f).Any(GivenTo(f).Any(x)) == GivenTo(f).Any(x)
  }

  ghost predicate LegibleNames(f: Function, s: Stmt)
    requires |f.blocks| > 0
  {
    forall x :: StmtNames(s, x) ==> LegibleName(f, x)
  }

  ghost predicate LegibleLabels(f: Function, s: Stmt)
    requires |f.blocks| > 0
  {
    forall x :: LabelIn(s, x) ==> LegibleLabel(f, x)
  }

  /** Line `k` of block `b` appears in the form. */
  ghost predicate Shown(f: Function, b: Name, k: int) {
    ReachedLabel(f, b) && b in Labels(f) && 0 <= k < |BodyOf(f, b)|
  }

  ghost predicate LineLegible(f: Function, b: Name, k: int)
    requires |f.blocks| > 0
  {
    Shown(f, b, k) ==>
      LegibleNames(f, BodyOf(f, b)[k]) && LegibleLabels(f, BodyOf(f, b)[k]) && InFull(BodyOf(f, b)[k])
  }

  /**
   * Nothing the form shows can be mistaken: no name that stays is given to something else, no label that is shown is
   * renamed twice, and nothing of a phi is dropped.
   */
  ghost predicate Legible(f: Function)
    requires |f.blocks| > 0
  {
    forall b, k {:trigger LineLegible(f, b, k)} :: LineLegible(f, b, k)
  }

  ghost predicate LabelsLegible(f: Function)
    requires |f.blocks| > 0
  {
    forall b, k :: Shown(f, b, k) ==> LegibleLabels(f, BodyOf(f, b)[k])
  }

  /** No shown phi has a second word to its type, or an arm with a bracket in its operand. */
  ghost predicate AllInFull(f: Function) {
    forall b, k :: Shown(f, b, k) ==> InFull(BodyOf(f, b)[k])
  }

  /** A name that is shown, stays, and is given to something else. */
  ghost predicate Mistaken(f: Function, x: Name)
    requires |f.blocks| > 0
  {
    exists b, k :: Shown(f, b, k) && StmtNames(BodyOf(f, b)[k], x) && !LegibleName(f, x)
  }

  /** A function is legible when its labels are, its phis are in full and no name is mistaken. */
  lemma LegibleIs(f: Function)
    requires |f.blocks| > 0
    ensures Legible(f) <==> LabelsLegible(f) && AllInFull(f) && forall x :: !Mistaken(f, x)
  {
    hide LegibleName, LegibleLabels, ReachedLabel, InFull;
    if Legible(f) {
      forall b, k | Shown(f, b, k)
        ensures LegibleNames(f, BodyOf(f, b)[k]) && LegibleLabels(f, BodyOf(f, b)[k]) && InFull(BodyOf(f, b)[k])
      {
        assert LineLegible(f, b, k);
      }
    }
    if LabelsLegible(f) && AllInFull(f) && forall x :: !Mistaken(f, x) {
      forall b, k
        ensures LineLegible(f, b, k)
      {
        if Shown(f, b, k) {
          forall x | StmtNames(BodyOf(f, b)[k], x)
            ensures LegibleName(f, x)
          {
            assert !Mistaken(f, x);
          }
        }
      }
    }
  }

  // What a valid function's replaced names are

  lemma RenamedAre(f: Function)
    requires Valid(f)
    ensures forall x :: ReachedLabel(f, x) <==> x in Order(f)
    ensures forall x :: DefinedIn(f, x) <==> x in DefsOf(f, Order(f))
    ensures forall x :: x in Order(f) ==> x in Labels(f) && x !in DefsOf(f, Order(f))
    ensures Distinct(Order(f)) && Distinct(DefsOf(f, Order(f)))
  {
    ValidRuns(f);
    OrderIsReached(f);
    DefsDistinct(f, Order(f));
    forall x ensures DefinedIn(f, x) <==> x in DefsOf(f, Order(f)) {
      DefsOfHas(f, Order(f), x);
      if DefinedIn(f, x) {
        var b :| ReachedLabel(f, b) && b in Labels(f) && x in Defs(BodyOf(f, b));
        assert b in Order(f);
      }
    }
    forall x | x in DefsOf(f, Order(f)) ensures x !in Order(f) {
      DefsOfHas(f, Order(f), x);
      var b :| b in Order(f) && b in Labels(f) && x in Defs(BodyOf(f, b));
      ValidBlock(f, b);
    }
  }

  lemma {:induction false} DefsAreNamed(body: seq<Stmt>, x: Name) returns (i: nat)
    requires x in Defs(body)
    ensures i < |body| && StmtNames(body[i], x)
    decreases |body|
  {
    var last := |body| - 1;
    if x in Defs(body[..last]) {
      i := DefsAreNamed(body[..last], x);
    } else {
      i := last;
    }
  }

  // What `rename` gives

  lemma GivenHas(f: Function, x: Name)
    requires Valid(f)
    ensures x in GivenTo(f).names <==> ReachedLabel(f, x)
    ensures x in GivenTo(f).values <==> DefinedIn(f, x)
    ensures !(ReachedLabel(f, x) && DefinedIn(f, x))
    ensures !Renamed(f, x) ==> GivenTo(f).Any(x) == x
  {
    RenamedAre(f);
    MapsHave(Order(f), x);
    MapsHave(DefsOf(f, Order(f)), x);
  }

  /** A replaced name becomes the block or value name of its place. */
  lemma GivenAt(f: Function, x: Name) returns (i: nat)
    requires Valid(f) && Renamed(f, x)
    ensures if ReachedLabel(f, x) then i < |Order(f)| && Order(f)[i] == x && GivenTo(f).Any(x) == BlockName(i)
            else i < |DefsOf(f, Order(f))| && DefsOf(f, Order(f))[i] == x && GivenTo(f).Any(x) == ValueName(i)
  {
    GivenHas(f, x);
    RenamedAre(f);
    if ReachedLabel(f, x) {
      i := IndexOf(Order(f), x);
      MapsAt(Order(f), i);
    } else {
      i := IndexOf(DefsOf(f, Order(f)), x);
      MapsAt(DefsOf(f, Order(f)), i);
    }
  }

  /** A legible label is renamed as any other name is. */
  lemma LabelOnce(f: Function, x: Name)
    requires Valid(f) && LegibleLabel(f, x)
    ensures GivenTo(f).Label(x) == GivenTo(f).Any(x)
  {
    GivenHas(f, x);
  }
}
