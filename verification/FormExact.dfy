/**
 * When the form decides: exactly when the function is legible. A label that is renamed twice makes the form differ
 * from that of an isomorphic function; a kept name that is given elsewhere, or a phi that is cut, makes it equal to
 * that of another one.
 */
module FormExact {
  import opened Lists
  import opened Names
  import opened IrFunctions
  import opened ArmSorting
  import opened Canonical
  import opened Phis
  import opened Isomorphism
  import opened SameForm
  import opened FormDecides
  import opened KeptNames
  import opened DroppedText
  import opened Relabelling

  /** A legible function and its relabelling, with one form. */
  ghost predicate OneForm(m: Bijection, n: nat, f: Function, leq: (Arm, Arm) -> bool) {
    && Freshens(m, n, f) && Valid(Relabelled(m, f)) && TotalOrder(leq)
    && FormOf(f, leq) == FormOf(Relabelled(m, f), leq)
  }

  lemma OneFormIs(m: Bijection, n: nat, f: Function, leq: (Arm, Arm) -> bool)
    requires OneForm(m, n, f, leq)
    ensures Freshens(m, n, f) && Valid(f) && Valid(Relabelled(m, f)) && |f.blocks| > 0 && |Relabelled(m, f).blocks| > 0
    ensures TotalOrder(leq)
  {
  }

  lemma ListedAt(f: Function, b: Name) returns (i: nat)
    requires Valid(f) && ReachedLabel(f, b)
    ensures i < |Order(f)| && Order(f)[i] == b
  {
    RenamedAre(f);
    i := IndexOf(Order(f), b);
  }

  lemma BodiesAlike(m: Bijection, n: nat, f: Function, leq: (Arm, Arm) -> bool, b: Name)
    requires OneForm(m, n, f, leq) && ReachedLabel(f, b) && b in Labels(f)
    ensures |f.blocks| > 0 && |Relabelled(m, f).blocks| > 0
    ensures RenderedBody(GivenTo(f), leq, BodyOf(f, b))
         == RenderedBody(GivenTo(Relabelled(m, f)), leq, RelabelledBody(m, BodyOf(f, b)))
  {
    var g := Relabelled(m, f);
    OneFormIs(m, n, f, leq);
    RelabelledIsomorphic(m, n, f);
    FreshensIs(m, n, f, b);
    BlocksAlike(f, g, leq);
    OrdersCorrespond(m, f, g);
    RelabelledBodyOf(m, n, f, b);
    var i := ListedAt(f, b);
    assert BlockAlike(f, g, leq, i);
    hide OneForm, Freshens, Pair, Valid, Order, Relabelled, GivenTo, RenderedBody;
    MappedAt(m, Order(f), i);
  }

  lemma LinesAlike(m: Bijection, n: nat, f: Function, leq: (Arm, Arm) -> bool, b: Name, k: nat)
    requires OneForm(m, n, f, leq) && Shown(f, b, k)
    ensures |f.blocks| > 0 && |Relabelled(m, f).blocks| > 0
    ensures Rendered(GivenTo(f), leq, BodyOf(f, b)[k])
         == Rendered(GivenTo(Relabelled(m, f)), leq, RenameStmt(Hats(m), BodyOf(f, b)[k]))
  {
    hide OneForm, Rendered, Relabelled, GivenTo;
    BodiesAlike(m, n, f, leq, b);
    assert RenderedBody(GivenTo(f), leq, BodyOf(f, b))[k]
        == RenderedBody(GivenTo(Relabelled(m, f)), leq, RelabelledBody(m, BodyOf(f, b)))[k];
  }

  /** In the relabelled function a label is given what any other name is. */
  lemma LabelGiven(m: Bijection, n: nat, f: Function, x: Name)
    requires Freshens(m, n, f) && Uses(f, x) && |f.blocks| > 0 && |Relabelled(m, f).blocks| > 0
    ensures GivenTo(Relabelled(m, f)).Label(Hat(m, x)) == GivenTo(f).Any(x)
  {
    var g := Relabelled(m, f);
    RelabelledIsomorphic(m, n, f);
    RelabelledValid(m, n, f);
    RelabelledLegible(m, n, f, Hat(m, x));
    if x !in m { KeptStays(m, n, f, x); }
    hide Freshens, Pair, Valid, Relabelled, GivenTo, Uses, Renamed, LegibleLabel;
    GivenTheSame(m, f, g, x);
    LabelOnce(g, Hat(m, x));
  }

  lemma LabelTwice(f: Function, x: Name)
    requires Valid(f)
    ensures GivenTo(f).Label(x) == if ReachedLabel(f, x) then GivenTo(f).Any(GivenTo(f).Any(x)) else GivenTo(f).Any(x)
  {
    GivenHas(f, x);
  }

  lemma LabelUses(f: Function, b: Name, k: nat, x: Name)
    requires Shown(f, b, k) && LabelIn(BodyOf(f, b)[k], x)
    ensures Uses(f, x)
  {
    LabelIsNamed(BodyOf(f, b)[k], x);
    hide StmtNames, LabelIn;
    assert LineNames(f, b, k, x);
  }

  /** With one form, a reached label that a plain line names is legible. */
  lemma PlainLabelLegible(m: Bijection, n: nat, f: Function, leq: (Arm, Arm) -> bool, b: Name, k: nat, x: Name)
    requires OneForm(m, n, f, leq) && Shown(f, b, k) && BodyOf(f, b)[k].Plain? && LabelIn(BodyOf(f, b)[k], x)
    ensures |f.blocks| > 0 && LegibleLabel(f, x)
  {
    var g, s := Relabelled(m, f), BodyOf(f, b)[k];
    var j :| 0 <= j < |s.tokens| && s.tokens[j] == LabelRef(x);
    LabelUses(f, b, k, x);
    OneFormIs(m, n, f, leq);
    LinesAlike(m, n, f, leq, b, k);
    LabelGiven(m, n, f, x);
    LabelTwice(f, x);
    hide OneForm, Freshens, Valid, Relabelled, GivenTo, Uses, ReachedLabel, BodyOf, Labels;
    RenderedIs(GivenTo(f), leq, s);
    RenderedIs(GivenTo(g), leq, RenameStmt(Hats(m), s));
    assert RenameTokens(Renames(GivenTo(f)), s.tokens)[j] == LabelRef(GivenTo(f).Label(x));
    assert RenameTokens(Renames(GivenTo(g)), RenameTokens(Hats(m), s.tokens))[j]
      == LabelRef(GivenTo(g).Label(Hat(m, x)));
  }

  lemma LedTo(f: Function, x: Name) returns (b: Name)
    requires ReachedLabel(f, x) && |f.blocks| > 0 && x != Entry(f)
    ensures ReachedLabel(f, b) && x in SuccessorsOf(f, b)
  {
    var p :| LabelPath(f, p) && p[|p| - 1] == x;
    hide SuccessorsOf;
    assert LabelPath(f, p[..|p| - 1]);
    b := p[|p| - 2];
  }

  /** A listed block other than the entry is named by the last line of another. */
  lemma Predecessor(f: Function, x: Name) returns (b: Name, k: nat)
    requires Valid(f) && ReachedLabel(f, x) && x != Entry(f)
    ensures Shown(f, b, k) && BodyOf(f, b)[k].Plain? && LabelIn(BodyOf(f, b)[k], x)
  {
    b := LedTo(f, x);
    hide Valid, ReachedLabel, Labels, BodyOf;
    var body := BodyOf(f, b);
    k := |body| - 1;
    OnceHas(TokenLabels(body[k].tokens));
    var j := TokenOfLabel(body[k].tokens, x);
  }

  /** What is given to the entry is given to no other name, twice renamed or not. */
  lemma EntryGiven(f: Function, y: Name)
    requires Valid(f) && GivenTo(f).Label(y) == GivenTo(f).Any(Entry(f)) && (y != Entry(f) ==> LegibleLabel(f, y))
    ensures LegibleLabel(f, Entry(f))
  {
    var e := Entry(f);
    LabelTwice(f, y);
    OrderStarts(f);
    RenamedAre(f);
    GivenHas(f, y);
    hide Valid, GivenTo, ReachedLabel, DefinedIn;
    assert Order(f)[0] in Order(f);
    PlaceGiven(f, e, 0);
    if Renamed(f, y) && y != e {
      var i := GivenAt(f, y);
      NamesDiffer(0, i);
    }
  }

  lemma ArmLabelGiven(
      m: Bijection, n: nat, f: Function, leq: (Arm, Arm) -> bool, b: Name, k: nat, x: Name)
    returns (y: Name)
    requires OneForm(m, n, f, leq) && Shown(f, b, k) && BodyOf(f, b)[k].Phi? && LabelIn(BodyOf(f, b)[k], x)
    ensures |f.blocks| > 0 && GivenTo(f).Label(y) == GivenTo(f).Any(x)
  {
    var g, s := Relabelled(m, f), BodyOf(f, b)[k];
    var i :| 0 <= i < |s.arms| && s.arms[i].block == x && LabelPlace(s.arms[i]);
    LabelUses(f, b, k, x);
    OneFormIs(m, n, f, leq);
    LinesAlike(m, n, f, leq, b, k);
    LabelGiven(m, n, f, x);
    y := SameArmLabel(m, GivenTo(f), GivenTo(g), leq, s, i);
  }

  lemma SameArmLabel(m: Bijection, to: Given, other: Given, leq: (Arm, Arm) -> bool, s: Stmt, i: nat) returns (y: Name)
    requires TotalOrder(leq) && s.Phi? && i < |s.arms| && LabelPlace(s.arms[i])
    requires Rendered(to, leq, s) == Rendered(other, leq, RenameStmt(Hats(m), s))
    ensures to.Label(y) == other.Label(Hat(m, s.arms[i].block))
  {
    var t := RenameStmt(Hats(m), s);
    var hat := RenameArms(Hats(m), s.arms);
    PlaceKept(Hats(m), s.arms[i]);
    assert hat[i].block == Hat(m, s.arms[i].block) && LabelPlace(hat[i]) && !Bracketed(hat[i]);
    hide *;
    RenderedIs(to, leq, s);
    RenderedPhi(m, other, leq, s);
    SortedEqual(leq, Found(RenameArms(Renames(to), s.arms)), Found(RenameArms(Renames(other), hat)));
    FoundRenamed(Renames(to), s.arms);
    FoundRenamed(Renames(other), hat);
    var j := FoundIn(hat, i);
    var k := SameArm(Renames(other), Renames(to), Found(hat), Found(s.arms), j);
    y := Found(s.arms)[k].block;
    ArmLabels(to, other, Found(s.arms)[k], hat[i]);
  }

  lemma RenderedPhi(m: Bijection, given: Given, leq: (Arm, Arm) -> bool, s: Stmt)
    requires s.Phi?
    ensures var r := Renames(given);
      Rendered(given, leq, RenameStmt(Hats(m), s)) ==
        Phi(RenameDef(r, RenameDef(Hats(m), s.def)), RenamePieces(r, RenamePieces(Hats(m), s.kind)), [],
          Sorted(leq, Found(RenameArms(r, RenameArms(Hats(m), s.arms)))))
  {
    hide RenameArms, Sorted, RenameDef, RenamePieces, Found;
  }

  lemma ArmLabels(to: Given, other: Given, a: Arm, b: Arm)
    requires RenameArm(Renames(other), b) == RenameArm(Renames(to), a) && LabelPlace(b)
    ensures to.Label(a.block) == other.Label(b.block)
  {
    SameLabelPlace(Renames(other), Renames(to), b, a);
  }

  lemma AllLabelsLegible(m: Bijection, n: nat, f: Function, leq: (Arm, Arm) -> bool)
    requires OneForm(m, n, f, leq)
    ensures |f.blocks| > 0 && LabelsLegible(f)
  {
    OneFormIs(m, n, f, leq);
    hide OneForm, Freshens, Valid, ReachedLabel, Relabelled, LegibleLabel;
    forall x | x != Entry(f)
      ensures LegibleLabel(f, x)
    {
      OtherLegible(m, n, f, leq, x);
    }
    forall b, k, x | Shown(f, b, k) && LabelIn(BodyOf(f, b)[k], x)
      ensures LegibleLabel(f, x)
    {
      if BodyOf(f, b)[k].Plain? {
        PlainLabelLegible(m, n, f, leq, b, k, x);
      } else if x == Entry(f) {
        var y := ArmLabelGiven(m, n, f, leq, b, k, x);
        EntryGiven(f, y);
      }
    }
  }

  lemma OtherLegible(m: Bijection, n: nat, f: Function, leq: (Arm, Arm) -> bool, x: Name)
    requires OneForm(m, n, f, leq) && |f.blocks| > 0 && x != Entry(f)
    ensures LegibleLabel(f, x)
  {
    OneFormIs(m, n, f, leq);
    hide OneForm, Freshens, Valid, Relabelled;
    if ReachedLabel(f, x) {
      hide *;
      var b, k := Predecessor(f, x);
      PlainLabelLegible(m, n, f, leq, b, k, x);
    }
  }

  /** A shown label that is renamed twice: the function with fresh names is isomorphic and its form is another. */
  lemma TwiceRenamedTells(f: Function, leq: (Arm, Arm) -> bool) returns (m: Bijection, g: Function)
    requires Valid(f) && TotalOrder(leq) && !LabelsLegible(f)
    ensures Valid(g) && NoWorse(f, g) && Isomorphic(m, f, g) && FormOf(f, leq) != FormOf(g, leq)
  {
    var n: nat;
    m, n := Freshening(f);
    g := Relabelled(m, f);
    RelabelledIsomorphic(m, n, f);
    RelabelledValid(m, n, f);
    RelabelledNoWorse(m, n, f);
    hide Valid, Freshens, Relabelled, LabelsLegible, NoWorse, Isomorphic;
    if FormOf(f, leq) == FormOf(g, leq) {
      AllLabelsLegible(m, n, f, leq);
    }
  }

  /** Equality of forms and isomorphism agree on `f` and `g`. */
  ghost predicate Decided(f: Function, g: Function, leq: (Arm, Arm) -> bool) {
    FormOf(f, leq) == FormOf(g, leq) <==> exists m :: Isomorphic(m, f, g)
  }

  lemma LegibleDecided(f: Function, g: Function, leq: (Arm, Arm) -> bool)
    requires Valid(f) && Valid(g) && TotalOrder(leq) && Legible(f) && NoWorse(f, g)
    ensures Decided(f, g, leq)
  {
    LegibleIs(f);
    LegibleIs(g);
    hide Valid, Legible, LabelsLegible, Mistaken, Isomorphic;
    FormDecidesIsomorphism(f, g, leq);
  }

  lemma DroppedLine(f: Function) returns (b: Name, k: nat)
    requires !AllInFull(f)
    ensures Shown(f, b, k) && !InFull(BodyOf(f, b)[k])
  {
    hide InFull, ReachedLabel;
    b, k :| Shown(f, b, k) && !InFull(BodyOf(f, b)[k]);
  }

  lemma IllegibleUndecided(f: Function, leq: (Arm, Arm) -> bool) returns (g: Function)
    requires Valid(f) && TotalOrder(leq) && !Legible(f)
    ensures Valid(g) && NoWorse(f, g) && !Decided(f, g, leq)
  {
    LegibleIs(f);
    hide Valid, Legible, LabelsLegible, InFull, Shown, Mistaken, NoWorse, Isomorphic, FormOf;
    if !LabelsLegible(f) {
      var m: Bijection;
      m, g := TwiceRenamedTells(f, leq);
    } else if AllInFull(f) {
      var x :| Mistaken(f, x);
      g := KeptNameConfuses(f, leq, x);
    } else {
      var b, k := DroppedLine(f);
      g := DroppedConfuses(f, leq, b, k);
    }
  }

  /**
   * The exact condition: the form decides whether `f` is the same as any function that is no worse to read, if and
   * only if `f` is legible.
   */
  lemma LegibleIffDecided(f: Function, leq: (Arm, Arm) -> bool)
    requires Valid(f) && TotalOrder(leq)
    ensures Legible(f) <==> forall g :: Valid(g) && NoWorse(f, g) ==> Decided(f, g, leq)
  {
    BlocksPresent(f, f);
    hide Valid, Legible, NoWorse, Decided, TotalOrder;
    if Legible(f) {
      forall g | Valid(g) && NoWorse(f, g)
        ensures Decided(f, g, leq)
      {
        LegibleDecided(f, g, leq);
      }
    } else {
      var g := IllegibleUndecided(f, leq);
    }
  }
}
