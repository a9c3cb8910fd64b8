/** What the form does not depend on, and an input on which a name that is kept is mistaken for one that is given. */
module FormLimits {
  import opened Lists
  import opened Names
  import opened IrFunctions
  import opened Canonical
  import opened Isomorphism

  // Layout

  /** The same labels name the same bodies. */
  ghost predicate SameBlocks(f: Function, g: Function) {
    && LabelSet(f) == LabelSet(g)
    && forall b :: b in Labels(f) && b in Labels(g) ==> BodyOf(f, b) == BodyOf(g, b)
  }

  lemma PermutedBlocks(f: Function, g: Function)
    requires Valid(f) && Valid(g) && multiset(f.blocks) == multiset(g.blocks)
    ensures SameBlocks(f, g)
  {
    forall b ensures b in Labels(f) <==> b in Labels(g) {
      if b in Labels(f) { var j := SameBlockIn(f, g, b); }
      if b in Labels(g) { var j := SameBlockIn(g, f, b); }
    }
    forall b | b in Labels(f) && b in Labels(g) ensures BodyOf(f, b) == BodyOf(g, b) {
      var j := SameBlockIn(f, g, b);
      IndexOfAt(Labels(g), j);
    }
  }

  lemma SameBlockIn(f: Function, g: Function, b: Name) returns (j: nat)
    requires b in Labels(f) && multiset(f.blocks) == multiset(g.blocks)
    ensures j < |g.blocks| && Labels(g)[j] == b && g.blocks[j].body == BodyOf(f, b)
  {
    var block := f.blocks[IndexOf(Labels(f), b)];
    assert block in multiset(g.blocks);
    j :| 0 <= j < |g.blocks| && g.blocks[j] == block;
  }

  /** The same labels, with the same successors and the same definitions. */
  ghost predicate SameSkeleton(f: Function, g: Function) {
    && LabelSet(f) == LabelSet(g) && forall b {:trigger SuccessorsOf(f, b)} {:trigger SuccessorsOf(g, b)} ::
         SuccessorsOf(f, b) == SuccessorsOf(g, b) && SameDefs(f, g, b)
  }

  ghost predicate SameDefs(f: Function, g: Function, b: Name) {
    b in Labels(f) && b in Labels(g) ==> Defs(BodyOf(f, b)) == Defs(BodyOf(g, b))
  }

  lemma SameLabel(f: Function, g: Function, b: Name)
    requires LabelSet(f) == LabelSet(g)
    ensures b in Labels(f) <==> b in Labels(g)
  {
    assert b in LabelSet(f) <==> b in LabelSet(g);
  }

  lemma BlocksSkeleton(f: Function, g: Function)
    requires SameBlocks(f, g)
    ensures SameSkeleton(f, g)
  {
    forall b
      ensures SuccessorsOf(f, b) == SuccessorsOf(g, b) && SameDefs(f, g, b)
    {
      SameLabel(f, g, b);
    }
  }

  lemma {:induction false} WalkSame(f: Function, g: Function, done: seq<Name>, stack: seq<Name>)
    requires SameSkeleton(f, g)
    ensures Walk(f, done, stack) == Walk(g, done, stack)
    decreases |LabelSet(f) - NameSet(done)|, |stack|
  {
    if stack == [] {
    } else {
      var id, rest := stack[|stack| - 1], stack[..|stack| - 1];
      SameLabel(f, g, id);
      if id in done || id !in Labels(f) {
        WalkSame(f, g, done, rest);
      } else {
        TakingShrinks(f, done, id);
        assert SuccessorsOf(f, id) == SuccessorsOf(g, id);
        WalkSame(f, g, done + [id], rest + Reversed(SuccessorsOf(f, id)));
      }
    }
  }

  lemma {:induction false} DefsOfSame(f: Function, g: Function, order: seq<Name>)
    requires SameSkeleton(f, g)
    ensures DefsOf(f, order) == DefsOf(g, order)
    decreases |order|
  {
    hide SuccessorsOf;
    if order == [] {
    } else {
      var last := order[|order| - 1];
      SameLabel(f, g, last);
      assert SuccessorsOf(f, last) == SuccessorsOf(g, last) && SameDefs(f, g, last);
      DefsOfSame(f, g, order[..|order| - 1]);
    }
  }

  /** Functions of one skeleton list the same blocks and give the same names. */
  lemma GivenSame(f: Function, g: Function)
    requires SameSkeleton(f, g) && |f.blocks| > 0 && |g.blocks| > 0 && Entry(f) == Entry(g)
    ensures Order(f) == Order(g) && DefsOf(f, Order(f)) == DefsOf(g, Order(g)) && GivenTo(f) == GivenTo(g)
  {
    WalkSame(f, g, [], [Entry(f)]);
    DefsOfSame(f, g, Order(f));
  }

  lemma ReachedSame(f: Function, g: Function)
    requires Valid(f) && Valid(g) && SameSkeleton(f, g) && Entry(f) == Entry(g)
    ensures forall x :: ReachedLabel(f, x) <==> ReachedLabel(g, x)
    ensures forall x :: Renamed(f, x) <==> Renamed(g, x)
  {
    GivenSame(f, g);
    RenamedAre(f);
    RenamedAre(g);
    hide SameSkeleton, Valid, Order, DefsOf, ReachedLabel, DefinedIn;
  }

  lemma SameLinesSameForm(f: Function, g: Function, leq: (Arm, Arm) -> bool)
    requires |f.blocks| > 0 && |g.blocks| > 0 && Order(f) == Order(g) && GivenTo(f) == GivenTo(g)
    requires forall c :: RenderedBlock(g, GivenTo(f), leq, c) == RenderedBlock(f, GivenTo(f), leq, c)
    ensures FormOf(f, leq) == FormOf(g, leq)
  {
    hide Order, GivenTo, RenderedBlock;
    assert RenderedBlocks(f, GivenTo(f), leq, Order(f)) == RenderedBlocks(g, GivenTo(g), leq, Order(g));
  }

  /** The form does not depend on the layout of the blocks after the entry, whatever their names. */
  lemma LayoutIrrelevant(f: Function, g: Function, leq: (Arm, Arm) -> bool)
    requires Valid(f) && Valid(g) && f.blocks[0] == g.blocks[0] && multiset(f.blocks) == multiset(g.blocks)
    ensures FormOf(f, leq) == FormOf(g, leq)
  {
    PermutedBlocks(f, g);
    BlocksSkeleton(f, g);
    GivenSame(f, g);
    forall c
      ensures RenderedBlock(g, GivenTo(f), leq, c) == RenderedBlock(f, GivenTo(f), leq, c)
    {
      SameLabel(f, g, c);
    }
    hide *;
    SameLinesSameForm(f, g, leq);
  }

  // One body replaced

  /** `f` with another body for block `b`. */
  function WithBody(f: Function, b: Name, body: seq<Stmt>): Function
    requires b in Labels(f)
  {
    Function(f.blocks[IndexOf(Labels(f), b) := Block(b, body)])
  }

  lemma WithBodyIs(f: Function, b: Name, body: seq<Stmt>)
    requires Distinct(Labels(f)) && b in Labels(f)
    ensures var g := WithBody(f, b, body);
            && Labels(g) == Labels(f) && b in Labels(g) && BodyOf(g, b) == body
            && forall c :: c in Labels(f) && c in Labels(g) && c != b ==> BodyOf(g, c) == BodyOf(f, c)
  {
    assert Labels(WithBody(f, b, body)) == Labels(f);
  }

  /** A body with the same successors and definitions keeps the skeleton. */
  lemma BodySkeleton(f: Function, b: Name, body: seq<Stmt>)
    requires Valid(f) && b in Labels(f) && body != []
    requires BodySuccessors(body) == BodySuccessors(BodyOf(f, b)) && Defs(body) == Defs(BodyOf(f, b))
    ensures SameSkeleton(f, WithBody(f, b, body)) && Valid(WithBody(f, b, body))
    ensures Entry(WithBody(f, b, body)) == Entry(f)
  {
    var g := WithBody(f, b, body);
    WithBodyIs(f, b, body);
    forall c
      ensures SuccessorsOf(f, c) == SuccessorsOf(g, c) && SameDefs(f, g, c)
    {
    }
    assert Labels(g)[0] == Labels(f)[0];
    forall c | c in Labels(f) && c in Labels(g)
      ensures BodyOf(g, c) != []
    {
      ValidBlock(f, c);
    }
    SkeletonValid(f, g);
  }

  lemma SkeletonValid(f: Function, g: Function)
    requires Valid(f) && SameSkeleton(f, g) && Labels(g) == Labels(f) && |g.blocks| > 0
    requires forall b :: b in Labels(f) && b in Labels(g) ==> BodyOf(g, b) != []
    ensures Valid(g)
  {
    hide SuccessorsOf;
    forall b | b in Labels(g)
      ensures BlockValid(g, b)
    {
      ValidBlock(f, b);
      assert SuccessorsOf(f, b) == SuccessorsOf(g, b) && SameDefs(f, g, b);
    }
    forall b, c, x | DefinesIn(g, b, x) && DefinesIn(g, c, x)
      ensures b == c
    {
      assert SuccessorsOf(f, b) == SuccessorsOf(g, b) && SuccessorsOf(f, c) == SuccessorsOf(g, c);
      assert SameDefs(f, g, b) && SameDefs(f, g, c);
      assert DefinesIn(f, b, x) && DefinesIn(f, c, x);
    }
  }

  // Generated names

  const E: Name := Name("entry")
  const X: Name := Name("x")

  function OneBlock(body: seq<Stmt>): Function {
    Function([Block(E, body)])
  }

  /** `%x = op` and then a return of `r`. */
  function Returning(r: Name): Function {
    OneBlock([Plain(Defines(X), [Text("op")]), Plain(NoValue, [Text("ret "), ValueRef(r)])])
  }

  lemma {:induction false} NoLabels(tokens: seq<Token>)
    requires forall i :: 0 <= i < |tokens| ==> !tokens[i].LabelRef?
    ensures TokenLabels(tokens) == []
    decreases |tokens|
  {
    if tokens == [] {
    } else {
      NoLabels(tokens[1..]);
    }
  }

  lemma ReturningParts(r: Name)
    ensures var body := Returning(r).blocks[0].body;
            BodySuccessors(body) == [] && Defs(body) == [X] && Labels(Returning(r)) == [E]
              && BodyOf(Returning(r), E) == body
  {
    var body := Returning(r).blocks[0].body;
    NoLabels(body[1].tokens);
    assert body[..1] == [body[0]] && body[..1][..0] == [] && Defs(body[..1][..0]) == [];
    assert Defs(body[..1]) == [X];
    assert Labels(Returning(r)) == [E];
  }

  lemma ReturningIs(r: Name)
    ensures Valid(Returning(r)) && Order(Returning(r)) == [E] && DefsOf(Returning(r), [E]) == [X]
    ensures BodyOf(Returning(r), E) == Returning(r).blocks[0].body
  {
    var f := Returning(r);
    ReturningParts(r);
    NotX();
    hide BodySuccessors, Defs, BodyOf, Labels, Order, Walk;
    ReturningValid(r);
    assert SuccessorsOf(f, E) == [];
    assert [E][..0] == [] && [] + [E] == [E] && [] + Reversed<Name>([]) == [];
    OneBlockOrder(f);
  }

  lemma ReturningValid(r: Name)
    ensures Valid(Returning(r))
  {
    ReturningParts(r);
    NotX();
    hide BodySuccessors, Defs, BodyOf, Labels;
  }

  /** A block without successors is the whole order. */
  lemma OneBlockOrder(f: Function)
    requires |f.blocks| > 0 && Entry(f) == E && E in Labels(f) && SuccessorsOf(f, E) == []
    ensures Order(f) == [E]
  {
    WalkPops(f, [], [], E);
    assert [] + [E] == [E] && [] + Reversed<Name>([]) == [];
  }

  lemma ConfusedNames(r: Name)
    requires r == X || r == ValueName(0)
    ensures GivenTo(Returning(r)) == Given(NameMap([E]), ValueMap([X]))
    ensures var given := Given(NameMap([E]), ValueMap([X])); given.Any(r) == ValueName(0)
  {
    ReturningIs(r);
    NotX();
    hide Valid, Order, DefsOf;
    MapsAt([X], 0);
    MapsHave([X], ValueName(0));
    MapsHave([E], ValueName(0));
  }

  lemma ReturnRendered(given: Given, leq: (Arm, Arm) -> bool, r: Name)
    ensures Rendered(given, leq, Returning(r).blocks[0].body[1])
      == Plain(NoValue, [Text("ret "), ValueRef(given.Any(r))])
  {
    var s := Returning(r).blocks[0].body[1];
    RenderedIs(given, leq, s);
    assert RenameTokens(Renames(given), s.tokens) == [Text("ret "), ValueRef(given.Any(r))];
  }

  lemma ConfusedBodies(leq: (Arm, Arm) -> bool)
    ensures var given := Given(NameMap([E]), ValueMap([X]));
            RenderedBody(given, leq, Returning(X).blocks[0].body)
              == RenderedBody(given, leq, Returning(ValueName(0)).blocks[0].body)
  {
    ConfusedNames(X);
    ConfusedNames(ValueName(0));
    var given := Given(NameMap([E]), ValueMap([X]));
    ReturnRendered(given, leq, X);
    ReturnRendered(given, leq, ValueName(0));
    var s, t := Returning(X).blocks[0].body, Returning(ValueName(0)).blocks[0].body;
    assert |s| == 2 && |t| == 2 && s[0] == t[0];
    hide *;
    TwoLines(given, leq, s, t);
  }

  lemma TwoLines(given: Given, leq: (Arm, Arm) -> bool, s: seq<Stmt>, t: seq<Stmt>)
    requires |s| == 2 && |t| == 2 && s[0] == t[0] && Rendered(given, leq, s[1]) == Rendered(given, leq, t[1])
    ensures RenderedBody(given, leq, s) == RenderedBody(given, leq, t)
  {
    hide Rendered;
  }

  lemma OneBlockForms(f: Function, g: Function, leq: (Arm, Arm) -> bool)
    requires |f.blocks| > 0 && |g.blocks| > 0 && Order(f) == [E] && Order(g) == [E] && GivenTo(f) == GivenTo(g)
    requires E in Labels(f) && E in Labels(g)
    requires RenderedBody(GivenTo(f), leq, BodyOf(f, E)) == RenderedBody(GivenTo(g), leq, BodyOf(g, E))
    ensures FormOf(f, leq) == FormOf(g, leq)
  {
    var given := GivenTo(f);
    assert RenderedBlocks(f, given, leq, [E]) == RenderedBlocks(g, given, leq, [E]);
  }

  lemma ConfusedForms(leq: (Arm, Arm) -> bool)
    ensures FormOf(Returning(X), leq) == FormOf(Returning(ValueName(0)), leq)
  {
    ReturningIs(X);
    ReturningIs(ValueName(0));
    ReturningParts(X);
    ReturningParts(ValueName(0));
    ConfusedNames(X);
    ConfusedNames(ValueName(0));
    ConfusedBodies(leq);
    var f, g := Returning(X), Returning(ValueName(0));
    hide *;
    OneBlockForms(f, g, leq);
  }

  /** A bijection that keeps the value defined first keeps what is returned. */
  lemma SameReturn(m: Bijection, f: Function, g: Function, x: Name, y: Name)
    requires Isomorphic(m, f, g) && Entry(f) == E && Entry(g) == E && E in Labels(f) && E in Labels(g)
    requires var s, t := BodyOf(f, E), BodyOf(g, E);
             && |s| == 2 && |t| == 2 && s[0].Plain? && s[0].def == Defines(x) && t[0].def == Defines(x)
             && s[1] == Plain(NoValue, [Text("ret "), ValueRef(x)])
               && t[1] == Plain(NoValue, [Text("ret "), ValueRef(y)])
    ensures x == y
  {
    assert LabelPath(f, [E]) && ReachedLabel(f, E);
    var s, t := BodyOf(f, E), BodyOf(g, E);
    hide IsBijection, BodyOf, Labels;
    assert BlockMatches(m, f, g, E);
    assert BodyMatches(m, g, s, t);
    assert StmtMatches(m, s[0], t[0]) && StmtMatches(m, s[1], t[1]);
    assert t[1].tokens[1] == RenameToken(Hats(m), s[1].tokens[1]);
  }

  lemma ConfusedApart(m: Bijection)
    ensures !Isomorphic(m, Returning(X), Returning(ValueName(0)))
  {
    var f, g := Returning(X), Returning(ValueName(0));
    ReturningParts(X);
    ReturningParts(ValueName(0));
    NotX();
    hide Isomorphic, BodyOf, Labels;
    if Isomorphic(m, f, g) { SameReturn(m, f, g, X, ValueName(0)); }
  }

  /**
   * Where a kept name is given to something else the form does not decide: if `%v0` is the name of an argument,
   * returning it and returning the first value defined have one form, but no bijection maps one function to the other.
   */
  lemma GeneratedNamesConfuse(leq: (Arm, Arm) -> bool)
    ensures var f, g := Returning(X), Returning(ValueName(0));
            Valid(f) && Valid(g) && FormOf(f, leq) == FormOf(g, leq) && !exists m :: Isomorphic(m, f, g)
  {
    ReturningIs(X);
    ReturningIs(ValueName(0));
    ConfusedForms(leq);
    hide Valid, FormOf, Isomorphic;
    forall m ensures !Isomorphic(m, Returning(X), Returning(ValueName(0))) { ConfusedApart(m); }
  }

  lemma NotX()
    ensures X != E && X != ValueName(0) && E != ValueName(0)
  {
    assert X.text[0] == 'x' && E.text[0] == 'e' && ValueName(0).text[0] == 'v';
  }
}
