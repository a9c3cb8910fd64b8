/** A function with fresh names for those that are replaced: isomorphic, and with no label that is renamed twice. */
module Relabelling {
  import opened Lists
  import opened Names
  import opened IrFunctions
  import opened Canonical
  import opened Phis
  import opened Isomorphism
  import opened SameForm
  import opened KeptNames

  // Fresh names

  function Fresh(n: nat, x: Name): Name {
    Name(seq(n, _ => 'w') + x.text)
  }

  lemma FreshApart(n: nat, x: Name, y: Name)
    ensures Fresh(n, x) == Fresh(n, y) ==> x == y
    ensures |Fresh(n, x).text| >= n
  {
    if Fresh(n, x) == Fresh(n, y) {
      assert Fresh(n, x).text[n..] == x.text && Fresh(n, y).text[n..] == y.text;
    }
  }

  lemma FreshNotGiven(n: nat, x: Name, i: nat)
    requires n > 0
    ensures Fresh(n, x) != BlockName(i) && Fresh(n, x) != ValueName(i)
  {
    assert Fresh(n, x).text[0] == 'w' && BlockName(i).text[0] == 'B' && ValueName(i).text[0] == 'v';
  }

  /** `x` is in the text of `f`. */
  ghost predicate Uses(f: Function, x: Name) {
    x in Labels(f) || exists b, k :: LineNames(f, b, k, x)
  }

  ghost predicate LineNames(f: Function, b: Name, k: int, x: Name) {
    b in Labels(f) && 0 <= k < |BodyOf(f, b)| && StmtNames(BodyOf(f, b)[k], x)
  }

  /** Every name of `f` is shorter than `n`. */
  ghost predicate Shorter(f: Function, n: nat) {
    n > 0 && forall x :: Uses(f, x) ==> |x.text| < n
  }

  function Larger(a: nat, b: nat): nat {
    if a < b then b else a
  }

  lemma PiecesShorter(pieces: seq<Piece>) returns (n: nat)
    ensures forall x :: Named(x) in pieces ==> |x.text| < n
  {
    n := 0;
    for i := 0 to |pieces|
      invariant forall j :: 0 <= j < i && pieces[j].Named? ==> |pieces[j].name.text| < n
    {
      n := Larger(n, if pieces[i].Named? then |pieces[i].name.text| + 1 else 0);
    }
  }

  lemma StmtShorter(s: Stmt) returns (n: nat)
    ensures forall x :: StmtNames(s, x) ==> |x.text| < n
  {
    n := if s.def.Defines? then |s.def.name.text| + 1 else 0;
    if s.Plain? {
      for i := 0 to |s.tokens|
        invariant s.def.Defines? ==> |s.def.name.text| < n
        invariant forall j, x :: 0 <= j < i && TokenNames(s.tokens[j], x) ==> |x.text| < n
      {
        n := Larger(n, if s.tokens[i].Text? then 0 else |s.tokens[i].name.text| + 1);
      }
    } else {
      var kind := PiecesShorter(s.kind);
      var rest := PiecesShorter(s.rest);
      n := Larger(n, Larger(kind, rest));
      for i := 0 to |s.arms|
        invariant s.def.Defines? ==> |s.def.name.text| < n
        invariant forall x :: Named(x) in s.kind || Named(x) in s.rest ==> |x.text| < n
        invariant forall j, x :: 0 <= j < i && ArmNames(s.arms[j], x) ==> |x.text| < n
      {
        var a := s.arms[i];
        var more := PiecesShorter(a.operand);
        n := Larger(Larger(n, |a.block.text| + 1), more);
      }
    }
  }

  lemma BodyShorter(body: seq<Stmt>) returns (n: nat)
    ensures forall k, x :: 0 <= k < |body| && StmtNames(body[k], x) ==> |x.text| < n
  {
    hide StmtNames;
    n := 0;
    for k := 0 to |body|
      invariant forall j, x :: 0 <= j < k && StmtNames(body[j], x) ==> |x.text| < n
    {
      var more := StmtShorter(body[k]);
      n := Larger(n, more);
    }
  }

  lemma NamesShorter(f: Function) returns (n: nat)
    ensures Shorter(f, n)
  {
    hide StmtNames;
    n := 1;
    for i := 0 to |f.blocks|
      invariant n > 0
      invariant forall j :: 0 <= j < i ==> |f.blocks[j].id.text| < n
      invariant forall j, k, x :: 0 <= j < i && 0 <= k < |f.blocks[j].body| && StmtNames(f.blocks[j].body[k], x) ==>
        |x.text| < n
    {
      var more := BodyShorter(f.blocks[i].body);
      n := Larger(Larger(n, |f.blocks[i].id.text| + 1), more);
    }
    forall x | Uses(f, x)
      ensures |x.text| < n
    {
      if x in Labels(f) {
        assert f.blocks[IndexOf(Labels(f), x)].id == x;
      } else {
        var b, k :| LineNames(f, b, k, x);
        assert StmtNames(f.blocks[IndexOf(Labels(f), b)].body[k], x);
      }
    }
  }

  // The names of a function are used

  lemma SuccessorUsed(f: Function, b: Name, x: Name)
    requires x in SuccessorsOf(f, b)
    ensures Uses(f, x)
  {
    var body := BodyOf(f, b);
    var last := body[|body| - 1];
    OnceHas(TokenLabels(last.tokens));
    var j := TokenOfLabel(last.tokens, x);
    LabelIsNamed(last, x);
    assert LineNames(f, b, |body| - 1, x);
  }

  lemma DefUsed(f: Function, b: Name, x: Name)
    requires b in Labels(f) && x in Defs(BodyOf(f, b))
    ensures Uses(f, x)
  {
    var k := DefsAreNamed(BodyOf(f, b), x);
    assert LineNames(f, b, k, x);
  }

  // The function relabelled

  function RelabelledBody(m: Bijection, body: seq<Stmt>): (out: seq<Stmt>)
    ensures |out| == |body| && forall k :: 0 <= k < |out| ==> out[k] == RenameStmt(Hats(m), body[k])
  {
    seq(|body|, k requires 0 <= k < |body| => RenameStmt(Hats(m), body[k]))
  }

  /** `f` with every name in `m` replaced. */
  function Relabelled(m: Bijection, f: Function): Function {
    Function(seq(|f.blocks|, i requires 0 <= i < |f.blocks| =>
      Block(Hat(m, f.blocks[i].id), RelabelledBody(m, f.blocks[i].body))))
  }

  /** `m` gives the names that `canonical` replaces new ones, longer than any other. */
  ghost predicate Freshens(m: Bijection, n: nat, f: Function) {
    && Valid(f) && Shorter(f, n)
    && (forall x :: x in m <==> Renamed(f, x)) && forall x :: x in m ==> m[x] == Fresh(n, x)
  }

  function FreshNames(n: nat, names: seq<Name>): Bijection {
    map x | x in names :: Fresh(n, x)
  }

  lemma Freshening(f: Function) returns (m: Bijection, n: nat)
    requires Valid(f)
    ensures Freshens(m, n, f)
  {
    n := NamesShorter(f);
    RenamedAre(f);
    m := FreshNames(n, Order(f) + DefsOf(f, Order(f)));
    hide Valid, Shorter, Order, DefsOf, ReachedLabel, DefinedIn, Fresh;
  }

  lemma FreshensIs(m: Bijection, n: nat, f: Function, x: Name)
    requires Freshens(m, n, f)
    ensures Valid(f) && (x in m <==> Renamed(f, x)) && (x in m ==> m[x] == Fresh(n, x))
    ensures n > 0 && (Uses(f, x) ==> |x.text| < n)
  {
  }

  lemma HatApart(m: Bijection, n: nat, f: Function, x: Name, y: Name)
    requires Freshens(m, n, f) && Uses(f, x) && Uses(f, y) && Hat(m, x) == Hat(m, y)
    ensures x == y
  {
    hide Valid, Uses, Renamed, Fresh;
    FreshApart(n, x, y);
    FreshApart(n, y, x);
  }

  lemma RelabelledLabels(m: Bijection, f: Function)
    ensures Labels(Relabelled(m, f)) == Mapped(m, Labels(f))
  {
  }

  lemma LabelsApart(m: Bijection, n: nat, f: Function)
    requires Freshens(m, n, f)
    ensures Distinct(Labels(Relabelled(m, f)))
  {
    RelabelledLabels(m, f);
    var s := Labels(f);
    hide Relabelled, Renamed, Labels;
    forall i, j | 0 <= i < j < |s|
      ensures Mapped(m, s)[i] != Mapped(m, s)[j]
    {
      assert Uses(f, s[i]) && Uses(f, s[j]);
      if Hat(m, s[i]) == Hat(m, s[j]) { HatApart(m, n, f, s[i], s[j]); }
    }
  }

  lemma RelabelledBodyOf(m: Bijection, n: nat, f: Function, b: Name)
    requires Freshens(m, n, f) && b in Labels(f)
    ensures Hat(m, b) in Labels(Relabelled(m, f))
    ensures BodyOf(Relabelled(m, f), Hat(m, b)) == RelabelledBody(m, BodyOf(f, b))
  {
    LabelsApart(m, n, f);
    RelabelledLabels(m, f);
    var i := IndexOf(Labels(f), b);
    assert Labels(Relabelled(m, f))[i] == Hat(m, b);
    hide Freshens;
    IndexOfAt(Labels(Relabelled(m, f)), i);
  }

  lemma LabelBack(m: Bijection, f: Function, y: Name) returns (b: Name)
    requires y in Labels(Relabelled(m, f))
    ensures b in Labels(f) && Hat(m, b) == y
  {
    RelabelledLabels(m, f);
    var i :| 0 <= i < |Labels(f)| && Mapped(m, Labels(f))[i] == y;
    b := Labels(f)[i];
  }

  lemma DefRelabelled(m: Bijection, s: Stmt)
    ensures RenameStmt(Hats(m), s).def == if s.def.Defines? then Defines(Hat(m, s.def.name)) else NoValue
  {
  }

  lemma {:induction false} RelabelledDefs(m: Bijection, body: seq<Stmt>)
    ensures Defs(RelabelledBody(m, body)) == Mapped(m, Defs(body))
    decreases |body|
  {
    if body == [] {
    } else {
      var last := |body| - 1;
      RelabelledDefs(m, body[..last]);
      DefRelabelled(m, body[last]);
      hide RenameStmt, RenameDef;
      assert RelabelledBody(m, body)[..last] == RelabelledBody(m, body[..last]);
    }
  }

  lemma LastSuccessors(body: seq<Stmt>, d: Definition, tokens: seq<Token>)
    requires body != [] && body[|body| - 1] == Plain(d, tokens)
    ensures BodySuccessors(body) == Once(TokenLabels(tokens))
  {
  }

  lemma NoSuccessors(body: seq<Stmt>)
    requires body == [] || body[|body| - 1].Phi?
    ensures BodySuccessors(body) == []
  {
  }

  lemma BodySuccessorsMapped(m: Bijection, body: seq<Stmt>)
    requires body != [] && body[|body| - 1].Plain? ==> InjectiveOn(Hats(m).labels, TokenLabels(body[|body| - 1].tokens))
    ensures BodySuccessors(RelabelledBody(m, body)) == Mapped(m, BodySuccessors(body))
  {
    var out := RelabelledBody(m, body);
    if body != [] && body[|body| - 1].Plain? {
      var last := body[|body| - 1];
      assert out[|body| - 1] == Plain(RenameDef(Hats(m), last.def), RenameTokens(Hats(m), last.tokens));
      hide *;
      LastSuccessors(body, last.def, last.tokens);
      LastSuccessors(out, RenameDef(Hats(m), last.def), RenameTokens(Hats(m), last.tokens));
      LabelsMapped(m, last.tokens);
      MappedOnce(m, TokenLabels(last.tokens));
    } else {
      assert body != [] ==> out[|body| - 1].Phi?;
      hide BodySuccessors;
      NoSuccessors(body);
      NoSuccessors(out);
    }
  }

  lemma MappedOnce(m: Bijection, s: seq<Name>)
    requires InjectiveOn(Hats(m).labels, s)
    ensures Once(Mapped(m, s)) == Mapped(m, Once(s))
  {
    OnceMapped(Hats(m).labels, s);
  }

  lemma RelabelledSuccessors(m: Bijection, n: nat, f: Function, b: Name)
    requires Freshens(m, n, f) && b in Labels(f)
    ensures SuccessorsOf(Relabelled(m, f), Hat(m, b)) == Mapped(m, SuccessorsOf(f, b))
  {
    hide *;
    RelabelledBodyOf(m, n, f, b);
    if BodyOf(f, b) != [] && BodyOf(f, b)[|BodyOf(f, b)| - 1].Plain? {
      TargetsApart(m, n, f, b);
    }
    BodySuccessorsMapped(m, BodyOf(f, b));
    SuccessorsAre(f, b);
    SuccessorsAre(Relabelled(m, f), Hat(m, b));
  }

  lemma SuccessorsAre(f: Function, b: Name)
    requires b in Labels(f)
    ensures SuccessorsOf(f, b) == BodySuccessors(BodyOf(f, b))
  {
  }

  lemma TargetsApart(m: Bijection, n: nat, f: Function, b: Name)
    requires Freshens(m, n, f) && b in Labels(f)
    requires BodyOf(f, b) != [] && BodyOf(f, b)[|BodyOf(f, b)| - 1].Plain?
    ensures InjectiveOn(Hats(m).labels, TokenLabels(BodyOf(f, b)[|BodyOf(f, b)| - 1].tokens))
  {
    var labels := TokenLabels(BodyOf(f, b)[|BodyOf(f, b)| - 1].tokens);
    OnceHas(labels);
    assert SuccessorsOf(f, b) == Once(labels);
    hide Freshens, Uses, BodyOf, Labels, TokenLabels, SuccessorsOf, InjectiveOn;
    forall x | x in labels
      ensures Uses(f, x)
    {
      SuccessorUsed(f, b, x);
    }
    HatsInjective(m, n, f, labels);
  }

  lemma HatsInjective(m: Bijection, n: nat, f: Function, s: seq<Name>)
    requires Freshens(m, n, f) && forall x :: x in s ==> Uses(f, x)
    ensures InjectiveOn(Hats(m).labels, s)
  {
    forall x, y | x in s && y in s && Hat(m, x) == Hat(m, y)
      ensures x == y
    {
      HatApart(m, n, f, x, y);
    }
  }

  lemma MappedBack(m: Bijection, s: seq<Name>, y: Name) returns (x: Name)
    requires y in Mapped(m, s)
    ensures x in s && y == Hat(m, x)
  {
    var i :| 0 <= i < |s| && Mapped(m, s)[i] == y;
    x := s[i];
  }

  lemma MappedTo(m: Bijection, s: seq<Name>, x: Name)
    requires x in s
    ensures Hat(m, x) in Mapped(m, s)
  {
    var i :| 0 <= i < |s| && s[i] == x;
    assert Mapped(m, s)[i] == Hat(m, x);
  }

  lemma MappedApart(m: Bijection, s: seq<Name>)
    requires Distinct(s) && InjectiveOn(Hats(m).labels, s)
    ensures Distinct(Mapped(m, s))
  {
  }

  // It is valid

  lemma TargetsRelabelled(m: Bijection, n: nat, f: Function, b: Name)
    requires Freshens(m, n, f) && b in Labels(f) && forall s :: s in SuccessorsOf(f, b) ==> s in Labels(f)
    ensures forall y :: y in SuccessorsOf(Relabelled(m, f), Hat(m, b)) ==> y in Labels(Relabelled(m, f))
  {
    RelabelledSuccessors(m, n, f, b);
    hide *;
    forall y | y in SuccessorsOf(Relabelled(m, f), Hat(m, b))
      ensures y in Labels(Relabelled(m, f))
    {
      var x := MappedBack(m, SuccessorsOf(f, b), y);
      RelabelledBodyOf(m, n, f, x);
    }
  }

  lemma RelabelledBlock(m: Bijection, n: nat, f: Function, b: Name)
    requires Freshens(m, n, f) && b in Labels(f)
    ensures Hat(m, b) in Labels(Relabelled(m, f)) && BlockValid(Relabelled(m, f), Hat(m, b))
  {
    FreshensIs(m, n, f, b);
    ValidBlock(f, b);
    RelabelledBodyOf(m, n, f, b);
    RelabelledDefs(m, BodyOf(f, b));
    DefsApart(m, n, f, b);
    TargetsRelabelled(m, n, f, b);
    hide Freshens, Valid, BodyOf, SuccessorsOf, Relabelled, Labels, Mapped, Distinct, Defs;
  }

  lemma DefsApart(m: Bijection, n: nat, f: Function, b: Name)
    requires Freshens(m, n, f) && b in Labels(f)
    ensures Distinct(Mapped(m, Defs(BodyOf(f, b))))
    ensures forall y :: y in Mapped(m, Defs(BodyOf(f, b))) ==> y !in Labels(Relabelled(m, f))
  {
    var defs := Defs(BodyOf(f, b));
    ValidBlock(f, b);
    forall x | x in defs
      ensures Uses(f, x)
    {
      DefUsed(f, b, x);
    }
    hide Freshens, Uses, BodyOf, Relabelled, Labels;
    HatsInjective(m, n, f, defs);
    MappedApart(m, defs);
    forall y | y in Mapped(m, defs) && y in Labels(Relabelled(m, f))
      ensures false
    {
      var x := MappedBack(m, defs, y);
      var c := LabelBack(m, f, y);
      LabelUsed(f, c);
      HatApart(m, n, f, x, c);
    }
  }

  lemma LabelUsed(f: Function, b: Name)
    requires b in Labels(f)
    ensures Uses(f, b)
  {
  }

  lemma DefinesBack(m: Bijection, n: nat, f: Function, c: Name, y: Name) returns (b: Name, x: Name)
    requires Freshens(m, n, f) && DefinesIn(Relabelled(m, f), c, y)
    ensures DefinesIn(f, b, x) && Hat(m, b) == c && Hat(m, x) == y && Uses(f, x)
  {
    b := LabelBack(m, f, c);
    RelabelledBodyOf(m, n, f, b);
    RelabelledDefs(m, BodyOf(f, b));
    hide Freshens, Uses, BodyOf, Relabelled, Labels;
    x := MappedBack(m, Defs(BodyOf(f, b)), y);
    DefUsed(f, b, x);
  }

  lemma RelabelledValid(m: Bijection, n: nat, f: Function)
    requires Freshens(m, n, f)
    ensures Valid(Relabelled(m, f)) && Entry(Relabelled(m, f)) == Hat(m, Entry(f))
  {
    var g := Relabelled(m, f);
    LabelsApart(m, n, f);
    assert |g.blocks| > 0;
    forall y | y in Labels(g)
      ensures BlockValid(g, y)
    {
      var b := LabelBack(m, f, y);
      RelabelledBlock(m, n, f, b);
    }
    forall b, c, y | DefinesIn(g, b, y) && DefinesIn(g, c, y)
      ensures b == c
    {
      var i, x := DefinesBack(m, n, f, b, y);
      var j, z := DefinesBack(m, n, f, c, y);
      HatApart(m, n, f, x, z);
    }
  }

  // It is isomorphic

  lemma {:induction false} ReachedForth(m: Bijection, n: nat, f: Function, p: seq<Name>)
    requires Freshens(m, n, f) && LabelPath(f, p)
    ensures ReachedLabel(Relabelled(m, f), Hat(m, p[|p| - 1]))
    decreases |p|
  {
    var g := Relabelled(m, f);
    RelabelledValid(m, n, f);
    if |p| == 1 {
      assert LabelPath(g, [Entry(g)]);
    } else {
      var before := p[..|p| - 1];
      assert LabelPath(f, before);
      ReachedForth(m, n, f, before);
      PathLabels(f, before);
      RelabelledSuccessors(m, n, f, p[|p| - 2]);
      SuccessorsReached(g, Hat(m, p[|p| - 2]));
      hide Freshens, Valid, SuccessorsOf, Relabelled;
      MappedTo(m, SuccessorsOf(f, p[|p| - 2]), p[|p| - 1]);
    }
  }

  lemma {:induction false} ReachedBack(m: Bijection, n: nat, f: Function, q: seq<Name>) returns (x: Name)
    requires Freshens(m, n, f) && LabelPath(Relabelled(m, f), q)
    ensures ReachedLabel(f, x) && Hat(m, x) == q[|q| - 1]
    decreases |q|
  {
    var g := Relabelled(m, f);
    RelabelledValid(m, n, f);
    if |q| == 1 {
      x := Entry(f);
      assert LabelPath(f, [x]);
    } else {
      var before := q[..|q| - 1];
      assert LabelPath(g, before);
      var w := ReachedBack(m, n, f, before);
      ReachedIsLabel(f, w);
      RelabelledSuccessors(m, n, f, w);
      SuccessorsReached(f, w);
      hide Freshens, Valid, SuccessorsOf, Relabelled;
      x := MappedBack(m, SuccessorsOf(f, w), q[|q| - 1]);
    }
  }

  lemma ReachedIsLabel(f: Function, x: Name)
    requires Valid(f) && ReachedLabel(f, x)
    ensures x in Labels(f) && Uses(f, x)
  {
    var p :| LabelPath(f, p) && p[|p| - 1] == x;
    PathLabels(f, p);
  }

  lemma RenamedUsed(f: Function, x: Name)
    requires Valid(f) && Renamed(f, x)
    ensures Uses(f, x)
  {
    if ReachedLabel(f, x) {
      ReachedIsLabel(f, x);
    } else {
      var b :| ReachedLabel(f, b) && b in Labels(f) && x in Defs(BodyOf(f, b));
      DefUsed(f, b, x);
    }
  }

  /** A block the relabelled function reaches stands for one that is reached. */
  lemma ReachedIn(m: Bijection, n: nat, f: Function, y: Name) returns (x: Name)
    requires Freshens(m, n, f) && ReachedLabel(Relabelled(m, f), y)
    ensures ReachedLabel(f, x) && Hat(m, x) == y && x in m && m[x] == y
  {
    var q :| LabelPath(Relabelled(m, f), q) && q[|q| - 1] == y;
    x := ReachedBack(m, n, f, q);
    FreshensIs(m, n, f, x);
  }

  lemma ReachedBoth(m: Bijection, n: nat, f: Function, x: Name)
    requires Freshens(m, n, f) && Uses(f, x)
    ensures ReachedLabel(f, x) <==> ReachedLabel(Relabelled(m, f), Hat(m, x))
  {
    FreshensIs(m, n, f, x);
    if ReachedLabel(f, x) {
      var p :| LabelPath(f, p) && p[|p| - 1] == x;
      ReachedForth(m, n, f, p);
    }
    hide Freshens, Valid, ReachedLabel, Uses;
    if ReachedLabel(Relabelled(m, f), Hat(m, x)) {
      var z := ReachedIn(m, n, f, Hat(m, x));
      ReachedIsLabel(f, z);
      HatApart(m, n, f, x, z);
    }
  }

  /** A value the relabelled function defines stands for one that is defined. */
  lemma DefinedBack(m: Bijection, n: nat, f: Function, y: Name) returns (x: Name)
    requires Freshens(m, n, f) && DefinedIn(Relabelled(m, f), y)
    ensures DefinedIn(f, x) && Hat(m, x) == y && Uses(f, x) && x in m && m[x] == y
  {
    var g := Relabelled(m, f);
    var c :| ReachedLabel(g, c) && c in Labels(g) && y in Defs(BodyOf(g, c));
    hide Freshens, ReachedLabel, Uses, Relabelled;
    assert DefinesIn(g, c, y);
    var b, z := DefinesBack(m, n, f, c, y);
    LabelUsed(f, b);
    ReachedBoth(m, n, f, b);
    FreshensIs(m, n, f, z);
    x := z;
  }

  lemma DefinedBoth(m: Bijection, n: nat, f: Function, x: Name)
    requires Freshens(m, n, f) && Uses(f, x)
    ensures DefinedIn(f, x) <==> DefinedIn(Relabelled(m, f), Hat(m, x))
  {
    var g := Relabelled(m, f);
    if DefinedIn(f, x) {
      var b :| ReachedLabel(f, b) && b in Labels(f) && x in Defs(BodyOf(f, b));
      LabelUsed(f, b);
      hide Freshens, ReachedLabel, Uses, Relabelled, BodyOf, Labels, Mapped;
      ReachedBoth(m, n, f, b);
      RelabelledBodyOf(m, n, f, b);
      RelabelledDefs(m, BodyOf(f, b));
      MappedTo(m, Defs(BodyOf(f, b)), x);
    }
    hide Freshens, DefinedIn, Uses, Relabelled;
    if DefinedIn(g, Hat(m, x)) {
      var z := DefinedBack(m, n, f, Hat(m, x));
      HatApart(m, n, f, x, z);
    }
  }

  lemma RenamedBack(m: Bijection, n: nat, f: Function, y: Name) returns (x: Name)
    requires Freshens(m, n, f) && Renamed(Relabelled(m, f), y)
    ensures x in m && m[x] == y && y == Fresh(n, x)
  {
    hide Freshens, ReachedLabel, DefinedIn, Relabelled;
    if ReachedLabel(Relabelled(m, f), y) {
      x := ReachedIn(m, n, f, y);
    } else {
      x := DefinedBack(m, n, f, y);
    }
    FreshensIs(m, n, f, x);
  }

  /** A name of `f` that stays is not replaced in the relabelled function either. */
  lemma KeptStays(m: Bijection, n: nat, f: Function, x: Name)
    requires Freshens(m, n, f) && Uses(f, x) && x !in m
    ensures !Renamed(Relabelled(m, f), x)
  {
    hide Freshens, Renamed, Relabelled, Uses;
    FreshensIs(m, n, f, x);
    if Renamed(Relabelled(m, f), x) {
      var z := RenamedBack(m, n, f, x);
      FreshApart(n, z, z);
    }
  }

  lemma RelabelledBijection(m: Bijection, n: nat, f: Function)
    requires Freshens(m, n, f)
    ensures IsBijection(m, f, Relabelled(m, f))
  {
    var g := Relabelled(m, f);
    hide Freshens, Renamed, ReachedLabel, DefinedIn, Relabelled, Uses;
    forall x
      ensures x in m <==> Renamed(f, x)
      ensures x in m ==> Uses(f, x)
    {
      FreshensIs(m, n, f, x);
      if x in m { RenamedUsed(f, x); }
    }
    forall x | x in m
      ensures SameKind(m, f, g, x)
    {
      ReachedBoth(m, n, f, x);
      DefinedBoth(m, n, f, x);
    }
    forall x, y | x in m && y in m && m[x] == m[y]
      ensures x == y
    {
      HatApart(m, n, f, x, y);
    }
    forall y | Renamed(g, y)
      ensures Hit(m, y)
    {
      var x := RenamedBack(m, n, f, y);
    }
  }

  lemma LineRelabelled(m: Bijection, n: nat, f: Function, b: Name, k: nat)
    requires Freshens(m, n, f) && b in Labels(f) && k < |BodyOf(f, b)|
    ensures StmtMatches(m, BodyOf(f, b)[k], RenameStmt(Hats(m), BodyOf(f, b)[k]))
    ensures Steady(m, Relabelled(m, f), BodyOf(f, b)[k])
  {
    hide Freshens, Renamed, Relabelled, BodyOf, Labels, StmtNames;
    forall x | StmtNames(BodyOf(f, b)[k], x) && x !in m
      ensures !Renamed(Relabelled(m, f), x)
    {
      assert LineNames(f, b, k, x);
      KeptStays(m, n, f, x);
    }
  }

  lemma BodyRelabelled(m: Bijection, n: nat, f: Function, b: Name)
    requires Freshens(m, n, f) && b in Labels(f)
    ensures BodyMatches(m, Relabelled(m, f), BodyOf(f, b), RelabelledBody(m, BodyOf(f, b)))
  {
    hide Freshens, Relabelled, Steady, StmtMatches, RelabelledBody;
    forall k | 0 <= k < |BodyOf(f, b)|
      ensures StmtMatches(m, BodyOf(f, b)[k], RelabelledBody(m, BodyOf(f, b))[k])
      ensures Steady(m, Relabelled(m, f), BodyOf(f, b)[k])
    {
      LineRelabelled(m, n, f, b, k);
    }
  }

  lemma BlockRelabelled(m: Bijection, n: nat, f: Function, b: Name)
    requires Freshens(m, n, f)
    ensures BlockMatches(m, f, Relabelled(m, f), b)
  {
    if b in m && b in Labels(f) {
      hide Freshens, Relabelled, ReachedLabel, BodyMatches, RelabelledBody;
      RelabelledBodyOf(m, n, f, b);
      BodyRelabelled(m, n, f, b);
    }
  }

  lemma PairMade(m: Bijection, f: Function, g: Function)
    requires Valid(f) && Valid(g) && IsBijection(m, f, g)
    requires |f.blocks| > 0 && |g.blocks| > 0 && Entry(g) == Hat(m, Entry(f))
    requires forall b {:trigger BlockMatches(m, f, g, b)} :: BlockMatches(m, f, g, b)
    ensures Pair(m, f, g)
  {
    assert LabelPath(f, [Entry(f)]);
    assert ReachedLabel(f, Entry(f));
    hide Valid, BlockMatches, ReachedLabel;
    assert Renamed(f, Entry(f));
  }

  lemma RelabelledIsomorphic(m: Bijection, n: nat, f: Function)
    requires Freshens(m, n, f)
    ensures Pair(m, f, Relabelled(m, f))
  {
    FreshensIs(m, n, f, Entry(f));
    RelabelledValid(m, n, f);
    RelabelledBijection(m, n, f);
    forall b
      ensures BlockMatches(m, f, Relabelled(m, f), b)
    {
      BlockRelabelled(m, n, f, b);
    }
    hide *;
    PairMade(m, f, Relabelled(m, f));
  }

  // It is no worse

  /** Given names are fresh for the relabelled function, so none is renamed again. */
  lemma RelabelledLegible(m: Bijection, n: nat, f: Function, y: Name)
    requires Freshens(m, n, f) && |Relabelled(m, f).blocks| > 0
    ensures LegibleLabel(Relabelled(m, f), y)
  {
    var g := Relabelled(m, f);
    RelabelledValid(m, n, f);
    hide Freshens, Valid, Relabelled, ReachedLabel, DefinedIn;
    if ReachedLabel(g, y) {
      var i := GivenAt(g, y);
      var given := GivenTo(g).Any(y);
      GivenHas(g, given);
      if Renamed(g, given) {
        var z := RenamedBack(m, n, f, given);
        FreshensIs(m, n, f, z);
        FreshNotGiven(n, z, i);
      }
    }
  }

  lemma RelabelledPiece(m: Bijection, pieces: seq<Piece>, y: Name) returns (x: Name)
    requires Named(y) in RenamePieces(Hats(m), pieces)
    ensures Named(x) in pieces && Hat(m, x) == y
  {
    var t := RenamePieces(Hats(m), pieces);
    var i :| 0 <= i < |t| && t[i] == Named(y);
    x := pieces[i].name;
    assert pieces[i] == Named(x);
  }

  lemma RelabelledName(m: Bijection, s: Stmt, y: Name) returns (x: Name)
    requires StmtNames(RenameStmt(Hats(m), s), y)
    ensures StmtNames(s, x) && Hat(m, x) == y
  {
    var t := RenameStmt(Hats(m), s);
    if t.def == Defines(y) {
      x := s.def.name;
    } else if s.Plain? {
      var i :| 0 <= i < |t.tokens| && TokenNames(t.tokens[i], y);
      x := s.tokens[i].name;
      assert TokenNames(s.tokens[i], x);
    } else if Named(y) in t.kind {
      x := RelabelledPiece(m, s.kind, y);
    } else if Named(y) in t.rest {
      x := RelabelledPiece(m, s.rest, y);
    } else {
      var i :| 0 <= i < |t.arms| && ArmNames(t.arms[i], y);
      assert t.arms[i] == RenameArm(Hats(m), s.arms[i]);
      var a := s.arms[i];
      if t.arms[i].block == y {
        x := a.block;
      } else {
        x := RelabelledPiece(m, a.operand, y);
      }
      assert ArmNames(a, x);
    }
  }

  /** A shown line of the relabelled function is a shown line relabelled. */
  lemma ShownBack(m: Bijection, n: nat, f: Function, c: Name, k: nat) returns (b: Name)
    requires Freshens(m, n, f) && Shown(Relabelled(m, f), c, k)
    ensures Shown(f, b, k) && BodyOf(Relabelled(m, f), c)[k] == RenameStmt(Hats(m), BodyOf(f, b)[k])
  {
    hide Freshens, Relabelled, ReachedLabel;
    b := ReachedIn(m, n, f, c);
    FreshensIs(m, n, f, b);
    ReachedIsLabel(f, b);
    RelabelledBodyOf(m, n, f, b);
  }

  lemma TakenSame(m: Bijection, f: Function, g: Function, x: Name)
    requires Pair(m, f, g) && |f.blocks| > 0 && |g.blocks| > 0 && Taken(g, x)
    ensures Taken(f, x)
  {
    OrdersCorrespond(m, f, g);
    PairIs(m, f, g);
    ValidRuns(f);
    OrderIsReached(f);
    DefsOfMapped(m, f, g, Order(f));
    hide Pair, Order, DefsOf;
  }

  lemma MistakenBack(m: Bijection, n: nat, f: Function, y: Name)
    requires Freshens(m, n, f) && |f.blocks| > 0 && |Relabelled(m, f).blocks| > 0 && Mistaken(Relabelled(m, f), y)
    ensures Mistaken(f, y)
  {
    var g := Relabelled(m, f);
    RelabelledIsomorphic(m, n, f);
    var c, k :| Shown(g, c, k) && StmtNames(BodyOf(g, c)[k], y) && !LegibleName(g, y);
    var b := ShownBack(m, n, f, c, k);
    var x := RelabelledName(m, BodyOf(f, b)[k], y);
    hide Freshens, Relabelled, Pair, Renamed, Taken, StmtNames;
    PairIs(m, f, g);
    TakenSame(m, f, g, y);
    NotRenamedBack(m, n, f, x);
  }

  lemma NotRenamedBack(m: Bijection, n: nat, f: Function, x: Name)
    requires Freshens(m, n, f) && !Renamed(Relabelled(m, f), Hat(m, x))
    ensures !Renamed(f, x) && Hat(m, x) == x
  {
    RelabelledBijection(m, n, f);
    hide Freshens, Relabelled, ReachedLabel, DefinedIn;
    assert x in m ==> SameKind(m, f, Relabelled(m, f), x);
  }

  lemma RelabelledInFull(m: Bijection, n: nat, f: Function)
    requires Freshens(m, n, f) && AllInFull(f)
    ensures AllInFull(Relabelled(m, f))
  {
    hide Freshens, Relabelled, InFull, ReachedLabel;
    forall c, k: nat | Shown(Relabelled(m, f), c, k)
      ensures InFull(BodyOf(Relabelled(m, f), c)[k])
    {
      var b := ShownBack(m, n, f, c, k);
      StaysInFull(Hats(m), BodyOf(f, b)[k]);
    }
  }

  lemma RelabelledLabelsLegible(m: Bijection, n: nat, f: Function)
    requires Freshens(m, n, f) && |Relabelled(m, f).blocks| > 0
    ensures LabelsLegible(Relabelled(m, f))
  {
    hide Freshens, Relabelled, LegibleLabel, ReachedLabel;
    forall y
      ensures LegibleLabel(Relabelled(m, f), y)
    {
      RelabelledLegible(m, n, f, y);
    }
  }

  lemma RelabelledNoWorse(m: Bijection, n: nat, f: Function)
    requires Freshens(m, n, f)
    ensures NoWorse(f, Relabelled(m, f))
  {
    FreshensIs(m, n, f, Entry(f));
    RelabelledValid(m, n, f);
    assert |f.blocks| > 0 && |Relabelled(m, f).blocks| > 0;
    hide *;
    RelabelledLabelsLegible(m, n, f);
    if AllInFull(f) { RelabelledInFull(m, n, f); }
    forall y | Mistaken(Relabelled(m, f), y)
      ensures Mistaken(f, y)
    {
      MistakenBack(m, n, f, y);
    }
    NoWorseIs(f, Relabelled(m, f));
  }
}
