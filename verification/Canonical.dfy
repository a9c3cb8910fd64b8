/**
 * `canonical` of tools/loopinterchange_oracle.py: one form for a function, whatever its labels, value names and
 * layout.
 */
module Canonical {
  import opened Lists
  import opened Names
  import opened IrFunctions
  import opened ArmSorting

  /** The names given: to blocks, and to values. */
  datatype Given = Given(names: map<Name, Name>, values: map<Name, Name>) {
    /** The last of `rename`'s substitutions: any `%x`. */
    function Any(x: Name): Name {
      if x in values then values[x] else if x in names then names[x] else x
    }

    /** A label is renamed as a label first, and what comes out is then renamed again with every other `%x`. */
    function Label(x: Name): Name {
      Any(if x in names then names[x] else x)
    }
  }

  /** How a statement's names are rewritten: those in label places, and all others. */
  datatype Renaming = Renaming(labels: Name -> Name, others: Name -> Name)

  function RenameToken(r: Renaming, t: Token): Token {
    match t
    case Text(text) => t
    case LabelRef(x) => LabelRef(r.labels(x))
    case ValueRef(x) => ValueRef(r.others(x))
  }

  function RenameTokens(r: Renaming, s: seq<Token>): (t: seq<Token>)
    ensures |t| == |s| && forall i :: 0 <= i < |s| ==> t[i] == RenameToken(r, s[i])
  {
    seq(|s|, i requires 0 <= i < |s| => RenameToken(r, s[i]))
  }

  function RenamePiece(r: Renaming, p: Piece): Piece {
    if p.Named? then Named(r.others(p.name)) else p
  }

  function RenamePieces(r: Renaming, s: seq<Piece>): (t: seq<Piece>)
    ensures |t| == |s| && forall i :: 0 <= i < |s| ==> t[i] == RenamePiece(r, s[i])
  {
    seq(|s|, i requires 0 <= i < |s| => RenamePiece(r, s[i]))
  }

  function RenameArm(r: Renaming, a: Arm): Arm {
    Arm(RenamePieces(r, a.operand), if LabelPlace(a) then r.labels(a.block) else r.others(a.block))
  }

  function RenameArms(r: Renaming, s: seq<Arm>): seq<Arm> {
    Image(a => RenameArm(r, a), s)
  }

  function RenameDef(r: Renaming, d: Definition): Definition {
    if d.Defines? then Defines(r.others(d.name)) else d
  }

  function RenameStmt(r: Renaming, s: Stmt): Stmt {
    match s
    case Plain(d, tokens) => Plain(RenameDef(r, d), RenameTokens(r, tokens))
    case Phi(d, kind, rest, arms) =>
      Phi(RenameDef(r, d), RenamePieces(r, kind), RenamePieces(r, rest), RenameArms(r, arms))
  }

  function Renames(given: Given): Renaming {
    Renaming(x => given.Label(x), x => given.Any(x))
  }

  /**
   * A statement as it appears in the form: renamed, and of a phi the first word and the arms that are found, in order.
   */
  function Rendered(given: Given, leq: (Arm, Arm) -> bool, s: Stmt): Stmt {
    match RenameStmt(Renames(given), s)
    case Plain(d, tokens) => Plain(d, tokens)
    case Phi(d, kind, rest, arms) => Phi(d, kind, [], Sorted(leq, Found(arms)))
  }

  lemma RenderedIs(given: Given, leq: (Arm, Arm) -> bool, s: Stmt)
    ensures s.Plain? ==>
      Rendered(given, leq, s) == Plain(RenameDef(Renames(given), s.def), RenameTokens(Renames(given), s.tokens))
    ensures s.Phi? ==>
      var r := Renames(given);
      Rendered(given, leq, s)
        == Phi(RenameDef(r, s.def), RenamePieces(r, s.kind), [], Sorted(leq, Found(RenameArms(r, s.arms))))
  {
  }

  function RenderedBody(given: Given, leq: (Arm, Arm) -> bool, body: seq<Stmt>): (out: seq<Stmt>)
    ensures |out| == |body| && forall i :: 0 <= i < |body| ==> out[i] == Rendered(given, leq, body[i])
  {
    seq(|body|, i requires 0 <= i < |body| => Rendered(given, leq, body[i]))
  }

  // Which names are given

  /** The n-th block listed is named `B<n>`. */
  function NameMap(order: seq<Name>): map<Name, Name> {
    if order == [] then map[] else NameMap(order[..|order| - 1])[order[|order| - 1] := BlockName(|order| - 1)]
  }

  /** Each definition is named `v<n>` by how many names are defined before it, its own included. */
  function ValueMap(defs: seq<Name>): map<Name, Name> {
    if defs == [] then map[] else
      var before := ValueMap(defs[..|defs| - 1]);
      before[defs[|defs| - 1] := ValueName(|before|)]
  }

  /** The values the listed blocks define, in order. */
  function DefsOf(f: Function, order: seq<Name>): seq<Name> {
    if order == [] then [] else
      var last := order[|order| - 1];
      DefsOf(f, order[..|order| - 1]) + (if last in Labels(f) then Defs(BodyOf(f, last)) else [])
  }

  function GivenTo(f: Function): Given
    requires |f.blocks| > 0
  {
    Given(NameMap(Order(f)), ValueMap(DefsOf(f, Order(f))))
  }

  // The form

  datatype Line = Head(name: Name) | Statement(stmt: Stmt)

  function StatementLines(body: seq<Stmt>): (lines: seq<Line>)
    ensures |lines| == |body| && forall i :: 0 <= i < |body| ==> lines[i] == Statement(body[i])
  {
    seq(|body|, i requires 0 <= i < |body| => Statement(body[i]))
  }

  /** The lines of the blocks numbered from `n` on. */
  function Lines(bodies: seq<seq<Stmt>>, n: nat): seq<Line> {
    if bodies == [] then [] else [Head(BlockName(n))] + StatementLines(bodies[0]) + Lines(bodies[1..], n + 1)
  }

  function RenderedBlock(f: Function, given: Given, leq: (Arm, Arm) -> bool, b: Name): seq<Stmt> {
    if b in Labels(f) then RenderedBody(given, leq, BodyOf(f, b)) else []
  }

  function RenderedBlocks(f: Function, given: Given, leq: (Arm, Arm) -> bool, order: seq<Name>): (out: seq<seq<Stmt>>)
    ensures |out| == |order| && forall i :: 0 <= i < |order| ==> out[i] == RenderedBlock(f, given, leq, order[i])
  {
    seq(|order|, i requires 0 <= i < |order| => RenderedBlock(f, given, leq, order[i]))
  }

  /** `Fails` is the error of a block that is met and not there, or has no line. */
  datatype Form = NoFunction | Fails | Form(lines: seq<Line>)

  function FormOf(f: Function, leq: (Arm, Arm) -> bool): Form {
    if f.blocks == [] then NoFunction
    else Form(Lines(RenderedBlocks(f, GivenTo(f), leq, Order(f)), 0))
  }

  // The loops of `canonical`

  /** The walk over the blocks; it stops short at a label without a block, or a block without a line. */
  method DepthFirst(f: Function) returns (ok: bool, dfs: seq<Name>)
    requires |f.blocks| > 0
    ensures ok <==> Runs(f)
    ensures ok ==> dfs == Order(f)
  {
    var seen: set<Name> := {};
    dfs := [];
    var stack := [Entry(f)];
    EntryReached(f);
    while stack != []
      invariant Listed(seen, dfs) && WalkState(f, dfs, stack) && AllReadable(f, dfs)
      invariant Walk(f, dfs, stack) == Order(f)
      decreases |LabelSet(f) - NameSet(dfs)|, |stack|
    {
      var id, rest := stack[|stack| - 1], stack[..|stack| - 1];
      LastOff(stack);
      StackTop(f, dfs, rest, id);
      if id in seen {
        WalkStep(f, dfs, rest, id);
        stack := rest;
        continue;
      }
      if id !in Labels(f) || BodyOf(f, id) == [] {
        assert !Readable(f, id);
        return false, dfs;
      }
      WalkStep(f, dfs, rest, id);
      ListedMore(seen, dfs, id);
      seen := seen + {id};
      dfs := dfs + [id];
      stack := rest + Reversed(SuccessorsOf(f, id));
    }
    ok := true;
    WalkedRuns(f, dfs);
  }

  ghost predicate AllReadable(f: Function, s: seq<Name>) {
    forall x :: x in s ==> Readable(f, x)
  }

  lemma WalkedRuns(f: Function, dfs: seq<Name>)
    requires WalkState(f, dfs, []) && AllReadable(f, dfs)
    ensures Runs(f)
  {
    forall x | ReachedLabel(f, x)
      ensures Readable(f, x)
    {
      var p :| LabelPath(f, p) && p[|p| - 1] == x;
      PathDone(f, dfs, p);
    }
  }

  lemma EntryReached(f: Function)
    requires |f.blocks| > 0
    ensures WalkState(f, [], [Entry(f)])
  {
    assert LabelPath(f, [Entry(f)]);
    assert ReachedLabel(f, Entry(f)) && Entry(f) in [Entry(f)];
  }

  lemma MapsMore(s: seq<Name>, x: Name)
    ensures NameMap(s + [x]) == NameMap(s)[x := BlockName(|s|)]
    ensures ValueMap(s + [x]) == ValueMap(s)[x := ValueName(|ValueMap(s)|)]
  {
    assert (s + [x])[..|s|] == s;
  }

  lemma {:induction false} MapsHave(s: seq<Name>, x: Name)
    ensures x in NameMap(s) <==> x in s
    ensures x in ValueMap(s) <==> x in s
    decreases |s|
  {
    if s == [] {
    } else {
      LastOff(s);
      MapsHave(s[..|s| - 1], x);
    }
  }

  lemma {:induction false} ValueMapSize(defs: seq<Name>)
    requires Distinct(defs)
    ensures |ValueMap(defs)| == |defs|
    decreases |defs|
  {
    if defs == [] {
    } else {
      var before, last := defs[..|defs| - 1], defs[|defs| - 1];
      ValueMapSize(before);
      MapsHave(before, last);
    }
  }

  lemma {:induction false} MapsAt(s: seq<Name>, i: nat)
    requires Distinct(s) && i < |s|
    ensures s[i] in NameMap(s) && NameMap(s)[s[i]] == BlockName(i)
    ensures s[i] in ValueMap(s) && ValueMap(s)[s[i]] == ValueName(i)
    decreases |s|
  {
    ValueMapSize(s[..|s| - 1]);
    if i >= |s| - 1 {
    } else {
      MapsAt(s[..|s| - 1], i);
    }
  }

  // The listed definitions are distinct

  lemma {:induction false} DefsOfHas(f: Function, order: seq<Name>, x: Name)
    ensures x in DefsOf(f, order) <==> exists b :: b in order && b in Labels(f) && x in Defs(BodyOf(f, b))
    decreases |order|
  {
    if order == [] {
    } else {
      LastOff(order);
      DefsOfHas(f, order[..|order| - 1], x);
    }
  }

  lemma JoinDistinct(s: seq<Name>, t: seq<Name>)
    requires Distinct(s) && Distinct(t) && forall x :: x in s ==> x !in t
    ensures Distinct(s + t)
  {
    var r := s + t;
    forall i, j | 0 <= i < j < |r| ensures r[i] != r[j] {
      assert i < |s| ==> r[i] in s;
      assert j >= |s| ==> r[j] in t;
    }
  }

  lemma {:induction false} DefsDistinct(f: Function, order: seq<Name>)
    requires Valid(f) && Distinct(order) && forall x :: x in order ==> x in Labels(f)
    ensures Distinct(DefsOf(f, order))
    decreases |order|
  {
    if order == [] {
    } else {
      var before, last := order[..|order| - 1], order[|order| - 1];
      LastOff(order);
      DefsDistinct(f, before);
      assert last in order && last !in before;
      ValidBlock(f, last);
      forall x | x in DefsOf(f, before) ensures x !in Defs(BodyOf(f, last)) {
        DefsOfHas(f, before, x);
        var b :| b in before && b in Labels(f) && x in Defs(BodyOf(f, b));
        DefinedOnce(f, b, last, x);
      }
      JoinDistinct(DefsOf(f, before), Defs(BodyOf(f, last)));
    }
  }

  method NumberBlocks(dfs: seq<Name>) returns (names: map<Name, Name>)
    requires Distinct(dfs)
    ensures names == NameMap(dfs)
  {
    names := map[];
    for n := 0 to |dfs|
      invariant names == NameMap(dfs[..n])
    {
      assert dfs[..n + 1] == dfs[..n] + [dfs[n]];
      MapsMore(dfs[..n], dfs[n]);
      names := names[dfs[n] := BlockName(n)];
    }
    assert dfs[..|dfs|] == dfs;
  }

  /** The values one block defines are numbered on from those before. */
  method NumberBody(body: seq<Stmt>, before: map<Name, Name>, ghost defs: seq<Name>) returns (values: map<Name, Name>)
    requires before == ValueMap(defs)
    ensures values == ValueMap(defs + Defs(body))
  {
    values := before;
    assert defs + [] == defs;
    for j := 0 to |body|
      invariant values == ValueMap(defs + Defs(body[..j]))
    {
      NumberOne(body, defs, j);
      if body[j].def.Defines? {
        values := values[body[j].def.name := ValueName(|values|)];
      }
    }
    assert body[..|body|] == body;
  }

  lemma NumberOne(body: seq<Stmt>, defs: seq<Name>, j: nat)
    requires j < |body|
    ensures var values := ValueMap(defs + Defs(body[..j]));
            ValueMap(defs + Defs(body[..j + 1])) ==
              if body[j].def.Defines? then values[body[j].def.name := ValueName(|values|)] else values
  {
    var sofar := defs + Defs(body[..j]);
    assert body[..j + 1][..j] == body[..j];
    if body[j].def.Defines? {
      assert defs + Defs(body[..j + 1]) == sofar + [body[j].def.name];
      MapsMore(sofar, body[j].def.name);
    } else {
      assert Defs(body[..j + 1]) == Defs(body[..j]);
    }
  }

  method NumberValues(f: Function, dfs: seq<Name>) returns (values: map<Name, Name>)
    requires forall x :: x in dfs ==> x in Labels(f)
    ensures values == ValueMap(DefsOf(f, dfs))
  {
    values := map[];
    for i := 0 to |dfs|
      invariant values == ValueMap(DefsOf(f, dfs[..i]))
    {
      assert dfs[i] in dfs;
      assert dfs[..i + 1][..i] == dfs[..i];
      values := NumberBody(BodyOf(f, dfs[i]), values, DefsOf(f, dfs[..i]));
    }
    assert dfs[..|dfs|] == dfs;
  }

  lemma {:induction false} LinesMore(bodies: seq<seq<Stmt>>, body: seq<Stmt>, n: nat)
    ensures Lines(bodies + [body], n) == Lines(bodies, n) + [Head(BlockName(n + |bodies|))] + StatementLines(body)
    decreases |bodies|
  {
    if bodies == [] {
      assert bodies + [body] == [body];
      assert Lines([body], n) == [Head(BlockName(n))] + StatementLines(body) + [];
    } else {
      assert (bodies + [body])[1..] == bodies[1..] + [body];
      LinesMore(bodies[1..], body, n + 1);
    }
  }

  method BodyLines(body: seq<Stmt>, given: Given, leq: (Arm, Arm) -> bool) returns (out: seq<Line>)
    ensures out == StatementLines(RenderedBody(given, leq, body))
  {
    hide Rendered;
    out := [];
    for j := 0 to |body|
      invariant |out| == j && forall k :: 0 <= k < j ==> out[k] == Statement(Rendered(given, leq, body[k]))
    {
      out := out + [Statement(Rendered(given, leq, body[j]))];
    }
  }

  lemma LinesTake(bodies: seq<seq<Stmt>>, i: nat)
    requires i < |bodies|
    ensures Lines(bodies[..i + 1], 0) == Lines(bodies[..i], 0) + [Head(BlockName(i))] + StatementLines(bodies[i])
  {
    assert bodies[..i + 1] == bodies[..i] + [bodies[i]];
    LinesMore(bodies[..i], bodies[i], 0);
  }

  method Write(f: Function, dfs: seq<Name>, given: Given, leq: (Arm, Arm) -> bool) returns (out: seq<Line>)
    requires Distinct(dfs) && given.names == NameMap(dfs) && forall x :: x in dfs ==> x in Labels(f)
    ensures out == Lines(RenderedBlocks(f, given, leq, dfs), 0)
  {
    hide Distinct, RenderedBody, BodyOf, NameMap, StatementLines;
    out := [];
    ghost var all := RenderedBlocks(f, given, leq, dfs);
    for i := 0 to |dfs|
      invariant out == Lines(all[..i], 0)
    {
      var id := dfs[i];
      assert id in dfs;
      MapsAt(dfs, i);
      LinesTake(all, i);
      var lines := BodyLines(BodyOf(f, id), given, leq);
      out := out + [Head(given.names[id])] + lines;
    }
    assert all[..|dfs|] == all;
  }

  /** What comes of any list of blocks. */
  ghost function Outcome(f: Function, leq: (Arm, Arm) -> bool): Form {
    if f.blocks == [] || Runs(f) then FormOf(f, leq) else Fails
  }

  method Canonical(f: Function, leq: (Arm, Arm) -> bool) returns (form: Form)
    ensures form == Outcome(f, leq)
  {
    if f.blocks == [] { return NoFunction; }
    var ok, dfs := DepthFirst(f);
    if !ok { return Fails; }
    OrderIsReached(f);
    var names := NumberBlocks(dfs);
    var values := NumberValues(f, dfs);
    var lines := Write(f, dfs, Given(names, values), leq);
    return Form(lines);
  }
}
