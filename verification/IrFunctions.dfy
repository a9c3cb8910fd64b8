/**
 * IR functions as `canonical` reads them: labelled blocks of lines over named values, and their depth-first order. A
 * `Stmt` is one line of text, after the substitutions that delete or respell alignment, metadata and floating literals.
 * An instruction printed over several lines is several; the `Terminators` module says what that means for a `switch`.
 */
module IrFunctions {
  import opened Lists
  import opened Names

  /** A piece of a statement: plain text, `label %x`, or any other `%x`. */
  datatype Token = Text(text: string) | LabelRef(name: Name) | ValueRef(name: Name)

  /** A piece of a phi: plain text, or `%x`. */
  datatype Piece = Words(text: string) | Named(name: Name)

  datatype Arm = Arm(operand: seq<Piece>, block: Name)

  datatype Definition = NoValue | Defines(name: Name)

  /**
   * Of a phi, `kind` is the first word after `phi`, and `rest` all else but the arms: the further words of its type and
   * what follows the arms.
   */
  datatype Stmt =
    | Plain(def: Definition, tokens: seq<Token>)
    | Phi(def: Definition, kind: seq<Piece>, rest: seq<Piece>, arms: seq<Arm>)

  datatype Block = Block(id: Name, body: seq<Stmt>)

  /** The first block is the entry. */
  datatype Function = Function(blocks: seq<Block>)

  // What a function names

  function TokenLabels(tokens: seq<Token>): seq<Name> {
    if tokens == [] then [] else (if tokens[0].LabelRef? then [tokens[0].name] else []) + TokenLabels(tokens[1..])
  }

  lemma {:induction false} LabelOfToken(tokens: seq<Token>, j: nat)
    requires j < |tokens| && tokens[j].LabelRef?
    ensures tokens[j].name in TokenLabels(tokens)
    decreases |tokens|
  {
    if j == 0 {
    } else {
      LabelOfToken(tokens[1..], j - 1);
    }
  }

  lemma {:induction false} TokenOfLabel(tokens: seq<Token>, x: Name) returns (j: nat)
    requires x in TokenLabels(tokens)
    ensures j < |tokens| && tokens[j] == LabelRef(x)
    decreases |tokens|
  {
    if tokens[0] == LabelRef(x) {
      j := 0;
    } else {
      j := TokenOfLabel(tokens[1..], x);
      j := j + 1;
    }
  }

  /** The labels on the last line, each once. */
  function BodySuccessors(body: seq<Stmt>): seq<Name> {
    if body == [] || body[|body| - 1].Phi? then [] else Once(TokenLabels(body[|body| - 1].tokens))
  }

  function Defs(body: seq<Stmt>): seq<Name> {
    if body == [] then [] else
      var last := body[|body| - 1];
      Defs(body[..|body| - 1]) + (if last.def.Defines? then [last.def.name] else [])
  }

  ghost predicate TokenNames(t: Token, x: Name) {
    !t.Text? && t.name == x
  }

  ghost predicate ArmNames(a: Arm, x: Name) {
    a.block == x || Named(x) in a.operand
  }

  ghost predicate StmtNames(s: Stmt, x: Name) {
    || s.def == Defines(x)
    || if s.Plain? then exists i :: 0 <= i < |s.tokens| && TokenNames(s.tokens[i], x)
       else Named(x) in s.kind || Named(x) in s.rest || exists i :: 0 <= i < |s.arms| && ArmNames(s.arms[i], x)
  }

  // What `canonical` makes of a phi's arms

  predicate HasChar(pieces: seq<Piece>, c: char) {
    exists i :: 0 <= i < |pieces| && pieces[i].Words? && c in pieces[i].text
  }

  /** A bracket in its operand, and the arm is not found. */
  predicate Bracketed(a: Arm) {
    HasChar(a.operand, ']')
  }

  /** A comma or a bracket in its operand, and the arm's block is not renamed as a label, only as any `%x` is. */
  predicate LabelPlace(a: Arm) {
    !HasChar(a.operand, ',') && !Bracketed(a)
  }

  /** The arms that are found. */
  function Found(arms: seq<Arm>): seq<Arm> {
    Filter(arms, a => !Bracketed(a))
  }

  /** Nothing of the line is dropped. */
  ghost predicate InFull(s: Stmt) {
    s.Phi? ==> s.rest == [] && forall i :: 0 <= i < |s.arms| ==> !Bracketed(s.arms[i])
  }

  // Looking up blocks

  function Labels(f: Function): (labels: seq<Name>)
    ensures |labels| == |f.blocks| && forall i :: 0 <= i < |labels| ==> labels[i] == f.blocks[i].id
  {
    seq(|f.blocks|, i requires 0 <= i < |f.blocks| => f.blocks[i].id)
  }

  /** The lines after `id`'s last heading, as a dictionary of blocks keeps them. */
  function BodyOf(f: Function, id: Name): seq<Stmt>
    requires id in Labels(f)
  {
    f.blocks[IndexOf(Labels(f), id)].body
  }

  function SuccessorsOf(f: Function, id: Name): seq<Name> {
    if id in Labels(f) then BodySuccessors(BodyOf(f, id)) else []
  }

  function Entry(f: Function): Name
    requires |f.blocks| > 0
  {
    f.blocks[0].id
  }

  /** A path of blocks from the entry. */
  ghost predicate LabelPath(f: Function, p: seq<Name>) {
    && |f.blocks| > 0 && |p| > 0 && p[0] == Entry(f)
    && forall i, j :: 0 <= i < j < |p| && j == i + 1 ==> p[j] in SuccessorsOf(f, p[i])
  }

  ghost predicate ReachedLabel(f: Function, x: Name) {
    exists p :: LabelPath(f, p) && p[|p| - 1] == x
  }

  ghost predicate DefinedIn(f: Function, x: Name) {
    exists b :: ReachedLabel(f, b) && b in Labels(f) && x in Defs(BodyOf(f, b))
  }

  /** The names `canonical` replaces: those of reached blocks and of the values they define. */
  ghost predicate Renamed(f: Function, x: Name) {
    ReachedLabel(f, x) || DefinedIn(f, x)
  }

  lemma PathIs(f: Function, p: seq<Name>)
    requires LabelPath(f, p)
    ensures |p| > 0 && |f.blocks| > 0 && (|p| == 1 ==> p[0] == Entry(f))
    ensures |p| > 1 ==>
      LabelPath(f, p[..|p| - 1]) && ReachedLabel(f, p[|p| - 2]) && p[|p| - 1] in SuccessorsOf(f, p[|p| - 2])
  {
    hide SuccessorsOf;
    if |p| > 1 {
      assert LabelPath(f, p[..|p| - 1]) && p[..|p| - 1][|p| - 2] == p[|p| - 2];
    }
  }

  /** Valid IR: labels and values are named once and apart, no block is empty, and every target is a block. */
  ghost predicate Valid(f: Function) {
    && |f.blocks| > 0 && Distinct(Labels(f))
    && (forall b {:trigger BlockValid(f, b)} :: b in Labels(f) ==> BlockValid(f, b))
    && (forall b, c, x {:trigger DefinesIn(f, b, x), DefinesIn(f, c, x)} ::
          DefinesIn(f, b, x) && DefinesIn(f, c, x) ==> b == c)
  }

  ghost predicate DefinesIn(f: Function, b: Name, x: Name) {
    b in Labels(f) && x in Defs(BodyOf(f, b))
  }

  ghost predicate BlockValid(f: Function, b: Name)
    requires b in Labels(f)
  {
    && BodyOf(f, b) != [] && Distinct(Defs(BodyOf(f, b)))
    && (forall s :: s in SuccessorsOf(f, b) ==> s in Labels(f))
    && (forall x :: x in Defs(BodyOf(f, b)) ==> x !in Labels(f))
  }

  lemma ValidBlock(f: Function, b: Name)
    requires Valid(f) && b in Labels(f)
    ensures BlockValid(f, b)
  {
  }

  /** A value is defined in one block, and no label is a value. */
  lemma DefinedOnce(f: Function, b: Name, c: Name, x: Name)
    requires Valid(f) && b in Labels(f) && c in Labels(f) && b != c && x in Defs(BodyOf(f, b))
    ensures x !in Defs(BodyOf(f, c)) && x !in Labels(f)
  {
    ValidBlock(f, b);
    assert DefinesIn(f, b, x);
    assert DefinesIn(f, c, x) <==> x in Defs(BodyOf(f, c));
  }

  // The depth-first order

  function LabelSet(f: Function): set<Name> {
    set x | x in Labels(f)
  }

  function NameSet(s: seq<Name>): set<Name> {
    set x | x in s
  }

  lemma TakingShrinks(f: Function, done: seq<Name>, id: Name)
    requires id in Labels(f) && id !in done
    ensures |LabelSet(f) - NameSet(done + [id])| < |LabelSet(f) - NameSet(done)|
  {
    var before, after := LabelSet(f) - NameSet(done), LabelSet(f) - NameSet(done + [id]);
    assert before == after + {id};
  }

  /**
   * The walk with an explicit stack: the top is taken unless already done, and its successors are pushed, the first
   * on top.
   */
  function Walk(f: Function, done: seq<Name>, stack: seq<Name>): seq<Name>
    decreases |LabelSet(f) - NameSet(done)|, |stack|
  {
    if stack == [] then done else
      var id, rest := stack[|stack| - 1], stack[..|stack| - 1];
      if id in done || id !in Labels(f) then Walk(f, done, rest)
      else
        TakingShrinks(f, done, id);
        Walk(f, done + [id], rest + Reversed(SuccessorsOf(f, id)))
  }

  /** The reached blocks in depth-first order. */
  function Order(f: Function): seq<Name>
    requires |f.blocks| > 0
  {
    Walk(f, [], [Entry(f)])
  }

  // The order lists exactly the reached blocks, each once

  ghost predicate Known(f: Function, x: Name) {
    x in Labels(f) && ReachedLabel(f, x)
  }

  ghost predicate AllKnown(f: Function, s: seq<Name>) {
    forall x :: x in s ==> Known(f, x)
  }

  ghost predicate AllReached(f: Function, s: seq<Name>) {
    forall x :: x in s ==> ReachedLabel(f, x)
  }

  ghost predicate Leads(f: Function, done: seq<Name>, stack: seq<Name>, x: Name) {
    forall s :: s in SuccessorsOf(f, x) ==> s in done || s in stack
  }

  ghost predicate AllLead(f: Function, done: seq<Name>, stack: seq<Name>) {
    forall x :: x in done ==> Leads(f, done, stack, x)
  }

  ghost predicate WalkState(f: Function, done: seq<Name>, stack: seq<Name>) {
    && Distinct(done) && AllKnown(f, done) && AllReached(f, stack) && AllLead(f, done, stack)
    && |f.blocks| > 0 && (Entry(f) in done || Entry(f) in stack)
  }

  lemma BackwardsHas(s: seq<Name>)
    ensures forall x :: x in Reversed(s) <==> x in s
  {
    forall x | x in s ensures x in Reversed(s) {
      var i :| 0 <= i < |s| && s[i] == x;
      assert Reversed(s)[|s| - 1 - i] == x;
    }
  }

  lemma SuccessorsReached(f: Function, x: Name)
    requires ReachedLabel(f, x)
    ensures AllReached(f, SuccessorsOf(f, x))
  {
    var p :| LabelPath(f, p) && p[|p| - 1] == x;
    hide LabelPath, SuccessorsOf;
    forall s | s in SuccessorsOf(f, x) ensures ReachedLabel(f, s) {
      LongerPath(f, p, s);
    }
  }

  lemma LongerPath(f: Function, p: seq<Name>, s: Name)
    requires LabelPath(f, p) && s in SuccessorsOf(f, p[|p| - 1])
    ensures LabelPath(f, p + [s]) && (p + [s])[|p + [s]| - 1] == s
  {
    hide SuccessorsOf;
  }

  lemma WalkTake(f: Function, done: seq<Name>, rest: seq<Name>, id: Name)
    requires WalkState(f, done, rest + [id]) && id !in done && id in Labels(f)
    ensures WalkState(f, done + [id], rest + Reversed(SuccessorsOf(f, id)))
  {
    var next := SuccessorsOf(f, id);
    assert id in rest + [id];
    SuccessorsReached(f, id);
    BackwardsHas(next);
    forall x | x in rest ensures ReachedLabel(f, x) {
      assert x in rest + [id];
    }
    forall x | x in done + [id] ensures Leads(f, done + [id], rest + Reversed(next), x) {
      if x in done { assert Leads(f, done, rest + [id], x); }
    }
  }

  lemma WalkDrop(f: Function, done: seq<Name>, rest: seq<Name>, id: Name)
    requires WalkState(f, done, rest + [id]) && id in done
    ensures WalkState(f, done, rest)
  {
    forall x | x in rest ensures ReachedLabel(f, x) {
      assert x in rest + [id];
    }
    forall x | x in done ensures Leads(f, done, rest, x) {
      assert Leads(f, done, rest + [id], x);
    }
  }

  /** One turn of the walk: the state is kept and the outcome stays the same. */
  lemma WalkStep(f: Function, done: seq<Name>, rest: seq<Name>, id: Name)
    requires WalkState(f, done, rest + [id]) && (id in done || id in Labels(f))
    ensures Known(f, id) && AllKnown(f, done)
    ensures id in done ==> WalkState(f, done, rest) && Walk(f, done, rest) == Walk(f, done, rest + [id])
    ensures id !in done ==>
              var next := rest + Reversed(SuccessorsOf(f, id));
              && WalkState(f, done + [id], next) && Walk(f, done + [id], next) == Walk(f, done, rest + [id])
              && |LabelSet(f) - NameSet(done + [id])| < |LabelSet(f) - NameSet(done)|
  {
    var stack := rest + [id];
    assert stack[|stack| - 1] == id && stack[..|stack| - 1] == rest;
    assert id in stack && ReachedLabel(f, id);
    if id in done {
      WalkDrop(f, done, rest, id);
    } else {
      WalkTake(f, done, rest, id);
      TakingShrinks(f, done, id);
    }
  }

  /** `canonical` runs to its end: each block it meets is there and has a last line. */
  ghost predicate Runs(f: Function) {
    |f.blocks| > 0 && forall x {:trigger Readable(f, x)} :: ReachedLabel(f, x) ==> Readable(f, x)
  }

  ghost predicate Readable(f: Function, x: Name) {
    x in Labels(f) && BodyOf(f, x) != []
  }

  lemma {:induction false} PathLabels(f: Function, p: seq<Name>)
    requires Valid(f) && LabelPath(f, p)
    ensures p[|p| - 1] in Labels(f)
    decreases |p|
  {
    if |p| == 1 {
      assert Labels(f)[0] == Entry(f);
    } else {
      assert LabelPath(f, p[..|p| - 1]);
      PathLabels(f, p[..|p| - 1]);
      ValidBlock(f, p[|p| - 2]);
    }
  }

  lemma ValidRuns(f: Function)
    requires Valid(f)
    ensures Runs(f)
  {
    forall x | ReachedLabel(f, x) ensures Readable(f, x) {
      var p :| LabelPath(f, p) && p[|p| - 1] == x;
      PathLabels(f, p);
      ValidBlock(f, x);
    }
  }

  lemma {:induction false} WalkFinds(f: Function, done: seq<Name>, stack: seq<Name>)
    requires Runs(f) && WalkState(f, done, stack)
    ensures WalkState(f, Walk(f, done, stack), [])
    decreases |LabelSet(f) - NameSet(done)|, |stack|
  {
    if stack == [] {
    } else {
      var id, rest := stack[|stack| - 1], stack[..|stack| - 1];
      assert stack == rest + [id];
      StackTop(f, done, rest, id);
      assert Readable(f, id);
      hide Runs, WalkState;
      WalkStep(f, done, rest, id);
      if id in done {
        WalkFinds(f, done, rest);
      } else {
        WalkFinds(f, done + [id], rest + Reversed(SuccessorsOf(f, id)));
      }
    }
  }

  lemma StackTop(f: Function, done: seq<Name>, rest: seq<Name>, id: Name)
    requires WalkState(f, done, rest + [id])
    ensures ReachedLabel(f, id)
  {
    assert id in rest + [id];
  }

  lemma EntryDone(f: Function, done: seq<Name>)
    requires WalkState(f, done, [])
    ensures |f.blocks| > 0 && Entry(f) in done
  {
  }

  lemma SuccessorDone(f: Function, done: seq<Name>, x: Name, s: Name)
    requires WalkState(f, done, []) && x in done && s in SuccessorsOf(f, x)
    ensures s in done
  {
    hide SuccessorsOf;
    assert Leads(f, done, [], x);
  }

  lemma {:induction false} PathDone(f: Function, done: seq<Name>, p: seq<Name>)
    requires WalkState(f, done, []) && LabelPath(f, p)
    ensures p[|p| - 1] in done
    decreases |p|
  {
    hide *;
    PathIs(f, p);
    if |p| <= 1 {
      EntryDone(f, done);
    } else {
      PathDone(f, done, p[..|p| - 1]);
      SuccessorDone(f, done, p[|p| - 2], p[|p| - 1]);
    }
  }

  /** The walk lists exactly the blocks that last lines lead to, each once. */
  lemma OrderIsReached(f: Function)
    requires Runs(f)
    ensures Distinct(Order(f))
    ensures forall x :: x in Order(f) <==> ReachedLabel(f, x)
    ensures forall x :: x in Order(f) ==> x in Labels(f)
    ensures forall x, s :: x in Order(f) && s in SuccessorsOf(f, x) ==> s in Order(f)
    ensures Entry(f) in Order(f)
  {
    assert LabelPath(f, [Entry(f)]);
    assert ReachedLabel(f, Entry(f)) && Entry(f) in [Entry(f)];
    WalkFinds(f, [], [Entry(f)]);
    forall x ensures x in Order(f) <==> ReachedLabel(f, x) {
      if ReachedLabel(f, x) {
        var p :| LabelPath(f, p) && p[|p| - 1] == x;
        PathDone(f, Order(f), p);
      }
      if x in Order(f) { assert Known(f, x); }
    }
    forall x, s | x in Order(f) && s in SuccessorsOf(f, x) ensures s in Order(f) {
      assert Leads(f, Order(f), [], x);
    }
  }

  lemma {:induction false} WalkKeeps(f: Function, done: seq<Name>, stack: seq<Name>)
    ensures done <= Walk(f, done, stack)
    decreases |LabelSet(f) - NameSet(done)|, |stack|
  {
    if stack == [] {
    } else {
      var id, rest := stack[|stack| - 1], stack[..|stack| - 1];
      if id in done || id !in Labels(f) {
        WalkKeeps(f, done, rest);
      } else {
        TakingShrinks(f, done, id);
        WalkKeeps(f, done + [id], rest + Reversed(SuccessorsOf(f, id)));
      }
    }
  }

  lemma WalkPops(f: Function, done: seq<Name>, rest: seq<Name>, id: Name)
    requires id in Labels(f)
    ensures Walk(f, done, rest + [id]) ==
              if id in done then Walk(f, done, rest) else Walk(f, done + [id], rest + Reversed(SuccessorsOf(f, id)))
  {
    var stack := rest + [id];
    assert stack[|stack| - 1] == id && stack[..|stack| - 1] == rest;
    if id !in done { TakingShrinks(f, done, id); }
  }

  lemma OrderStarts(f: Function)
    requires Valid(f)
    ensures |Order(f)| > 0 && Order(f)[0] == Entry(f)
  {
    var e := Entry(f);
    assert Labels(f)[0] == e;
    hide Valid, Labels, SuccessorsOf, Walk;
    assert [] + [e] == [e];
    WalkPops(f, [], [], e);
    WalkKeeps(f, [] + [e], [] + Reversed(SuccessorsOf(f, e)));
  }
}
