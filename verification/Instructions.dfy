/** Decoded instructions and the edges between them: `_successors` of tools/innerloops.py. */
module Instructions {
  import opened ControlFlow

  /** A branch or call target, when the operand names one. */
  datatype Target = Unknown | At(address: int)

  datatype Flow =
    | Next
    | ConditionalBranch
    | UnconditionalBranch
    | IndirectBranch
    | Call
    | IndirectCall
    | Return
    | Interrupt
    | Exception

  /**
   * What control flow sees of an instruction: where it is, where the next one starts, and its branch or call target
   * if it is known.
   */
  datatype Insn = Insn(ip: int, nextIp: int, flow: Flow, target: Target) {
    predicate Branches() {
      flow == ConditionalBranch || flow == UnconditionalBranch
    }

    predicate Ends() {
      flow == UnconditionalBranch || flow == IndirectBranch || flow == Return || flow == Interrupt || flow == Exception
    }

    predicate Calls() {
      flow == Call || flow == IndirectCall
    }
  }

  /** Each instruction's index by its address; of two at one address, the later. */
  method WhereIs(text: seq<Insn>) returns (where: map<int, int>)
    ensures IsWhere(text, where)
  {
    where := map[];
    for i := 0 to |text|
      invariant IsWhere(text[..i], where)
    {
      assert text[..i + 1] == text[..i] + [text[i]];
      where := where[text[i].ip := i];
    }
    assert text[..|text|] == text;
  }

  ghost predicate IsWhere(text: seq<Insn>, where: map<int, int>) {
    && (forall a {:trigger where[a]} :: a in where ==> 0 <= where[a] < |text| && text[where[a]].ip == a)
    && (forall i {:trigger text[i]} :: 0 <= i < |text| ==> text[i].ip in where && i <= where[text[i].ip])
  }

  function FallsTo(one: Insn, where: map<int, int>): seq<int> {
    if !one.Ends() && one.nextIp in where then [where[one.nextIp]] else []
  }

  function JumpsTo(one: Insn, where: map<int, int>): seq<int> {
    if one.Branches() && one.target.At? && one.target.address in where then [where[one.target.address]] else []
  }

  function Successors(one: Insn, where: map<int, int>): seq<int> {
    FallsTo(one, where) + JumpsTo(one, where)
  }

  lemma SuccessorIs(one: Insn, where: map<int, int>, s: int)
    ensures s in Successors(one, where) <==> s in FallsTo(one, where) || s in JumpsTo(one, where)
  {
  }

  function SuccessorLists(text: seq<Insn>, where: map<int, int>): (g: Graph)
    ensures |g| == |text| && forall i :: 0 <= i < |g| ==> g[i] == Successors(text[i], where)
  {
    seq(|text|, i requires 0 <= i < |text| => Successors(text[i], where))
  }

  lemma SuccessorsInRange(text: seq<Insn>, where: map<int, int>)
    requires IsWhere(text, where)
    ensures WellFormed(SuccessorLists(text, where))
  {
    var g := SuccessorLists(text, where);
    forall i, s | 0 <= i < |g| && s in g[i] ensures 0 <= s < |g| {
      SuccessorIs(text[i], where, s);
    }
  }

  /** Control passes from `one` to address `a` within a procedure: by falling through, or as its known branch target. */
  ghost predicate PassesTo(one: Insn, a: int) {
    match one.flow
    case Next | Call | IndirectCall => a == one.nextIp
    case ConditionalBranch => a == one.nextIp || one.target == At(a)
    case UnconditionalBranch => one.target == At(a)
    case IndirectBranch | Return | Interrupt | Exception => false
  }

  /** No later instruction has the same address. */
  ghost predicate LastAt(text: seq<Insn>, j: int) {
    0 <= j < |text| && forall k :: j < k < |text| ==> text[k].ip != text[j].ip
  }

  lemma LastWhere(text: seq<Insn>, where: map<int, int>, j: int)
    requires IsWhere(text, where) && 0 <= j < |text|
    ensures LastAt(text, j) <==> text[j].ip in where && where[text[j].ip] == j
  {
    assert text[j].ip in where;
    assert text[where[text[j].ip]].ip == text[j].ip;
    if where[text[j].ip] == j {
      forall k | j < k < |text|
        ensures text[k].ip != text[j].ip
      {
        assert k <= where[text[k].ip];
      }
    }
  }

  /** The edges of the text: from each instruction to the last one at every address control passes to. */
  lemma SuccessorsAreFlow(text: seq<Insn>, where: map<int, int>, i: int, j: int)
    requires IsWhere(text, where) && 0 <= i < |text| && 0 <= j < |text|
    ensures j in SuccessorLists(text, where)[i] <==> LastAt(text, j) && PassesTo(text[i], text[j].ip)
  {
    LastWhere(text, where, j);
    var one := text[i];
    SuccessorIs(one, where, j);
    assert j in FallsTo(one, where) <==> !one.Ends() && one.nextIp in where && where[one.nextIp] == j;
    assert one.nextIp in where ==> text[where[one.nextIp]].ip == one.nextIp;
    assert one.target.At? && one.target.address in where ==> text[where[one.target.address]].ip == one.target.address;
  }

  /** The index of each address is determined. */
  lemma WhereUnique(text: seq<Insn>, where: map<int, int>, where': map<int, int>)
    requires IsWhere(text, where) && IsWhere(text, where')
    ensures where == where'
  {
    forall a | a in where
      ensures a in where' && where[a] <= where'[a]
    {
      assert text[where[a]].ip == a;
    }
    forall a | a in where'
      ensures a in where && where'[a] <= where[a]
    {
      assert text[where'[a]].ip == a;
    }
  }
}
