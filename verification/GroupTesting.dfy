/** `halve_red` and `red_members` of tools/parity_squash.py: finding the members of a set that make it red. */
module GroupTesting {
  import opened Arithmetic
  import opened Lists

  /** `halve_red`. */
  function HalveRed<T>(members: seq<T>, redWith: seq<T> -> bool): seq<T>
    decreases |members|
  {
    if members == [] || !redWith(members) then []
    else if |members| == 1 then members
    else
      var mid := |members| / 2;
      HalveRed(members[..mid], redWith) + HalveRed(members[mid..], redWith)
  }

  /** How often `halve_red` asks `redWith`. */
  function Asked<T>(members: seq<T>, redWith: seq<T> -> bool): nat
    decreases |members|
  {
    if members == [] then 0
    else if !redWith(members) || |members| == 1 then 1
    else
      var mid := |members| / 2;
      1 + Asked(members[..mid], redWith) + Asked(members[mid..], redWith)
  }

  /** `red_with`: a question about sets of members, if there is one. */
  datatype SetQuestion<!T> = NoQuestion | Ask(redWith: seq<T> -> bool)

  function RedMembers<T(!new)>(members: seq<T>, question: SetQuestion<T>, aloneRed: T -> bool): seq<T> {
    var found := if question.Ask? then HalveRed(members, question.redWith) else [];
    if found != [] then found else Filter(members, aloneRed)
  }

  /** Whatever the predicate, what is found is red alone, and comes from the members in their order. */
  lemma {:induction false} FoundRedAlone<T(!new)>(members: seq<T>, redWith: seq<T> -> bool)
    ensures forall m :: m in HalveRed(members, redWith) ==> redWith([m])
    ensures Subsequence(HalveRed(members, redWith), members)
    decreases |members|
  {
    if members == [] || !redWith(members) {
    } else if |members| == 1 {
      assert members == [members[0]];
      SubsequenceWhole(members);
    } else {
      var mid := |members| / 2;
      FoundRedAlone(members[..mid], redWith);
      FoundRedAlone(members[mid..], redWith);
      SubsequenceConcat(HalveRed(members[..mid], redWith), members[..mid], HalveRed(members[mid..], redWith),
        members[mid..]);
      assert members == members[..mid] + members[mid..];
    }
  }

  /** From one question, when nothing is red, to one less than twice the members, when every set is. */
  lemma {:induction false} AskedExtremes<T(!new)>(members: seq<T>, redWith: seq<T> -> bool)
    requires members != []
    ensures (forall g :: !redWith(g)) ==> Asked(members, redWith) == 1
    ensures (forall g :: redWith(g)) ==> Asked(members, redWith) == 2 * |members| - 1
    decreases |members|
  {
    if |members| > 1 && redWith(members) {
      AskedExtremes(members[..|members| / 2], redWith);
      AskedExtremes(members[|members| / 2..], redWith);
    }
  }

  /** A set is red exactly when it holds a culprit. */
  ghost predicate RedByCulprits<T(!new)>(redWith: seq<T> -> bool, culprit: T -> bool) {
    forall g: seq<T> :: redWith(g) <==> Filter(g, culprit) != []
  }

  lemma FilterOne<T(!new)>(s: seq<T>, culprit: T -> bool)
    requires |s| == 1 && Filter(s, culprit) != []
    ensures Filter(s, culprit) == s
  {
    assert s[1..] == [] && s == [s[0]];
  }

  /** Questions enough for `k` culprits among `n`: none to split for none, else two per level for each. */
  function Budget(k: nat, n: nat): nat {
    1 + 2 * (k * CeilLog2(n))
  }

  /** Two halves with at least one culprit between them, each a level less deep. */
  lemma BudgetsAddUp(j: nat, k: nat, n: nat)
    requires n >= 2 && j + k >= 1
    ensures 1 + Budget(j, n / 2) + Budget(k, n - n / 2) <= Budget(j + k, n)
  {
    CeilLog2Monotone(n / 2, (n + 1) / 2);
    QuestionsAddUp(j, k, CeilLog2(n / 2), CeilLog2(n - n / 2), CeilLog2(n));
  }

  lemma QuestionsAddUp(j: nat, k: nat, l: nat, m: nat, n: nat)
    requires j + k >= 1 && l + 1 <= n && m + 1 <= n
    ensures 1 + (1 + 2 * (j * l)) + (1 + 2 * (k * m)) <= 1 + 2 * ((j + k) * n)
  {
    TimesMonotone(l, n - 1, j);
    TimesMonotone(m, n - 1, k);
    OneLevelDown(j, k, n);
  }

  lemma OneLevelDown(j: nat, k: nat, n: nat)
    ensures (j + k) * n == (n - 1) * j + (n - 1) * k + (j + k)
  {
  }

  /**
   * Independent culprits are found exactly, in order, and cheaply: with at most 1 + 2k ceil(log2 n) questions for k
   * among n.
   */
  lemma {:induction false} CulpritsFound<T(!new)>(members: seq<T>, redWith: seq<T> -> bool, culprit: T -> bool)
    requires RedByCulprits(redWith, culprit)
    ensures HalveRed(members, redWith) == Filter(members, culprit)
    ensures Asked(members, redWith) <= Budget(|Filter(members, culprit)|, |members|)
    decreases |members|
  {
    hide RedByCulprits, Budget, HalveRed, Asked, Filter;
    RedIff(members, redWith, culprit);
    if members == [] || !redWith(members) || |members| == 1 {
      OneQuestion(members, redWith, culprit);
    } else {
      var left, right := Halved(members, redWith);
      CulpritsFound(left, redWith, culprit);
      CulpritsFound(right, redWith, culprit);
      FilterConcat(left, right, culprit);
      BudgetsAddUp(|Filter(left, culprit)|, |Filter(right, culprit)|, |members|);
    }
  }

  lemma RedIff<T(!new)>(members: seq<T>, redWith: seq<T> -> bool, culprit: T -> bool)
    requires RedByCulprits(redWith, culprit)
    ensures redWith(members) <==> Filter(members, culprit) != []
  {
    hide Filter;
  }

  lemma Halved<T>(members: seq<T>, redWith: seq<T> -> bool) returns (left: seq<T>, right: seq<T>)
    requires |members| > 1 && redWith(members)
    ensures members == left + right && |left| == |members| / 2
    ensures HalveRed(members, redWith) == HalveRed(left, redWith) + HalveRed(right, redWith)
    ensures Asked(members, redWith) == 1 + Asked(left, redWith) + Asked(right, redWith)
  {
    left, right := members[..|members| / 2], members[|members| / 2..];
  }

  lemma OneQuestion<T(!new)>(members: seq<T>, redWith: seq<T> -> bool, culprit: T -> bool)
    requires members == [] || !redWith(members) || |members| == 1
    requires redWith(members) <==> Filter(members, culprit) != []
    ensures HalveRed(members, redWith) == Filter(members, culprit)
    ensures Asked(members, redWith) <= Budget(|Filter(members, culprit)|, |members|)
  {
    if |members| == 1 && redWith(members) { FilterOne(members, culprit); }
  }

  /**
   * When asking for a set of one agrees with asking alone, the members named are red alone and in order, and none is
   * named only if none is. Unless halving found some, they are all the members red alone.
   */
  lemma NamedRedAlone<T(!new)>(members: seq<T>, question: SetQuestion<T>, aloneRed: T -> bool)
    requires question.Ask? ==> forall m :: aloneRed(m) <==> question.redWith([m])
    ensures forall m :: m in RedMembers(members, question, aloneRed) ==> m in members && aloneRed(m)
    ensures RedMembers(members, question, aloneRed) == [] <==> forall m :: m in members ==> !aloneRed(m)
    ensures Subsequence(RedMembers(members, question, aloneRed), members)
    ensures (question.Ask? ==> HalveRed(members, question.redWith) == []) ==>
      multiset(RedMembers(members, question, aloneRed)) == RedAlone(members, aloneRed)
  {
    AllRedAlone(members, aloneRed);
    FilterInOrder(members, aloneRed);
    var named := RedMembers(members, question, aloneRed);
    hide HalveRed, Filter, RedAlone, Subsequence;
    if question.Ask? {
      FoundRedAlone(members, question.redWith);
      SubsequenceIn(HalveRed(members, question.redWith), members);
    }
    if named != [] { assert named[0] in named; }
  }

  /** The members red alone, each as often as it is a member. */
  ghost function RedAlone<T(!new)>(members: seq<T>, aloneRed: T -> bool): multiset<T> {
    if members == [] then multiset{} else
      (if aloneRed(members[0]) then multiset{members[0]} else multiset{}) + RedAlone(members[1..], aloneRed)
  }

  lemma {:induction false} AllRedAlone<T(!new)>(members: seq<T>, aloneRed: T -> bool)
    ensures multiset(Filter(members, aloneRed)) == RedAlone(members, aloneRed)
    decreases |members|
  {
    if members == [] {
    } else {
      AllRedAlone(members[1..], aloneRed);
      FilterFirst(members, aloneRed);
      hide Filter;
    }
  }

  lemma {:induction false} FilterInOrder<T(!new)>(members: seq<T>, aloneRed: T -> bool)
    ensures Subsequence(Filter(members, aloneRed), members)
    decreases |members|
  {
    if members == [] {
    } else {
      FilterInOrder(members[1..], aloneRed);
      FilterFirst(members, aloneRed);
      hide Filter;
      var rest := Filter(members[1..], aloneRed);
      assert ([members[0]] + rest)[1..] == rest;
    }
  }

  lemma FilterFirst<T(!new)>(members: seq<T>, aloneRed: T -> bool)
    requires members != []
    ensures var rest := Filter(members[1..], aloneRed);
            Filter(members, aloneRed) == if aloneRed(members[0]) then [members[0]] + rest else rest
  {
  }

  lemma {:induction false} SubsequenceIn<T(!new)>(s: seq<T>, t: seq<T>)
    requires Subsequence(s, t)
    ensures forall x :: x in s ==> x in t
    decreases |t|
  {
    if s == [] {
    } else {
      if Subsequence(s, t[1..]) { SubsequenceIn(s, t[1..]); } else { SubsequenceIn(s[1..], t[1..]); }
      assert t == [t[0]] + t[1..] && s == [s[0]] + s[1..];
      forall x | x in s ensures x in t {
        assert x in s[1..] || x == s[0];
      }
    }
  }
}
