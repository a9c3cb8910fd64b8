/**
 * `first_bad` of tools/qcport_sweep.py and `culprit` of tools/postland.py: the commit, oldest first, that
 * brought a failure in. Nothing is assumed of the history; what the searches promise on any history is a flip.
 */
module Bisection {
  import opened Arithmetic
  import opened Lists

  /** What building and testing a commit tells: `None`, `False` and `True` of `is_bad`. */
  datatype Verdict = Unbuildable | Good | Bad

  datatype Answer<C> = Nothing | Commit(commit: C)

  ghost predicate NoneBuilds<C>(commits: seq<C>, test: C -> Verdict, from: int, to: int) {
    forall k :: 0 <= k < |commits| && from <= k < to ==> test(commits[k]) == Unbuildable
  }

  /** `g` is a good commit or the point before the first one. */
  ghost predicate GoodOrStart<C>(commits: seq<C>, test: C -> Verdict, g: int) {
    g == -1 || (0 <= g < |commits| && test(commits[g]) == Good)
  }

  /** Between the last good commit below `at` and `at` nothing builds. */
  ghost predicate Introduced<C>(commits: seq<C>, test: C -> Verdict, at: nat) {
    exists g :: -1 <= g < at && GoodOrStart(commits, test, g) && NoneBuilds(commits, test, g + 1, at)
  }

  /** Once a commit that builds is bad, no later one is good. */
  ghost predicate SingleFlip<C>(commits: seq<C>, test: C -> Verdict) {
    forall i, j :: 0 <= i < j < |commits| && test(commits[i]) == Bad ==> test(commits[j]) != Good
  }

  ghost predicate AllBuild<C>(commits: seq<C>, test: C -> Verdict) {
    forall k :: 0 <= k < |commits| ==> test(commits[k]) != Unbuildable
  }

  /** How many of the first `n` commits do not build. */
  ghost function Unbuilt<C>(commits: seq<C>, test: C -> Verdict, n: nat): nat
    requires n <= |commits|
  {
    if n == 0 then 0 else Unbuilt(commits, test, n - 1) + if test(commits[n - 1]) == Unbuildable then 1 else 0
  }

  ghost function UnbuiltPlaces<C>(commits: seq<C>, test: C -> Verdict, n: nat): set<nat>
    requires n <= |commits|
  {
    set k: nat | k < n && test(commits[k]) == Unbuildable
  }

  lemma {:induction false} UnbuiltIs<C>(commits: seq<C>, test: C -> Verdict, n: nat)
    requires n <= |commits|
    ensures Unbuilt(commits, test, n) == |UnbuiltPlaces(commits, test, n)|
    decreases n
  {
    if n == 0 {
      assert UnbuiltPlaces(commits, test, n) == {};
    } else {
      UnbuiltIs(commits, test, n - 1);
      var before, after := UnbuiltPlaces(commits, test, n - 1), UnbuiltPlaces(commits, test, n);
      if test(commits[n - 1]) == Unbuildable {
        assert after == before + {n - 1};
      } else {
        assert after == before;
      }
    }
  }

  /** A stretch where nothing builds is no longer than all that do not. */
  lemma {:induction false} StretchUnbuilt<C>(commits: seq<C>, test: C -> Verdict, from: nat, to: nat, n: nat)
    requires from <= to <= n <= |commits| && NoneBuilds(commits, test, from, to)
    ensures to - from <= Unbuilt(commits, test, n)
    decreases n
  {
    if n == 0 {
    } else if to < n {
      StretchUnbuilt(commits, test, from, to, n - 1);
    } else if from < to {
      StretchUnbuilt(commits, test, from, to - 1, n - 1);
    }
  }

  /** `[*range(mid, hi), *range(mid - 1, lo - 1, -1)]`: the middle, then what is above it, then what is below. */
  function Probes(lo: nat, mid: nat, hi: nat): (r: seq<nat>)
    requires lo <= mid < hi
    ensures |r| == hi - lo
    ensures forall k :: 0 <= k < |r| ==> r[k] == if k < hi - mid then mid + k else hi - 1 - k
  {
    seq(hi - mid, (k: nat) => mid + k) + seq(mid - lo, k requires 0 <= k < mid - lo => mid - 1 - k)
  }

  ghost predicate Passed<C>(commits: seq<C>, test: C -> Verdict, order: seq<nat>, k: nat) {
    k <= |order| && forall j :: 0 <= j < k ==> order[j] < |commits| && test(commits[order[j]]) == Unbuildable
  }

  /** Passing over every probe passes over the whole range. */
  lemma PassedAll<C>(commits: seq<C>, test: C -> Verdict, lo: nat, mid: nat, hi: nat)
    requires lo <= mid < hi <= |commits| && Passed(commits, test, Probes(lo, mid, hi), hi - lo)
    ensures NoneBuilds(commits, test, lo, hi)
  {
    var order := Probes(lo, mid, hi);
    forall p | lo <= p < hi
      ensures test(commits[p]) == Unbuildable
    {
      assert order[if p >= mid then p - mid else hi - 1 - p] == p;
    }
  }

  /** What `k` probes have passed over: a stretch from the middle up, or all above the next probe. */
  lemma PassedStretch<C>(commits: seq<C>, test: C -> Verdict, lo: nat, mid: nat, hi: nat, k: nat)
    requires lo <= mid < hi <= |commits| && k < hi - lo
    requires Passed(commits, test, Probes(lo, mid, hi), k)
    ensures var probe := Probes(lo, mid, hi)[k];
            if probe >= mid then probe == mid + k && NoneBuilds(commits, test, mid, probe)
            else probe + 1 + k == hi && NoneBuilds(commits, test, probe + 1, hi)
    ensures k <= Unbuilt(commits, test, |commits|)
  {
    var order := Probes(lo, mid, hi);
    var probe := order[k];
    var from, to := if probe >= mid then mid else probe + 1, if probe >= mid then probe else hi;
    forall p | from <= p < to
      ensures test(commits[p]) == Unbuildable
    {
      assert order[if p >= mid then p - mid else hi - 1 - p] == p;
    }
    StretchUnbuilt(commits, test, from, to, |commits|);
  }

  /**
   * The first probe that builds: the nearest at or above the middle, or else the nearest below it. It takes one test
   * and one for each commit passed over.
   */
  method Probe<C>(commits: seq<C>, test: C -> Verdict, lo: nat, mid: nat, hi: nat)
    returns (verdict: Verdict, probe: nat, ghost asked: nat)
    requires lo <= mid < hi <= |commits|
    ensures verdict == Unbuildable ==> NoneBuilds(commits, test, lo, hi)
    ensures verdict != Unbuildable ==> lo <= probe < hi && verdict == test(commits[probe])
    ensures verdict != Unbuildable ==>
      if probe >= mid then NoneBuilds(commits, test, mid, probe) else NoneBuilds(commits, test, probe + 1, hi)
    ensures AllBuild(commits, test) ==> probe == mid && asked == 1
    ensures verdict == Unbuildable ==> asked == hi - lo
    ensures verdict != Unbuildable ==> asked == if probe >= mid then probe - mid + 1 else hi - probe
    ensures asked <= 1 + Unbuilt(commits, test, |commits|)
  {
    var order := Probes(lo, mid, hi);
    var k := 0;
    verdict, probe, asked := Unbuildable, mid, 0;
    hide Unbuilt, NoneBuilds;
    while k < |order|
      invariant 0 <= k <= |order| && asked == k
      invariant Passed(commits, test, order, k) && verdict == Unbuildable
      invariant AllBuild(commits, test) ==> k == 0
      invariant k == 0 ==> probe == mid
    {
      probe := order[k];
      PassedStretch(commits, test, lo, mid, hi, k);
      verdict := test(commits[probe]);
      asked := asked + 1;
      if verdict != Unbuildable { return; }
      k := k + 1;
    }
    PassedAll(commits, test, lo, mid, hi);
    StretchUnbuilt(commits, test, lo, hi, |commits|);
  }

  /** Halving the range takes one step off its logarithm. */
  lemma Halved(lo: nat, mid: nat, hi: nat)
    requires lo < hi && mid == (lo + hi) / 2
    ensures CeilLog2(mid - lo + 1) < CeilLog2(hi - lo + 1)
    ensures CeilLog2(hi - mid) < CeilLog2(hi - lo + 1)
  {
    CeilLog2Monotone(mid - lo + 1, (hi - lo + 2) / 2);
    CeilLog2Monotone(hi - mid, (hi - lo + 2) / 2);
  }

  /** One more takes at most one more step. */
  lemma {:induction false} CeilLog2Step(n: nat)
    ensures CeilLog2(n + 1) <= CeilLog2(n) + 1
    decreases n
  {
    if n > 2 { CeilLog2Step((n + 1) / 2); }
  }

  lemma {:induction false} CeilLog2Steps(n: nat, d: nat)
    ensures CeilLog2(n + d) <= CeilLog2(n) + d
    decreases d
  {
    if d == 0 {
    } else {
      CeilLog2Steps(n, d - 1);
      CeilLog2Step(n + d - 1);
    }
  }

  /** After `asked` tests on `n` commits at least `m` are left, by the logarithm rounded down. */
  ghost predicate Spared(n: nat, asked: nat, m: nat) {
    CeilLog2(n + 1) <= asked + CeilLog2(m + 1)
  }

  lemma NotSpared(n: nat, asked: nat, m: nat, more: nat, left: nat)
    requires Spared(n, asked, m) && m > 1 && more > 0 && left + more > m / 2
    ensures Spared(n, asked + more, left)
  {
    assert CeilLog2(m + 1) == 1 + CeilLog2(m / 2 + 1);
    CeilLog2Steps(left + 1, more - 1);
    CeilLog2Monotone(m / 2 + 1, left + 1 + (more - 1));
  }

  lemma AllSpared(n: nat)
    ensures Spared(n, 0, n)
  {
  }

  lemma OneLeft(n: nat, asked: nat)
    requires Spared(n, asked, 1)
    ensures CeilLog2(n + 1) - 1 <= asked
  {
  }

  /** `bad` is the commit at `at`, bad unless it is the last, and introduced there. */
  ghost predicate BrokenAt<C>(commits: seq<C>, test: C -> Verdict, bad: C, at: nat) {
    && at < |commits| && bad == commits[at]
    && (test(bad) == Bad || at == |commits| - 1)
    && Introduced(commits, test, at)
  }

  lemma IntroducedAt<C>(commits: seq<C>, test: C -> Verdict, g: int, at: nat)
    requires -1 <= g < at < |commits| && GoodOrStart(commits, test, g) && NoneBuilds(commits, test, g + 1, at)
    ensures Introduced(commits, test, at)
    ensures test(commits[at]) == Bad || at == |commits| - 1 ==> BrokenAt(commits, test, commits[at], at)
  {
  }

  /** Rounds that are enough: for the range, and for its part below `top`, above which nothing builds. */
  ghost function Rounds(lo: nat, top: nat, hi: nat): nat
    requires lo <= top <= hi
  {
    CeilLog2(hi - lo + 1) + CeilLog2(top - lo + 1)
  }

  /** A bad probe leaves fewer rounds: what was the range becomes the part, half as long. */
  lemma BadRound(lo: nat, top: nat, hi: nat, probe: nat)
    requires lo <= top <= hi && lo < hi && lo <= probe < top
    ensures var mid := (lo + hi) / 2; Rounds(lo, if probe < mid then probe else mid, probe) < Rounds(lo, top, hi)
  {
    var mid := (lo + hi) / 2;
    Halved(lo, mid, hi);
    CeilLog2Monotone(probe - lo + 1, top - lo + 1);
    if probe < mid { CeilLog2Monotone(probe - lo + 1, mid - lo + 1); }
  }

  /** So does a good one. */
  lemma GoodRound(lo: nat, top: nat, hi: nat, probe: nat)
    requires lo <= top <= hi && lo < hi && (lo + hi) / 2 <= probe < top
    ensures Rounds(probe + 1, top, hi) < Rounds(lo, top, hi)
  {
    var mid := (lo + hi) / 2;
    Halved(lo, mid, hi);
    CeilLog2Monotone(hi - (probe + 1) + 1, hi - mid);
    CeilLog2Monotone(top - (probe + 1) + 1, top - lo + 1);
  }

  lemma LastRound(lo: nat, top: nat, hi: nat)
    requires lo <= top <= hi && lo < hi
    ensures Rounds(lo, top, hi) > 0
  {
  }

  /** What `rounds` rounds may take, each one test and one for each commit that does not build. */
  ghost function Cost(rounds: nat, unbuilt: nat): nat {
    rounds * (1 + unbuilt)
  }

  /** Rounds used and left. */
  lemma Budgeted(asked: nat, more: nat, unbuilt: nat, before: nat, after: nat, all: nat)
    requires asked + Cost(before, unbuilt) <= all && more <= 1 + unbuilt && after < before
    ensures asked + more + Cost(after, unbuilt) <= all && asked + more <= all
  {
    TimesMonotone(after + 1, before, 1 + unbuilt);
    assert (after + 1) * (1 + unbuilt) == after * (1 + unbuilt) + (1 + unbuilt);
  }

  /** Where nothing from `top` on builds, a commit that does is before it. */
  lemma BuildsBelow<C>(commits: seq<C>, test: C -> Verdict, top: nat, hi: nat, probe: nat)
    requires probe < hi <= |commits| && NoneBuilds(commits, test, top, hi) && test(commits[probe]) != Unbuildable
    ensures probe < top
  {
  }

  /** Tests enough for the whole history. */
  ghost function Most<C>(commits: seq<C>, test: C -> Verdict): nat {
    Cost(2 * CeilLog2(|commits|), Unbuilt(commits, test, |commits|))
  }

  /** The tests asked, and those that the range left may still take. */
  ghost predicate Counted<C>(commits: seq<C>, test: C -> Verdict, asked: nat, lo: nat, top: nat, hi: nat) {
    && lo <= top <= hi < |commits|
    && (AllBuild(commits, test) ==> asked + CeilLog2(hi - lo + 1) <= CeilLog2(|commits|))
    && asked + Cost(Rounds(lo, top, hi), Unbuilt(commits, test, |commits|)) <= Most(commits, test)
    && Spared(|commits|, asked, hi - lo + 1)
  }

  lemma CountedFirst<C>(commits: seq<C>, test: C -> Verdict)
    requires commits != []
    ensures Counted(commits, test, 0, 0, |commits| - 1, |commits| - 1)
  {
    AllRounds(|commits|);
    AllSpared(|commits|);
  }

  /** What `Probe` tells of the tests it took. */
  ghost predicate ProbeCost<C>(commits: seq<C>, test: C -> Verdict, lo: nat, hi: nat, probe: nat, more: nat) {
    var mid := (lo + hi) / 2;
    && lo <= probe < hi && more == (if probe >= mid then probe - mid + 1 else hi - probe)
    && (AllBuild(commits, test) ==> probe == mid) && more <= 1 + Unbuilt(commits, test, |commits|)
  }

  lemma SparedBad(n: nat, asked: nat, lo: nat, hi: nat, probe: nat, more: nat)
    requires lo < hi && lo <= probe < hi && Spared(n, asked, hi - lo + 1)
    requires var mid := (lo + hi) / 2; more == if probe >= mid then probe - mid + 1 else hi - probe
    ensures Spared(n, asked + more, probe - lo + 1)
  {
    NotSpared(n, asked, hi - lo + 1, more, probe - lo + 1);
  }

  lemma CostBad(asked: nat, more: nat, unbuilt: nat, lo: nat, top: nat, hi: nat, probe: nat, all: nat)
    requires lo <= top <= hi && lo < hi && lo <= probe < top && more <= 1 + unbuilt
    requires asked + Cost(Rounds(lo, top, hi), unbuilt) <= all
    ensures var mid := (lo + hi) / 2;
            asked + more + Cost(Rounds(lo, if probe < mid then probe else mid, probe), unbuilt) <= all
  {
    hide Rounds, Cost;
    BadRound(lo, top, hi, probe);
    var mid := (lo + hi) / 2;
    Budgeted(asked, more, unbuilt, Rounds(lo, top, hi), Rounds(lo, if probe < mid then probe else mid, probe), all);
  }

  lemma CountedBad<C>(
      commits: seq<C>, test: C -> Verdict, asked: nat, lo: nat, top: nat, hi: nat, probe: nat, more: nat)
    requires Counted(commits, test, asked, lo, top, hi) && lo < hi
    requires ProbeCost(commits, test, lo, hi, probe, more) && probe < top
    ensures var mid := (lo + hi) / 2;
            Counted(commits, test, asked + more, lo, if probe < mid then probe else mid, probe)
  {
    hide AllBuild, CeilLog2, Unbuilt, Rounds, Spared, Cost, Most;
    CostBad(asked, more, Unbuilt(commits, test, |commits|), lo, top, hi, probe, Most(commits, test));
    Halved(lo, (lo + hi) / 2, hi);
    SparedBad(|commits|, asked, lo, hi, probe, more);
  }

  lemma CountedGood<C>(
      commits: seq<C>, test: C -> Verdict, asked: nat, lo: nat, top: nat, hi: nat, probe: nat, more: nat)
    requires Counted(commits, test, asked, lo, top, hi) && lo < hi
    requires ProbeCost(commits, test, lo, hi, probe, more) && (lo + hi) / 2 <= probe < top
    ensures Counted(commits, test, asked + more, probe + 1, top, hi)
  {
    hide AllBuild, CeilLog2, Unbuilt, Rounds, Spared, Cost, Most;
    GoodRound(lo, top, hi, probe);
    Halved(lo, (lo + hi) / 2, hi);
    Budgeted(asked, more, Unbuilt(commits, test, |commits|), Rounds(lo, top, hi), Rounds(probe + 1, top, hi),
      Most(commits, test));
    NotSpared(|commits|, asked, hi - lo + 1, more, hi - probe);
  }

  lemma MostIs<C>(commits: seq<C>, test: C -> Verdict)
    ensures Most(commits, test) == 2 * CeilLog2(|commits|) * (1 + Unbuilt(commits, test, |commits|))
  {
  }

  /** Tests within both bounds. */
  ghost predicate Within<C>(commits: seq<C>, test: C -> Verdict, asked: nat) {
    && CeilLog2(|commits| + 1) - 1 <= asked <= 2 * CeilLog2(|commits|) * (1 + Unbuilt(commits, test, |commits|))
    && (AllBuild(commits, test) ==> asked <= CeilLog2(|commits|))
  }

  lemma CountedOut<C>(commits: seq<C>, test: C -> Verdict, asked: nat, lo: nat, top: nat, hi: nat, more: nat)
    requires Counted(commits, test, asked, lo, top, hi) && lo < hi && !AllBuild(commits, test)
    requires more > (hi - lo + 1) / 2 - 1 && 0 < more <= 1 + Unbuilt(commits, test, |commits|)
    ensures Within(commits, test, asked + more)
  {
    LastRound(lo, top, hi);
    MostIs(commits, test);
    hide AllBuild, Unbuilt, Rounds, Spared, Cost, Most, CeilLog2;
    Budgeted(asked, more, Unbuilt(commits, test, |commits|), Rounds(lo, top, hi), Rounds(lo, top, hi) - 1,
      Most(commits, test));
    NotSpared(|commits|, asked, hi - lo + 1, more, 1);
    OneLeft(|commits|, asked + more);
  }

  lemma CountedLast<C>(commits: seq<C>, test: C -> Verdict, asked: nat, at: nat)
    requires Counted(commits, test, asked, at, at, at)
    ensures Within(commits, test, asked)
  {
    hide Most, Cost, CeilLog2, Unbuilt, AllBuild, Spared, Rounds;
    OneLeft(|commits|, asked);
    CeilLog2One();
    MostIs(commits, test);
  }

  /** Neither a range where nothing builds, nor a probe below the middle, is met where all builds. */
  lemma NotAllBuild<C>(commits: seq<C>, test: C -> Verdict, lo: nat, hi: nat, probe: nat, verdict: Verdict)
    requires lo < hi <= |commits|
    requires if verdict == Unbuildable then NoneBuilds(commits, test, lo, hi)
             else AllBuild(commits, test) ==> probe == (lo + hi) / 2
    requires verdict == Unbuildable || probe < (lo + hi) / 2
    ensures !AllBuild(commits, test)
  {
    if verdict == Unbuildable { assert test(commits[lo]) == Unbuildable; }
  }

  /**
   * Binary search that passes over commits that do not build. On every history the answer is bad if the last
   * commit is, and what separates it from a good commit, or from the start, is only commits that do not build. A
   * history of n commits, u of which do not build, takes at most 2 ceil(log2 n) (1 + u) tests, ceil(log2 n) when all
   * build, and never less than floor(log2 n), which is ceil(log2 (n + 1)) - 1.
   */
  method FirstBad<C>(commits: seq<C>, test: C -> Verdict) returns (bad: C, ghost asked: nat)
    requires commits != []
    ensures exists at :: BrokenAt(commits, test, bad, at)
    ensures Within(commits, test, asked)
  {
    hide NoneBuilds, AllBuild, Introduced, BrokenAt, Unbuilt, Within, Counted, Rounds;
    var lo, hi := 0, |commits| - 1;
    asked := 0;
    ghost var top := hi;
    NoneBetween(commits, test, hi);
    CountedFirst(commits, test);
    while lo < hi
      invariant 0 <= lo <= top <= hi < |commits|
      invariant test(commits[hi]) == Bad || hi == |commits| - 1
      invariant GoodOrStart(commits, test, lo - 1)
      invariant NoneBuilds(commits, test, top, hi)
      invariant Counted(commits, test, asked, lo, top, hi)
      decreases hi - lo
    {
      var mid := (lo + hi) / 2;
      var verdict, probe, more := Probe(commits, test, lo, mid, hi);
      if verdict == Unbuildable || (verdict == Good && probe < mid) {
        NotAllBuild(commits, test, lo, hi, probe, verdict);
        CountedOut(commits, test, asked, lo, top, hi, more);
        asked := asked + more;
        IntroducedAt(commits, test, if verdict == Unbuildable then lo - 1 else probe, hi);
        return commits[hi], asked;
      }
      BuildsBelow(commits, test, top, hi, probe);
      if verdict == Bad {
        CountedBad(commits, test, asked, lo, top, hi, probe, more);
        NoneBetween(commits, test, probe);
        top, hi := if probe < mid then probe else mid, probe;
      } else {
        CountedGood(commits, test, asked, lo, top, hi, probe, more);
        lo := probe + 1;
      }
      asked := asked + more;
    }
    CountedLast(commits, test, asked, hi);
    NoneBetween(commits, test, hi);
    IntroducedAt(commits, test, lo - 1, hi);
    return commits[hi], asked;
  }

  lemma AllRounds(n: nat)
    requires n > 0
    ensures Rounds(0, n - 1, n - 1) == 2 * CeilLog2(n)
  {
  }

  lemma NoneBetween<C>(commits: seq<C>, test: C -> Verdict, at: nat)
    ensures NoneBuilds(commits, test, at, at)
  {
  }

  /** With a single flip, the commit a flip introduces is the first bad one that builds. */
  lemma FlipIsFirst<C>(commits: seq<C>, test: C -> Verdict, at: nat)
    requires at < |commits| && Introduced(commits, test, at) && SingleFlip(commits, test)
    ensures forall k :: 0 <= k < at ==> test(commits[k]) != Bad
  {
    var g :| -1 <= g < at && GoodOrStart(commits, test, g) && NoneBuilds(commits, test, g + 1, at);
    forall k | 0 <= k < at
      ensures test(commits[k]) != Bad
    {
    }
  }

  /** Conversely the first bad commit is the only bad one, of all histories with one flip, that a flip introduces. */
  lemma FlipIsUnique<C>(commits: seq<C>, test: C -> Verdict, at: nat, first: nat)
    requires at < |commits| && first < |commits| && SingleFlip(commits, test)
    requires test(commits[at]) == Bad && Introduced(commits, test, at)
    requires test(commits[first]) == Bad && forall k :: 0 <= k < first ==> test(commits[k]) != Bad
    ensures at == first
  {
    FlipIsFirst(commits, test, at);
  }

  lemma LastOfRange<C>(commits: seq<C>, test: C -> Verdict, from: nat, to: nat)
    requires from <= to <= |commits| && NoneBuilds(commits, test, from, to)
    ensures from == to || test(commits[to - 1]) == Unbuildable
  {
  }

  /** When everything builds, a flip is a commit right after a good one, or the first. */
  lemma FlipOfTwo<C>(commits: seq<C>, test: C -> Verdict, at: nat)
    requires at < |commits| && AllBuild(commits, test)
    ensures Introduced(commits, test, at) <==> at == 0 || test(commits[at - 1]) == Good
  {
    if Introduced(commits, test, at) && at > 0 {
      var g :| -1 <= g < at && GoodOrStart(commits, test, g) && NoneBuilds(commits, test, g + 1, at);
      LastOfRange(commits, test, g + 1, at);
    }
    if at == 0 || test(commits[at - 1]) == Good {
      IntroducedAt(commits, test, at - 1, at);
    }
  }

  /** `one` fails, and the commit before it passes unless it is the oldest. */
  ghost predicate FailsFrom<C>(commits: seq<C>, fails: C -> bool, one: C, at: nat) {
    at < |commits| && one == commits[at] && fails(one) && (at == 0 || !fails(commits[at - 1]))
  }

  /** The two-valued search: nothing when the last commit does not fail, otherwise a flip. */
  method Culprit<C>(commits: seq<C>, fails: C -> bool) returns (answer: Answer<C>, ghost asked: nat)
    ensures answer.Nothing? <==> commits == [] || !fails(commits[|commits| - 1])
    ensures answer.Commit? ==> exists at :: FailsFrom(commits, fails, answer.commit, at)
    ensures asked <= 1 + CeilLog2(|commits|)
    ensures if answer.Nothing? then asked == if commits == [] then 0 else 1 else CeilLog2(|commits| + 1) <= asked
  {
    asked := if commits == [] then 0 else 1;
    if commits == [] || !fails(commits[|commits| - 1]) {
      return Nothing, asked;
    }
    var low, high := 0, |commits| - 1;
    AllSpared(|commits|);
    CeilLog2One();
    hide CeilLog2, Spared;
    while low < high
      invariant 0 <= low <= high < |commits|
      invariant fails(commits[high]) && (low == 0 || !fails(commits[low - 1]))
      invariant asked + CeilLog2(high - low + 1) <= 1 + CeilLog2(|commits|)
      invariant asked > 0 && Spared(|commits|, asked - 1, high - low + 1)
      decreases high - low
    {
      var middle := (low + high) / 2;
      asked := asked + 1;
      Halved(low, middle, high);
      ghost var left := if fails(commits[middle]) then middle - low + 1 else high - middle;
      NotSpared(|commits|, asked - 2, high - low + 1, 1, left);
      if fails(commits[middle]) {
        high := middle;
      } else {
        low := middle + 1;
      }
    }
    OneLeft(|commits|, asked - 1);
    assert FailsFrom(commits, fails, commits[low], low);
    return Commit(commits[low]), asked;
  }

  lemma CeilLog2One()
    ensures CeilLog2(1) == 0
  {
  }

  /** When failing is for good, a failing commit after a passing one is the first that fails. */
  lemma LastingFailure<C>(commits: seq<C>, fails: C -> bool, at: nat)
    requires forall i, j :: 0 <= i < j < |commits| && fails(commits[i]) ==> fails(commits[j])
    requires at < |commits| && (at == 0 || !fails(commits[at - 1]))
    ensures forall k :: 0 <= k < at ==> !fails(commits[k])
  {
    forall k | 0 <= k < at
      ensures !fails(commits[k])
    {
      var early, late := commits[k], commits[at - 1];
      assert k == at - 1 || (fails(early) ==> fails(late));
    }
  }
}
