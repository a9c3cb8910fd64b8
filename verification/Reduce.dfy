/** `ddmin`, `blocks` and `reduce` of tools/reduce.py: the fewest lines for which a command still fails. */
module Reduce {
  import opened Arithmetic
  import opened Lists

  /** Accepted lists from which no single element can go. */
  ghost predicate OneMinimal<T>(s: seq<T>, keeps: seq<T> -> bool) {
    forall i :: 0 <= i < |s| ==> !keeps(Drop(s, i))
  }

  // The cost

  /** Questions in one pass over `m` elements in chunks of `size`. */
  function Chunks(m: nat, size: nat): nat
    requires size > 0
  {
    (m + size - 1) / size
  }

  /** Questions in the passes with chunks of `size` and its halvings, before those with single elements. */
  function Coarse(m: nat, size: nat): nat {
    if size < 2 then 0 else Chunks(m, size) + Coarse(m, size / 2)
  }

  function Triangle(m: nat): nat {
    m * (m + 1) / 2
  }

  lemma ChunksExactly(m: nat, size: nat, asked: nat)
    requires size > 0 && m <= asked * size && (asked == 0 || (asked - 1) * size < m)
    ensures asked == Chunks(m, size)
  {
    assert (asked + 1) * size == asked * size + size;
    DivBelow(m + size - 1, size, asked + 1);
    if asked > 0 {
      assert asked * size == (asked - 1) * size + size;
      DivAtLeast(m + size - 1, size, asked);
    }
  }

  lemma ChunksOfOne(m: nat)
    ensures Chunks(m, 1) == m
  {
  }

  lemma {:induction false} CoarseMonotone(m: nat, n: nat, size: nat)
    requires m <= n
    ensures Coarse(m, size) <= Coarse(n, size)
    decreases size
  {
    if size < 2 {
    } else {
      DivMonotone(m + size - 1, n + size - 1, size);
      CoarseMonotone(m, n, size / 2);
    }
  }

  lemma TriangleStep(m: nat)
    ensures m > 0 ==> Triangle(m) == m + Triangle(m - 1)
    ensures m <= Triangle(m)
  {
    if m > 0 {
      assert m * (m + 1) == 2 * m + (m - 1) * m;
    }
  }

  lemma {:induction false} TriangleMonotone(m: nat, n: nat)
    requires m <= n
    ensures Triangle(m) <= Triangle(n)
    decreases n
  {
    if m >= n {
    } else {
      TriangleMonotone(m, n - 1);
      TriangleStep(n);
    }
  }

  function FloorLog2(n: nat): nat {
    if n < 2 then 0 else 1 + FloorLog2(n / 2)
  }

  lemma OneTimeMore(a: nat, b: nat)
    ensures (a + 1) * b == a * b + b
  {
  }

  lemma TwiceEither(f: nat, h: nat)
    ensures (2 * f) * h == (2 * h) * f
  {
  }

  /** One pass in chunks of `size` takes at most twice as many questions as `size` fits in `n`, and one more. */
  lemma ChunksHalve(n: nat, size: nat)
    requires size >= 2
    ensures Chunks(n, size) + n / size <= 1 + n / (size / 2)
  {
    var f, h := n / size, size / 2;
    Quotient(n, size);
    OneTimeMore(f + 1, size);
    DivBelow(n + size - 1, size, f + 2);
    TimesMonotone(2 * h, size, f);
    TwiceEither(f, h);
    DivAtLeast(n, h, 2 * f);
  }

  lemma {:induction false} CoarseBound(n: nat, size: nat)
    requires size >= 1
    ensures Coarse(n, size) + n / size <= n + FloorLog2(size)
    decreases size
  {
    if size < 2 {
    } else {
      CoarseBound(n, size / 2);
      ChunksHalve(n, size);
    }
  }

  lemma {:induction false} FloorLog2Bound(n: nat)
    ensures FloorLog2(n) <= n
  {
    if n < 2 {
    } else {
      FloorLog2Bound(n / 2);
    }
  }

  /** Questions enough for `n` elements; never more than `n * n + 3 * n`. */
  function Questions(n: nat): nat {
    Triangle(n) + 2 * n
  }

  /** The passes with coarse chunks and those with single elements, together. */
  lemma TotalBound(n: nat)
    ensures Coarse(n, if n / 2 > 1 then n / 2 else 1) + Triangle(n) <= Questions(n) <= n * n + 3 * n
  {
    var size := if n / 2 > 1 then n / 2 else 1;
    CoarseBound(n, size);
    FloorLog2Bound(size);
    assert size < 2 ==> Coarse(n, size) == 0;
    QuestionsBound(n);
    hide Triangle;
  }

  lemma QuestionsBound(n: nat)
    ensures Questions(n) <= n * n + 3 * n
  {
    var square := n * n;
    assert n * (n + 1) == square + n && square >= 0;
    assert (square + n) / 2 <= square + n;
  }

  // The algorithm

  /** `s[i:]`, empty past the end. */
  function From<T>(s: seq<T>, i: nat): seq<T> {
    if i <= |s| then s[i..] else []
  }

  /** No element before `at` can go. */
  ghost predicate KeepsBefore<T>(s: seq<T>, at: nat, keeps: seq<T> -> bool) {
    at <= |s| && forall i :: 0 <= i < at ==> !keeps(Drop(s, i))
  }

  lemma KeepsOneMore<T>(s: seq<T>, at: nat, keeps: seq<T> -> bool)
    requires KeepsBefore(s, at, keeps) && at < |s| && !keeps(s[..at] + From(s, at + 1))
    ensures KeepsBefore(s, at + 1, keeps)
  {
    assert Drop(s, at) == s[..at] + From(s, at + 1);
  }

  lemma CutFrom<T>(s: seq<T>, at: nat, size: nat)
    requires at < |s| && size > 0
    ensures Subsequence(s[..at] + From(s, at + size), s)
    ensures |s[..at] + From(s, at + size)| == if size <= |s| - at then |s| - size else at
  {
    var to := if at + size <= |s| then at + size else |s|;
    assert From(s, at + size) == s[to..];
    CutOut(s, at, to);
  }

  /** `s` without the chunk of `size` at `at`. */
  function WithoutChunk<T>(s: seq<T>, at: nat, size: nat): (r: seq<T>)
    requires at < |s| && size > 0
    ensures |r| < |s|
  {
    s[..at] + From(s, at + size)
  }

  /** The pass from `at` on: a chunk goes when the rest is accepted, and the next one has then moved to its place. */
  function Swept<T>(s: seq<T>, at: nat, size: nat, keeps: seq<T> -> bool): (r: seq<T>)
    requires size > 0
    ensures |r| <= |s| && (|r| == |s| ==> r == s)
    decreases |s| - at
  {
    if at >= |s| then s
    else if keeps(WithoutChunk(s, at, size)) then Swept(WithoutChunk(s, at, size), at, size, keeps)
    else Swept(s, at + size, size, keeps)
  }

  /** None of the chunks of `size` at `at`, `at + size` and so on can go. */
  ghost predicate NoChunkFrom<T>(s: seq<T>, at: nat, size: nat, keeps: seq<T> -> bool)
    requires size > 0
    decreases |s| - at
  {
    at < |s| ==> !keeps(WithoutChunk(s, at, size)) && NoChunkFrom(s, at + size, size, keeps)
  }

  /** So says the recursion: not the first chunk, nor the second, nor any other. */
  lemma {:induction false} NoChunkAt<T>(s: seq<T>, at: nat, size: nat, keeps: seq<T> -> bool, j: nat)
    requires size > 0 && NoChunkFrom(s, at, size, keeps) && at + j * size < |s|
    ensures !keeps(WithoutChunk(s, at + j * size, size))
    decreases j
  {
    if j == 0 {
      assert at + 0 * size == at;
    } else {
      TimesMonotone(1, j, size);
      OneTimeMore(j - 1, size);
      NoChunkAt(s, at + size, size, keeps, j - 1);
      assert at + size + (j - 1) * size == at + j * size;
    }
  }

  /** No chunk of `size` at a multiple of `size` can go. */
  ghost predicate NoChunk<T>(s: seq<T>, size: nat, keeps: seq<T> -> bool)
    requires size > 0
  {
    NoChunkFrom(s, 0, size, keeps)
  }

  /** One pass that drops chunks of `size` while the rest is still accepted. */
  method Pass<T>(all: seq<T>, keeps: seq<T> -> bool, size: nat)
    returns (items: seq<T>, changed: bool, ghost asked: nat)
    requires size > 0
    ensures items == Swept(all, 0, size, keeps)
    ensures Subsequence(items, all)
    ensures if changed then |items| < |all| && keeps(items) else items == all
    ensures !changed ==> NoChunk(items, size, keeps)
    ensures size == 1 && !changed ==> OneMinimal(items, keeps)
    ensures asked == Chunks(|all|, size)
  {
    hide Swept, NoChunkFrom, OneMinimal, KeepsBefore, Subsequence, Chunks;
    items, changed, asked := all, false, 0;
    var at := 0;
    SubsequenceWhole(all);
    NothingBefore(all, keeps);
    while at < |items|
      invariant at >= 0 && Subsequence(items, all)
      invariant Swept(items, at, size, keeps) == Swept(all, 0, size, keeps)
      invariant if changed then |items| < |all| && keeps(items) else items == all
      invariant !changed && NoChunkFrom(items, at, size, keeps) ==> NoChunkFrom(items, 0, size, keeps)
      invariant size == 1 && !changed ==> at <= |items| && KeepsBefore(items, at, keeps)
      invariant Paid(|all|, |items| - at, size, asked)
      decreases |items| - at
    {
      var trial := items[..at] + From(items, at + size);
      CutFrom(items, at, size);
      SubsequenceTrans(trial, items, all);
      SweptStep(items, at, size, keeps);
      PaidStep(|all|, |items| - at, size, asked);
      asked := asked + 1;
      if keeps(trial) {
        items, changed := trial, true;
      } else {
        if size == 1 && !changed { KeepsOneMore(items, at, keeps); }
        at := at + size;
      }
    }
    SweptEnd(items, at, size, keeps);
    ChunksExactly(|all|, size, asked);
    if size == 1 && !changed { KeptAll(items, keeps); }
  }

  /** While `left` elements are left of `n`, each question has taken `size`. */
  ghost predicate Paid(n: nat, left: int, size: nat, asked: nat) {
    && (if left > 0 then asked * size + left == n else n <= asked * size)
    && (asked == 0 || (asked - 1) * size < n)
  }

  lemma PaidStep(n: nat, left: int, size: nat, asked: nat)
    requires left > 0 && size > 0 && Paid(n, left, size, asked)
    ensures Paid(n, left - size, size, asked + 1) && (left <= size ==> Paid(n, 0, size, asked + 1))
  {
    OneTimeMore(asked, size);
  }

  lemma SweptStep<T>(s: seq<T>, at: nat, size: nat, keeps: seq<T> -> bool)
    requires at < |s| && size > 0
    ensures WithoutChunk(s, at, size) == s[..at] + From(s, at + size)
    ensures Swept(s, at, size, keeps) ==
      if keeps(WithoutChunk(s, at, size)) then Swept(WithoutChunk(s, at, size), at, size, keeps)
      else Swept(s, at + size, size, keeps)
    ensures !keeps(WithoutChunk(s, at, size)) && NoChunkFrom(s, at + size, size, keeps) ==>
      NoChunkFrom(s, at, size, keeps)
  {
  }

  lemma SweptEnd<T>(s: seq<T>, at: nat, size: nat, keeps: seq<T> -> bool)
    requires at >= |s| && size > 0
    ensures Swept(s, at, size, keeps) == s && NoChunkFrom(s, at, size, keeps)
  {
  }

  lemma NothingBefore<T>(s: seq<T>, keeps: seq<T> -> bool)
    ensures KeepsBefore(s, 0, keeps)
  {
  }

  lemma KeptAll<T>(s: seq<T>, keeps: seq<T> -> bool)
    requires KeepsBefore(s, |s|, keeps)
    ensures OneMinimal(s, keeps)
  {
  }

  function Start(n: nat): (size: nat)
    ensures size > 0
  {
    if n / 2 > 1 then n / 2 else 1
  }

  /** A chunk size, its half and so on, down to 1. */
  function Sizes(size: nat): seq<nat> {
    [size] + if size <= 1 then [] else Sizes(size / 2)
  }

  /** Each halves the one before, the last is 1. */
  lemma {:induction false} SizesHalve(size: nat, k: nat)
    requires size > 0 && k < |Sizes(size)|
    ensures Sizes(size)[0] == size && Sizes(size)[|Sizes(size)| - 1] == 1
    ensures k > 0 ==> Sizes(size)[k] == Sizes(size)[k - 1] / 2
    decreases size
  {
    if size > 1 {
      var rest := Sizes(size / 2);
      assert Sizes(size) == [size] + rest;
      SizesHalve(size / 2, if k > 0 then k - 1 else 0);
    }
  }

  /** The passes with `size`, its half and so on, and with single elements until nothing more goes. */
  function Reduced<T>(s: seq<T>, size: nat, keeps: seq<T> -> bool): seq<T>
    requires size > 0
    decreases |s|, size
  {
    var rest := Swept(s, 0, size, keeps);
    if size > 1 then Reduced(rest, size / 2, keeps)
    else if |rest| < |s| then Reduced(rest, 1, keeps)
    else s
  }

  /** The questions of those passes. */
  function Asks<T>(s: seq<T>, size: nat, keeps: seq<T> -> bool): nat
    requires size > 0
    decreases |s|, size
  {
    var rest := Swept(s, 0, size, keeps);
    Chunks(|s|, size) +
      if size > 1 then Asks(rest, size / 2, keeps)
      else if |rest| < |s| then Asks(rest, 1, keeps)
      else 0
  }

  lemma AsksStep<T>(s: seq<T>, size: nat, keeps: seq<T> -> bool)
    requires size > 0
    ensures var rest := Swept(s, 0, size, keeps);
            Asks(s, size, keeps) == Chunks(|s|, size) +
              if size > 1 then Asks(rest, size / 2, keeps)
              else if |rest| < |s| then Asks(rest, 1, keeps) else 0
  {
    hide Swept, Chunks;
  }

  lemma ReducedStep<T>(s: seq<T>, size: nat, keeps: seq<T> -> bool)
    requires size > 0
    ensures var rest := Swept(s, 0, size, keeps);
            Reduced(s, size, keeps) ==
              if size > 1 then Reduced(rest, size / 2, keeps)
              else if |rest| < |s| then Reduced(rest, 1, keeps) else s
  {
    hide Swept;
  }

  /** No chunk of the sizes up to, and without, `size` can go. */
  ghost predicate Tried<T>(s: seq<T>, start: nat, size: nat, keeps: seq<T> -> bool) {
    forall d :: d in Sizes(start) ==> d in Sizes(size) || (d > 0 && NoChunk(s, d, keeps))
  }

  /** No chunk of half the length can go, nor of half that, and so on down to single elements. */
  ghost predicate NothingGoes<T>(s: seq<T>, keeps: seq<T> -> bool) {
    forall d :: d in Sizes(if |s| >= 2 then |s| / 2 else 1) ==> d > 0 && NoChunk(s, d, keeps)
  }

  lemma TriedNext<T>(s: seq<T>, start: nat, size: nat, keeps: seq<T> -> bool)
    requires size > 0 && Tried(s, start, size, keeps) && NoChunk(s, size, keeps)
    ensures size > 1 ==> Tried(s, start, size / 2, keeps)
    ensures size == 1 ==> forall d :: d in Sizes(start) ==> d > 0 && NoChunk(s, d, keeps)
  {
    hide NoChunk;
  }

  lemma TriedNone<T>(s: seq<T>, start: nat, keeps: seq<T> -> bool)
    ensures Tried(s, start, start, keeps)
  {
  }

  /**
   * The sublist that greedy halving finds. Whatever `keeps` is, monotone or not, the result is a subsequence from
   * which no single element can go, and it is still accepted unless nothing could be dropped at all: no single element,
   * and no chunk of half the length, of half that, and so on.
   */
  method Ddmin<T>(all: seq<T>, keeps: seq<T> -> bool) returns (items: seq<T>, ghost asked: nat)
    ensures items == Reduced(all, Start(|all|), keeps)
    ensures Subsequence(items, all)
    ensures OneMinimal(items, keeps)
    ensures items == all || keeps(items)
    ensures items == all ==> NothingGoes(all, keeps)
    ensures asked == Asks(all, Start(|all|), keeps)
    ensures |items| <= asked <= Questions(|all|)
  {
    hide Asks, NoChunk, OneMinimal, Tried, Swept, Sizes, Reduced, Coarse, Triangle, Questions, Subsequence, Chunks;
    items, asked := all, 0;
    var size := if |items| / 2 > 1 then |items| / 2 else 1;
    SubsequenceWhole(all);
    TotalBound(|all|);
    TriedNone(all, size, keeps);
    while true
      invariant size > 0 && Subsequence(items, all) && |items| <= |all|
      invariant Reduced(items, size, keeps) == Reduced(all, Start(|all|), keeps)
      invariant asked + Asks(items, size, keeps) == Asks(all, Start(|all|), keeps)
      invariant items == all || (keeps(items) && |items| < |all|)
      invariant items == all ==> Tried(all, Start(|all|), size, keeps)
      invariant asked + Coarse(|items|, size) + Triangle(|items|) <= Questions(|all|)
      decreases |items|, size
    {
      var rest, changed, more := Pass(items, keeps, size);
      SubsequenceTrans(rest, items, all);
      PassCost(|items|, |rest|, size, changed, more);
      ReducedStep(items, size, keeps);
      AsksStep(items, size, keeps);
      if rest == all { TriedNext(all, Start(|all|), size, keeps); }
      items, asked := rest, asked + more;
      if size == 1 && !changed {
        ChunksOfOne(|items|);
        return;
      }
      size := if size == 1 && changed then 1 else if size / 2 > 1 then size / 2 else 1;
    }
  }

  /** What a pass costs, the passes after it need no longer. */
  lemma PassCost(m: nat, m': nat, size: nat, changed: bool, asked: nat)
    requires size > 0 && asked <= Chunks(m, size)
    requires if changed then m' < m else m' == m
    ensures size == 1 && !changed ==> asked <= Triangle(m)
    ensures size == 1 && changed ==> asked + Triangle(m') <= Triangle(m)
    ensures size >= 2 ==> asked + Coarse(m', size / 2) + Triangle(m') <= Coarse(m, size) + Triangle(m)
    ensures size == 1 ==> Coarse(m, size) == Coarse(m', size) == 0
  {
    TriangleStep(m);
    TriangleMonotone(m', if changed then m - 1 else m);
    if changed { TriangleMonotone(m - 1, m); }
    CoarseMonotone(m', m, size / 2);
  }

  // Blocks of lines

  function Flatten<T>(bs: seq<seq<T>>): seq<T> {
    if bs == [] then [] else bs[0] + Flatten(bs[1..])
  }

  lemma {:induction false} FlattenConcat<T>(a: seq<seq<T>>, b: seq<seq<T>>)
    ensures Flatten(a + b) == Flatten(a) + Flatten(b)
    decreases |a|
  {
    if a == [] {
      assert a + b == b;
    } else {
      assert (a + b)[1..] == a[1..] + b;
      FlattenConcat(a[1..], b);
    }
  }

  lemma FlattenAppend<T>(a: seq<seq<T>>, b: seq<T>)
    ensures Flatten(a + [b]) == Flatten(a) + b
  {
    FlattenConcat(a, [b]);
    assert [b][1..] == [];
    assert Flatten([b]) == b;
  }

  /** Leaving blocks out leaves lines out. */
  lemma {:induction false} FlattenSubsequence<T>(a: seq<seq<T>>, b: seq<seq<T>>)
    requires Subsequence(a, b)
    ensures Subsequence(Flatten(a), Flatten(b))
    decreases |b|
  {
    if a == [] {
    } else {
      if Subsequence(a, b[1..]) {
        FlattenSubsequence(a, b[1..]);
        SubsequenceConcat([], b[0], Flatten(a), Flatten(b[1..]));
        assert [] + Flatten(a) == Flatten(a);
      } else {
        SubsequenceWhole(b[0]);
        FlattenSubsequence(a[1..], b[1..]);
        SubsequenceConcat(a[0], b[0], Flatten(a[1..]), Flatten(b[1..]));
      }
    }
  }

  /** No line before the last is blank. */
  ghost predicate Open<T>(b: seq<T>, blank: T -> bool) {
    forall i :: 0 <= i < |b| ==> !blank(b[i])
  }

  /** A run of lines up to and including its blank line. */
  ghost predicate Closed<T>(b: seq<T>, blank: T -> bool) {
    b != [] && Open(b[..|b| - 1], blank) && blank(b[|b| - 1])
  }

  /** Closed runs, and at most one more run at the end that no blank line closes. */
  ghost predicate Divided<T>(bs: seq<seq<T>>, blank: T -> bool) {
    bs == [] || (if |bs| == 1 && bs[0] != [] && Open(bs[0], blank) then true
                 else Closed(bs[0], blank) && Divided(bs[1..], blank))
  }

  ghost predicate AllClosed<T>(bs: seq<seq<T>>, blank: T -> bool) {
    forall b :: b in bs ==> Closed(b, blank)
  }

  lemma {:induction false} AllClosedDivided<T>(bs: seq<seq<T>>, cur: seq<T>, blank: T -> bool)
    requires AllClosed(bs, blank) && Open(cur, blank)
    ensures Divided(if cur == [] then bs else bs + [cur], blank)
    decreases |bs|
  {
    if bs == [] {
    } else {
      AllClosedDivided(bs[1..], cur, blank);
      assert (bs + [cur])[1..] == bs[1..] + [cur];
      assert Closed(bs[0], blank);
      assert blank(bs[0][|bs[0]| - 1]);
    }
  }

  /** The lines as runs separated by blank lines, each with its blank line; joined they are the lines again. */
  method Blocks<T>(lines: seq<T>, blank: T -> bool) returns (out: seq<seq<T>>)
    ensures Flatten(out) == lines
    ensures Divided(out, blank)
  {
    out := [];
    var cur := [];
    for k := 0 to |lines|
      invariant Flatten(out) + cur == lines[..k]
      invariant AllClosed(out, blank) && Open(cur, blank)
    {
      assert lines[..k + 1] == lines[..k] + [lines[k]];
      assert Flatten(out) + (cur + [lines[k]]) == lines[..k + 1];
      ghost var before := cur;
      cur := cur + [lines[k]];
      if blank(lines[k]) {
        assert cur[..|cur| - 1] == before;
        FlattenAppend(out, cur);
        out := out + [cur];
        cur := [];
      }
    }
    assert lines[..|lines|] == lines;
    AllClosedDivided(out, cur, blank);
    if cur != [] {
      FlattenAppend(out, cur);
      out := out + [cur];
    }
  }

  /** Where the first blank line of a text is, `at` its length when there is none. */
  ghost predicate FirstBlank<T>(s: seq<T>, at: nat, blank: T -> bool) {
    at <= |s| && (forall i :: 0 <= i < at ==> !blank(s[i])) && (at < |s| ==> blank(s[at]))
  }

  lemma FirstBlankOnce<T>(s: seq<T>, at: nat, at': nat, blank: T -> bool)
    requires FirstBlank(s, at, blank) && FirstBlank(s, at', blank)
    ensures at == at'
  {
  }

  lemma FirstBlankOfClosed<T>(b: seq<T>, x: seq<T>, blank: T -> bool)
    requires Closed(b, blank)
    ensures FirstBlank(b + x, |b| - 1, blank)
  {
    forall i | 0 <= i < |b| - 1
      ensures !blank((b + x)[i])
    {
      assert (b + x)[i] == b[..|b| - 1][i];
    }
  }

  /** The closed run that starts a text is the only one. */
  lemma ClosedPrefix<T>(b: seq<T>, c: seq<T>, x: seq<T>, y: seq<T>, blank: T -> bool)
    requires Closed(b, blank) && b + x == c + y && c != []
    requires Closed(c, blank) || (Open(c, blank) && y == [])
    ensures b == c && x == y
  {
    FirstBlankOfClosed(b, x, blank);
    if Closed(c, blank) {
      FirstBlankOfClosed(c, y, blank);
      FirstBlankOnce(b + x, |b| - 1, |c| - 1, blank);
      assert b == (b + x)[..|b|] && c == (c + y)[..|c|];
      assert x == (b + x)[|b|..] && y == (c + y)[|c|..];
    } else {
      FirstBlankOnce(c + y, |b| - 1, |c|, blank);
    }
  }

  lemma {:induction false} DividedLength<T>(bs: seq<seq<T>>, blank: T -> bool)
    requires Divided(bs, blank)
    ensures |bs| <= |Flatten(bs)|
    decreases |bs|
  {
    if bs == [] {
    } else {
      if |bs| == 1 && bs[0] != [] && Open(bs[0], blank) {
        assert bs[1..] == [];
      } else {
        DividedLength(bs[1..], blank);
      }
    }
  }

  /** There is one way to divide a text into its blocks. */
  lemma {:induction false} DividedOnce<T>(a: seq<seq<T>>, b: seq<seq<T>>, blank: T -> bool)
    requires Divided(a, blank) && Divided(b, blank) && Flatten(a) == Flatten(b)
    ensures a == b
    decreases |a|
  {
    DividedLength(a, blank);
    DividedLength(b, blank);
    if a == [] || b == [] {
      assert |Flatten(a)| == 0;
    } else {
      var x, y := Flatten(a[1..]), Flatten(b[1..]);
      assert a == [a[0]] + a[1..] && b == [b[0]] + b[1..];
      if Closed(a[0], blank) && Divided(a[1..], blank) {
        ClosedPrefix(a[0], b[0], x, y, blank);
        DividedRest(b, blank);
        DividedOnce(a[1..], b[1..], blank);
      } else if Closed(b[0], blank) && Divided(b[1..], blank) {
        ClosedPrefix(b[0], a[0], y, x, blank);
      } else {
        assert a[1..] == [] && b[1..] == [];
        assert a[0] == a[0] + [] == b[0] + [] == b[0];
      }
    }
  }

  lemma DividedRest<T>(bs: seq<seq<T>>, blank: T -> bool)
    requires Divided(bs, blank) && bs != []
    ensures Divided(bs[1..], blank)
  {
  }

  function OnBlocks<T>(keeps: seq<T> -> bool): seq<seq<T>> -> bool {
    cs => keeps(Flatten(cs))
  }

  /** The lines of the blocks that are left of a text, after so many questions. */
  ghost predicate FromBlocks<T(!new)>(all: seq<T>, keeps: seq<T> -> bool, blank: T -> bool, lines: seq<T>, asked: nat) {
    exists bs :: Flatten(bs) == all && Divided(bs, blank)
      && lines == Flatten(Reduced(bs, Start(|bs|), OnBlocks(keeps)))
      && asked == Asks(bs, Start(|bs|), OnBlocks(keeps))
  }

  /** Blocks first when asked, then single lines: what `Ddmin` promises of blocks it keeps for lines. */
  method Reduce<T(!new)>(all: seq<T>, keeps: seq<T> -> bool, byBlocks: bool, blank: T -> bool)
    returns (lines: seq<T>, ghost asked: nat)
    ensures !byBlocks ==> lines == Reduced(all, Start(|all|), keeps) && asked == Asks(all, Start(|all|), keeps)
    ensures byBlocks ==> exists left, first: nat ::
      && FromBlocks(all, keeps, blank, left, first)
      && lines == Reduced(left, Start(|left|), keeps) && asked == first + Asks(left, Start(|left|), keeps)
    ensures lines == all && !byBlocks ==> NothingGoes(all, keeps)
    ensures Subsequence(lines, all)
    ensures OneMinimal(lines, keeps)
    ensures lines == all || keeps(lines)
    ensures asked <= (if byBlocks then 2 else 1) * Questions(|all|)
  {
    hide Reduced, Asks, NothingGoes, OneMinimal, Divided, Start, Flatten, Subsequence, Triangle;
    lines, asked := all, 0;
    SubsequenceWhole(all);
    if byBlocks {
      var bs := Blocks(lines, blank);
      var kept, first := Ddmin(bs, OnBlocks(keeps));
      lines, asked := Flatten(kept), first;
      assert FromBlocks(all, keeps, blank, lines, asked);
      FlattenSubsequence(kept, bs);
      DividedLength(bs, blank);
      TriangleMonotone(|bs|, |all|);
    }
    SubsequenceLength(lines, all);
    TriangleMonotone(|lines|, |all|);
    var rest, more := Ddmin(lines, keeps);
    SubsequenceTrans(rest, lines, all);
    lines, asked := rest, asked + more;
  }
}
