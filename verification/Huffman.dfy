/**
 * `huffman` and `decode` of tools/jpeg_reference.py: canonical Huffman codes (annex C and section F.2.2.3 of ITU-T
 * T.81).
 */
module Huffman {
  import opened Bits
  import opened BitReader

  /** How many codes there are of each length 1 to 16; entry 0 is not used. */
  type Counts = seq<nat>

  ghost predicate IsCounts(counts: Counts) {
    |counts| == 17 && counts[0] == 0
  }

  /**
   * The first code of length `l`: codes of one length are consecutive, and a longer length continues where the
   * shorter ended.
   */
  function FirstCode(counts: Counts, l: nat): nat
    requires |counts| == 17 && l <= 17
  {
    if l <= 1 then 0 else 2 * (FirstCode(counts, l - 1) + counts[l - 1])
  }

  /** How many codes are shorter than `l`. */
  function Shorter(counts: Counts, l: nat): nat
    requires |counts| == 17 && l <= 17
  {
    if l <= 1 then 0 else Shorter(counts, l - 1) + counts[l - 1]
  }

  /** Value `k` of the table has code `c` of length `l`. */
  ghost predicate IsCode(counts: Counts, k: nat, l: nat, c: nat) {
    && |counts| == 17 && 1 <= l <= 16
    && Shorter(counts, l) <= k < Shorter(counts, l) + counts[l]
    && c == FirstCode(counts, l) + (k - Shorter(counts, l))
  }

  /** Kraft's inequality, the sum of 2^-l over all codes at most 1, with the sum scaled to an integer. */
  function KraftSum(counts: Counts, l: nat): nat
    requires |counts| == 17 && l <= 16
  {
    if l == 0 then 0 else 2 * KraftSum(counts, l - 1) + counts[l]
  }

  ghost predicate Kraft(counts: Counts) {
    IsCounts(counts) && KraftSum(counts, 16) <= Pow2(16)
  }

  datatype Table = Table(maxcode: seq<int>, valptr: seq<nat>, mincode: seq<nat>, values: seq<int>)

  /** The tables of F.2.2.3 for these counts. */
  ghost predicate TableFor(counts: Counts, table: Table) {
    && IsCounts(counts) && |table.maxcode| == 18 && |table.valptr| == 17 && |table.mincode| == 17
    && |table.values| == Shorter(counts, 17)
    && forall l :: 1 <= l <= 16 ==> EntryFor(counts, l, table.maxcode[l], table.valptr[l], table.mincode[l])
  }

  /** The first code of length `l`, the place of its value, and the last code of that length, -1 if there is none. */
  ghost predicate EntryFor(counts: Counts, l: nat, max: int, place: nat, min: nat)
    requires |counts| == 17 && 1 <= l <= 16
  {
    && min == FirstCode(counts, l) && place == Shorter(counts, l)
    && max == if counts[l] > 0 then FirstCode(counts, l) + counts[l] - 1 else -1
  }

  method Build(bits: Counts, values: seq<int>) returns (table: Table)
    requires IsCounts(bits) && |values| == Shorter(bits, 17)
    ensures TableFor(bits, table) && table.values == values
  {
    var maxcode, valptr: seq<nat>, mincode: seq<nat> := seq(18, i => -1), seq(17, i => 0), seq(17, i => 0);
    var code: nat, k: nat := 0, 0;
    for length := 1 to 17
      invariant |maxcode| == 18 && |valptr| == 17 && |mincode| == 17
      invariant code == FirstCode(bits, length) && k == Shorter(bits, length)
      invariant forall l :: 1 <= l < length ==> EntryFor(bits, l, maxcode[l], valptr[l], mincode[l])
    {
      valptr, mincode := valptr[length := k], mincode[length := code];
      code := code + bits[length];
      k := k + bits[length];
      maxcode := maxcode[length := if bits[length] > 0 then code - 1 else -1];
      assert EntryFor(bits, length, maxcode[length], valptr[length], mincode[length]);
      hide EntryFor;
      code := code * 2;
    }
    table := Table(maxcode, valptr, mincode, values);
  }

  // The code

  /** The scaled sum counts the codes up to length `l`, as nodes of that depth. */
  lemma {:induction false} KraftSumIs(counts: Counts, l: nat)
    requires IsCounts(counts) && 1 <= l <= 16
    ensures KraftSum(counts, l) == FirstCode(counts, l) + counts[l]
  {
    if l <= 1 {
    } else {
      KraftSumIs(counts, l - 1);
    }
  }

  lemma {:induction false} KraftShorter(counts: Counts, l: nat)
    requires Kraft(counts) && l <= 16
    ensures KraftSum(counts, l) <= Pow2(l)
    decreases 16 - l
  {
    if l >= 16 {
    } else {
      KraftShorter(counts, l + 1);
    }
  }

  /** Every code fits its length. */
  lemma CodeFits(counts: Counts, k: nat, l: nat, c: nat)
    requires Kraft(counts) && IsCode(counts, k, l, c)
    ensures c < Pow2(l)
  {
    KraftSumIs(counts, l);
    KraftShorter(counts, l);
  }

  /** `c` without its `n` low bits. */
  function Shift(c: nat, n: nat): nat {
    if n == 0 then c else Shift(c / 2, n - 1)
  }

  /** The bits of `c` start with those of `c` shifted. */
  lemma {:induction false} LowPrefix(c: nat, l: nat, n: nat)
    requires n <= l
    ensures Low(c, l)[..n] == Low(Shift(c, l - n), n)
    decreases l
  {
    if n >= l {
    } else {
      LowPrefix(c / 2, l - 1, n);
      assert Low(c, l)[..n] == Low(c / 2, l - 1)[..n];
    }
  }

  lemma {:induction false} ShiftFits(c: nat, l: nat, n: nat)
    requires n <= l && c < Pow2(l)
    ensures Shift(c, l - n) < Pow2(n)
    decreases l
  {
    if n >= l {
    } else {
      ShiftFits(c / 2, l - 1, n);
    }
  }

  /** What a longer code starts with is at least the next unassigned code of the shorter length. */
  lemma {:induction false} LongerBeyond(counts: Counts, c: nat, l: nat, n: nat)
    requires |counts| == 17 && 1 <= n < l <= 16 && FirstCode(counts, l) <= c
    ensures Shift(c, l - n) >= FirstCode(counts, n) + counts[n]
    decreases l
  {
    if n >= l - 1 {
    } else {
      LongerBeyond(counts, c / 2, l - 1, n);
    }
  }

  lemma {:induction false} ShorterMonotone(counts: Counts, l: nat, m: nat)
    requires |counts| == 17 && 1 <= l <= m <= 17
    ensures Shorter(counts, l) <= Shorter(counts, m)
    ensures l < m ==> Shorter(counts, l) + counts[l] <= Shorter(counts, m)
    decreases m
  {
    if l >= m {
    } else {
      ShorterMonotone(counts, l, m - 1);
    }
  }

  /** Each value of the table has a code, and only one. */
  lemma {:induction false} CodeExists(counts: Counts, k: nat, m: nat) returns (l: nat, c: nat)
    requires IsCounts(counts) && 1 <= m <= 17 && k < Shorter(counts, m)
    ensures IsCode(counts, k, l, c)
    decreases m
  {
    if k < Shorter(counts, m - 1) {
      l, c := CodeExists(counts, k, m - 1);
    } else {
      l := m - 1;
      c := FirstCode(counts, l) + (k - Shorter(counts, l));
    }
  }

  lemma CodeUnique(counts: Counts, k: nat, l: nat, c: nat, l': nat, c': nat)
    requires IsCode(counts, k, l, c) && IsCode(counts, k, l', c')
    ensures l == l' && c == c'
  {
    if l < l' { ShorterMonotone(counts, l, l'); }
    if l' < l { ShorterMonotone(counts, l', l); }
  }

  /** The code is prefix-free: no code word starts another. */
  lemma PrefixFree(counts: Counts, k: nat, l: nat, c: nat, k': nat, l': nat, c': nat)
    requires Kraft(counts) && IsCode(counts, k, l, c) && IsCode(counts, k', l', c')
    requires Low(c, l) <= Low(c', l')
    ensures k == k'
  {
    CodeFits(counts, k, l, c);
    CodeFits(counts, k', l', c');
    assert l <= l' && Low(c', l')[..l] == Low(c, l);
    LowPrefix(c', l', l);
    ShiftFits(c', l', l);
    ValueOfLow(c, l);
    ValueOfLow(Shift(c', l' - l), l);
    if l < l' { LongerBeyond(counts, c', l', l); }
  }

  lemma HasCode(counts: Counts, k: nat)
    requires IsCounts(counts) && k < Shorter(counts, 17)
    ensures exists l: nat, c: nat :: IsCode(counts, k, l, c)
  {
    var l, c := CodeExists(counts, k, 17);
  }

  /** The code word of value `k`. */
  ghost function Word(counts: Counts, k: nat): (w: Bits)
    requires IsCounts(counts) && k < Shorter(counts, 17)
    ensures exists l: nat, c: nat :: IsCode(counts, k, l, c) && w == Low(c, l)
  {
    HasCode(counts, k);
    var l: nat, c: nat :| IsCode(counts, k, l, c);
    Low(c, l)
  }

  /** Decoding takes value `k` off the front of `stream` and leaves `rest`. */
  ghost predicate Takes(counts: Counts, stream: Bits, k: nat, rest: Bits) {
    exists l: nat, c: nat :: IsCode(counts, k, l, c) && Low(c, l) <= stream && rest == stream[l..]
  }

  /** There is at most one value to take. */
  lemma TakesUnique(counts: Counts, stream: Bits, k: nat, rest: Bits, k': nat, rest': Bits)
    requires Kraft(counts) && Takes(counts, stream, k, rest) && Takes(counts, stream, k', rest')
    ensures k == k' && rest == rest'
  {
    var l: nat, c: nat :| IsCode(counts, k, l, c) && Low(c, l) <= stream && rest == stream[l..];
    var l': nat, c': nat :| IsCode(counts, k', l', c') && Low(c', l') <= stream && rest' == stream[l'..];
    if l <= l' {
      assert Low(c, l) == Low(c', l')[..l];
      PrefixFree(counts, k, l, c, k', l', c');
    } else {
      assert Low(c', l') == Low(c, l)[..l'];
      PrefixFree(counts, k', l', c', k, l, c);
    }
    CodeUnique(counts, k, l, c, l', c');
  }

  /** What starts with a code word yields its value and the rest. */
  lemma WordTaken(counts: Counts, k: nat, rest: Bits)
    requires IsCounts(counts) && k < Shorter(counts, 17)
    ensures Takes(counts, Word(counts, k) + rest, k, rest)
  {
    var w := Word(counts, k);
    var l: nat, c: nat :| IsCode(counts, k, l, c) && w == Low(c, l);
    assert Low(c, l) <= w + rest && (w + rest)[l..] == rest;
  }

  ghost function Words(counts: Counts, ks: seq<nat>): Bits
    requires IsCounts(counts) && forall i :: 0 <= i < |ks| ==> ks[i] < Shorter(counts, 17)
  {
    if ks == [] then [] else Word(counts, ks[0]) + Words(counts, ks[1..])
  }

  /** Decoding again and again: `ks` are taken in order, and `rest` is left. */
  ghost predicate TakesAll(counts: Counts, stream: Bits, ks: seq<nat>, rest: Bits)
    decreases |ks|
  {
    if ks == [] then stream == rest
    else exists next :: Takes(counts, stream, ks[0], next) && TakesAll(counts, next, ks[1..], rest)
  }

  /** A concatenation of code words yields their values in order, consuming exactly their lengths, and nothing else. */
  lemma {:induction false} WordsTaken(counts: Counts, ks: seq<nat>, rest: Bits)
    requires IsCounts(counts) && forall i :: 0 <= i < |ks| ==> ks[i] < Shorter(counts, 17)
    ensures TakesAll(counts, Words(counts, ks) + rest, ks, rest)
    decreases |ks|
  {
    if ks == [] {
      assert [] + rest == rest;
    } else {
      var next := Words(counts, ks[1..]) + rest;
      WordTaken(counts, ks[0], next);
      assert Words(counts, ks) + rest == Word(counts, ks[0]) + next;
      WordsTaken(counts, ks[1..], rest);
    }
  }

  lemma {:induction false} WordsTakenUniquely(
      counts: Counts, stream: Bits, ks: seq<nat>, rest: Bits, js: seq<nat>, rest': Bits)
    requires Kraft(counts) && TakesAll(counts, stream, ks, rest) && TakesAll(counts, stream, js, rest') && |ks| == |js|
    ensures ks == js && rest == rest'
    decreases |ks|
  {
    if ks == [] {
    } else {
      hide Takes, Kraft;
      var next :| Takes(counts, stream, ks[0], next) && TakesAll(counts, next, ks[1..], rest);
      var next' :| Takes(counts, stream, js[0], next') && TakesAll(counts, next', js[1..], rest');
      TakesUnique(counts, stream, ks[0], next, js[0], next');
      WordsTakenUniquely(counts, next, ks[1..], rest, js[1..], rest');
      assert ks == [ks[0]] + ks[1..] && js == [js[0]] + js[1..];
    }
  }

  // The decoder

  /** The first `n` bits are at least the next unassigned code of that length. */
  ghost predicate Beyond(counts: Counts, stream: Bits, n: nat)
    requires |counts| == 17
  {
    1 <= n <= 16 && n <= |stream| && Value(stream[..n]) >= FirstCode(counts, n) + counts[n]
  }

  lemma BeyondNotTaken(counts: Counts, stream: Bits, k: nat, l: nat, c: nat)
    requires Kraft(counts) && IsCode(counts, k, l, c) && Beyond(counts, stream, l)
    ensures !(Low(c, l) <= stream)
  {
    CodeFits(counts, k, l, c);
    ValueOfLow(c, l);
    var w := Low(c, l);
    assert Value(stream[..l]) != Value(w);
    assert w <= stream <==> stream[..|w|] == w;
  }

  lemma NothingTaken(counts: Counts, stream: Bits, n: nat)
    requires Kraft(counts) && (n == |stream| || n == 16) && forall m :: 1 <= m <= n ==> Beyond(counts, stream, m)
    ensures forall k, rest :: !Takes(counts, stream, k, rest)
  {
    forall k, rest ensures !Takes(counts, stream, k, rest) {
      if Takes(counts, stream, k, rest) {
        var l: nat, c: nat :| IsCode(counts, k, l, c) && Low(c, l) <= stream && rest == stream[l..];
        BeyondNotTaken(counts, stream, k, l, c);
      }
    }
  }

  lemma OneMoreBit(stream: Bits, n: nat)
    requires n < |stream|
    ensures Value(stream[..n + 1]) == 2 * Value(stream[..n]) + stream[n]
    ensures stream[n..][0] == stream[n] && stream[n..][1..] == stream[n + 1..]
  {
    assert stream[..n + 1][..n] == stream[..n];
  }

  /** The length-`n` code is assigned: its value is taken. */
  lemma Accepted(counts: Counts, stream: Bits, n: nat) returns (k: nat)
    requires IsCounts(counts) && AreBits(stream) && 1 <= n <= 16 && n <= |stream|
    requires FirstCode(counts, n) <= Value(stream[..n]) < FirstCode(counts, n) + counts[n]
    ensures k == Shorter(counts, n) + Value(stream[..n]) - FirstCode(counts, n) && k < Shorter(counts, 17)
    ensures Takes(counts, stream, k, stream[n..])
  {
    k := Shorter(counts, n) + Value(stream[..n]) - FirstCode(counts, n);
    ShorterMonotone(counts, n, 17);
    LowOfValue(stream[..n]);
    assert IsCode(counts, k, n, Value(stream[..n]));
  }

  /** The first `n` bits have been read, as `code`, and none of the codes they start with is assigned. */
  ghost predicate Reading(counts: Counts, stream: Bits, n: nat, code: int)
    requires |counts| == 17
  {
    && 1 <= n <= 16 && n <= |stream| && code == Value(stream[..n]) && code >= FirstCode(counts, n)
    && forall m :: 1 <= m < n ==> Beyond(counts, stream, m)
  }

  /** The code read so far is past the last one of its length. */
  lemma ReadOn(counts: Counts, stream: Bits, n: nat, code: int)
    requires Kraft(counts) && Reading(counts, stream, n, code) && code >= FirstCode(counts, n) + counts[n]
    ensures n == |stream| || n == 16 ==> forall k: nat, rest :: !Takes(counts, stream, k, rest)
    ensures n < |stream| && n < 16 ==> stream[n..] != [] && stream[n..][1..] == stream[n + 1..]
    ensures n < |stream| && n < 16 && AreBits(stream) ==> Reading(counts, stream, n + 1, code * 2 + stream[n..][0])
  {
    assert Beyond(counts, stream, n);
    if n == |stream| || n == 16 {
      NothingTaken(counts, stream, n);
    } else {
      OneMoreBit(stream, n);
    }
  }

  /**
   * Gives the value whose code word comes next, and consumes that word alone; fails exactly when no code word comes
   * next.
   */
  method Decode(reader: Reader, table: Table, ghost counts: Counts) returns (r: Read)
    requires reader.Valid() && TableFor(counts, table) && Kraft(counts)
    modifies reader
    ensures r.Got? ==>
      reader.Valid() && exists k ::
      0 <= k < |table.values| && table.values[k] == r.value
      && Takes(counts, old(reader.Remaining()), k, reader.Remaining())
    ensures r.Failed? ==> forall k: nat, rest :: !Takes(counts, old(reader.Remaining()), k, rest)
  {
    hide Reader.Valid, Reader.Remaining, Takes, Reading, TableFor, Kraft;
    ghost var stream := reader.Remaining();
    reader.RemainingAreBits();
    TableShape(counts, table);
    var code, length := 0, 1;
    var bit := reader.Bit();
    if bit.Failed? {
      NothingTaken(counts, stream, 0);
      return Failed;
    }
    code := bit.value;
    FirstBit(counts, stream, code);
    while code > table.maxcode[length]
      invariant 1 <= length <= 16 && length <= |stream|
      invariant reader.Valid() && Reading(counts, stream, length, code) && reader.Remaining() == stream[length..]
      decreases 16 - length
    {
      PastLast(counts, table, stream, length, code);
      ReadOn(counts, stream, length, code);
      bit := reader.Bit();
      if bit.Failed? { return Failed; }
      code, length := code * 2 + bit.value, length + 1;
      if length > 16 { return Failed; }
    }
    ghost var k := AcceptedEntry(counts, table, stream, length, code);
    r := Got(table.values[table.valptr[length] + code - table.mincode[length]]);
  }

  lemma TableShape(counts: Counts, table: Table)
    requires TableFor(counts, table)
    ensures |counts| == 17 && |table.maxcode| == 18 && |table.valptr| == 17 && |table.mincode| == 17
    ensures |table.values| == Shorter(counts, 17)
  {
  }

  lemma FirstBit(counts: Counts, stream: Bits, bit: int)
    requires Kraft(counts) && stream != [] && bit == stream[0] && AreBits(stream)
    ensures Reading(counts, stream, 1, bit) && stream[0..] == stream
  {
    OneMoreBit(stream, 0);
  }

  lemma PastLast(counts: Counts, table: Table, stream: Bits, n: nat, code: int)
    requires TableFor(counts, table) && |counts| == 17 && Reading(counts, stream, n, code)
    requires n < |table.maxcode| && code > table.maxcode[n]
    ensures 1 <= n <= 16 && code >= FirstCode(counts, n) + counts[n]
  {
    assert 1 <= n <= 16;
    assert EntryFor(counts, n, table.maxcode[n], table.valptr[n], table.mincode[n]);
  }

  lemma AcceptedEntry(counts: Counts, table: Table, stream: Bits, n: nat, code: int) returns (k: nat)
    requires TableFor(counts, table) && Kraft(counts) && |counts| == 17 && Reading(counts, stream, n, code)
    requires AreBits(stream) && n < |table.maxcode| && code <= table.maxcode[n]
    ensures 1 <= n <= 16 && n < |table.valptr| && n < |table.mincode| && k < |table.values|
    ensures k == table.valptr[n] + code - table.mincode[n] && Takes(counts, stream, k, stream[n..])
  {
    assert 1 <= n <= 16;
    assert EntryFor(counts, n, table.maxcode[n], table.valptr[n], table.mincode[n]);
    k := Accepted(counts, stream, n);
  }
}
