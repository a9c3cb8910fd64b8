/**
 * One 8x8 block of coefficients: the coefficient loop of `run` in tools/jpeg_reference.py, against the coding
 * procedure of sections F.1.2.1 and F.1.2.2 of ITU-T T.81.
 */
module Coefficients {
  import opened Lists
  import opened Bits
  import opened BitReader
  import opened Huffman

  // ZIGZAG in rows of eight, and where each place comes in it

  const ZIGZAG: seq<seq<nat>> := [
    [0, 1, 8, 16, 9, 2, 3, 10],
    [17, 24, 32, 25, 18, 11, 4, 5],
    [12, 19, 26, 33, 40, 48, 41, 34],
    [27, 20, 13, 6, 7, 14, 21, 28],
    [35, 42, 49, 56, 57, 50, 43, 36],
    [29, 22, 15, 23, 30, 37, 44, 51],
    [58, 59, 52, 45, 38, 31, 39, 46],
    [53, 60, 61, 54, 47, 55, 62, 63]]

  const PLACE: seq<seq<nat>> := [
    [0, 1, 5, 6, 14, 15, 27, 28],
    [2, 4, 7, 13, 16, 26, 29, 42],
    [3, 8, 12, 17, 25, 30, 41, 43],
    [9, 11, 18, 24, 31, 40, 44, 53],
    [10, 19, 23, 32, 39, 45, 52, 54],
    [20, 22, 33, 38, 46, 51, 55, 60],
    [21, 34, 37, 47, 50, 56, 59, 61],
    [35, 36, 48, 49, 57, 58, 62, 63]]

  function Zigzag(k: int): nat
    requires 0 <= k < 64
  {
    ZIGZAG[k / 8][k % 8]
  }

  function Place(z: int): nat
    requires 0 <= z < 64
  {
    PLACE[z / 8][z % 8]
  }

  /** From the `i`-th on, `Place` undoes `Zigzag`. */
  predicate Undone(i: nat)
    decreases 64 - i
  {
    i >= 64 || (Zigzag(i) < 64 && Place(Zigzag(i)) == i && Undone(i + 1))
  }

  lemma {:induction false} UndoneFrom(i: nat, k: nat)
    requires i <= k < 64 && Undone(i)
    ensures Undone(k)
    decreases k - i
  {
    hide Zigzag, Place;
    if i == k {
    } else {
      UndoneFrom(i + 1, k);
    }
  }

  lemma UndoneAt(k: nat)
    requires k < 64 && Undone(0)
    ensures Zigzag(k) < 64 && Place(Zigzag(k)) == k
  {
    UndoneFrom(0, k);
    hide Zigzag, Place;
  }

  lemma HalfUndone()
    ensures Undone(32)
  {
    assert Undone(56);
    assert Undone(48);
    assert Undone(40);
  }

  lemma AllUndone()
    ensures Undone(0)
  {
    HalfUndone();
    assert Undone(24);
    assert Undone(16);
    assert Undone(8);
  }

  /** The zigzag order visits each of the 64 places once. */
  lemma ZigzagOnce()
    ensures forall k :: 0 <= k < 64 ==> 0 <= Zigzag(k) < 64
    ensures forall j, k :: 0 <= j < 64 && 0 <= k < 64 && Zigzag(j) == Zigzag(k) ==> j == k
    ensures Zigzag(0) == 0
  {
    assert Zigzag(0) == 0;
    AllUndone();
    hide Zigzag, Place, Undone;
    forall k | 0 <= k < 64 ensures 0 <= Zigzag(k) < 64 && Place(Zigzag(k)) == k { UndoneAt(k); }
  }

  /**
   * The place after `z` in the order of figure A.6 of ITU-T T.81: along the antidiagonals, up-right where row and
   * column add up to an even number, down-left where to an odd one; at the border, on to the next antidiagonal.
   */
  ghost function NextPlace(z: nat): nat
    requires z < 64
  {
    var row, column := z / 8, z % 8;
    if (row + column) % 2 == 0 then
      if column == 7 then z + 8 else if row == 0 then z + 1 else z - 7
    else
      if row == 7 then z + 1 else if column == 0 then z + 8 else z + 7
  }

  ghost predicate Step(k: nat) {
    k < 63 ==> Zigzag(k) < 64 && Zigzag(k + 1) == NextPlace(Zigzag(k))
  }

  lemma Steps0()
    ensures forall k :: 0 <= k < 8 ==> Step(k)
  {
    assert Step(0) && Step(1) && Step(2) && Step(3);
    assert Step(4) && Step(5) && Step(6) && Step(7);
    hide Step;
  }

  lemma Steps1()
    ensures forall k :: 8 <= k < 16 ==> Step(k)
  {
    assert Step(8) && Step(9) && Step(10) && Step(11);
    assert Step(12) && Step(13) && Step(14) && Step(15);
    hide Step;
  }

  lemma Steps2()
    ensures forall k :: 16 <= k < 24 ==> Step(k)
  {
    assert Step(16) && Step(17) && Step(18) && Step(19);
    assert Step(20) && Step(21) && Step(22) && Step(23);
    hide Step;
  }

  lemma Steps3()
    ensures forall k :: 24 <= k < 32 ==> Step(k)
  {
    assert Step(24) && Step(25) && Step(26) && Step(27);
    assert Step(28) && Step(29) && Step(30) && Step(31);
    hide Step;
  }

  lemma Steps4()
    ensures forall k :: 32 <= k < 40 ==> Step(k)
  {
    assert Step(32) && Step(33) && Step(34) && Step(35);
    assert Step(36) && Step(37) && Step(38) && Step(39);
    hide Step;
  }

  lemma Steps5()
    ensures forall k :: 40 <= k < 48 ==> Step(k)
  {
    assert Step(40) && Step(41) && Step(42) && Step(43);
    assert Step(44) && Step(45) && Step(46) && Step(47);
    hide Step;
  }

  lemma Steps6()
    ensures forall k :: 48 <= k < 56 ==> Step(k)
  {
    assert Step(48) && Step(49) && Step(50) && Step(51);
    assert Step(52) && Step(53) && Step(54) && Step(55);
    hide Step;
  }

  lemma Steps7()
    ensures forall k :: 56 <= k < 64 ==> Step(k)
  {
    assert Step(56) && Step(57) && Step(58) && Step(59);
    assert Step(60) && Step(61) && Step(62) && Step(63);
    hide Step;
  }

  /** The zigzag order goes along the antidiagonals, from the first place on. */
  lemma ZigzagSteps()
    ensures Zigzag(0) == 0
    ensures forall k :: 0 <= k < 63 ==> Zigzag(k) < 64 && Zigzag(k + 1) == NextPlace(Zigzag(k))
  {
    assert Zigzag(0) == 0;
    hide Zigzag, NextPlace;
    forall k | 0 <= k < 63
      ensures Zigzag(k) < 64 && Zigzag(k + 1) == NextPlace(Zigzag(k))
    {
      assert Step(k) by { AllSteps(); }
    }
  }

  lemma AllSteps()
    ensures forall k :: 0 <= k < 64 ==> Step(k)
  {
    hide Step;
    Steps0();
    Steps1();
    Steps2();
    Steps3();
    Steps4();
    Steps5();
    Steps6();
    Steps7();
  }

  // Signed values as a category and extra bits

  function Magnitude(v: int): nat {
    if v < 0 then -v else v
  }

  /** How many bits the magnitude of `v` has. */
  function Category(v: int): nat
    decreases Magnitude(v)
  {
    if v == 0 then 0 else 1 + Category(Magnitude(v) / 2)
  }

  lemma {:induction false} CategoryBounds(v: int)
    ensures Magnitude(v) < Pow2(Category(v))
    ensures v != 0 ==> Category(v) > 0 && Pow2(Category(v) - 1) <= Magnitude(v)
    decreases Magnitude(v)
  {
    if v != 0 {
      var h := Magnitude(v) / 2;
      CategoryBounds(h);
      assert Category(v) == 1 + Category(h);
      assert Pow2(Category(v)) == 2 * Pow2(Category(h));
      if h != 0 { assert Pow2(Category(h)) == 2 * Pow2(Category(h) - 1); }
    }
  }

  /** The number the extra bits hold: the value itself, or for a negative one its value less one in the low bits. */
  function ExtraNumber(v: int): int {
    if v >= 0 then v else v + Pow2(Category(v)) - 1
  }

  function Extra(v: int): Bits {
    if ExtraNumber(v) >= 0 then Low(ExtraNumber(v), Category(v)) else []
  }

  function Extend(v: int, s: nat): int
    requires s > 0
  {
    if v >= Pow2(s - 1) then v else v - Pow2(s) + 1
  }

  /** A nonzero value is recovered from its category and extra bits. */
  lemma ExtendRoundTrip(v: int)
    requires v != 0
    ensures Category(v) > 0 && |Extra(v)| == Category(v) && Extend(Value(Extra(v)), Category(v)) == v
  {
    CategoryBounds(v);
    assert Pow2(Category(v)) == 2 * Pow2(Category(v) - 1);
    ValueOfLow(ExtraNumber(v), Category(v));
  }

  // The coding procedure

  /** A Huffman-coded byte and the bits that follow it. */
  datatype Symbol = Symbol(byte: int, extra: Bits)

  const EOB := Symbol(0x00, [])
  const ZRL := Symbol(0xF0, [])

  function DcSymbol(diff: int): Symbol {
    Symbol(Category(diff), Extra(diff))
  }

  /** The procedure of figure F.2: `r` zero coefficients have been passed before the `k`-th. */
  function AcSymbols(zz: seq<int>, k: nat, r: nat): seq<Symbol>
    requires |zz| == 64 && k <= 64
    decreases 64 - k, r
  {
    if k == 64 then (if r > 0 then [EOB] else [])
    else if zz[k] == 0 then AcSymbols(zz, k + 1, r + 1)
    else if r > 15 then [ZRL] + AcSymbols(zz, k, r - 16)
    else [Symbol(16 * r + Category(zz[k]), Extra(zz[k]))] + AcSymbols(zz, k + 1, 0)
  }

  /** A code: its counts by length, and its values. */
  datatype Code = Code(counts: Counts, values: seq<int>) {
    ghost predicate Valid() {
      && Kraft(counts) && |values| == Shorter(counts, 17)
      && forall i :: 0 <= i < |values| ==> 0 <= values[i] < 256
    }

    ghost predicate Has(v: int) {
      exists k :: 0 <= k < |values| && values[k] == v
    }
  }

  ghost function WordOf(code: Code, v: int): Bits
    requires code.Valid() && code.Has(v)
  {
    var k :| 0 <= k < |code.values| && code.values[k] == v;
    Word(code.counts, k)
  }

  ghost function SymbolBits(code: Code, s: Symbol): Bits
    requires code.Valid() && code.Has(s.byte)
  {
    WordOf(code, s.byte) + s.extra
  }

  ghost predicate HasAll(code: Code, symbols: seq<Symbol>) {
    forall i :: 0 <= i < |symbols| ==> code.Has(symbols[i].byte)
  }

  ghost function SymbolsBits(code: Code, symbols: seq<Symbol>): Bits
    requires code.Valid() && HasAll(code, symbols)
  {
    if symbols == [] then [] else
      assert HasAll(code, symbols[1..]);
      SymbolBits(code, symbols[0]) + SymbolsBits(code, symbols[1..])
  }

  /** A block of coefficients in zigzag order that the two codes can express, coded after prediction `pred`. */
  ghost predicate Codable(dc: Code, ac: Code, zz: seq<int>, pred: int) {
    && dc.Valid() && ac.Valid() && |zz| == 64
    && dc.Has(Category(zz[0] - pred)) && HasAll(ac, AcSymbols(zz, 1, 0))
    && forall k :: 1 <= k < 64 ==> Category(zz[k]) <= 15
  }

  ghost function BlockBits(dc: Code, ac: Code, zz: seq<int>, pred: int): Bits
    requires Codable(dc, ac, zz, pred)
  {
    SymbolBits(dc, DcSymbol(zz[0] - pred)) + SymbolsBits(ac, AcSymbols(zz, 1, 0))
  }

  // What the decoder meets

  /** From position `d` on, `zz` is zero up to `n`. */
  ghost predicate ZeroTo(zz: seq<int>, d: nat, n: nat) {
    |zz| == 64 && d <= n <= 64 && forall i :: d <= i < n ==> zz[i] == 0
  }

  lemma {:induction false} PassZeros(zz: seq<int>, d: nat, n: nat, r: nat)
    requires ZeroTo(zz, d, n)
    ensures AcSymbols(zz, d, r) == AcSymbols(zz, n, r + (n - d))
    decreases n - d
  {
    if d >= n {
    } else {
      PassZeros(zz, d + 1, n, r + 1);
    }
  }

  lemma NextNonzero(zz: seq<int>, d: nat) returns (n: nat)
    requires |zz| == 64 && d <= 64
    ensures ZeroTo(zz, d, n) && (n < 64 ==> zz[n] != 0)
  {
    n := d;
    while n < 64 && zz[n] == 0
      invariant ZeroTo(zz, d, n)
    {
      n := n + 1;
    }
  }

  /**
   * The first symbol for the coefficients from `d` on, and what it leaves: an end of block, sixteen zeros, or a run
   * of zeros up to a nonzero coefficient.
   */
  lemma NextSymbol(zz: seq<int>, d: nat) returns (n: nat)
    requires |zz| == 64 && d < 64
    ensures ZeroTo(zz, d, n) && (n < 64 ==> zz[n] != 0)
    ensures AcSymbols(zz, d, 0) ==
              if n == 64 then [EOB]
              else if n - d > 15 then [ZRL] + AcSymbols(zz, d + 16, 0)
              else [Symbol(16 * (n - d) + Category(zz[n]), Extra(zz[n]))] + AcSymbols(zz, n + 1, 0)
  {
    n := NextNonzero(zz, d);
    hide Category, Extra;
    PassZeros(zz, d, n, 0);
    if n < 64 && n - d > 15 { PassZeros(zz, d + 16, n, 0); }
  }

  /** A symbol's bits are the code word of one of its byte's places, and then its extra bits. */
  lemma SymbolAt(code: Code, s: Symbol, rest: Bits) returns (j: nat)
    requires code.Valid() && code.Has(s.byte)
    ensures j < |code.values| && code.values[j] == s.byte && j < Shorter(code.counts, 17) && Kraft(code.counts)
    ensures SymbolBits(code, s) + rest == Word(code.counts, j) + (s.extra + rest)
  {
    j :| 0 <= j < |code.values| && code.values[j] == s.byte && WordOf(code, s.byte) == Word(code.counts, j);
    hide Kraft, Word, WordOf, Shorter;
    Associates(Word(code.counts, j), s.extra, rest);
  }

  // The streams that are read

  /** The code word that comes next is one of `v`, and leaves `left`. */
  ghost predicate ByteComes(code: Code, stream: Bits, v: nat, left: Bits) {
    exists j: nat :: j < |code.values| && code.values[j] == v && Takes(code.counts, stream, j, left)
  }

  /**
   * From coefficient `k` on the stream begins with the symbols of a block, and then has `rest`: up to an end of block
   * or to the last coefficient, no run leads past it and no value lacks bits.
   */
  ghost predicate Legal(ac: Code, stream: Bits, k: nat, rest: Bits)
    decreases if k >= 64 then 0 else 64 - k, 1
  {
    if k >= 64 then stream == rest
    else exists v: nat, left :: ByteComes(ac, stream, v, left) && LegalAfter(ac, v, left, k, rest)
  }

  ghost predicate LegalAfter(ac: Code, v: nat, left: Bits, k: nat, rest: Bits)
    requires k < 64
    decreases 64 - k, 0
  {
    var run, size := v / 16, v % 16;
    if size > 0 then k + run < 64 && size <= |left| && Legal(ac, left[size..], k + run + 1, rest)
    else if run == 15 then Legal(ac, left, k + 16, rest)
    else left == rest
  }

  /** The coefficients that those symbols mean. */
  ghost predicate Reads(ac: Code, stream: Bits, k: nat, zz: seq<int>, rest: Bits)
    decreases if k >= 64 then 0 else 64 - k, 1
  {
    |zz| == 64 &&
    if k >= 64 then stream == rest
    else exists v: nat, left :: ByteComes(ac, stream, v, left) && ReadsAfter(ac, v, left, k, zz, rest)
  }

  ghost predicate ReadsAfter(ac: Code, v: nat, left: Bits, k: nat, zz: seq<int>, rest: Bits)
    requires k < 64
    decreases 64 - k, 0
  {
    var run, size := v / 16, v % 16;
    if size > 0 then
      && k + run < 64 && size <= |left| && ZeroTo(zz, k, k + run)
      && zz[k + run] == Extend(Value(left[..size]), size)
      && Reads(ac, left[size..], k + run + 1, zz, rest)
    else if run == 15 then
      ZeroTo(zz, k, if k + 16 <= 64 then k + 16 else 64) && Reads(ac, left, k + 16, zz, rest)
    else ZeroTo(zz, k, 64) && left == rest
  }

  /** A block's stream: the size of the difference, that many bits, and the other coefficients. */
  ghost predicate BlockLegal(dc: Code, ac: Code, stream: Bits, rest: Bits) {
    exists v: nat, left :: ByteComes(dc, stream, v, left) && v <= |left| && Legal(ac, left[v..], 1, rest)
  }

  /** The difference that its bits mean. */
  ghost function Difference(v: nat, left: Bits): int {
    if v == 0 || v > |left| then 0 else Extend(Value(left[..v]), v)
  }

  ghost predicate BlockReads(dc: Code, ac: Code, stream: Bits, pred: int, zz: seq<int>, rest: Bits) {
    |zz| == 64 && exists v: nat, left ::
      && ByteComes(dc, stream, v, left) && v <= |left|
      && Reads(ac, left[v..], 1, zz, rest) && zz[0] == pred + Difference(v, left)
  }

  lemma ByteUnique(code: Code, stream: Bits, v: nat, left: Bits, w: nat, other: Bits)
    requires code.Valid() && ByteComes(code, stream, v, left) && ByteComes(code, stream, w, other)
    ensures v == w && left == other
  {
    var i: nat :| i < |code.values| && code.values[i] == v && Takes(code.counts, stream, i, left);
    var j: nat :| j < |code.values| && code.values[j] == w && Takes(code.counts, stream, j, other);
    hide Kraft, Takes;
    TakesUnique(code.counts, stream, i, left, j, other);
  }

  lemma LegalStep(ac: Code, stream: Bits, k: nat, v: nat, left: Bits, rest: Bits)
    requires k < 64 && ac.Valid() && ByteComes(ac, stream, v, left)
    ensures Legal(ac, stream, k, rest) <==> LegalAfter(ac, v, left, k, rest)
  {
    hide ByteComes, LegalAfter, Code.Valid;
    if Legal(ac, stream, k, rest) {
      var w: nat, other :| ByteComes(ac, stream, w, other) && LegalAfter(ac, w, other, k, rest);
      ByteUnique(ac, stream, v, left, w, other);
    }
  }

  lemma ReadsStep(ac: Code, stream: Bits, k: nat, v: nat, left: Bits, zz: seq<int>, rest: Bits)
    requires k < 64 && ac.Valid() && ByteComes(ac, stream, v, left)
    ensures Reads(ac, stream, k, zz, rest) <==> |zz| == 64 && ReadsAfter(ac, v, left, k, zz, rest)
  {
    hide ByteComes, ReadsAfter, Code.Valid;
    if Reads(ac, stream, k, zz, rest) {
      var w: nat, other :| ByteComes(ac, stream, w, other) && ReadsAfter(ac, w, other, k, zz, rest);
      ByteUnique(ac, stream, v, left, w, other);
    }
  }

  lemma BlockLegalStep(dc: Code, ac: Code, stream: Bits, v: nat, left: Bits, rest: Bits)
    requires dc.Valid() && ByteComes(dc, stream, v, left)
    ensures BlockLegal(dc, ac, stream, rest) <==> v <= |left| && Legal(ac, left[v..], 1, rest)
  {
    hide ByteComes, Legal, Code.Valid;
    if BlockLegal(dc, ac, stream, rest) {
      var w: nat, other :| ByteComes(dc, stream, w, other) && w <= |other| && Legal(ac, other[w..], 1, rest);
      ByteUnique(dc, stream, v, left, w, other);
    }
  }

  lemma BlockReadsStep(dc: Code, ac: Code, stream: Bits, pred: int, v: nat, left: Bits, zz: seq<int>, rest: Bits)
    requires dc.Valid() && ByteComes(dc, stream, v, left) && BlockReads(dc, ac, stream, pred, zz, rest)
    ensures v <= |left| && Reads(ac, left[v..], 1, zz, rest) && |zz| == 64 && zz[0] == pred + Difference(v, left)
  {
    var w: nat, other :|
      && ByteComes(dc, stream, w, other) && w <= |other|
      && Reads(ac, other[w..], 1, zz, rest) && zz[0] == pred + Difference(w, other);
    ReadsBlock(ac, other[w..], 1, zz, rest);
    hide ByteComes, Reads, Code.Valid, Difference;
    ByteUnique(dc, stream, v, left, w, other);
  }

  lemma ReadsBlock(ac: Code, stream: Bits, k: nat, zz: seq<int>, rest: Bits)
    requires Reads(ac, stream, k, zz, rest)
    ensures |zz| == 64
  {
  }

  /** One stream leaves one rest. */
  lemma {:induction false} LegalUnique(ac: Code, stream: Bits, k: nat, rest: Bits, other: Bits)
    requires ac.Valid() && Legal(ac, stream, k, rest) && Legal(ac, stream, k, other)
    ensures rest == other
    decreases if k >= 64 then 0 else 64 - k, 1
  {
    hide ByteComes, LegalAfter, Code.Valid;
    if k >= 64 {
    } else {
      var v: nat, left :| ByteComes(ac, stream, v, left) && LegalAfter(ac, v, left, k, rest);
      LegalStep(ac, stream, k, v, left, other);
      AfterUnique(ac, v, left, k, rest, other);
    }
  }

  lemma {:induction false} AfterUnique(ac: Code, v: nat, left: Bits, k: nat, rest: Bits, other: Bits)
    requires k < 64 && ac.Valid() && LegalAfter(ac, v, left, k, rest) && LegalAfter(ac, v, left, k, other)
    ensures rest == other
    decreases 64 - k, 0
  {
    hide Legal, Code.Valid;
    var run, size := v / 16, v % 16;
    if size > 0 {
      LegalUnique(ac, left[size..], k + run + 1, rest, other);
    } else if run == 15 {
      LegalUnique(ac, left, k + 16, rest, other);
    }
  }

  lemma BlockLegalUnique(dc: Code, ac: Code, stream: Bits, rest: Bits, other: Bits)
    requires dc.Valid() && ac.Valid() && BlockLegal(dc, ac, stream, rest) && BlockLegal(dc, ac, stream, other)
    ensures rest == other
  {
    var v: nat, left :| ByteComes(dc, stream, v, left) && v <= |left| && Legal(ac, left[v..], 1, rest);
    hide ByteComes, Legal, Code.Valid;
    BlockLegalStep(dc, ac, stream, v, left, other);
    LegalUnique(ac, left[v..], 1, rest, other);
  }

  // Every legal stream means some coefficients

  /** With `zz` up to `k`, what the stream means from there on. */
  lemma {:induction false} LegalReads(ac: Code, stream: Bits, k: nat, rest: Bits, start: seq<int>)
    returns (zz: seq<int>)
    requires Legal(ac, stream, k, rest) && |start| == if k >= 64 then 64 else k
    ensures Reads(ac, stream, k, zz, rest) && |zz| == 64 && start <= zz
    decreases if k >= 64 then 0 else 64 - k
  {
    if k >= 64 {
      zz := start;
    } else {
      var v: nat, left :| ByteComes(ac, stream, v, left) && LegalAfter(ac, v, left, k, rest);
      zz := AfterReads(ac, v, left, k, rest, start);
    }
  }

  lemma AfterReads(ac: Code, v: nat, left: Bits, k: nat, rest: Bits, start: seq<int>) returns (zz: seq<int>)
    requires k < 64 && LegalAfter(ac, v, left, k, rest) && |start| == k
    ensures ReadsAfter(ac, v, left, k, zz, rest) && |zz| == 64 && start <= zz
    decreases 64 - k, 0
  {
    hide Legal, Reads;
    var run, size := v / 16, v % 16;
    if size > 0 {
      var more := start + seq(run, i => 0) + [Extend(Value(left[..size]), size)];
      zz := LegalReads(ac, left[size..], k + run + 1, rest, more);
      AddedZeros(start, run, more, zz);
    } else {
      var zeros := if run == 15 && k + 16 <= 64 then 16 else 64 - k;
      var more := start + seq(zeros, i => 0);
      if run == 15 { zz := LegalReads(ac, left, k + 16, rest, more); } else { zz := more; }
      AddedZeros(start, zeros, more, zz);
    }
  }

  lemma AddedZeros(start: seq<int>, n: nat, more: seq<int>, zz: seq<int>)
    requires start + seq(n, i => 0) <= more <= zz && |zz| == 64
    ensures start <= zz && ZeroTo(zz, |start|, |start| + n)
    ensures |start| + n < |more| ==> zz[|start| + n] == more[|start| + n]
  {
    var t := start + seq(n, i => 0);
    forall i | |start| <= i < |start| + n
      ensures zz[i] == 0
    {
      assert t[i] == 0 && t[i] == more[i] == zz[i];
    }
  }

  /** A block is legal exactly when it means some coefficients. */
  lemma LegalIffReads(dc: Code, ac: Code, stream: Bits, pred: int, rest: Bits)
    ensures BlockLegal(dc, ac, stream, rest) <==> exists zz :: BlockReads(dc, ac, stream, pred, zz, rest)
  {
    hide Legal, Reads, ByteComes, Difference;
    if BlockLegal(dc, ac, stream, rest) {
      var v: nat, left :| ByteComes(dc, stream, v, left) && v <= |left| && Legal(ac, left[v..], 1, rest);
      var zz := LegalReads(ac, left[v..], 1, rest, [pred + Difference(v, left)]);
      assert zz[0] == pred + Difference(v, left);
      assert BlockReads(dc, ac, stream, pred, zz, rest);
    }
    forall zz | BlockReads(dc, ac, stream, pred, zz, rest)
      ensures BlockLegal(dc, ac, stream, rest)
    {
      var v: nat, left :|
        && ByteComes(dc, stream, v, left) && v <= |left|
        && Reads(ac, left[v..], 1, zz, rest) && zz[0] == pred + Difference(v, left);
      ReadsLegal(ac, left[v..], 1, zz, rest);
    }
  }

  lemma {:induction false} ReadsLegal(ac: Code, stream: Bits, k: nat, zz: seq<int>, rest: Bits)
    requires Reads(ac, stream, k, zz, rest)
    ensures Legal(ac, stream, k, rest)
    decreases if k >= 64 then 0 else 64 - k
  {
    if k >= 64 {
    } else {
      var v: nat, left :| ByteComes(ac, stream, v, left) && ReadsAfter(ac, v, left, k, zz, rest);
      var run, size := v / 16, v % 16;
      hide Legal, Reads, ByteComes;
      if size > 0 {
        ReadsLegal(ac, left[size..], k + run + 1, zz, rest);
      } else if run == 15 {
        ReadsLegal(ac, left, k + 16, zz, rest);
      }
      LegalMore(ac, stream, k, v, left, rest);
    }
  }

  lemma LegalMore(ac: Code, stream: Bits, k: nat, v: nat, left: Bits, rest: Bits)
    requires k < 64 && ByteComes(ac, stream, v, left) && LegalAfter(ac, v, left, k, rest)
    ensures Legal(ac, stream, k, rest)
  {
    hide ByteComes, LegalAfter;
  }

  // What is coded is read

  /** What is still to come: the symbols for the coefficients from `k` on, and then `rest`. */
  ghost predicate Coming(stream: Bits, ac: Code, zz: seq<int>, k: nat, rest: Bits) {
    && |zz| == 64 && k <= 64 && ac.Valid() && HasAll(ac, AcSymbols(zz, k, 0))
    && stream == SymbolsBits(ac, AcSymbols(zz, k, 0)) + rest
    && forall i :: k <= i < 64 ==> Category(zz[i]) <= 15
  }

  /** The symbol that comes next, and the place in the block it leads to. */
  lemma FirstComes(stream: Bits, ac: Code, zz: seq<int>, k: nat, rest: Bits) returns (s: Symbol, n: nat, left: Bits)
    requires Coming(stream, ac, zz, k, rest) && k < 64
    ensures ac.Has(s.byte) && stream == SymbolBits(ac, s) + left && ZeroTo(zz, k, n)
    ensures n == 64 ==> s == EOB && left == rest
    ensures n < 64 && n - k > 15 ==> s == ZRL && Coming(left, ac, zz, k + 16, rest)
    ensures n < 64 && n - k <= 15 ==>
      && zz[n] != 0 && Category(zz[n]) <= 15 && s == Symbol(16 * (n - k) + Category(zz[n]), Extra(zz[n]))
      && Coming(left, ac, zz, n + 1, rest)
  {
    hide AcSymbols, Category, Extra, SymbolBits, SymbolsBits, HasAll, Code.Valid, Code.Has;
    n := NextSymbol(zz, k);
    var symbols := AcSymbols(zz, k, 0);
    SymbolsFirst(ac, symbols, rest);
    s := symbols[0];
    left := SymbolsBits(ac, symbols[1..]) + rest;
    NoSymbols(ac, rest);
    if n == 64 {
      FirstOf(symbols, EOB, []);
    } else if n - k > 15 {
      FirstOf(symbols, ZRL, AcSymbols(zz, k + 16, 0));
    } else {
      FirstOf(symbols, Symbol(16 * (n - k) + Category(zz[n]), Extra(zz[n])), AcSymbols(zz, n + 1, 0));
    }
  }

  lemma FirstOf(symbols: seq<Symbol>, first: Symbol, later: seq<Symbol>)
    requires symbols == [first] + later
    ensures symbols[0] == first && symbols[1..] == later
  {
  }

  lemma NoSymbols(ac: Code, rest: Bits)
    requires ac.Valid()
    ensures HasAll(ac, []) && SymbolsBits(ac, []) + rest == rest
  {
    assert [] + rest == rest;
  }

  lemma SymbolsFirst(ac: Code, symbols: seq<Symbol>, rest: Bits)
    requires ac.Valid() && HasAll(ac, symbols) && symbols != []
    ensures ac.Has(symbols[0].byte) && HasAll(ac, symbols[1..])
    ensures SymbolsBits(ac, symbols) + rest
         == SymbolBits(ac, symbols[0]) + (SymbolsBits(ac, symbols[1..]) + rest)
  {
    hide SymbolBits, Code.Valid, Code.Has;
    assert ac.Has(symbols[0].byte);
    assert HasAll(ac, symbols[1..]);
  }

  lemma ByteParts(r: nat, c: nat)
    requires c <= 15
    ensures (16 * r + c) / 16 == r && (16 * r + c) % 16 == c
  {
  }

  /**
   * What the next byte says: an end of block, sixteen zeros, or a run and a size. `n` is where the zeros it passes
   * end.
   */
  lemma BytePlan(stream: Bits, ac: Code, zz: seq<int>, k: nat, rest: Bits) returns (s: Symbol, n: nat, left: Bits)
    requires Coming(stream, ac, zz, k, rest) && k < 64
    ensures |zz| == 64 && ac.Has(s.byte) && stream == SymbolBits(ac, s) + left && ZeroTo(zz, k, n)
    ensures s.byte % 16 == 0 && s.byte / 16 != 15 ==> n == 64 && s.extra + left == rest
    ensures s.byte % 16 == 0 && s.byte / 16 == 15 ==> n == k + 16 && Coming(s.extra + left, ac, zz, n, rest)
    ensures s.byte % 16 != 0 ==>
              && n < 64 && s.byte / 16 == n - k && zz[n] != 0 && s.byte % 16 == Category(zz[n])
              && s.extra == Extra(zz[n]) && Coming(left, ac, zz, n + 1, rest)
  {
    s, n, left := FirstComes(stream, ac, zz, k, rest);
    hide Coming, SymbolBits, Code.Has;
    assert [] + left == left;
    if n < 64 && n - k > 15 {
      n := k + 16;
    } else if n < 64 {
      CategoryBounds(zz[n]);
      ByteParts(n - k, Category(zz[n]));
    }
  }

  /** The stream of a coded block means its coefficients. */
  lemma {:induction false} CodedReads(stream: Bits, ac: Code, zz: seq<int>, k: nat, rest: Bits)
    requires Coming(stream, ac, zz, k, rest)
    ensures Reads(ac, stream, k, zz, rest)
    decreases if k >= 64 then 0 else 64 - k
  {
    if k >= 64 {
    } else {
      var s, n, left := BytePlan(stream, ac, zz, k, rest);
      ByteOf(ac, s, left);
      hide Coming, SymbolBits, ByteComes, Code.Has;
      var after := s.extra + left;
      if s.byte % 16 != 0 {
        hide Reads;
        CodedReads(left, ac, zz, n + 1, rest);
        ExtendRoundTrip(zz[n]);
        assert after[..s.byte % 16] == s.extra && after[s.byte % 16..] == left;
      } else if s.byte / 16 == 15 {
        CodedReads(after, ac, zz, k + 16, rest);
      }
      ReadsMore(ac, stream, k, s.byte, after, zz, rest);
    }
  }

  lemma ReadsMore(ac: Code, stream: Bits, k: nat, v: nat, left: Bits, zz: seq<int>, rest: Bits)
    requires k < 64 && |zz| == 64 && ByteComes(ac, stream, v, left) && ReadsAfter(ac, v, left, k, zz, rest)
    ensures Reads(ac, stream, k, zz, rest)
  {
    hide ByteComes, ReadsAfter;
  }

  lemma ByteOf(code: Code, s: Symbol, left: Bits)
    requires code.Valid() && code.Has(s.byte)
    ensures s.byte >= 0 && ByteComes(code, SymbolBits(code, s) + left, s.byte, s.extra + left)
  {
    var j := SymbolAt(code, s, left);
    hide Kraft, Word, SymbolBits, Takes, Shorter;
    WordTaken(code.counts, j, s.extra + left);
  }

  /** The bits of a difference mean it. */
  lemma CodedDifference(diff: int, after: Bits)
    ensures var left := Extra(diff) + after;
            && Category(diff) <= |left| && left[Category(diff)..] == after && Difference(Category(diff), left) == diff
  {
    var left := Extra(diff) + after;
    if diff != 0 {
      ExtendRoundTrip(diff);
      hide Category, Extra;
      assert left[..Category(diff)] == Extra(diff) && left[Category(diff)..] == after;
    }
  }

  lemma BlockCodedReads(dc: Code, ac: Code, zz: seq<int>, pred: int, rest: Bits)
    requires Codable(dc, ac, zz, pred)
    ensures BlockReads(dc, ac, BlockBits(dc, ac, zz, pred) + rest, pred, zz, rest)
  {
    hide Coming, Reads, SymbolBits, ByteComes, Code.Has, Code.Valid, BlockBits, Category, Extra, Difference, HasAll;
    var diff, after := BlockStarts(dc, ac, zz, pred, rest);
    var s := DcSymbol(diff);
    ByteOf(dc, s, after);
    CodedReads(after, ac, zz, 1, rest);
    CodedDifference(diff, after);
    assert zz[0] == pred + diff;
  }

  /** A coded block starts with the difference from the prediction. */
  lemma BlockStarts(dc: Code, ac: Code, zz: seq<int>, pred: int, rest: Bits) returns (diff: int, after: Bits)
    requires Codable(dc, ac, zz, pred)
    ensures |zz| == 64 && diff == zz[0] - pred && dc.Has(DcSymbol(diff).byte)
    ensures BlockBits(dc, ac, zz, pred) + rest == SymbolBits(dc, DcSymbol(diff)) + after
    ensures Coming(after, ac, zz, 1, rest)
  {
    hide SymbolBits, SymbolsBits, AcSymbols, Category, Extra, Code.Valid, Code.Has;
    diff := zz[0] - pred;
    after := SymbolsBits(ac, AcSymbols(zz, 1, 0)) + rest;
  }

  // The loop

  /** A Huffman-coded byte is read, unless none comes. */
  method ReadByte(reader: Reader, table: Table, ghost code: Code) returns (r: Read)
    requires reader.Valid() && code.Valid() && TableFor(code.counts, table) && table.values == code.values
    modifies reader
    ensures r.Got? ==> reader.Valid() && 0 <= r.value < 256
    ensures r.Got? ==> ByteComes(code, old(reader.Remaining()), r.value, reader.Remaining())
    ensures r.Failed? ==> forall v: nat, left :: !ByteComes(code, old(reader.Remaining()), v, left)
  {
    ghost var stream := reader.Remaining();
    r := Decode(reader, table, code.counts);
    if r.Failed? {
      NoByteComes(code, stream);
    } else {
      ghost var j :| 0 <= j < |code.values| && code.values[j] == r.value
        && Takes(code.counts, stream, j, reader.Remaining());
    }
  }

  lemma NoByteComes(code: Code, stream: Bits)
    requires forall j: nat, left :: !Takes(code.counts, stream, j, left)
    ensures forall v: nat, left :: !ByteComes(code, stream, v, left)
  {
    hide Takes;
  }

  /** A value's bits are read and extended, unless they are too few. */
  method ReadValue(reader: Reader, s: nat) returns (r: Read)
    requires reader.Valid() && s > 0
    modifies reader
    ensures r.Failed? <==> |old(reader.Remaining())| < s
    ensures r.Got? ==>
      && reader.Valid() && reader.Remaining() == old(reader.Remaining())[s..]
      && r.value == Extend(Value(old(reader.Remaining())[..s]), s)
  {
    r := reader.Receive(s);
    if r.Got? { r := Got(Extend(r.value, s)); }
  }

  /** The first `k` coefficients in zigzag order are in place, times their quantizers, and the others are zero. */
  ghost predicate Placed(coef: array<int>, zz: seq<int>, q: seq<int>, k: nat)
    reads coef
  {
    coef.Length == 64 && |zz| == 64 && |q| == 64
    && forall j :: 0 <= j < 64 ==> Zigzag(j) < 64 && coef[Zigzag(j)] == if j < k then zz[j] * q[j] else 0
  }

  lemma PlacedZeros(coef: array<int>, zz: seq<int>, q: seq<int>, k: nat, n: nat)
    requires Placed(coef, zz, q, k) && ZeroTo(zz, k, n)
    ensures Placed(coef, zz, q, n)
  {
  }

  method Put(coef: array<int>, q: seq<int>, k: nat, v: int, ghost zz: seq<int>)
    requires coef.Length == 64 && |q| == 64 && k < 64
    modifies coef
    ensures old(Placed(coef, zz, q, k)) && |zz| == 64 && v == zz[k] ==> Placed(coef, zz, q, k + 1)
  {
    ZigzagOnce();
    coef[Zigzag(k)] := v * q[k];
  }

  datatype Progress = Broken | Ended | At(k: nat)

  /** Coefficient `k` comes next, and the ones before it are in place. */
  ghost predicate Midway(reader: Reader, coef: array<int>, ac: Code, zz: seq<int>, q: seq<int>, k: nat, rest: Bits)
    reads reader, coef
  {
    reader.Valid() && Reads(ac, reader.Remaining(), k, zz, rest) && Placed(coef, zz, q, if k <= 64 then k else 64)
  }

  /** After a run of zeros up to position `n`, a value of `size` bits is read and put there, if both are there. */
  method TakeRun(
      reader: Reader, coef: array<int>, q: seq<int>, n: nat, size: nat, ghost ac: Code, ghost zz: seq<int>,
      ghost rest: Bits)
    returns (next: Progress)
    requires reader.Valid() && coef.Length == 64 && |q| == 64 && size > 0
    modifies reader, coef
    ensures next.Broken? <==> n >= 64 || |old(reader.Remaining())| < size
    ensures !next.Broken? ==>
      reader.Valid() && next == At(n + 1) && reader.Remaining() == old(reader.Remaining())[size..]
    ensures !next.Broken? && |zz| == 64 && old(Placed(coef, zz, q, n)) ==>
      (zz[n] == Extend(Value(old(reader.Remaining())[..size]), size) ==> Placed(coef, zz, q, n + 1))
  {
    if n >= 64 { return Broken; }
    hide Reader.Valid, Reader.Remaining, Placed;
    var v := ReadValue(reader, size);
    if v.Failed? { return Broken; }
    Put(coef, q, n, v.value, zz);
    next := At(n + 1);
  }

  /** Where a turn leads to: to the end of the block, or to another position. */
  function Position(next: Progress): nat
    requires !next.Broken?
  {
    if next.Ended? then 64 else next.k
  }

  ghost predicate NoneLegal(ac: Code, stream: Bits, k: nat) {
    forall rest :: !Legal(ac, stream, k, rest)
  }

  /** From `k` in one stream and from `k'` in the other the same may follow. */
  ghost predicate SameLegal(ac: Code, stream: Bits, k: nat, stream': Bits, k': nat) {
    forall rest :: Legal(ac, stream, k, rest) <==> Legal(ac, stream', k', rest)
  }

  /** What a byte, as a run and a size, says of what may follow. */
  lemma LegalParts(ac: Code, stream: Bits, k: nat, v: nat, left: Bits, run: nat, size: nat)
    requires k < 64 && ac.Valid() && ByteComes(ac, stream, v, left) && run == v / 16 && size == v % 16
    ensures size == 0 && run != 15 ==> SameLegal(ac, stream, k, left, 64)
    ensures size == 0 && run == 15 ==> SameLegal(ac, stream, k, left, k + 16)
    ensures size > 0 && (k + run >= 64 || |left| < size) ==> NoneLegal(ac, stream, k)
    ensures size > 0 && k + run < 64 && size <= |left| ==> SameLegal(ac, stream, k, left[size..], k + run + 1)
  {
    forall rest
      ensures Legal(ac, stream, k, rest) <==> LegalAfter(ac, v, left, k, rest)
    {
      LegalStep(ac, stream, k, v, left, rest);
    }
    assert forall rest :: Legal(ac, left, 64, rest) <==> left == rest;
    hide ByteComes, Legal, Code.Valid;
  }

  lemma NotLegal(ac: Code, stream: Bits, k: nat)
    requires k < 64 && forall v: nat, left :: !ByteComes(ac, stream, v, left)
    ensures NoneLegal(ac, stream, k)
  {
    hide ByteComes;
  }

  /** What it says of the coefficients. */
  lemma ReadsParts(ac: Code, stream: Bits, k: nat, v: nat, left: Bits, zz: seq<int>, rest: Bits, run: nat, size: nat)
    requires k < 64 && ac.Valid() && ByteComes(ac, stream, v, left) && run == v / 16 && size == v % 16
    requires Reads(ac, stream, k, zz, rest)
    ensures |zz| == 64
    ensures size == 0 && run != 15 ==> ZeroTo(zz, k, 64) && Reads(ac, left, 64, zz, rest)
    ensures size == 0 && run == 15 ==>
      ZeroTo(zz, k, if k + 16 <= 64 then k + 16 else 64) && Reads(ac, left, k + 16, zz, rest)
    ensures size > 0 ==>
      && k + run < 64 && size <= |left| && ZeroTo(zz, k, k + run)
      && zz[k + run] == Extend(Value(left[..size]), size) && Reads(ac, left[size..], k + run + 1, zz, rest)
  {
    ReadsStep(ac, stream, k, v, left, zz, rest);
    assert |zz| == 64 ==> (Reads(ac, left, 64, zz, rest) <==> left == rest);
    hide ByteComes, Reads, Code.Valid;
  }

  /**
   * One turn of the loop over the coefficients from `k` on. On every stream it goes on exactly where the symbol may
   * stand there, and puts what the symbol means in its place.
   */
  method Turn(
      reader: Reader, table: Table, coef: array<int>, q: seq<int>, k: nat, ghost ac: Code, ghost zz: seq<int>,
      ghost rest: Bits)
    returns (next: Progress)
    requires reader.Valid() && ac.Valid() && TableFor(ac.counts, table) && table.values == ac.values
    requires coef.Length == 64 && |q| == 64 && 1 <= k < 64
    modifies reader, coef
    ensures !next.Broken? ==> reader.Valid()
    ensures next.At? ==> next.k > k
    ensures if next.Broken? then NoneLegal(ac, old(reader.Remaining()), k)
            else SameLegal(ac, old(reader.Remaining()), k, reader.Remaining(), Position(next))
    ensures old(Midway(reader, coef, ac, zz, q, k, rest)) && !next.Broken? ==>
      Midway(reader, coef, ac, zz, q, Position(next), rest)
  {
    hide Reads, Code.Valid, ByteComes, TableFor, Reader.Valid, Reader.Remaining, Placed, ZeroTo, NoneLegal, SameLegal;
    ghost var stream, midway := reader.Remaining(), Midway(reader, coef, ac, zz, q, k, rest);
    var rs := ReadByte(reader, table, ac);
    if rs.Failed? {
      NotLegal(ac, stream, k);
      return Broken;
    }
    var run, size := rs.value / 16, rs.value % 16;
    LegalParts(ac, stream, k, rs.value, reader.Remaining(), run, size);
    if midway {
      ReadsParts(ac, stream, k, rs.value, reader.Remaining(), zz, rest, run, size);
      PlacedZeros(coef, zz, q, k, if size > 0 then k + run else if run == 15 && k + 16 <= 64 then k + 16 else 64);
    }
    if size == 0 {
      next := if run != 15 then Ended else At(k + 16);
      return;
    }
    next := TakeRun(reader, coef, q, k + run, size, ac, zz, rest);
  }

  ghost predicate NoBlock(dc: Code, ac: Code, stream: Bits) {
    forall rest :: !BlockLegal(dc, ac, stream, rest)
  }

  /** After `stream` what is left of the block is in `left`, from coefficient `k` on. */
  ghost predicate BlockLeft(dc: Code, ac: Code, stream: Bits, left: Bits, k: nat) {
    forall rest :: BlockLegal(dc, ac, stream, rest) <==> Legal(ac, left, k, rest)
  }

  lemma BlockBegun(dc: Code, ac: Code, stream: Bits, v: nat, left: Bits)
    requires dc.Valid() && ByteComes(dc, stream, v, left)
    ensures if v <= |left| then BlockLeft(dc, ac, stream, left[v..], 1) else NoBlock(dc, ac, stream)
  {
    hide ByteComes, Legal, BlockLegal, Code.Valid;
    forall rest
      ensures BlockLegal(dc, ac, stream, rest) <==> v <= |left| && Legal(ac, left[v..], 1, rest)
    {
      BlockLegalStep(dc, ac, stream, v, left, rest);
    }
  }

  lemma BlockNotBegun(dc: Code, ac: Code, stream: Bits)
    requires forall v: nat, left :: !ByteComes(dc, stream, v, left)
    ensures NoBlock(dc, ac, stream)
  {
    hide ByteComes;
  }

  lemma BlockGoesOn(dc: Code, ac: Code, stream: Bits, left: Bits, k: nat, left': Bits, k': nat)
    requires BlockLeft(dc, ac, stream, left, k)
    ensures NoneLegal(ac, left, k) ==> NoBlock(dc, ac, stream)
    ensures SameLegal(ac, left, k, left', k') ==> BlockLeft(dc, ac, stream, left', k')
  {
    hide BlockLegal, Legal;
  }

  lemma BlockDone(dc: Code, ac: Code, stream: Bits, left: Bits, k: nat)
    requires BlockLeft(dc, ac, stream, left, k) && k >= 64
    ensures BlockLegal(dc, ac, stream, left)
  {
    hide BlockLegal;
  }

  lemma ReadToEnd(ac: Code, stream: Bits, k: nat, zz: seq<int>, rest: Bits)
    requires Reads(ac, stream, k, zz, rest) && k >= 64
    ensures stream == rest
  {
  }

  /**
   * The coefficient loop. On every stream it succeeds exactly when a legal block comes, which it consumes, and gives
   * the coefficients the block means, each times its quantizer in its place, and the DC coefficient for a prediction.
   */
  method Block(reader: Reader, dcTable: Table, acTable: Table, pred: int, q: seq<int>,
               ghost dc: Code, ghost ac: Code, ghost zz: seq<int>, ghost rest: Bits)
    returns (ok: bool, coef: array<int>, pred': int)
    requires reader.Valid() && dc.Valid() && ac.Valid() && |q| == 64
    requires TableFor(dc.counts, dcTable) && dcTable.values == dc.values
    requires TableFor(ac.counts, acTable) && acTable.values == ac.values
    modifies reader
    ensures fresh(coef) && coef.Length == 64 && (ok ==> reader.Valid())
    ensures if ok then BlockLegal(dc, ac, old(reader.Remaining()), reader.Remaining())
            else NoBlock(dc, ac, old(reader.Remaining()))
    ensures ok && BlockReads(dc, ac, old(reader.Remaining()), pred, zz, rest) ==>
      reader.Remaining() == rest && pred' == zz[0] && Placed(coef, zz, q, 64)
  {
    hide Reads, Code.Valid, ByteComes, TableFor, Reader.Valid, Reader.Remaining, Placed;
    hide NoneLegal, SameLegal, Legal, BlockLegal, NoBlock, BlockLeft, BlockReads, Difference;
    coef, pred', ok := new int[64](i => 0), pred, false;
    ghost var stream := reader.Remaining();
    ghost var means := BlockReads(dc, ac, stream, pred, zz, rest);
    var t := ReadByte(reader, dcTable, dc);
    if t.Failed? {
      BlockNotBegun(dc, ac, stream);
      return;
    }
    ghost var left := reader.Remaining();
    BlockBegun(dc, ac, stream, t.value, left);
    if means {
      BlockReadsStep(dc, ac, stream, pred, t.value, left, zz, rest);
      PlacedNone(coef, zz, q);
    }
    if t.value != 0 {
      var v := ReadValue(reader, t.value);
      if v.Failed? { return; }
      pred' := pred + v.value;
    }
    DifferenceIs(t.value, left);
    assert left[0..] == left;
    PutFirst(coef, q, pred', zz);
    var k := 1;
    while k < 64
      invariant reader.Valid() && k >= 1 && coef.Length == 64 && fresh(coef)
      invariant BlockLeft(dc, ac, stream, reader.Remaining(), k)
      invariant means ==> |zz| == 64 && pred' == zz[0] && Midway(reader, coef, ac, zz, q, k, rest)
    {
      ghost var before := reader.Remaining();
      var next := Turn(reader, acTable, coef, q, k, ac, zz, rest);
      if next.Broken? {
        BlockGoesOn(dc, ac, stream, before, k, before, k);
        return;
      }
      BlockGoesOn(dc, ac, stream, before, k, reader.Remaining(), Position(next));
      k := Position(next);
    }
    ok := true;
    BlockDone(dc, ac, stream, reader.Remaining(), k);
    if means { ReadToEnd(ac, reader.Remaining(), k, zz, rest); }
  }

  lemma DifferenceIs(v: nat, left: Bits)
    ensures v == 0 ==> Difference(v, left) == 0
    ensures 0 < v <= |left| ==> Difference(v, left) == Extend(Value(left[..v]), v)
  {
  }

  lemma PlacedNone(coef: array<int>, zz: seq<int>, q: seq<int>)
    requires coef.Length == 64 && |zz| == 64 && |q| == 64 && forall i :: 0 <= i < 64 ==> coef[i] == 0
    ensures Placed(coef, zz, q, 0)
  {
    ZigzagOnce();
  }

  method PutFirst(coef: array<int>, q: seq<int>, v: int, ghost zz: seq<int>)
    requires coef.Length == 64 && |q| == 64
    modifies coef
    ensures old(Placed(coef, zz, q, 0)) && |zz| == 64 && v == zz[0] ==> Placed(coef, zz, q, 1)
  {
    ZigzagOnce();
    coef[0] := v * q[0];
  }

  // In bytes

  lemma ExtraAreBits(v: int)
    ensures AreBits(Extra(v))
  {
    if ExtraNumber(v) >= 0 { LowAreBits(ExtraNumber(v), Category(v)); }
  }

  lemma WordAreBits(code: Code, v: int)
    requires code.Valid() && code.Has(v)
    ensures AreBits(WordOf(code, v))
  {
    var k :| 0 <= k < |code.values| && code.values[k] == v && WordOf(code, v) == Word(code.counts, k);
    var w := Word(code.counts, k);
    var l: nat, c: nat :| IsCode(code.counts, k, l, c) && w == Low(c, l);
    LowAreBits(c, l);
  }

  ghost predicate ExtrasAreBits(symbols: seq<Symbol>) {
    forall i :: 0 <= i < |symbols| ==> AreBits(symbols[i].extra)
  }

  lemma {:induction false} AcExtras(zz: seq<int>, k: nat, r: nat)
    requires |zz| == 64 && k <= 64
    ensures ExtrasAreBits(AcSymbols(zz, k, r))
    decreases 64 - k, r
  {
    hide Extra, AreBits;
    NoExtras();
    if k == 64 {
    } else if zz[k] == 0 {
      AcExtras(zz, k + 1, r + 1);
    } else if r > 15 {
      AcExtras(zz, k, r - 16);
    } else {
      ExtraAreBits(zz[k]);
      AcExtras(zz, k + 1, 0);
    }
  }

  lemma NoExtras()
    ensures AreBits([])
  {
  }

  lemma {:induction false} SymbolsAreBits(code: Code, symbols: seq<Symbol>)
    requires code.Valid() && HasAll(code, symbols) && ExtrasAreBits(symbols)
    ensures AreBits(SymbolsBits(code, symbols))
    decreases |symbols|
  {
    if symbols == [] {
    } else {
      hide AreBits, Code.Valid, Code.Has, WordOf;
      assert HasAll(code, symbols[1..]) && ExtrasAreBits(symbols[1..]);
      SymbolsAreBits(code, symbols[1..]);
      WordAreBits(code, symbols[0].byte);
      BitsJoin(WordOf(code, symbols[0].byte), symbols[0].extra);
      BitsJoin(SymbolBits(code, symbols[0]), SymbolsBits(code, symbols[1..]));
    }
  }

  /**
   * A coded block, followed by other bits, packed into bytes and stuffed: a reader at the start of the bytes has
   * before it the block, the other bits and fewer than eight ones.
   */
  lemma BlockInBytes(dc: Code, ac: Code, zz: seq<int>, pred: int, more: Bits) returns (fill: Bits)
    requires Codable(dc, ac, zz, pred) && AreBits(more)
    ensures AreBits(BlockBits(dc, ac, zz, pred) + more) && |fill| < 8 && forall i :: 0 <= i < |fill| ==> fill[i] == 1
    ensures DataBits(Stuffed(Packed(BlockBits(dc, ac, zz, pred) + more)), 0)
      == BlockBits(dc, ac, zz, pred) + (more + fill)
  {
    BlockAreBits(dc, ac, zz, pred);
    hide *;
    BitsJoin(BlockBits(dc, ac, zz, pred), more);
    fill := FillOf(BlockBits(dc, ac, zz, pred), more);
  }

  lemma BitsJoin(a: Bits, b: Bits)
    requires AreBits(a) && AreBits(b)
    ensures AreBits(a + b)
  {
  }

  lemma BlockAreBits(dc: Code, ac: Code, zz: seq<int>, pred: int)
    requires Codable(dc, ac, zz, pred)
    ensures AreBits(BlockBits(dc, ac, zz, pred))
  {
    hide Code.Valid, Code.Has, WordOf, SymbolsBits, AcSymbols, HasAll, Category, Extra, AreBits, ExtrasAreBits;
    WordAreBits(dc, Category(zz[0] - pred));
    ExtraAreBits(zz[0] - pred);
    AcExtras(zz, 1, 0);
    SymbolsAreBits(ac, AcSymbols(zz, 1, 0));
    BitsJoin(WordOf(dc, Category(zz[0] - pred)), Extra(zz[0] - pred));
    BitsJoin(SymbolBits(dc, DcSymbol(zz[0] - pred)), SymbolsBits(ac, AcSymbols(zz, 1, 0)));
  }

  lemma FillOf(block: Bits, more: Bits) returns (fill: Bits)
    requires AreBits(block + more)
    ensures |fill| < 8 && forall i :: 0 <= i < |fill| ==> fill[i] == 1
    ensures DataBits(Stuffed(Packed(block + more)), 0) == block + (more + fill)
  {
    StuffingRoundTrip(block + more);
    var read := DataBits(Stuffed(Packed(block + more)), 0);
    fill := read[|block + more|..];
    assert read == block + (more + fill);
  }
}
