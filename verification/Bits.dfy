/** Bit strings, most significant bit first, and the bytes of JPEG entropy-coded data that carry them. */
module Bits {
  import opened Arithmetic

  type Bits = seq<int>

  function Pow2(n: nat): (p: nat)
    ensures p > 0
  {
    if n == 0 then 1 else 2 * Pow2(n - 1)
  }

  /** The `n` low bits of `c`. */
  function Low(c: nat, n: nat): (b: Bits)
    ensures |b| == n
  {
    if n == 0 then [] else Low(c / 2, n - 1) + [c % 2]
  }

  /** The number a bit string denotes. */
  function Value(b: Bits): int {
    if b == [] then 0 else 2 * Value(b[..|b| - 1]) + b[|b| - 1]
  }

  ghost predicate AreBits(b: Bits) {
    forall i :: 0 <= i < |b| ==> 0 <= b[i] < 2
  }

  lemma {:induction false} ValueOfLow(c: nat, n: nat)
    requires c < Pow2(n)
    ensures Value(Low(c, n)) == c && AreBits(Low(c, n))
  {
    if n == 0 {
    } else {
      ValueOfLow(c / 2, n - 1);
      assert Low(c, n)[..n - 1] == Low(c / 2, n - 1);
    }
  }

  lemma {:induction false} LowOfValue(b: Bits)
    requires AreBits(b)
    ensures 0 <= Value(b) < Pow2(|b|) && Low(Value(b), |b|) == b
    decreases |b|
  {
    if b == [] {
    } else {
      LowOfValue(b[..|b| - 1]);
    }
  }

  /** The first bit, and what is left without it. */
  lemma {:induction false} LowFirst(c: nat, n: nat)
    requires n > 0
    ensures Low(c, n)[0] == c / Pow2(n - 1) % 2 && Low(c, n)[1..] == Low(c, n - 1)
  {
    if n <= 1 {
    } else {
      LowFirst(c / 2, n - 1);
      HalfOf(c, Pow2(n - 2));
      assert Low(c, n)[1..] == Low(c / 2, n - 1)[1..] + [c % 2];
    }
  }

  lemma HalfOf(c: nat, p: nat)
    requires p > 0
    ensures c / 2 / p == c / (2 * p)
  {
    var q := c / (2 * p);
    var r := c % (2 * p);
    assert c == q * (2 * p) + r;
    assert c / 2 == q * p + r / 2;
    assert r / 2 < p;
    DivUnique(c / 2, p, q);
  }

  // Bytes

  /**
   * The bits of entropy-coded data from byte `at` on, up to its end or a marker: a 0xFF byte counts only with the
   * 0x00 stuffed after it (section F.1.2.3 of ITU-T T.81).
   */
  function DataBits(data: seq<int>, at: nat): Bits
    requires forall i :: 0 <= i < |data| ==> 0 <= data[i] < 256
    decreases |data| - at
  {
    if at >= |data| then []
    else if data[at] != 0xFF then Low(data[at], 8) + DataBits(data, at + 1)
    else if at + 1 < |data| && data[at + 1] == 0 then Low(data[at], 8) + DataBits(data, at + 2)
    else []
  }

  /** Each 0xFF followed by 0x00. */
  function Stuffed(bytes: seq<int>): (data: seq<int>)
    requires forall i :: 0 <= i < |bytes| ==> 0 <= bytes[i] < 256
    ensures forall i :: 0 <= i < |data| ==> 0 <= data[i] < 256
  {
    if bytes == [] then [] else (if bytes[0] == 0xFF then [0xFF, 0] else [bytes[0]]) + Stuffed(bytes[1..])
  }

  /** The bits of bytes in order. */
  function ByteBits(bytes: seq<int>): Bits
    requires forall i :: 0 <= i < |bytes| ==> 0 <= bytes[i] < 256
  {
    if bytes == [] then [] else Low(bytes[0], 8) + ByteBits(bytes[1..])
  }

  /** Bits packed into bytes, the last one filled with ones. */
  function Packed(b: Bits): (bytes: seq<int>)
    requires AreBits(b)
    ensures forall i :: 0 <= i < |bytes| ==> 0 <= bytes[i] < 256
  {
    if b == [] then []
    else if |b| < 8 then
      var last := b + Ones(8 - |b|);
      LowOfValue(last);
      assert Pow2(8) == 256;
      [Value(last)]
    else
      LowOfValue(b[..8]);
      assert Pow2(8) == 256;
      [Value(b[..8])] + Packed(b[8..])
  }

  function Ones(n: nat): (b: Bits)
    ensures |b| == n && AreBits(b) && forall i :: 0 <= i < n ==> b[i] == 1
  {
    seq(n, i => 1)
  }

  lemma {:induction false} DataBitsOfStuffed(before: seq<int>, bytes: seq<int>)
    requires forall i :: 0 <= i < |before| ==> 0 <= before[i] < 256
    requires forall i :: 0 <= i < |bytes| ==> 0 <= bytes[i] < 256
    ensures DataBits(before + Stuffed(bytes), |before|) == ByteBits(bytes)
    decreases |bytes|
  {
    var data := before + Stuffed(bytes);
    if bytes == [] {
    } else {
      var first := if bytes[0] == 0xFF then [0xFF, 0] else [bytes[0]];
      var before' := before + first;
      assert data == before' + Stuffed(bytes[1..]);
      assert data[|before|] == bytes[0] && (bytes[0] == 0xFF ==> data[|before| + 1] == 0);
      DataBitsOfStuffed(before', bytes[1..]);
    }
  }

  /** `r` is `b` followed by fewer than eight ones. */
  ghost predicate Filled(b: Bits, r: Bits) {
    b <= r && |r| < |b| + 8 && forall i :: |b| <= i < |r| ==> r[i] == 1
  }

  lemma FilledAfter(x: Bits, b: Bits, r: Bits)
    requires Filled(b, r)
    ensures Filled(x + b, x + r)
  {
    forall i | |x + b| <= i < |x + r| ensures (x + r)[i] == 1 {
      assert (x + r)[i] == r[i - |x|];
    }
  }

  lemma PackedLast(b: Bits)
    requires AreBits(b) && 0 < |b| < 8
    ensures ByteBits(Packed(b)) == b + Ones(8 - |b|)
  {
    LowOfValue(b + Ones(8 - |b|));
    assert Packed(b)[1..] == [];
  }

  lemma {:induction false} BitsOfPacked(b: Bits)
    requires AreBits(b)
    ensures Filled(b, ByteBits(Packed(b)))
    decreases |b|
  {
    if b == [] {
    } else if |b| < 8 {
      PackedLast(b);
    } else {
      PackedByte(b);
      BitsOfPacked(b[8..]);
      FilledAfter(b[..8], b[8..], ByteBits(Packed(b[8..])));
      assert b == b[..8] + b[8..];
    }
  }

  lemma PackedByte(b: Bits)
    requires AreBits(b) && |b| >= 8
    ensures ByteBits(Packed(b)) == b[..8] + ByteBits(Packed(b[8..]))
  {
    LowOfValue(b[..8]);
    assert Packed(b)[1..] == Packed(b[8..]);
  }

  /** Bits packed and stuffed are read back, followed by fewer than eight ones. */
  lemma StuffingRoundTrip(b: Bits)
    requires AreBits(b)
    ensures Filled(b, DataBits(Stuffed(Packed(b)), 0))
  {
    assert [] + Stuffed(Packed(b)) == Stuffed(Packed(b));
    DataBitsOfStuffed([], Packed(b));
    BitsOfPacked(b);
  }
}
