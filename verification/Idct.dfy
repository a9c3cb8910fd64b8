/** The fixed-point inverse DCT of tools/jpeg_reference.py, against the exact double sum. */
module Idct {

  /** The Q10 product, truncated toward zero. */
  function Tmul(a: int, b: int): int {
    var p := (if a * b < 0 then -(a * b) else a * b) / 1024;
    if (a < 0) != (b < 0) then -p else p
  }

  /** `int(a / 1024)`: toward zero. */
  function TruncatedQ10(a: int): int {
    if a < 0 then -(-a / 1024) else a / 1024
  }

  function Clamp(v: int): int {
    if v < 0 then 0 else if v > 255 then 255 else v
  }

  function Distance(a: int, b: int): nat {
    if a < b then b - a else a - b
  }

  /** Of 0 to 255 it is the nearest, and the only one. */
  lemma ClampNearest(v: int, w: int)
    requires 0 <= w <= 255
    ensures 0 <= Clamp(v) <= 255
    ensures Distance(v, Clamp(v)) <= Distance(v, w) && (Distance(v, Clamp(v)) == Distance(v, w) ==> w == Clamp(v))
  {
  }

  /** An 8x8 table of integers, in place of COS10. */
  ghost predicate IsTable(c: seq<seq<int>>) {
    |c| == 8 && forall x :: 0 <= x < 8 ==> |c[x]| == 8
  }

  /** The exact sum along row `v` for column `x`, over the first `n` terms. */
  function RowSum(c: seq<seq<int>>, coef: seq<int>, v: nat, x: nat, n: nat): int
    requires IsTable(c) && |coef| == 64 && v < 8 && x < 8 && n <= 8
  {
    if n == 0 then 0 else RowSum(c, coef, v, x, n - 1) + c[x][n - 1] * coef[v * 8 + n - 1]
  }

  /** The exact double sum for one sample, scaled by 2^20: both tables are in Q10. */
  function DoubleSum(c: seq<seq<int>>, coef: seq<int>, y: nat, x: nat, n: nat): int
    requires IsTable(c) && |coef| == 64 && y < 8 && x < 8 && n <= 8
  {
    if n == 0 then 0 else DoubleSum(c, coef, y, x, n - 1) + c[y][n - 1] * RowSum(c, coef, n - 1, x, 8)
  }

  /** What the second pass adds up: the products with the first pass's sums, each truncated. */
  function TruncatedSum(c: seq<seq<int>>, coef: seq<int>, y: nat, x: nat, n: nat): int
    requires IsTable(c) && |coef| == 64 && y < 8 && x < 8 && n <= 8
  {
    if n == 0 then 0 else TruncatedSum(c, coef, y, x, n - 1) + Tmul(c[y][n - 1], RowSum(c, coef, n - 1, x, 8))
  }

  /** 128.5 plus the exact sum, scaled by 2^20. */
  function Scaled(c: seq<seq<int>>, coef: seq<int>, y: nat, x: nat): int
    requires IsTable(c) && |coef| == 64 && y < 8 && x < 8
  {
    131584 * 1024 + DoubleSum(c, coef, y, x, 8)
  }

  const TWO20 := 0x10_0000

  /** The exact sample: floor(128.5 + E), within 0 to 255. */
  function Exact(c: seq<seq<int>>, coef: seq<int>, y: nat, x: nat): int
    requires IsTable(c) && |coef| == 64 && y < 8 && x < 8
  {
    Clamp(Scaled(c, coef, y, x) / TWO20)
  }

  /** The sample as computed. */
  function Computed(c: seq<seq<int>>, coef: seq<int>, y: nat, x: nat): int
    requires IsTable(c) && |coef| == 64 && y < 8 && x < 8
  {
    Clamp(TruncatedQ10(131584 + TruncatedSum(c, coef, y, x, 8)))
  }

  // Truncation

  lemma SignOfProduct(a: int, b: int)
    ensures (a < 0) != (b < 0) ==> a * b <= 0
    ensures (a < 0) == (b < 0) ==> a * b >= 0
  {
  }

  /** A truncated product is off by less than one unit, toward zero; the product of a whole number is exact. */
  lemma TmulBounds(a: int, b: int)
    ensures -1023 <= 1024 * Tmul(a, b) - a * b <= 1023
    ensures a * b >= 0 ==> 0 <= 1024 * Tmul(a, b) <= a * b
    ensures a * b <= 0 ==> a * b <= 1024 * Tmul(a, b) <= 0
  {
    SignOfProduct(a, b);
    var m := if a * b < 0 then -(a * b) else a * b;
    assert 0 <= m - m / 1024 * 1024 <= 1023;
  }

  lemma TmulWhole(a: int, b: int)
    ensures Tmul(a, b * 1024) == a * b
  {
    SignOfProduct(a, b);
    TmulBounds(a, b * 1024);
    assert a * (b * 1024) == a * b * 1024;
  }

  /** Every coefficient negated. */
  function Negated(coef: seq<int>): seq<int> {
    seq(|coef|, i requires 0 <= i < |coef| => -coef[i])
  }

  lemma TmulOdd(a: int, b: int)
    ensures Tmul(a, -b) == -Tmul(a, b)
  {
    assert a * -b == -(a * b);
    SignOfProduct(a, b);
    SignOfProduct(a, -b);
  }

  lemma {:induction false} RowSumOdd(c: seq<seq<int>>, coef: seq<int>, v: nat, x: nat, n: nat)
    requires IsTable(c) && |coef| == 64 && v < 8 && x < 8 && n <= 8
    ensures RowSum(c, Negated(coef), v, x, n) == -RowSum(c, coef, v, x, n)
    decreases n
  {
    if n == 0 {
    } else {
      RowSumOdd(c, coef, v, x, n - 1);
      NegatedProduct(c[x][n - 1], coef[v * 8 + n - 1]);
    }
  }

  lemma NegatedProduct(a: int, b: int)
    ensures a * -b == -(a * b)
  {
  }

  /** Truncation is toward zero: with every coefficient negated, the sum of the second pass is negated. */
  lemma {:induction false} SumOdd(c: seq<seq<int>>, coef: seq<int>, y: nat, x: nat, n: nat)
    requires IsTable(c) && |coef| == 64 && y < 8 && x < 8 && n <= 8
    ensures TruncatedSum(c, Negated(coef), y, x, n) == -TruncatedSum(c, coef, y, x, n)
    decreases n
  {
    hide Tmul, RowSum;
    if n == 0 {
    } else {
      SumOdd(c, coef, y, x, n - 1);
      RowSumOdd(c, coef, n - 1, x, 8);
      TmulOdd(c[y][n - 1], RowSum(c, coef, n - 1, x, 8));
    }
  }

  // The error of the second pass

  lemma {:induction false} SumError(c: seq<seq<int>>, coef: seq<int>, y: nat, x: nat, n: nat)
    requires IsTable(c) && |coef| == 64 && y < 8 && x < 8 && n <= 8
    ensures -1023 * n <= 1024 * TruncatedSum(c, coef, y, x, n) - DoubleSum(c, coef, y, x, n) <= 1023 * n
  {
    if n == 0 {
    } else {
      SumError(c, coef, y, x, n - 1);
      TmulBounds(c[y][n - 1], RowSum(c, coef, n - 1, x, 8));
    }
  }

  /** Truncation toward zero and floor agree once negative values are clamped away. */
  lemma ClampHidesTruncation(a: int)
    ensures Clamp(TruncatedQ10(a)) == Clamp(a / 1024)
    ensures TruncatedQ10(-a) == -TruncatedQ10(a)
  {
  }

  lemma FloorsNear(a: int, m: int)
    requires -8184 <= 1024 * a - m <= 8184
    ensures -1 <= a / 1024 - m / TWO20 <= 1
    ensures 8184 <= m % TWO20 < TWO20 - 8184 ==> a / 1024 == m / TWO20
  {
    var q, r := a / 1024, a % 1024;
    var p, s := m / TWO20, m % TWO20;
    assert a == 1024 * q + r && m == TWO20 * p + s;
    assert 1024 * a == TWO20 * q + 1024 * r;
  }

  /**
   * Each computed sample is within one of the exact sample; it is the exact sample itself unless the fraction of
   * 128.5 + E is within 8184/2^20 of a whole number.
   */
  lemma WithinOne(c: seq<seq<int>>, coef: seq<int>, y: nat, x: nat)
    requires IsTable(c) && |coef| == 64 && y < 8 && x < 8
    ensures -1 <= Computed(c, coef, y, x) - Exact(c, coef, y, x) <= 1
    ensures 8184 <= Scaled(c, coef, y, x) % TWO20 < TWO20 - 8184 ==> Computed(c, coef, y, x) == Exact(c, coef, y, x)
  {
    SumError(c, coef, y, x, 8);
    var a := 131584 + TruncatedSum(c, coef, y, x, 8);
    ClampHidesTruncation(a);
    FloorsNear(a, Scaled(c, coef, y, x));
  }

  // The two passes

  /** The place of column `x` in row `v`. */
  function Cell(v: nat, x: nat): (at: nat)
    requires v < 8 && x < 8
    ensures at < 64 && at == v * 8 + x && at / 8 == v && at % 8 == x
  {
    v * 8 + x
  }

  /** The first `n` sums of the first pass are exact. */
  ghost predicate SumsUpTo(c: seq<seq<int>>, coef: seq<int>, tmp: seq<int>, n: nat)
    requires IsTable(c) && |coef| == 64
  {
    |tmp| == 64 && n <= 64 && forall i {:trigger tmp[i]} :: 0 <= i < n ==> tmp[i] == RowSum(c, coef, i / 8, i % 8, 8)
  }

  ghost predicate SamplesUpTo(c: seq<seq<int>>, coef: seq<int>, out: seq<int>, n: nat)
    requires IsTable(c) && |coef| == 64
  {
    |out| == 64 && n <= 64 && forall i {:trigger out[i]} :: 0 <= i < n ==> out[i] == Computed(c, coef, i / 8, i % 8)
  }

  /** Each sum of the first pass, computed with truncated products, is exact. */
  method FirstPass(c: seq<seq<int>>, coef: seq<int>) returns (tmp: array<int>)
    requires IsTable(c) && |coef| == 64
    ensures fresh(tmp) && SumsUpTo(c, coef, tmp[..], 64)
  {
    tmp := new int[64](i => 0);
    for v := 0 to 8
      invariant SumsUpTo(c, coef, tmp[..], v * 8)
    {
      for x := 0 to 8
        invariant SumsUpTo(c, coef, tmp[..], v * 8 + x)
      {
        var sum := 0;
        for u := 0 to 8
          invariant sum == RowSum(c, coef, v, x, u) && SumsUpTo(c, coef, tmp[..], v * 8 + x)
        {
          TmulWhole(c[x][u], coef[v * 8 + u]);
          sum := sum + Tmul(c[x][u], coef[v * 8 + u] * 1024);
        }
        tmp[Cell(v, x)] := sum;
      }
    }
  }

  /** Every sample is as `Computed` says, hence within one of the exact one. */
  method Idct(c: seq<seq<int>>, coef: seq<int>) returns (out: array<int>)
    requires IsTable(c) && |coef| == 64
    ensures fresh(out) && SamplesUpTo(c, coef, out[..], 64)
    ensures forall i :: 0 <= i < 64 ==> -1 <= out[i] - Exact(c, coef, i / 8, i % 8) <= 1
  {
    var tmp := FirstPass(c, coef);
    out := new int[64](i => 0);
    for y := 0 to 8
      invariant SumsUpTo(c, coef, tmp[..], 64) && SamplesUpTo(c, coef, out[..], y * 8)
    {
      for x := 0 to 8
        invariant SumsUpTo(c, coef, tmp[..], 64) && SamplesUpTo(c, coef, out[..], y * 8 + x)
      {
        var sum := 0;
        for v := 0 to 8
          invariant SumsUpTo(c, coef, tmp[..], 64) && SamplesUpTo(c, coef, out[..], y * 8 + x)
          invariant sum == TruncatedSum(c, coef, y, x, v)
        {
          sum := sum + Tmul(c[y][v], tmp[Cell(v, x)]);
        }
        out[Cell(y, x)] := Clamp(TruncatedQ10(131584 + sum));
      }
    }
    forall i | 0 <= i < 64 ensures -1 <= out[i] - Exact(c, coef, i / 8, i % 8) <= 1 {
      assert out[..][i] == Computed(c, coef, i / 8, i % 8);
      WithinOne(c, coef, i / 8, i % 8);
    }
  }
}
