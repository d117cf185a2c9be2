/**
 Doubles as 64-bit patterns (binary64 of IEEE 754-2019), with exact values: every finite value is an integer
 multiple of 2^-1074, so values are compared as integers. Infinity is the next magnitude after the largest
 finite one, as its bit pattern is. Integer to double conversion rounds to nearest, ties to even (section 4.3.1).
 */
module Float64s {
  import opened Bitwise

  const TWO52: nat := 0x10_0000_0000_0000
  const TWO53: nat := 0x20_0000_0000_0000
  const TWO63: nat := 0x8000_0000_0000_0000
  const TWO64: nat := 0x1_0000_0000_0000_0000

  type Float64 = x: int | 0 <= x < 0x1_0000_0000_0000_0000

  type Int64 = x: int | -0x8000_0000_0000_0000 <= x < 0x8000_0000_0000_0000

  const INFINITY: nat := 0x7FF0_0000_0000_0000

  predicate Negative(x: Float64) {
    x >= TWO63
  }

  /** The pattern without its sign bit. */
  function Magnitude(x: Float64): (m: nat)
    ensures m < TWO63
  {
    if Negative(x) then x - TWO63 else x
  }

  predicate IsNan(x: Float64) {
    Magnitude(x) > INFINITY
  }

  function Negate(x: Float64): Float64 {
    if Negative(x) then x - TWO63 else x + TWO63
  }

  function Pow2(n: nat): (p: nat)
    ensures p > 0
  {
    if n == 0 then 1 else 2 * Pow2(n - 1)
  }

  /** The value of a magnitude pattern in units of 2^-1074. */
  function Scaled(m: nat): nat {
    var e, f := m / TWO52, m % TWO52;
    if e == 0 then f else (TWO52 + f) * Pow2(e - 1)
  }

  /** One in units of 2^-1074. */
  function Unit(): (u: nat)
    ensures u > 0
  {
    Pow2(1074)
  }

  function Value(x: Float64): int {
    var m: int := Scaled(Magnitude(x));
    if Negative(x) then -m else m
  }

  /** The processor's comparisons: false as soon as one side is not a number. */
  predicate FloatEq(x: Float64, y: Float64) {
    !IsNan(x) && !IsNan(y) && Value(x) == Value(y)
  }

  predicate FloatLess(x: Float64, y: Float64) {
    !IsNan(x) && !IsNan(y) && Value(x) < Value(y)
  }

  // ----- Order of magnitudes -----

  lemma ScaledStep(m: nat)
    ensures Scaled(m + 1) > Scaled(m)
  {
    var e, f := m / TWO52, m % TWO52;
    if f == TWO52 - 1 {
      DivModUnique(m + 1, TWO52, e + 1, 0);
    } else {
      DivModUnique(m + 1, TWO52, e, f + 1);
    }
    hide Scaled;
    if e > 0 {
      NextScaled(m, e, f);
    } else {
      assert Scaled(m) == f && Scaled(m + 1) == f + 1 by { SubnormalScaled(m); }
    }
  }

  lemma SubnormalScaled(m: nat)
    requires m < TWO52
    ensures Scaled(m) == m && Scaled(m + 1) == m + 1
  {
  }

  lemma NextScaled(m: nat, e: nat, f: nat)
    requires e == m / TWO52 > 0 && f == m % TWO52
    requires if f == TWO52 - 1 then (m + 1) / TWO52 == e + 1 && (m + 1) % TWO52 == 0
             else (m + 1) / TWO52 == e && (m + 1) % TWO52 == f + 1
    ensures Scaled(m + 1) == Scaled(m) + Pow2(e - 1)
  {
  }

  lemma {:induction false} ScaledMonotone(a: nat, b: nat)
    requires a < b
    ensures Scaled(a) < Scaled(b)
  {
    ScaledStep(b - 1);
    if a < b - 1 {
      ScaledMonotone(a, b - 1);
    }
  }

  lemma ScaledOrder(a: nat, b: nat)
    ensures a <= b <==> Scaled(a) <= Scaled(b)
    ensures a == b <==> Scaled(a) == Scaled(b)
  {
    if a < b {
      ScaledMonotone(a, b);
    } else if b < a {
      ScaledMonotone(b, a);
    }
  }

  /** Doubles are equal when they are the same pattern or both zeros. */
  lemma EqualValues(x: Float64, y: Float64)
    ensures Value(x) == Value(y) <==> x == y || (Magnitude(x) == 0 && Magnitude(y) == 0)
  {
    ScaledOrder(Magnitude(x), Magnitude(y));
    ScaledOrder(Magnitude(x), 0);
    ScaledOrder(Magnitude(y), 0);
    assert Scaled(0) == 0;
    hide Scaled;
  }

  // ----- Rounding an integer to 53 bits -----

  function FloorLog2(a: nat): (k: nat)
    requires a > 0
    ensures Pow2(k) <= a < Pow2(k + 1)
  {
    if a == 1 then assert Pow2(1) == 2 by { assert Pow2(0) == 1; } 0
    else
      var k := FloorLog2(a / 2);
      assert Pow2(k + 1) == 2 * Pow2(k) && Pow2(k + 2) == 2 * Pow2(k + 1);
      k + 1
  }

  /** `a / d` to nearest, ties to even. */
  function RoundedQuotient(a: nat, d: nat): (q: nat)
    requires d > 0
  {
    var q, r := a / d, a % d;
    if 2 * r > d || (2 * r == d && q % 2 == 1) then q + 1 else q
  }

  /** The significand of `a` once its highest bit is bit 52; it can carry up to 2^53. */
  function Significand(a: nat, k: nat): nat
    requires a > 0 && k == FloorLog2(a)
  {
    if k <= 52 then a * Pow2(52 - k) else RoundedQuotient(a, Pow2(k - 52))
  }

  function FromNat(a: nat): nat {
    if a == 0 then 0
    else
      var k := FloorLog2(a);
      PatternOf(k, Significand(a, k))
  }

  /** Exponent `k` and significand `q`; a carry in `q` moves on into the exponent. */
  function PatternOf(k: nat, q: int): int {
    (1023 + k) * TWO52 + (q - TWO52)
  }

  lemma {:induction false} Pow2Add(a: nat, b: nat)
    ensures Pow2(a + b) == Pow2(a) * Pow2(b)
  {
    if a == 0 {
      assert Pow2(0) == 1;
    } else {
      Pow2Add(a - 1, b);
      assert Pow2(a + b) == 2 * Pow2(a - 1 + b);
    }
  }

  lemma Pow2Of52()
    ensures Pow2(52) == TWO52 && Pow2(53) == TWO53
  {
    assert Pow2(6) == 64 && Pow2(7) == 128;
    hide Pow2;
    Pow2Add(6, 7);
    Pow2Add(13, 13);
    Pow2Add(26, 26);
    Pow2Twice(52);
  }

  lemma Pow2Twice(n: nat)
    ensures Pow2(n + 1) == 2 * Pow2(n)
  {
  }

  lemma ScaledPattern(k: nat, q: nat)
    requires TWO52 <= q <= TWO53
    ensures PatternOf(k, q) >= 0 && Scaled(PatternOf(k, q)) == q * Pow2(1022 + k)
  {
  }

  /** Splits `a` at its unit in the last place: it lies between two neighbouring patterns. */
  lemma NormalizedQuotient(a: nat, k: nat)
    requires a > 0 && k == FloorLog2(a) && k > 52
    ensures var d := Pow2(k - 52);
            TWO52 <= a / d < TWO53 && a == (a / d) * d + a % d && a % d < d
  {
    var d := Pow2(k - 52);
    Pow2Of52();
    Pow2Add(52, k - 52);
    Pow2Add(53, k - 52);
    hide Pow2;
    QuotientBounds(a, d, TWO52, TWO53);
  }

  lemma QuotientBounds(a: nat, d: nat, low: nat, high: nat)
    requires d > 0 && low * d <= a < high * d
    ensures low <= a / d < high && a == (a / d) * d + a % d && a % d < d
  {
    var q := a / d;
    assert q >= high ==> q * d >= high * d;
    assert q < low ==> (q + 1) * d <= low * d && (q + 1) * d == q * d + d;
  }

  // ----- Patterns as IEEE 754 gives them -----

  /** Zeros, the least and the ordinary numbers, infinities and what is not a number. */
  lemma FamiliarPatterns()
    ensures Value(0) == Value(0x8000_0000_0000_0000) == 0
    ensures Value(1) == 1 && Value(0x8000_0000_0000_0001) == -1
    ensures Value(0x3FF0_0000_0000_0000) == Unit() && Value(0xBFF0_0000_0000_0000) + Unit() == 0
    ensures 2 * Value(0x3FF8_0000_0000_0000) == 3 * Unit() && Value(0x4000_0000_0000_0000) == 2 * Unit()
    ensures !IsNan(0x7FF0_0000_0000_0000) && !IsNan(0xFFF0_0000_0000_0000)
    ensures IsNan(0x7FF0_0000_0000_0001) && IsNan(0x7FF8_0000_0000_0000) && IsNan(0xFFF8_0000_0000_0000)
  {
    assert Scaled(0) == 0 && Scaled(1) == 1;
    OneAndTwo();
    hide Scaled, Unit;
  }

  lemma OneAndTwo()
    ensures Scaled(0x3FF0_0000_0000_0000) == Unit()
    ensures 2 * Scaled(0x3FF8_0000_0000_0000) == 3 * Unit()
    ensures Scaled(0x4000_0000_0000_0000) == 2 * Unit()
  {
    assert PatternOf(0, 0x10_0000_0000_0000) == 0x3FF0_0000_0000_0000;
    assert PatternOf(0, 0x18_0000_0000_0000) == 0x3FF8_0000_0000_0000;
    assert PatternOf(1, 0x10_0000_0000_0000) == 0x4000_0000_0000_0000;
    assert Unit() == Pow2(1074);
    hide *;
    ScaledPattern(0, 0x10_0000_0000_0000);
    ScaledPattern(0, 0x18_0000_0000_0000);
    ScaledPattern(1, 0x10_0000_0000_0000);
    Pow2Of52();
    Pow2Add(52, 1022);
    Pow2Twice(1022);
  }

  // ----- Integer to double -----

  /** The integer that the conversion of `a` stands for. */
  function RoundedNat(a: nat): nat {
    if a == 0 then 0
    else
      var k := FloorLog2(a);
      if k <= 52 then a else RoundedQuotient(a, Pow2(k - 52)) * Pow2(k - 52)
  }

  lemma SignificandOfSmall(a: nat, k: nat)
    requires a > 0 && k == FloorLog2(a) && k <= 52
    ensures TWO52 <= Significand(a, k) < TWO53
    ensures Significand(a, k) * Pow2(1022 + k) == a * Unit()
  {
    assert Significand(a, k) == a * Pow2(52 - k) && Unit() == Pow2(1074) && Pow2(k) <= a < Pow2(k + 1);
    hide *;
    Pow2Of52();
    Pow2Add(k, 52 - k);
    Pow2Add(k + 1, 52 - k);
    Pow2Add(52 - k, 1022 + k);
    ScaleUp(a, Pow2(k), Pow2(k + 1), Pow2(52 - k), Pow2(1022 + k));
  }

  lemma SignificandOfLarge(a: nat, k: nat)
    requires a > 0 && k == FloorLog2(a) && k > 52
    ensures TWO52 <= Significand(a, k) <= TWO53
    ensures Significand(a, k) * Pow2(1022 + k) == RoundedNat(a) * Unit()
  {
    NormalizedQuotient(a, k);
    var q, d := Significand(a, k), Pow2(k - 52);
    assert RoundedNat(a) == q * d && Unit() == Pow2(1074);
    assert TWO52 <= q <= TWO53 by { assert q == a / d || q == a / d + 1; }
    hide *;
    Pow2Add(k - 52, 1074);
    Associate(q, d, Pow2(1074));
  }

  lemma Associate(x: nat, y: nat, z: nat)
    ensures x * (y * z) == (x * y) * z
  {
  }

  lemma ScaleUp(a: nat, low: nat, high: nat, c: nat, v: nat)
    requires low <= a < high && c > 0
    ensures low * c <= a * c < high * c && (a * c) * v == a * (c * v)
  {
  }

  lemma SignificandRange(a: nat, k: nat)
    requires a > 0 && k == FloorLog2(a)
    ensures TWO52 <= Significand(a, k) <= TWO53
    ensures Significand(a, k) * Pow2(1022 + k) == RoundedNat(a) * Unit()
  {
    if k <= 52 {
      SignificandOfSmall(a, k);
      assert RoundedNat(a) == a;
    } else {
      SignificandOfLarge(a, k);
    }
    hide Significand, Pow2, Unit, RoundedNat, FloorLog2;
  }

  lemma FromNatValue(a: nat)
    ensures FromNat(a) >= 0 && Scaled(FromNat(a)) == RoundedNat(a) * Unit()
  {
    if a == 0 {
      assert Scaled(0) == 0;
    } else {
      var k := FloorLog2(a);
      SignificandRange(a, k);
      ScaledPattern(k, Significand(a, k));
      assert FromNat(a) == PatternOf(k, Significand(a, k));
    }
  }

  /** The distance between two scaled values. */
  function Distance(x: int, y: int): int {
    if x < y then y - x else x - y
  }

  /** No double lies strictly between `a` and its conversion, none is nearer, and a tie goes to the even pattern. */
  lemma RoundsToNearestEven(a: nat, m: nat)
    ensures Scaled(m) >= a * Unit() ==> Scaled(m) >= Scaled(FromNat(a))
    ensures Scaled(m) <= a * Unit() ==> Scaled(m) <= Scaled(FromNat(a))
    ensures Distance(Scaled(m), a * Unit()) >= Distance(Scaled(FromNat(a)), a * Unit())
    ensures Distance(Scaled(m), a * Unit()) == Distance(Scaled(FromNat(a)), a * Unit()) ==>
              m == FromNat(a) || FromNat(a) % 2 == 0
  {
    if a == 0 || FloorLog2(a) <= 52 {
      FromNatValue(a);
      assert RoundedNat(a) == a;
      hide *;
      ScaledOrder(m, FromNat(a));
    } else {
      LargeRoundsToNearestEven(a, m);
    }
  }

  /** The patterns just below and just above a large integer. */
  lemma Neighbours(a: nat, k: nat) returns (low: nat, q: nat, r: nat, d: nat)
    requires a > 0 && k == FloorLog2(a) && k > 52
    ensures low % 2 == q % 2 && a == q * d + r && r < d
    ensures Scaled(low) == q * (d * Unit()) && Scaled(low + 1) == (q + 1) * (d * Unit())
    ensures FromNat(a) == if 2 * r > d || (2 * r == d && q % 2 == 1) then low + 1 else low
  {
    d := Pow2(k - 52);
    q, r := a / d, a % d;
    NormalizedQuotient(a, k);
    assert PatternOf(k, q + 1) == PatternOf(k, q) + 1;
    assert FromNat(a) == if 2 * r > d || (2 * r == d && q % 2 == 1) then PatternOf(k, q + 1) else PatternOf(k, q);
    assert Unit() == Pow2(1074);
    hide *;
    ScaledPattern(k, q);
    ScaledPattern(k, q + 1);
    PatternParity(k, q);
    Pow2Add(k - 52, 1074);
    low := PatternOf(k, q);
  }

  lemma LargeRoundsToNearestEven(a: nat, m: nat)
    requires a > 0 && FloorLog2(a) > 52
    ensures Scaled(m) >= a * Unit() ==> Scaled(m) >= Scaled(FromNat(a))
    ensures Scaled(m) <= a * Unit() ==> Scaled(m) <= Scaled(FromNat(a))
    ensures Distance(Scaled(m), a * Unit()) >= Distance(Scaled(FromNat(a)), a * Unit())
    ensures Distance(Scaled(m), a * Unit()) == Distance(Scaled(FromNat(a)), a * Unit()) ==>
              m == FromNat(a) || FromNat(a) % 2 == 0
  {
    hide *;
    var low, q, r, d := Neighbours(a, FloorLog2(a));
    ScaledOrder(m, low);
    ScaledOrder(low + 1, m);
    BetweenNeighbours(a, d, q, r, Unit());
    RoundedOfTwo(m, Scaled(m), low, Scaled(low), Scaled(low + 1), a * Unit(),
                 r, r * Unit(), d, d * Unit(), q, FromNat(a));
  }

  /** `ru` of `du` is to the distance between the neighbours as `r` is to `d`. */
  lemma RoundedOfTwo(m: nat, s: int, low: nat, sl: int, sh: int, x: int,
                     r: nat, ru: int, d: nat, du: int, q: nat, f: nat)
    requires x == sl + ru && sh == sl + du && 0 <= ru < du
    requires (2 * r > d <==> 2 * ru > du) && (2 * r < d <==> 2 * ru < du)
    requires (s <= sl && (s == sl ==> m == low)) || (s >= sh && (s == sh ==> m == low + 1))
    requires low % 2 == q % 2 && (ru == 0 <==> r == 0)
    requires f == if 2 * r > d || (2 * r == d && q % 2 == 1) then low + 1 else low
    ensures var sf := if f == low then sl else sh;
            && (s >= x ==> s >= sf) && (s <= x ==> s <= sf)
            && Distance(s, x) >= Distance(sf, x)
            && (Distance(s, x) == Distance(sf, x) ==> m == f || f % 2 == 0)
  {
  }

  lemma PatternParity(k: nat, q: nat)
    ensures PatternOf(k, q) % 2 == q % 2
  {
  }

  lemma BetweenNeighbours(a: nat, d: nat, q: nat, r: nat, u: nat)
    requires a == q * d + r && r < d && u > 0
    ensures a * u == q * (d * u) + r * u && 0 <= r * u < d * u
    ensures (q + 1) * (d * u) == q * (d * u) + d * u
    ensures (2 * r > d <==> 2 * (r * u) > d * u) && (2 * r < d <==> 2 * (r * u) < d * u) && (r * u == 0 <==> r == 0)
  {
    assert (q * d + r) * u == q * (d * u) + r * u;
    ScaledComparison(2 * r, d, u);
    ScaledComparison(r, d, u);
    assert (2 * r) * u == 2 * (r * u);
  }

  lemma ScaledComparison(x: nat, y: nat, u: nat)
    requires u > 0
    ensures x < y <==> x * u < y * u
  {
    assert x < y ==> (y - x) * u > 0 && y * u == x * u + (y - x) * u;
    assert x >= y ==> (x - y) * u >= 0 && x * u == y * u + (x - y) * u;
  }

  lemma {:induction false} Pow2Monotone(a: nat, b: nat)
    requires a <= b
    ensures Pow2(a) <= Pow2(b)
  {
    if a < b {
      Pow2Monotone(a, b - 1);
    }
  }

  lemma Pow2Of63()
    ensures Pow2(63) == TWO63 && Pow2(11) == 2048
  {
    Pow2Of52();
    Pow2Add(52, 11);
  }

  /** Machine integers have at most 64 bits, and the last power of two is alone in its range. */
  lemma TopBit(a: nat, k: nat)
    requires 0 < a <= TWO63 && k == FloorLog2(a)
    ensures k <= 63 && (k == 63 ==> a == TWO63)
  {
    assert Pow2(k) <= a;
    hide *;
    Pow2Of63();
    Pow2Twice(63);
    if k > 63 {
      Pow2Monotone(64, k);
    }
  }

  /** Conversions of machine integers stay finite, and no further out than 2^63. */
  lemma RoundedRange(a: nat)
    requires a <= TWO63
    ensures RoundedNat(a) <= TWO63 && FromNat(a) < INFINITY
  {
    if a > 0 {
      var k := FloorLog2(a);
      TopBit(a, k);
      SignificandRange(a, k);
      RoundedBound(a, k);
      assert FromNat(a) == PatternOf(k, Significand(a, k));
      hide FromNat, FloorLog2, Significand, RoundedNat, Pow2;
    }
  }

  lemma RoundedBound(a: nat, k: nat)
    requires 0 < a <= TWO63 && k == FloorLog2(a) && k <= 63 && (k == 63 ==> a == TWO63)
    ensures RoundedNat(a) <= TWO63
  {
    if k <= 52 {
      assert RoundedNat(a) == a;
    } else if k == 63 {
      TopIsExact();
    } else {
      SignificandOfLarge(a, k);
      assert RoundedNat(a) == Significand(a, k) * Pow2(k - 52);
      hide *;
      Pow2Of63();
      Pow2Of52();
      Pow2Add(53, k - 52);
      Pow2Monotone(k + 1, 63);
      MonotoneProduct(Significand(a, k), TWO53, Pow2(k - 52));
    }
  }

  lemma MonotoneProduct(x: nat, y: nat, z: nat)
    requires x <= y
    ensures x * z <= y * z
  {
  }

  lemma TopIsExact()
    requires FloorLog2(TWO63) == 63
    ensures RoundedNat(TWO63) == TWO63
  {
    Pow2Of63();
    assert TWO63 / 2048 == TWO52 && TWO63 % 2048 == 0;
  }

  function Abs(i: int): nat {
    if i < 0 then -i else i
  }

  function FromInt(i: Int64): (x: Float64)
    ensures Magnitude(x) < INFINITY
  {
    RoundedRange(Abs(i));
    FromNatValue(Abs(i));
    if i < 0 then TWO63 + FromNat(Abs(i)) else FromNat(Abs(i))
  }

  function RoundedInt(i: Int64): int {
    if i < 0 then -(RoundedNat(Abs(i)) as int) else RoundedNat(Abs(i))
  }

  /** An integer in units of 2^-1074. */
  function Exact(i: int): int {
    i * Unit()
  }

  /** The value of the conversion, and that no double lies strictly between it and `i`. */
  lemma FromIntRounds(i: Int64, x: Float64)
    ensures Value(FromInt(i)) == Exact(RoundedInt(i))
    ensures Value(x) >= Exact(i) ==> Value(x) >= Value(FromInt(i))
    ensures Value(x) <= Exact(i) ==> Value(x) <= Value(FromInt(i))
  {
    var a := Abs(i);
    RoundedRange(a);
    FromNatValue(a);
    RoundsToNearestEven(a, Magnitude(x));
    RoundsToNearestEven(a, 0);
    ScaledOrder(0, FromNat(a));
    ScaledOrder(0, Magnitude(x));
    assert Scaled(0) == 0;
    assert Magnitude(FromInt(i)) == FromNat(a);
    NegateExact(i);
    NegateExact(RoundedInt(i));
    assert Exact(a) == a * Unit() && Exact(RoundedNat(a)) == RoundedNat(a) * Unit();
    hide FromNat, Scaled, RoundedNat, Unit, Exact;
  }

  lemma RoundedIntRange(i: Int64)
    ensures Abs(RoundedInt(i)) <= TWO63 && (i >= 0 ==> RoundedInt(i) >= 0) && (i < 0 ==> RoundedInt(i) <= 0)
  {
    RoundedRange(Abs(i));
  }

  lemma NegateExact(i: int)
    ensures Exact(-i) == -Exact(i) && (i >= 0 <==> Exact(i) >= 0)
  {
  }
}
