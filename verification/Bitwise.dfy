/**
 Bitwise `&` and `|` on unsigned machine words, read as natural numbers, and the two places where
 the containers rely on them: a circular-buffer index is `x & mask`, a hash-chain head is `h | mask`.
 */
module Bitwise {

  const U32_LIMIT: nat := 0x1_0000_0000

  function And(x: nat, y: nat): nat {
    if x == 0 || y == 0 then 0
    else 2 * And(x / 2, y / 2) + (if x % 2 == 1 && y % 2 == 1 then 1 else 0)
  }

  function Or(x: nat, y: nat): nat {
    if x == 0 then y
    else if y == 0 then x
    else 2 * Or(x / 2, y / 2) + (if x % 2 == 1 || y % 2 == 1 then 1 else 0)
  }

  predicate IsPow2(n: nat) {
    n == 1 || (n > 1 && n % 2 == 0 && IsPow2(n / 2))
  }

  lemma DivModUnique(x: int, c: int, q: int, r: int)
    requires 0 <= r < c
    requires x == q * c + r
    ensures x / c == q && x % c == r
  {
    var d := x / c - q;
    assert d * c == (x / c) * c - q * c;
    assert d >= 1 ==> d * c >= c;
    assert d <= -1 ==> d * c <= -c;
    assert -c < d * c < c;
  }

  lemma ModHalves(x: nat, c: nat)
    requires c > 0 && c % 2 == 0
    ensures x % c == 2 * ((x / 2) % (c / 2)) + x % 2
  {
    var q, r := (x / 2) / (c / 2), (x / 2) % (c / 2);
    assert q * c == 2 * (q * (c / 2)) by { assert c == 2 * (c / 2); }
    DivModUnique(x, c, q, 2 * r + x % 2);
  }

  /** The power-of-two test `n & (n - 1)` is zero exactly on powers of two. */
  lemma {:induction false} IsPow2ByMask(n: nat)
    requires n > 0
    ensures IsPow2(n) <==> And(n, n - 1) == 0
  {
    if n > 1 {
      if n % 2 == 0 {
        IsPow2ByMask(n / 2);
        assert (n - 1) / 2 == n / 2 - 1;
      } else {
        assert (n - 1) / 2 == n / 2;
        AndSelf(n / 2);
      }
    }
  }

  lemma {:induction false} AndSelf(n: nat)
    ensures And(n, n) == n
  {
    if n > 0 {
      AndSelf(n / 2);
    }
  }

  lemma AndOddStep(x: nat, d: nat)
    requires x > 0 && d > 0
    ensures And(x, 2 * d - 1) == 2 * And(x / 2, d - 1) + x % 2
  {
  }

  lemma OrEvenStep(x: nat, e: nat)
    requires x > 0 && e > 0
    ensures Or(x, 2 * e) == 2 * Or(x / 2, e) + x % 2
  {
  }

  lemma {:induction false} AndMaskIsMod(x: nat, c: nat)
    requires IsPow2(c)
    ensures And(x, c - 1) == x % c
  {
    if c == 1 {
    } else if x == 0 {
      DivModUnique(0, c, 0, 0);
    } else {
      AndOddStep(x, c / 2);
      AndMaskIsMod(x / 2, c / 2);
      ModHalves(x, c);
    }
  }

  lemma {:induction false} OrOnes(x: nat, w: nat)
    requires IsPow2(w) && x < w
    ensures Or(x, w - 1) == w - 1
  {
    if w > 1 && x > 0 {
      OrOnes(x / 2, w / 2);
      assert (w - 1) / 2 == w / 2 - 1;
    }
  }

  lemma {:induction false} OrMaskIsMod(x: nat, c: nat, w: nat)
    requires IsPow2(c) && IsPow2(w) && c <= w && x < w
    ensures Or(x, w - c) == w - c + x % c
  {
    if c == 1 {
      OrOnes(x, w);
    } else if c == w || x == 0 {
      DivModUnique(x, c, 0, x);
    } else {
      HalfOrder(c, w);
      hide IsPow2;
      OrEvenStep(x, w / 2 - c / 2);
      OrMaskIsMod(x / 2, c / 2, w / 2);
      ModHalves(x, c);
    }
  }

  lemma HalfOrder(c: nat, w: nat)
    requires IsPow2(c) && IsPow2(w) && 1 < c <= w
    ensures c / 2 < w / 2 || c == w
    ensures w % 2 == 0 && c % 2 == 0 && IsPow2(c / 2) && IsPow2(w / 2)
  {
  }

  lemma Pow2Twice(n: nat)
    requires IsPow2(n)
    ensures IsPow2(2 * n)
  {
  }

  lemma Pow2Times16(n: nat)
    requires IsPow2(n)
    ensures IsPow2(16 * n)
  {
    hide IsPow2;
    Pow2Twice(n);
    Pow2Twice(2 * n);
    Pow2Twice(4 * n);
    Pow2Twice(8 * n);
  }

  lemma U32IsPow2()
    ensures IsPow2(U32_LIMIT)
  {
    assert IsPow2(1);
    hide IsPow2;
    Pow2Times16(1);
    Pow2Times16(0x10);
    Pow2Times16(0x100);
    Pow2Times16(0x1000);
    Pow2Times16(0x1_0000);
    Pow2Times16(0x10_0000);
    Pow2Times16(0x100_0000);
    Pow2Times16(0x1000_0000);
  }

  /** `x & mask`, for an index that is at most one lap past either end of the buffer. */
  function Wrap(x: int, mask: nat): (r: nat)
    requires IsPow2(mask + 1) && mask < U32_LIMIT
    requires -(mask + 1) <= x < 2 * (mask + 1)
    ensures r <= mask
    ensures r == if x < 0 then x + mask + 1 else if x <= mask then x else x - (mask + 1)
  {
    // Unsigned 32-bit subtraction wraps before the mask is applied.
    var u := if x < 0 then x + U32_LIMIT else x;
    assert And(u, mask) == u % (mask + 1) by { AndMaskIsMod(u, mask + 1); }
    assert u % (mask + 1) == (if x < 0 then x + mask + 1 else if x <= mask then x else x - (mask + 1)) by {
      WrapResidue(x, mask);
    }
    And(u, mask)
  }

  lemma WrapResidue(x: int, mask: nat)
    requires IsPow2(mask + 1) && mask < U32_LIMIT
    requires -(mask + 1) <= x < 2 * (mask + 1)
    ensures (if x < 0 then x + U32_LIMIT else x) % (mask + 1) ==
            if x < 0 then x + mask + 1 else if x <= mask then x else x - (mask + 1)
  {
    var c := mask + 1;
    if x < 0 {
      U32IsPow2();
      Pow2Divides(c, U32_LIMIT);
      hide IsPow2;
      var q := U32_LIMIT / c;
      assert U32_LIMIT == q * c;
      assert (q - 1) * c == q * c - c;
      DivModUnique(x + U32_LIMIT, c, q - 1, x + c);
    } else if x <= mask {
      DivModUnique(x, c, 0, x);
    } else {
      DivModUnique(x, c, 1, x - c);
    }
  }

  lemma {:induction false} Pow2Divides(c: nat, w: nat)
    requires IsPow2(c) && IsPow2(w) && c <= w
    ensures w % c == 0
  {
    if c > 1 {
      Pow2Divides(c / 2, w / 2);
      ModHalves(w, c);
    }
  }

  /** Doubling from a power of two until `n` fits. */
  function NextPow2(n: nat, start: nat): (r: nat)
    requires IsPow2(start)
    ensures IsPow2(r) && n <= r && start <= r
    ensures r == start || r / 2 < n
    decreases n - start
  {
    if n <= start then start else NextPow2(n, 2 * start)
  }

  /** No smaller power of two (at least `start`) would do. */
  lemma {:induction false} NextPow2IsLeast(n: nat, start: nat, p: nat)
    requires IsPow2(start) && IsPow2(p) && start <= p && n <= p
    ensures NextPow2(n, start) <= p
    decreases n - start
  {
    if n > start {
      Pow2Gap(start, p);
      Pow2Twice(start);
      NextPow2IsLeast(n, 2 * start, p);
    }
  }

  /** Kept in 32 bits, as the shift that computes it is, the next power of two is 0 above 2^31. */
  lemma NextPow2In32Bits(n: nat, start: nat)
    requires IsPow2(start) && start <= 0x8000_0000 && n < U32_LIMIT
    ensures NextPow2(n, start) % U32_LIMIT == if n <= 0x8000_0000 then NextPow2(n, start) else 0
  {
    var r := NextPow2(n, start);
    U32IsPow2();
    assert IsPow2(U32_LIMIT / 2);
    hide IsPow2, NextPow2;
    if n <= 0x8000_0000 {
      NextPow2IsLeast(n, start, 0x8000_0000);
    } else {
      NextPow2IsLeast(n, start, U32_LIMIT);
      Pow2Gap(0x8000_0000, r);
    }
  }

  lemma {:induction false} Pow2Gap(a: nat, b: nat)
    requires IsPow2(a) && IsPow2(b) && a < b
    ensures 2 * a <= b
  {
    if a > 1 {
      Pow2Gap(a / 2, b / 2);
    }
  }
}
