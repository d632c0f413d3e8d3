/** Bitwise and with a mask, as Python computes it on integers of any size and sign. */
module Bits {

  /** `a & m` for a mask that is not negative; a negative `a` has infinitely many leading ones. */
  function And(a: int, m: nat): (r: nat)
    ensures r <= m
    decreases m
  {
    if m == 0 then 0 else 2 * And(a / 2, m / 2) + (if a % 2 == 1 && m % 2 == 1 then 1 else 0)
  }

  function Pow2(k: nat): (r: nat)
    ensures r >= 1
  {
    if k == 0 then 1 else 2 * Pow2(k - 1)
  }

  ghost predicate IsPow2(n: int) {
    exists k: nat :: n == Pow2(k)
  }

  lemma {:induction false} AndSelf(n: nat)
    ensures And(n, n) == n
  {
    if n > 0 {
      AndSelf(n / 2);
    }
  }

  /** Dropping the lowest bit: an even number is a power of two with its half; the only odd one is 1. */
  lemma HalfOfPow2(n: nat)
    requires n > 1
    ensures IsPow2(n) <==> n % 2 == 0 && IsPow2(n / 2)
  {
    if k: nat :| n == Pow2(k) {
      assert k > 0 && n == 2 * Pow2(k - 1);
      assert n / 2 == Pow2(k - 1);
    }
    if n % 2 == 0 && IsPow2(n / 2) {
      var k: nat :| n / 2 == Pow2(k);
      assert n == Pow2(k + 1);
    }
  }

  /** The driver's test accepts exactly the powers of two. */
  lemma {:induction false} PowerOfTwoTest(n: nat)
    requires n != 0
    ensures And(n, n - 1) == 0 <==> IsPow2(n)
  {
    if n == 1 {
      assert 1 == Pow2(0);
    } else {
      HalfOfPow2(n);
      if n % 2 == 0 {
        PowerOfTwoTest(n / 2);
        assert (n - 1) / 2 == n / 2 - 1;
      } else {
        AndSelf(n / 2);
        assert (n - 1) / 2 == n / 2;
      }
    }
  }

  lemma ModUnique(h: int, d: int, q: int, r: int)
    requires 0 <= r < d && h == d * q + r
    ensures h % d == r
  {
    assert d * (h / d - q) == r - h % d;
    if h / d - q >= 1 { MulAtLeast(d, h / d - q); }
    if h / d - q <= -1 { MulAtLeast(d, q - h / d); }
  }

  lemma MulAtLeast(d: int, x: int)
    requires d >= 0 && x >= 1
    ensures d * x >= d
  {
  }

  lemma ModStep(h: int, p: int)
    requires p > 0
    ensures h % (2 * p) == 2 * ((h / 2) % p) + h % 2
  {
    var q, r := (h / 2) / p, (h / 2) % p;
    assert h / 2 == p * q + r;
    assert h == 2 * (p * q + r) + h % 2;
    assert 2 * (p * q) == (2 * p) * q;
    ModUnique(h, 2 * p, q, 2 * r + h % 2);
  }

  lemma AndZero(h: int)
    ensures And(h, 0) == 0
  {
  }

  lemma AndStep(h: int, p: nat)
    requires p > 0
    ensures And(h, 2 * p - 1) == 2 * And(h / 2, p - 1) + h % 2
  {
    assert (2 * p - 1) / 2 == p - 1 && (2 * p - 1) % 2 == 1;
  }

  /** Masking with a power of two less one is the remainder, for negative hashes too. */
  lemma {:induction false} MaskIsMod(h: int, k: nat)
    ensures And(h, Pow2(k) - 1) == h % Pow2(k)
    decreases k
  {
    hide And;
    if k == 0 {
      assert And(h, 0) == 0 by { AndZero(h); }
    } else {
      MaskIsMod(h / 2, k - 1);
      AndStep(h, Pow2(k - 1));
      ModStep(h, Pow2(k - 1));
    }
  }
}
