/** The C operator `&` on naturals, and when masking with `n - 1` is the same as `% n`. */
module Masks {

  /** Bitwise AND. */
  function And(x: nat, y: nat): (r: nat)
    ensures r <= x && r <= y
  {
    if x == 0 || y == 0 then 0 else (x % 2) * (y % 2) + 2 * And(x / 2, y / 2)
  }

  function Pow2(k: nat): (r: nat)
    ensures r >= 1
  {
    if k == 0 then 1 else 2 * Pow2(k - 1)
  }

  ghost predicate IsPow2(n: nat) {
    exists k: nat :: Pow2(k) == n
  }

  /** `x % (2 * m)` in terms of the low bit and the rest. */
  lemma ModDouble(x: nat, m: nat)
    requires m > 0
    ensures x % (2 * m) == x % 2 + 2 * ((x / 2) % m)
  {
    var q, r := (x / 2) / m, (x / 2) % m;
    assert x / 2 == q * m + r;
    assert x == (2 * m) * q + (x % 2 + 2 * r) by {
      assert x == 2 * (x / 2) + x % 2;
      assert 2 * (q * m) == (2 * m) * q;
    }
    RemainderUnique(x, 2 * m, q, x % 2 + 2 * r);
  }

  lemma MultipleIsFar(d: nat, k: nat)
    requires k > 0
    ensures d * k >= d
  {
    assert d * k == d + d * (k - 1);
  }

  lemma RemainderUnique(x: nat, d: nat, q: nat, r: nat)
    requires x == d * q + r && r < d
    ensures x % d == r && x / d == q
  {
    var q' := x / d;
    assert x == d * q' + x % d;
    assert d * q - d * q' == d * (q - q') && d * q' - d * q == d * (q' - q);
    if q > q' {
      MultipleIsFar(d, q - q');
    } else if q < q' {
      MultipleIsFar(d, q' - q);
    }
  }

  /** The mask 2 * h - 1 keeps the low bit and masks the rest with h - 1. */
  lemma AndLowMask(x: nat, h: nat)
    requires h > 0
    ensures And(x, 2 * h - 1) == x % 2 + 2 * And(x / 2, h - 1)
  {
    var m := 2 * h - 1;
    assert m % 2 == 1 && m / 2 == h - 1;
  }

  lemma MaskDoubled(x: nat, h: nat)
    requires h > 0 && And(x / 2, h - 1) == (x / 2) % h
    ensures And(x, 2 * h - 1) == x % (2 * h)
  {
    hide And;
    AndLowMask(x, h);
    ModDouble(x, h);
  }

  /** Masking with 2^k - 1 is the remainder modulo 2^k. */
  lemma {:induction false} MaskIsMod(x: nat, k: nat)
    ensures And(x, Pow2(k) - 1) == x % Pow2(k)
  {
    hide And;
    if k > 0 {
      MaskIsMod(x / 2, k - 1);
      MaskDoubled(x, Pow2(k - 1));
    } else {
      AndZero(x);
    }
  }

  lemma AndZero(x: nat)
    ensures And(x, 0) == 0 == x % 1
  {
  }

  /** `n & (n - 1)` is zero for powers of two only. */
  lemma {:induction false} OnlyPowersMaskToZero(n: nat)
    requires n > 0 && And(n, n - 1) == 0
    ensures IsPow2(n)
  {
    if n == 1 {
      assert Pow2(0) == 1;
    } else if n % 2 == 1 {
      // n - 1 keeps every bit of n but the lowest, so the mask cannot be zero.
      AndSelf(n / 2);
    } else {
      assert (n - 1) / 2 == n / 2 - 1 && (n - 1) % 2 == 1;
      OnlyPowersMaskToZero(n / 2);
      var k: nat :| Pow2(k) == n / 2;
      assert Pow2(k + 1) == n;
    }
  }

  lemma {:induction false} AndSelf(x: nat)
    ensures And(x, x) == x
  {
    if x > 0 {
      AndSelf(x / 2);
    }
  }

  /** The mask computes the remainder for every operand exactly when `n` is a power of two. */
  lemma MaskIsModIffPow2(n: nat)
    requires n > 0
    ensures (forall x: nat :: And(x, n - 1) == x % n) <==> IsPow2(n)
  {
    if IsPow2(n) {
      var k: nat :| Pow2(k) == n;
      forall x: nat ensures And(x, n - 1) == x % n {
        MaskIsMod(x, k);
      }
    } else {
      if forall x: nat :: And(x, n - 1) == x % n {
        assert And(n, n - 1) == n % n;
        OnlyPowersMaskToZero(n);
      }
    }
  }

  /** Bitwise OR. */
  function Or(x: nat, y: nat): nat {
    if x == 0 then y else if y == 0 then x
    else (if x % 2 == 1 || y % 2 == 1 then 1 else 0) + 2 * Or(x / 2, y / 2)
  }

  /** The bit is set among the flags. */
  predicate Has(flags: nat, bit: nat) {
    And(flags, bit) != 0
  }
}
