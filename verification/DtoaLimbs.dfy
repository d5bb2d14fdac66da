/**
 * Numbers held as little-endian limbs, with `width` bits in a limb: 16 when a long holds
 * one half-word, 32 when it is packed with two.
 */
module DtoaLimbs {

  const HALF := 0x1_0000

  function Base(packed: bool): (b: nat)
    ensures b > HALF - 1
  {
    if packed then HALF * HALF else HALF
  }

  ghost function Power(b: nat, n: nat): (p: nat)
    requires b > 0
    ensures p > 0
  {
    if n == 0 then 1 else b * Power(b, n - 1)
  }

  lemma {:induction false} PowersMultiply(b: nat, m: nat, n: nat)
    requires b > 0
    ensures Power(b, m + n) == Power(b, m) * Power(b, n)
  {
    if m > 0 {
      PowersMultiply(b, m - 1, n);
      Associate(b, Power(b, m - 1), Power(b, n));
    }
  }

  lemma {:induction false} Associate(a: nat, b: nat, c: nat)
    ensures a * (b * c) == (a * b) * c
  {
  }

  /** The number that the first `n` limbs stand for. */
  ghost function Value(x: seq<nat>, n: nat, b: nat): nat
    requires n <= |x| && b > 0
  {
    if n == 0 then 0 else Value(x, n - 1, b) + x[n - 1] * Power(b, n - 1)
  }

  ghost predicate Limbs(x: seq<nat>, b: nat) {
    forall i | 0 <= i < |x| :: x[i] < b
  }

  /** `n` limbs hold less than the n-th power of the base. */
  lemma {:induction false} ValueBound(x: seq<nat>, n: nat, b: nat)
    requires n <= |x| && b > 0 && Limbs(x, b)
    ensures Value(x, n, b) < Power(b, n)
  {
    if n > 0 {
      ValueBound(x, n - 1, b);
      TopBound(x[n - 1], Power(b, n - 1), b);
    }
  }

  lemma {:induction false} TopBound(d: nat, p: nat, b: nat)
    requires d < b
    ensures d * p + p <= b * p
  {
    assert (d + 1) * p <= b * p;
  }

  /** The first `n` limbs are all that counts. */
  lemma {:induction false} ValueSame(x: seq<nat>, y: seq<nat>, n: nat, b: nat)
    requires n <= |x| && n <= |y| && b > 0 && x[..n] == y[..n]
    ensures Value(x, n, b) == Value(y, n, b)
  {
    if n > 0 {
      assert x[..n][n - 1] == y[..n][n - 1];
      assert x[..n - 1] == x[..n][..n - 1] == y[..n][..n - 1] == y[..n - 1];
      ValueSame(x, y, n - 1, b);
    }
  }

  /** Leading zero limbs can be left out. */
  lemma {:induction false} ValueTrimmed(x: seq<nat>, m: nat, n: nat, b: nat)
    requires m <= n <= |x| && b > 0
    requires forall i | m <= i < n :: x[i] == 0
    ensures Value(x, m, b) == Value(x, n, b)
  {
    if m < n {
      ValueTrimmed(x, m, n - 1, b);
      assert 0 * Power(b, n - 1) == 0;
    }
  }

  lemma {:induction false} PowerGrows(b: nat, m: nat, n: nat)
    requires b > 0 && m <= n
    ensures Power(b, m) <= Power(b, n)
  {
    if m < n {
      PowerGrows(b, m, n - 1);
      TopBound(0, Power(b, n - 1), b);
    }
  }

  /** The top limb is what a number shows in units of its power. */
  lemma {:induction false} TopLimb(x: seq<nat>, n: nat, b: nat)
    requires 0 < n <= |x| && b > 0 && Limbs(x, b)
    ensures x[n - 1] * Power(b, n - 1) <= Value(x, n, b) < (x[n - 1] + 1) * Power(b, n - 1)
  {
    ValueBound(x, n - 1, b);
    assert (x[n - 1] + 1) * Power(b, n - 1) == x[n - 1] * Power(b, n - 1) + Power(b, n - 1);
  }

  /** A shorter number is smaller than one whose top limb is not zero. */
  lemma {:induction false} ShorterIsSmaller(x: seq<nat>, m: nat, y: seq<nat>, n: nat, b: nat)
    requires m < n <= |y| && m <= |x| && b > 0 && Limbs(x, b) && Limbs(y, b) && y[n - 1] > 0
    ensures Value(x, m, b) < Value(y, n, b)
  {
    ValueBound(x, m, b);
    PowerGrows(b, m, n - 1);
    TopLimb(y, n, b);
    TopBound(0, Power(b, n - 1), y[n - 1]);
  }
}
