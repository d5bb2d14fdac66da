/** Multiples of a positive number. */
module Multiples {

  /** A multiple of `k` that is smaller than `k` in magnitude is zero. */
  lemma {:induction false} SmallMultiple(k: int, t: int, x: int)
    requires k > 0 && x == k * t && -k < x < k
    ensures t == 0 && x == 0
  {
    if t != 0 {
      AtLeast(k, t);
    }
  }

  lemma {:induction false} AtLeast(k: int, t: int)
    requires k > 0
    ensures t >= 1 ==> k * t >= k
    ensures t <= -1 ==> k * t <= -k
  {
  }

  /** What is left when a multiple with a small rest is divided. */
  lemma {:induction false} RemainderOf(g: int, q: int, r: int)
    requires 0 <= r < g
    ensures (g * q + r) % g == r
  {
    var x := g * q + r;
    assert x == g * (x / g) + x % g;
    Collected(g, q, x / g, x % g - r);
    SmallMultiple(g, q - x / g, x % g - r);
  }

  lemma {:induction false} Collected(g: int, q: int, p: int, d: int)
    requires g * q == g * p + d
    ensures d == g * (q - p)
  {
  }
}
