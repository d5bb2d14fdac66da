/** One digit of a long division, on limbs and in place. */
module DtoaQuorem {
  import opened DtoaLimbs
  import opened Multiples

  class Bigint {
    var wds: nat
    const x: array<nat>

    constructor (x: array<nat>, wds: nat)
      ensures this.x == x && this.wds == wds
    {
      this.x, this.wds := x, wds;
    }

    ghost predicate Valid(b: nat)
      reads this, x
    {
      wds <= x.Length && Limbs(x[..], b)
    }

    ghost function Number(b: nat): nat
      reads this, x
      requires Valid(b) && b > 0
    {
      Value(x[..], wds, b)
    }

    /** No needless leading zero limb. */
    ghost predicate Trimmed()
      reads this, x
      requires wds <= x.Length
    {
      wds <= 1 || x[wds - 1] > 0
    }
  }

  // ----- Comparing -----

  lemma {:induction false} DecidedAt(x: seq<nat>, y: seq<nat>, i: nat, n: nat, b: nat)
    requires i < n <= |x| && n <= |y| && b > 0 && Limbs(x, b) && Limbs(y, b)
    requires x[i + 1..n] == y[i + 1..n] && x[i] < y[i]
    ensures Value(x, n, b) < Value(y, n, b)
  {
    if i + 1 == n {
      TopLimb(x, n, b);
      TopLimb(y, n, b);
      TopBound(x[i], Power(b, i), y[i]);
    } else {
      assert x[i + 1..n][n - i - 2] == y[i + 1..n][n - i - 2];
      assert x[i + 1..n - 1] == x[i + 1..n][..n - i - 2];
      assert y[i + 1..n - 1] == y[i + 1..n][..n - i - 2];
      DecidedAt(x, y, i, n - 1, b);
    }
  }

  /** The order of two numbers; the word counts decide unless they are equal. */
  method Cmp(a: Bigint, s: Bigint, ghost b: nat) returns (r: int)
    requires b > 0 && a.Valid(b) && s.Valid(b)
    requires a.wds > s.wds ==> a.x[a.wds - 1] > 0
    requires a.wds < s.wds ==> s.x[s.wds - 1] > 0
    requires a.wds == s.wds ==> a.wds > 0
    ensures r < 0 <==> a.Number(b) < s.Number(b)
    ensures r == 0 <==> a.Number(b) == s.Number(b)
  {
    r := a.wds - s.wds;
    if r != 0 {
      if r < 0 {
        ShorterIsSmaller(a.x[..], a.wds, s.x[..], s.wds, b);
      } else {
        ShorterIsSmaller(s.x[..], s.wds, a.x[..], a.wds, b);
      }
      return;
    }
    var i := a.wds;
    while true
      invariant 0 < i <= a.wds && r == 0
      invariant a.x[i..a.wds] == s.x[i..a.wds]
      decreases i
    {
      i := i - 1;
      if a.x[i] != s.x[i] {
        if a.x[i] < s.x[i] {
          DecidedAt(a.x[..], s.x[..], i, a.wds, b);
          return -1;
        }
        DecidedAt(s.x[..], a.x[..], i, a.wds, b);
        return 1;
      }
      if i <= 0 {
        break;
      }
    }
    ValueSame(a.x[..], s.x[..], a.wds, b);
  }

  // ----- Subtracting a multiple -----

  /** What one pass of the loop must make of a limb, whatever the width. */
  predicate Stepped(old0: nat, si: nat, q: nat, carry: int, borrow: int, limb: nat, carry1: int, borrow1: int, b: nat) {
    && limb < b
    && limb == old0 - si * q - carry + b * carry1 + borrow - b * borrow1
  }

  /** The pass with one half-word in a limb. */
  method StepPlain(bi: nat, si: nat, q: nat, carry: nat, borrow: int) returns (limb: nat, carry1: nat, borrow1: int)
    ensures Stepped(bi, si, q, carry, borrow, limb, carry1, borrow1, Base(false))
  {
    var ys := si * q + carry;
    carry1 := ys / HALF;
    var y := bi - ys % HALF + borrow;
    borrow1 := y / HALF;
    limb := y % HALF;
  }

  /** The pass with two half-words in a limb, each with its own borrow. */
  method StepPacked(bi: nat, si: nat, q: nat, carry: nat, borrow: int) returns (limb: nat, carry1: nat, borrow1: int)
    ensures Stepped(bi, si, q, carry, borrow, limb, carry1, borrow1, Base(true))
  {
    var ys := si % HALF * q + carry;
    var zs := si / HALF * q + ys / HALF;
    carry1 := zs / HALF;
    var y := bi % HALF - ys % HALF + borrow;
    var borrow0 := y / HALF;
    var z := bi / HALF - zs % HALF + borrow0;
    borrow1 := z / HALF;
    limb := z % HALF * HALF + y % HALF;
    HalvesTimes(si / HALF, si % HALF, q);
    assert si == HALF * (si / HALF) + si % HALF;
  }

  lemma {:induction false} HalvesTimes(hi: nat, lo: nat, q: nat)
    ensures (HALF * hi + lo) * q == HALF * (hi * q) + lo * q
  {
  }

  /** The number held so far, with what is owed to the limbs still to come. */
  ghost predicate Subtracted(was: seq<nat>, now: seq<nat>, s: seq<nat>, i: nat, q: nat, carry: int, borrow: int, b: nat)
    requires i <= |was| && i <= |now| && i <= |s| && b > 0
  {
    Value(now, i, b) == Value(was, i, b) - q * Value(s, i, b) + Power(b, i) * (carry - borrow)
  }

  lemma {:induction false} SubtractStep(was: seq<nat>, now: seq<nat>, next: seq<nat>, s: seq<nat>, i: nat, q: nat,
                                        carry: int, borrow: int, carry1: int, borrow1: int, b: nat)
    requires i < |was| && i < |s| && |now| == |next| == |was| && b > 0
    requires Subtracted(was, now, s, i, q, carry, borrow, b) && next[..i] == now[..i]
    requires Stepped(was[i], s[i], q, carry, borrow, next[i], carry1, borrow1, b)
    ensures Subtracted(was, next, s, i + 1, q, carry1, borrow1, b)
  {
    hide Power;
    ValueSame(next, now, i, b);
    NextPower(b, i);
    Gathered(Value(was, i, b), was[i], Value(s, i, b), s[i], q, carry, borrow, carry1, borrow1, b, Power(b, i), next[i]);
  }

  lemma {:induction false} NextPower(b: nat, i: nat)
    requires b > 0
    ensures Power(b, i + 1) == b * Power(b, i)
  {
  }

  lemma {:induction false} Gathered(v: int, d: int, t: int, e: int, q: int, carry: int, borrow: int, carry1: int, borrow1: int,
                                    b: int, p: int, limb: int)
    requires limb == d - e * q - carry + b * carry1 + borrow - b * borrow1
    ensures v - q * t + p * (carry - borrow) + limb * p == v + d * p - q * (t + e * p) + (b * p) * (carry1 - borrow1)
  {
    assert limb * p == d * p - (e * q) * p - carry * p + (b * carry1) * p + borrow * p - (b * borrow1) * p;
    assert q * (t + e * p) == q * t + (e * q) * p;
    assert (b * p) * (carry1 - borrow1) == (b * carry1) * p - (b * borrow1) * p;
  }

  /** All limbs done, nothing can be owed when the difference is not negative. */
  lemma {:induction false} NothingOwed(was: seq<nat>, now: seq<nat>, s: seq<nat>, n: nat, q: nat, carry: int, borrow: int, b: nat)
    requires n <= |was| && n <= |now| && n <= |s| && b > 0 && Limbs(was, b) && Limbs(now, b)
    requires Subtracted(was, now, s, n, q, carry, borrow, b) && q * Value(s, n, b) <= Value(was, n, b)
    ensures Value(now, n, b) == Value(was, n, b) - q * Value(s, n, b)
  {
    hide Value, Power;
    ValueBound(was, n, b);
    ValueBound(now, n, b);
    assert Power(b, n) * (carry - borrow) == Value(now, n, b) - (Value(was, n, b) - q * Value(s, n, b));
    SmallMultiple(Power(b, n), carry - borrow, Power(b, n) * (carry - borrow));
  }

  /** Takes `q` times the divisor from the number, limb by limb. */
  method SubtractMultiple(num: Bigint, s: Bigint, q: nat, packed: bool)
    requires num != s && num.x != s.x && num.Valid(Base(packed)) && s.Valid(Base(packed))
    requires 0 < s.wds == num.wds && q * s.Number(Base(packed)) <= num.Number(Base(packed))
    modifies num.x
    ensures num.Valid(Base(packed)) && s.Valid(Base(packed))
    ensures s.Number(Base(packed)) == old(s.Number(Base(packed)))
    ensures num.Number(Base(packed)) == old(num.Number(Base(packed))) - q * s.Number(Base(packed))
  {
    hide Value, Power, Subtracted, Stepped;
    ghost var b := Base(packed);
    ghost var was := num.x[..];
    var n, i := s.wds, 0;
    var borrow, carry := 0, 0;
    SubtractNone(was, s.x[..], q, b);
    while true
      invariant 0 <= i < n && s.wds == num.wds == n
      invariant num.Valid(b) && num.x[i..] == was[i..] && carry >= 0
      invariant Subtracted(was, num.x[..], s.x[..], i, q, carry, borrow, b)
      decreases n - i
    {
      ghost var now, carry0, borrow0 := num.x[..], carry, borrow;
      assert num.x[i] == num.x[i..][0] == was[i];
      var limb;
      if packed {
        limb, carry, borrow := StepPacked(num.x[i], s.x[i], q, carry, borrow);
      } else {
        limb, carry, borrow := StepPlain(num.x[i], s.x[i], q, carry, borrow);
      }
      LimbBelow(was[i], s.x[i], q, carry0, borrow0, limb, carry, borrow, b);
      num.x[i] := limb;
      SubtractStep(was, now, num.x[..], s.x[..], i, q, carry0, borrow0, carry, borrow, b);
      Overwritten(was, now, i, limb);
      i := i + 1;
      if i >= n {
        break;
      }
    }
    NothingOwed(was, num.x[..], s.x[..], n, q, carry, borrow, b);
  }

  lemma {:induction false} SubtractNone(was: seq<nat>, s: seq<nat>, q: nat, b: nat)
    requires b > 0
    ensures Subtracted(was, was, s, 0, q, 0, 0, b)
  {
  }

  lemma {:induction false} LimbBelow(bi: nat, si: nat, q: nat, carry: int, borrow: int, limb: nat, carry1: int, borrow1: int, b: nat)
    requires Stepped(bi, si, q, carry, borrow, limb, carry1, borrow1, b)
    ensures limb < b
  {
  }

  lemma {:induction false} Overwritten(was: seq<nat>, now: seq<nat>, i: nat, limb: nat)
    requires |was| == |now| && i < |was| && now[i..] == was[i..]
    ensures now[i := limb][i + 1..] == was[i + 1..]
  {
    assert now[i + 1..] == now[i..][1..];
  }

  // ----- The digit -----

  /** Drops leading zero limbs; `top` is the index of a top limb that is zero. */
  method Trim(num: Bigint, top: nat, ghost b: nat) returns (n: nat)
    requires b > 0 && num.Valid(b) && num.wds == top + 1 && num.x[top] == 0
    modifies num`wds
    ensures num.Valid(b) && num.Number(b) == old(num.Number(b)) && num.Trimmed() && num.wds == n <= top
  {
    var e := top - 1;
    n := top;
    while e > 0 && num.x[e] == 0
      invariant e == n - 1 && 0 <= n <= top
      invariant forall i | n <= i <= top :: num.x[i] == 0
    {
      n := n - 1;
      e := e - 1;
    }
    ValueTrimmed(num.x[..], n, num.wds, b);
    num.wds := n;
  }

  /** The estimate from the top limbs never exceeds the quotient and misses it by at most one. */
  lemma {:induction false} Estimate(x: nat, s: nat, bt: nat, st: nat, p: nat)
    requires p > 0 && st >= 10 && x < 10 * s
    requires bt * p <= x < (bt + 1) * p && st * p <= s < (st + 1) * p
    ensures bt / (st + 1) * s <= x < (bt / (st + 1) + 2) * s
    ensures bt / (st + 1) <= 9
  {
    var q := bt / (st + 1);
    assert bt == (st + 1) * q + bt % (st + 1);
    EstimateLow(x, s, bt, st, p, q);
    QuotientBelow(q, s, x);
    EstimateHigh(x, s, bt, st, p, q);
  }

  lemma {:induction false} EstimateLow(x: nat, s: nat, bt: nat, st: nat, p: nat, q: nat)
    requires bt * p <= x && s < (st + 1) * p && (st + 1) * q <= bt
    ensures q * s <= x
  {
    Monotone(s, (st + 1) * p, q);
    Regroup(q, st + 1, p);
    Monotone((st + 1) * q, bt, p);
  }

  lemma {:induction false} Monotone(x: nat, y: nat, k: nat)
    requires x <= y
    ensures x * k <= y * k
  {
  }

  lemma {:induction false} QuotientBelow(q: nat, s: nat, x: nat)
    requires q * s <= x < 10 * s
    ensures q <= 9
  {
    if q >= 10 {
      Monotone(10, q, s);
    }
  }

  lemma {:induction false} EstimateHigh(x: nat, s: nat, bt: nat, st: nat, p: nat, q: nat)
    requires x < (bt + 1) * p && st * p <= s && bt < (st + 1) * q + (st + 1) && q <= 9 && st >= 10
    ensures x < (q + 2) * s
  {
    NextAbove(bt, st, q);
    Monotone(bt + 1, (q + 2) * st, p);
    Regroup(q + 2, st, p);
    Monotone(st * p, s, q + 2);
  }

  lemma {:induction false} Regroup(a: nat, b: nat, c: nat)
    ensures (a * b) * c == (b * c) * a
  {
  }

  lemma {:induction false} NextAbove(bt: nat, st: nat, q: nat)
    requires bt < (st + 1) * q + (st + 1) && q <= 9 && st >= 10
    ensures bt + 1 <= (q + 2) * st
  {
    assert (st + 1) * q == st * q + q;
  }

  lemma {:induction false} Division(x: nat, s: nat, q: nat, r: nat)
    requires x == q * s + r && r < s
    ensures x / s == q && x % s == r
  {
    var d, e := x / s, x % s;
    assert x == s * d + e;
    assert s * (d - q) == r - e;
    SmallMultiple(s, d - q, r - e);
  }

  lemma {:induction false} LimbEstimate(x: seq<nat>, s: seq<nat>, n: nat, b: nat)
    requires b > 0 && Limbs(x, b) && Limbs(s, b) && n < |x| && n < |s| && s[n] >= 10
    requires Value(x, n + 1, b) < 10 * Value(s, n + 1, b)
    ensures x[n] / (s[n] + 1) * Value(s, n + 1, b) <= Value(x, n + 1, b)
    ensures Value(x, n + 1, b) < (x[n] / (s[n] + 1) + 2) * Value(s, n + 1, b)
    ensures x[n] / (s[n] + 1) <= 9
  {
    hide Value, Power;
    TopLimb(x, n + 1, b);
    TopLimb(s, n + 1, b);
    Estimate(Value(x, n + 1, b), Value(s, n + 1, b), x[n], s[n], Power(b, n));
  }

  /** Takes `q` times the divisor off and trims; `n` follows the index of the top limb. */
  method Reduce(num: Bigint, s: Bigint, q: nat, top: nat, packed: bool) returns (n: nat)
    requires num != s && num.x != s.x && num.Valid(Base(packed)) && s.Valid(Base(packed))
    requires s.wds == num.wds == top + 1 && q * s.Number(Base(packed)) <= num.Number(Base(packed))
    modifies num, num.x
    ensures num.Valid(Base(packed)) && s.Valid(Base(packed))
    ensures s.Number(Base(packed)) == old(s.Number(Base(packed)))
    ensures num.Number(Base(packed)) == old(num.Number(Base(packed))) - q * s.Number(Base(packed))
    ensures num.Trimmed() && num.wds <= s.wds && (num.wds == s.wds ==> n == top)
  {
    hide Value, Power;
    n := top;
    SubtractMultiple(num, s, q, packed);
    if num.x[n] == 0 {
      n := Trim(num, n, Base(packed));
    }
  }

  /**
   * Divides by a number whose top limb is at least ten: the quotient is returned and the
   * remainder is left in place, trimmed.
   */
  method Quorem(num: Bigint, s: Bigint, packed: bool) returns (q: nat)
    requires num != s && num.x != s.x && num.Valid(Base(packed)) && s.Valid(Base(packed))
    requires num.wds <= s.wds && s.wds > 0 && s.x[s.wds - 1] >= 10
    requires num.Number(Base(packed)) < 10 * s.Number(Base(packed))
    modifies num, num.x
    ensures num.Valid(Base(packed)) && s.Valid(Base(packed)) && num.wds <= s.wds
    ensures s.Number(Base(packed)) == old(s.Number(Base(packed))) > 0
    ensures q == old(num.Number(Base(packed))) / s.Number(Base(packed)) <= 9
    ensures num.Number(Base(packed)) == old(num.Number(Base(packed))) % s.Number(Base(packed))
    ensures old(num.Trimmed()) ==> num.Trimmed()
  {
    hide Value, Power, Limbs, Base;
    ghost var b := Base(packed);
    ghost var x0, s0 := num.Number(b), s.Number(b);
    var n := s.wds;
    if num.wds < n {
      ShorterIsSmaller(num.x[..], num.wds, s.x[..], n, b);
      Division(x0, s0, 0, x0);
      return 0;
    }
    n := n - 1;
    q := num.x[n] / (s.x[n] + 1);
    LimbEstimate(num.x[..], s.x[..], n, b);
    if q != 0 {
      n := Reduce(num, s, q, n, packed);
    }
    q := Corrected(num, s, q, n, packed, x0);
    Division(x0, s0, q, num.Number(b));
    QuotientBelow(q, s0, x0);
  }

  /** The one correction: the divisor once more when it still fits. */
  method Corrected(num: Bigint, s: Bigint, q: nat, n: nat, packed: bool, ghost x0: nat) returns (q1: nat)
    requires num != s && num.x != s.x && num.Valid(Base(packed)) && s.Valid(Base(packed))
    requires num.wds <= s.wds && s.wds > 0 && s.x[s.wds - 1] >= 10 && (num.wds == s.wds ==> n + 1 == s.wds)
    requires num.Number(Base(packed)) == x0 - q * s.Number(Base(packed)) < 2 * s.Number(Base(packed))
    modifies num, num.x
    ensures num.Valid(Base(packed)) && s.Valid(Base(packed)) && num.wds <= s.wds
    ensures s.Number(Base(packed)) == old(s.Number(Base(packed)))
    ensures num.Number(Base(packed)) == x0 - q1 * s.Number(Base(packed)) < s.Number(Base(packed))
    ensures old(num.Trimmed()) ==> num.Trimmed()
  {
    hide Value, Power, Limbs, Base;
    q1 := q;
    var j := Cmp(num, s, Base(packed));
    if j >= 0 {
      if num.wds < s.wds {
        ShorterIsSmaller(num.x[..], num.wds, s.x[..], s.wds, Base(packed));
        assert false;
      }
      q1 := q1 + 1;
      var _ := Reduce(num, s, 1, n, packed);
    }
  }

  // ----- The shift that prepares the divisor -----

  function Width(packed: bool): nat {
    if packed then 32 else 16
  }

  /**
   * How far to shift so that the divisor gets four leading zero bits; `bits` are the significant
   * bits of its top limb and of the shift it will get anyway.
   */
  function ExtraShift(bits: nat, packed: bool): (r: nat)
    ensures (bits + r) % Width(packed) == Width(packed) - 4
    ensures if packed then r < 32 else r < 12 || 28 <= r < 32
  {
    var w := Width(packed);
    var low := bits % w;
    var i := if low != 0 then w - low else 0;
    var r := if i > 4 then i - 4 else if i < 4 then i + 28 else 0;
    RoundedShift(bits, low, r, w, if low + r == w - 4 then 0 else if low + r == 2 * w - 4 then 1 else 2);
    r
  }

  lemma {:induction false} RoundedShift(bits: nat, low: nat, r: nat, w: nat, k: nat)
    requires w > 4 && low == bits % w && low + r == k * w + w - 4
    ensures (bits + r) % w == w - 4
  {
    var q := bits / w;
    assert bits == w * q + low;
    WholeWidths(q, k, w);
    RemainderOf(w, q + k, w - 4);
  }

  lemma {:induction false} WholeWidths(q: nat, k: nat, w: nat)
    ensures w * q + k * w == w * (q + k)
  {
  }

  lemma {:induction false} LimbSize(packed: bool)
    ensures Width(packed) == (if packed then 32 else 16)
    ensures Base(packed) == if packed then 0x1_0000_0000 else 0x1_0000
  {
  }

  lemma {:induction false} PowerOfWidth(packed: bool)
    ensures Power(2, Width(packed)) == Base(packed)
    ensures Power(2, Width(packed) - 4) == Base(packed) / 16
    ensures Power(2, Width(packed) - 5) == Base(packed) / 32
  {
    assert Power(2, 4) == 16 by {
      assert Power(2, 2) == 4;
    }
    PowersMultiply(2, 4, 4);
    PowersMultiply(2, 4, 8);
    assert Power(2, 3) == 8 by {
      assert Power(2, 2) == 4;
    }
    PowersMultiply(2, 8, 3);
    PowersMultiply(2, 8, 8);
    PowersMultiply(2, 16, 11);
    PowersMultiply(2, 16, 12);
    PowersMultiply(2, 16, 16);
  }

  lemma {:induction false} PowerOfBase(n: nat, packed: bool)
    ensures Power(2, Width(packed) * n) == Power(Base(packed), n)
  {
    hide Base;
    if n > 0 {
      PowerOfBase(n - 1, packed);
      PowerOfWidth(packed);
      PowersMultiply(2, Width(packed), Width(packed) * (n - 1));
    }
  }

  /**
   * A divisor with four leading zero bits has a top limb of the size Quorem needs, and ten times
   * a smaller remainder needs no more limbs than the divisor has.
   */
  lemma {:induction false} Normalised(s: seq<nat>, n: nat, m: nat, packed: bool)
    requires 0 < n <= |s| && Limbs(s, Base(packed)) && m == Width(packed) * n - 4
    requires Power(2, m - 1) <= Value(s, n, Base(packed)) < Power(2, m)
    ensures 10 <= Base(packed) / 32 <= s[n - 1] < Base(packed) / 16
    ensures 10 * Value(s, n, Base(packed)) < Power(Base(packed), n)
  {
    hide Power, Value, Base;
    var b, w, p := Base(packed), Width(packed), Power(Base(packed), n - 1);
    PowerOfWidth(packed);
    PowerOfBase(n - 1, packed);
    PowersMultiply(2, w - 4, w * (n - 1));
    PowersMultiply(2, w - 5, w * (n - 1));
    TopLimb(s, n, b);
    NextPower(b, n - 1);
    Sandwich(s[n - 1], p, b / 32, b / 16, Value(s, n, b));
    BaseIsLarge(packed, p);
  }

  lemma {:induction false} BaseIsLarge(packed: bool, p: nat)
    ensures Base(packed) / 32 >= 10 && 16 * (Base(packed) / 16 * p) == Base(packed) * p
  {
  }

  lemma {:induction false} Sandwich(top: nat, p: nat, low: nat, high: nat, v: nat)
    requires top * p <= v < (top + 1) * p && low * p <= v < high * p
    ensures low <= top < high
  {
    if top < low {
      Monotone(top + 1, low, p);
    }
    if top >= high {
      Monotone(high, top, p);
    }
  }

  /** A number has the bits of its limbs below the top one and those of its top limb. */
  lemma {:induction false} BitLength(x: seq<nat>, n: nat, t: nat, packed: bool)
    requires 0 < n <= |x| && Limbs(x, Base(packed)) && t > 0
    requires Power(2, t - 1) <= x[n - 1] < Power(2, t)
    ensures Power(2, Width(packed) * (n - 1) + t - 1) <= Value(x, n, Base(packed)) < Power(2, Width(packed) * (n - 1) + t)
  {
    hide Power, Value, Base;
    var low, p := Width(packed) * (n - 1), Power(Base(packed), n - 1);
    PowerOfBase(n - 1, packed);
    PowersMultiply(2, t - 1, low);
    PowersMultiply(2, t, low);
    TopLimb(x, n, Base(packed));
    Monotone(Power(2, t - 1), x[n - 1], p);
    Monotone(x[n - 1] + 1, Power(2, t), p);
  }

  /** Shifting a number left by `k` bits adds them to its length. */
  lemma {:induction false} ShiftedLength(v: nat, m: nat, k: nat)
    requires m > 0 && Power(2, m - 1) <= v < Power(2, m)
    ensures Power(2, m + k - 1) <= v * Power(2, k) < Power(2, m + k)
  {
    hide Power;
    PowersMultiply(2, m - 1, k);
    PowersMultiply(2, m, k);
    Monotone(Power(2, m - 1), v, Power(2, k));
    Monotone(v + 1, Power(2, m), Power(2, k));
    Distributed(v, Power(2, k));
  }

  lemma {:induction false} Distributed(v: nat, p: nat)
    ensures (v + 1) * p == v * p + p
  {
  }

  /**
   * Shifted left as planned and by the extra shift, the divisor fills `k` limbs but for four bits;
   * its top limb is then of the size Quorem needs, and ten times a smaller remainder fits.
   */
  lemma {:induction false} Prepared(x: seq<nat>, n: nat, t: nat, s2: nat, packed: bool, y: seq<nat>, k: nat)
    requires 0 < n <= |x| && Limbs(x, Base(packed)) && t > 0 && Power(2, t - 1) <= x[n - 1] < Power(2, t)
    requires k == (Width(packed) * (n - 1) + t + s2 + ExtraShift(t + s2, packed) + 4) / Width(packed)
    requires k <= |y| && Limbs(y, Base(packed))
    requires Value(y, k, Base(packed)) == Value(x, n, Base(packed)) * Power(2, s2 + ExtraShift(t + s2, packed))
    ensures k > 0 && Base(packed) / 32 <= y[k - 1] < Base(packed) / 16
    ensures y[k - 1] >= 10 && 10 * Value(y, k, Base(packed)) < Power(Base(packed), k)
  {
    hide Power, Value, Base;
    var w, r := Width(packed), ExtraShift(t + s2, packed);
    var m := w * (n - 1) + t;
    BitLength(x, n, t, packed);
    ShiftedLength(Value(x, n, Base(packed)), m, s2 + r);
    FourBitsLeft(w, n - 1, t + s2 + r);
    Normalised(y, k, m + s2 + r, packed);
  }

  lemma {:induction false} FourBitsLeft(w: nat, q: nat, bits: nat)
    requires w > 4 && bits % w == w - 4
    ensures w * q + bits == w * ((w * q + bits + 4) / w) - 4 && (w * q + bits + 4) / w > 0
  {
    var k := q + bits / w + 1;
    WholeWidths(q, bits / w + 1, w);
    assert w * q + bits + 4 == w * k;
    RemainderOf(w, k, 0);
    Cancelled(w, (w * k) / w, k);
  }

  lemma {:induction false} Cancelled(w: nat, a: int, b: int)
    requires w > 0 && w * a == w * b
    ensures a == b
  {
    SmallMultiple(w, a - b, 0);
  }
}
