/** Decimal digits: what they spell, how they are rounded, and a fixed count of them for a quotient. */
module DtoaDigits {
  import opened DtoaLimbs

  ghost predicate Digits(s: seq<nat>) {
    forall i | 0 <= i < |s| :: s[i] <= 9
  }

  /** The number that a string of digits spells. */
  ghost function Num(s: seq<nat>): nat {
    if s == [] then 0 else 10 * Num(s[..|s| - 1]) + s[|s| - 1]
  }

  lemma {:induction false} NumAppend(s: seq<nat>, d: nat)
    ensures Num(s + [d]) == 10 * Num(s) + d
  {
    assert (s + [d])[..|s|] == s;
  }

  /**
   * `out`, written `up` decimal places higher, shows the value `v` that `n` digits would show,
   * without needless digits at the end.
   */
  ghost predicate Shows(out: seq<nat>, up: int, n: nat, v: nat) {
    && 1 <= |out| <= n && Digits(out) && out[|out| - 1] > 0
    && 0 <= up <= 1 && (up == 1 <==> v == Power(10, n))
    && Num(out) * Power(10, n - |out| + up) == v
  }

  // ----- Rounding the last digit -----

  lemma {:induction false} NumBound(s: seq<nat>)
    requires Digits(s)
    ensures Num(s) < Power(10, |s|)
  {
    if s != [] {
      NumBound(s[..|s| - 1]);
    }
  }

  /** A tail of equal digits, as the value of the whole. */
  lemma {:induction false} NineTail(s: seq<nat>, n: nat)
    requires n <= |s| && forall i | n <= i < |s| :: s[i] == 9
    ensures Num(s) + 1 == (Num(s[..n]) + 1) * Power(10, |s| - n)
  {
    if n < |s| {
      var t := s[..|s| - 1];
      NineTail(t, n);
      assert t[..n] == s[..n];
      Tenfold(Num(s[..n]) + 1, Power(10, |s| - 1 - n));
    } else {
      assert s[..n] == s;
    }
  }

  lemma {:induction false} ZeroTail(s: seq<nat>, n: nat)
    requires n <= |s| && forall i | n <= i < |s| :: s[i] == 0
    ensures Num(s) == Num(s[..n]) * Power(10, |s| - n)
  {
    if n < |s| {
      var t := s[..|s| - 1];
      ZeroTail(t, n);
      assert t[..n] == s[..n];
      Tenfold(Num(s[..n]), Power(10, |s| - 1 - n));
    } else {
      assert s[..n] == s;
    }
  }

  lemma {:induction false} Tenfold(x: nat, p: nat)
    ensures 10 * (x * p) == x * (10 * p)
  {
  }

  lemma {:induction false} NotNines(s: seq<nat>, n: nat)
    requires Digits(s) && n < |s| && s[n] < 9 && forall i | n < i < |s| :: s[i] == 9
    ensures Num(s) + 1 < Power(10, |s|)
  {
    var t := s[..n + 1];
    assert t[..n] == s[..n];
    NumBound(s[..n]);
    NineTail(s, n + 1);
    Product(Num(t) + 1, Power(10, n + 1), Power(10, |s| - n - 1));
    PowersMultiply(10, n + 1, |s| - n - 1);
  }

  lemma {:induction false} Product(x: nat, y: nat, p: nat)
    requires x < y && p > 0
    ensures x * p < y * p
  {
  }

  /** Adds one to the last digit: nines are dropped, and past the first digit the place moves. */
  method Roundoff(s: seq<nat>, k: int) returns (out: seq<nat>, k1: int)
    requires s != [] && Digits(s)
    ensures Shows(out, k1 - k, |s|, Num(s) + 1)
  {
    hide Power, Num;
    out, k1 := s, k;
    var n := |s| - 1;
    while s[n] == 9
      invariant 0 <= n < |s|
      invariant forall i | n < i < |s| :: s[i] == 9
      decreases n
    {
      if n == 0 {
        k1 := k + 1;
        out := [1];
        AllNines(s);
        return;
      }
      n := n - 1;
    }
    out := s[..n] + [s[n] + 1];
    OneMore(s, n);
  }

  lemma {:induction false} AllNines(s: seq<nat>)
    requires s != [] && forall i | 0 <= i < |s| :: s[i] == 9
    ensures Shows([1], 1, |s|, Num(s) + 1)
  {
    hide Power;
    NineTail(s, 0);
    NumAppend([], 1);
    assert [] + [1] == [1];
    assert Num(s[..0]) == 0 && Num([1]) == 1;
  }

  lemma {:induction false} OneMore(s: seq<nat>, n: nat)
    requires Digits(s) && n < |s| && s[n] < 9 && forall i | n < i < |s| :: s[i] == 9
    ensures Shows(s[..n] + [s[n] + 1], 0, |s|, Num(s) + 1)
  {
    hide Power;
    NineTail(s, n + 1);
    NotNines(s, n);
    NumAppend(s[..n], s[n] + 1);
    assert s[..n + 1][..n] == s[..n];
  }

  /** Drops the zeros at the end. */
  method DropZeros(s: seq<nat>) returns (out: seq<nat>)
    requires s != [] && Digits(s) && s[0] > 0
    ensures Shows(out, 0, |s|, Num(s))
  {
    var n := |s| - 1;
    while s[n] == 0
      invariant 0 <= n < |s|
      invariant forall i | n < i < |s| :: s[i] == 0
      decreases n
    {
      n := n - 1;
    }
    out := s[..n + 1];
    ZeroTail(s, n + 1);
    NumBound(s);
  }

  /** `v` is x/S rounded to the nearest integer, a tie to the even one. */
  ghost predicate HalfEven(v: nat, x: nat, S: nat) {
    && 2 * x <= 2 * (v * S) + S && 2 * (v * S) <= 2 * x + S
    && (2 * x == 2 * (v * S) + S || 2 * (v * S) == 2 * x + S ==> v % 2 == 0)
  }

  /** Only one integer is the rounded one. */
  lemma {:induction false} HalfEvenUnique(v: nat, w: nat, x: nat, S: nat)
    requires S > 0 && HalfEven(v, x, S) && HalfEven(w, x, S)
    ensures v == w
  {
    if v < w {
      AtMostOneApart(v, w, x, S);
    } else if w < v {
      AtMostOneApart(w, v, x, S);
    }
  }

  lemma {:induction false} AtMostOneApart(v: nat, w: nat, x: nat, S: nat)
    requires S > 0 && v < w && 2 * x <= 2 * (v * S) + S && 2 * (w * S) <= 2 * x + S
    ensures w == v + 1 && 2 * x == 2 * (v * S) + S && 2 * (w * S) == 2 * x + S
  {
    assert w * S == v * S + (w - v) * S;
    Multiple(w - v, S);
  }

  lemma {:induction false} Multiple(t: nat, S: nat)
    requires t >= 1
    ensures t * S >= S && (t >= 2 ==> t * S >= 2 * S)
  {
    if t >= 2 {
      assert t * S == 2 * S + (t - 2) * S;
    }
  }

  lemma {:induction false} ParityOfLast(s: seq<nat>)
    requires s != []
    ensures Num(s) % 2 == s[|s| - 1] % 2
  {
  }

  lemma {:induction false} RoundedUp(v: nat, b: nat, S: nat)
    requires b < S && (2 * b > S || (2 * b == S && v % 2 == 1))
    ensures HalfEven(v + 1, v * S + b, S)
  {
    assert (v + 1) * S == v * S + S;
  }

  // ----- A fixed number of digits -----

  /** `s` are the digits so far of b0/S, and `b` is what is left of it, in units of the last. */
  ghost predicate Left(b0: nat, S: nat, s: seq<nat>, b: nat) {
    s != [] && b0 * Power(10, |s| - 1) == Num(s) * S + b
  }

  /** The same before the next digit is taken, in units of that digit. */
  ghost predicate Due(b0: nat, S: nat, s: seq<nat>, b: nat) {
    b0 * Power(10, |s|) == 10 * (Num(s) * S) + b
  }

  lemma {:induction false} NothingTaken(b0: nat, S: nat)
    ensures Due(b0, S, [], b0)
  {
    assert 0 * S == 0;
  }

  lemma {:induction false} TakeDigit(b0: nat, S: nat, s: seq<nat>, b: nat)
    requires 0 < S && b < 10 * S && Due(b0, S, s, b)
    ensures b / S <= 9 && b % S < S
    ensures Left(b0, S, s + [b / S], b % S)
  {
    hide Num, Power;
    NumAppend(s, b / S);
    Divided(b, S);
    assert (10 * Num(s) + b / S) * S == 10 * (Num(s) * S) + (b / S) * S;
  }

  lemma {:induction false} Divided(b: nat, S: nat)
    requires 0 < S && b < 10 * S
    ensures b == (b / S) * S + b % S && b / S <= 9 && b % S < S
    ensures S <= b ==> b / S >= 1
  {
    var q, r := b / S, b % S;
    assert b == S * q + r;
    if q >= 10 {
      Multiples(q, 10, S);
    }
  }

  lemma {:induction false} Multiples(q: nat, t: nat, S: nat)
    requires q >= t
    ensures S * q >= S * t && S * 0 == 0
  {
  }

  lemma {:induction false} NextPlace(b0: nat, S: nat, s: seq<nat>, b: nat)
    requires Left(b0, S, s, b)
    ensures Due(b0, S, s, 10 * b)
  {
    hide Num;
    Tenfold(b0, Power(10, |s| - 1));
  }

  ghost predicate Rounded(out: seq<nat>, up: int, n: nat, x: nat, S: nat) {
    exists v :: HalfEven(v, x, S) && Shows(out, up, n, v)
  }

  /** The final rounding of the digits `s` with remainder `b`. */
  method RoundLast(s: seq<nat>, k: int, ghost b0: nat, b: nat, S: nat) returns (out: seq<nat>, k1: int)
    requires Digits(s) && b < S && Left(b0, S, s, b) && s[0] > 0
    ensures Rounded(out, k1 - k, |s|, b0 * Power(10, |s| - 1), S)
  {
    hide Shows, Num, Power;
    var dig := s[|s| - 1];
    ParityOfLast(s);
    if 2 * b > S || (2 * b == S && dig % 2 == 1) {
      out, k1 := Roundoff(s, k);
      RoundedUp(Num(s), b, S);
    } else {
      k1 := k;
      out := DropZeros(s);
      assert HalfEven(Num(s), Num(s) * S + b, S);
    }
  }

  /** Prints b0/S, between one and ten, rounded half-to-even to `ilim` digits. */
  method FixedDigits(b0: nat, S: nat, ilim: int, k: int) returns (out: seq<nat>, k1: int)
    requires 0 < S <= b0 < 10 * S
    ensures var n := if ilim < 1 then 1 else ilim; Rounded(out, k1 - k, n, b0 * Power(10, n - 1), S)
  {
    hide Power, Num, Rounded, Due, Left;
    var s: seq<nat> := [];
    var b := b0;
    var i := 1;
    NothingTaken(b0, S);
    while true
      invariant 1 <= i == |s| + 1 && (i > 1 ==> i <= ilim)
      invariant Digits(s) && (s == [] ==> S <= b) && (s != [] ==> s[0] > 0)
      invariant 0 <= b < 10 * S && Due(b0, S, s, b)
      decreases ilim - i
    {
      TakeDigit(b0, S, s, b);
      Divided(b, S);
      var dig := b / S;
      b := b % S;
      s := s + [dig];
      if i >= ilim {
        break;
      }
      NextPlace(b0, S, s, b);
      b := 10 * b;
      i := i + 1;
    }
    out, k1 := RoundLast(s, k, b0, b, S);
  }
}
