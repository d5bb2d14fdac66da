/** The shortest decimal within mlo below and mhi above b/S, found digit by digit. */
module DtoaShortest {
  import opened DtoaLimbs
  import opened DtoaDigits

  /** What the loop is given: the quotient b/S and how far below and above it an answer may lie. */
  datatype Target = Target(b: nat, S: nat, mlo: nat, mhi: nat, closed: bool) {
    ghost predicate Valid() {
      0 < S <= b < 10 * S && mlo > 0 && mhi > 0
    }

    /** `v` in the place of the n-th digit lies close enough; at the very ends only if closed. */
    ghost predicate Hit(v: nat, n: nat)
      requires n > 0
    {
      var p := Power(10, n - 1);
      if closed then v * S <= b * p + mhi * p && b * p <= v * S + mlo * p
      else v * S < b * p + mhi * p && b * p < v * S + mlo * p
    }

    /** No decimal with fewer than `n` digits is close enough. */
    ghost predicate NoneBefore(n: nat) {
      forall v: nat, m: nat :: 1 <= m < n ==> !Hit(v, m)
    }

    /** How far `v` in the place of the n-th digit lies from b/S. */
    ghost function Far(v: nat, n: nat): nat
      requires n > 0
    {
      var x := b * Power(10, n - 1);
      if v * S <= x then x - v * S else v * S - x
    }

    /** Any other decimal of that length that is close enough lies farther away, or as far when `w` is even. */
    ghost predicate Nearest(w: nat, n: nat)
      requires n > 0
    {
      forall v: nat | Hit(v, n) :: v == w || Far(w, n) < Far(v, n) || (Far(w, n) == Far(v, n) && w % 2 == 0)
    }

    /** b/S lies in the unit above `v`, and the end of that unit is the very end of a closed interval. */
    ghost predicate OnEnd(v: nat, n: nat)
      requires n > 0
    {
      var p := Power(10, n - 1);
      closed && v * S <= b * p < v * S + S == b * p + mhi * p
    }

    /**
     * `out` is close enough, no shorter decimal is, and it is the nearest of its length.  Just above
     * it, the very end of a closed interval is shunned where there is a choice, unless for a nine.
     */
    ghost predicate Shortest(out: seq<nat>, up: int) {
      && out != [] && Digits(out) && out[0] > 0 && 0 <= up <= 1
      && var w, n := Num(out) * Power(10, up), |out|;
      && Hit(w, n) && NoneBefore(n)
      && ((forall v: nat :: !OnEnd(v, n)) ==> Nearest(w, n))
      && (forall v: nat | OnEnd(v, n) :: w == if Hit(v, n) && v % 10 != 9 then v else v + 1)
    }

    /** The limit came first: nothing with up to `n` digits is close, and `out` is rounded. */
    ghost predicate CutAt(out: seq<nat>, up: int, n: nat) {
      n > 0 && NoneBefore(n + 1) && Rounded(out, up, n, b * Power(10, n - 1), S)
    }
  }

  /** Digits `s` with remainder `b`, when the bounds have grown to `mlo` and `mhi`. */
  ghost predicate At(t: Target, s: seq<nat>, b: nat, mlo: nat, mhi: nat) {
    && Left(t.b, t.S, s, b) && b < t.S && Digits(s)
    && mlo == t.mlo * Power(10, |s| - 1) && mhi == t.mhi * Power(10, |s| - 1)
  }

  /** What keeps the digits themselves from being close enough. */
  predicate TooLow(b: nat, mlo: nat, closed: bool) {
    if closed then b > mlo else b >= mlo
  }

  /** What keeps the next decimal above from being close enough. */
  predicate TooHigh(b: nat, S: nat, mhi: nat, closed: bool) {
    if closed then b + mhi < S else b + mhi <= S
  }

  lemma {:induction false} HitBelow(t: Target, s: seq<nat>, b: nat, mlo: nat, mhi: nat)
    requires t.Valid() && At(t, s, b, mlo, mhi)
    ensures t.Hit(Num(s), |s|) <==> !TooLow(b, mlo, t.closed)
  {
    hide Num, Power;
    Growing(t.mhi, Power(10, |s| - 1));
  }

  lemma {:induction false} HitAbove(t: Target, s: seq<nat>, b: nat, mlo: nat, mhi: nat)
    requires t.Valid() && At(t, s, b, mlo, mhi)
    ensures t.Hit(Num(s) + 1, |s|) <==> !TooHigh(b, t.S, mhi, t.closed)
  {
    hide Num, Power;
    Growing(t.mlo, Power(10, |s| - 1));
    assert (Num(s) + 1) * t.S == Num(s) * t.S + t.S;
  }

  lemma {:induction false} Growing(m: nat, p: nat)
    requires m > 0 && p > 0
    ensures m * p >= p > 0
  {
  }

  /** When neither neighbour is close enough, no decimal of that length is. */
  lemma {:induction false} NoneHere(t: Target, s: seq<nat>, b: nat, mlo: nat, mhi: nat, v: nat)
    requires t.Valid() && At(t, s, b, mlo, mhi)
    requires TooLow(b, mlo, t.closed) && TooHigh(b, t.S, mhi, t.closed)
    ensures !t.Hit(v, |s|)
  {
    hide Num, Power;
    if v <= Num(s) {
      Scaled(v, Num(s), t.S);
    } else {
      Scaled(Num(s) + 1, v, t.S);
      assert (Num(s) + 1) * t.S == Num(s) * t.S + t.S;
    }
  }

  lemma {:induction false} Scaled(v: nat, w: nat, S: nat)
    requires v <= w
    ensures v * S <= w * S
  {
  }

  lemma {:induction false} NoneYet(t: Target, s: seq<nat>, b: nat, mlo: nat, mhi: nat)
    requires t.Valid() && At(t, s, b, mlo, mhi) && t.NoneBefore(|s|)
    requires TooLow(b, mlo, t.closed) && TooHigh(b, t.S, mhi, t.closed)
    ensures t.NoneBefore(|s| + 1)
  {
    hide At, TooLow, TooHigh;
    forall v: nat, m: nat | 1 <= m < |s| + 1
      ensures !t.Hit(v, m)
    {
      if m == |s| {
        NoneHere(t, s, b, mlo, mhi, v);
      }
    }
  }

  // ----- When to stop -----

  function Cmp(a: nat, b: nat): int {
    if a < b then -1 else if a == b then 0 else 1
  }

  datatype Choice = More | Put(digit: nat) | Nine

  /** The choice after a digit is known: go on, end with a digit, or end with a nine carried on. */
  function Decide(dig: nat, b: nat, S: nat, mlo: nat, mhi: nat, closed: bool): (c: Choice)
    requires dig <= 9
    ensures c == More <==> TooLow(b, mlo, closed) && TooHigh(b, S, mhi, closed)
    ensures c.Put? ==> c.digit <= 9
    ensures c.Put? && c.digit == dig ==> !TooLow(b, mlo, closed)
    ensures c.Put? && c.digit != dig ==> c.digit == dig + 1 && !TooHigh(b, S, mhi, closed)
    ensures c.Nine? ==> dig == 9 && !TooHigh(b, S, mhi, closed)
    ensures !TooLow(b, mlo, closed) && b + mhi > S ==>
              (c == Put(dig) <==> 2 * b < S || (2 * b == S && dig % 2 == 0))
    ensures closed && b <= mlo && b + mhi == S ==> c == if dig == 9 then Nine else Put(dig)
  {
    var j := Cmp(b, mlo);
    var j1 := if mhi > S then 1 else Cmp(b, S - mhi);
    if j1 == 0 && closed then
      if dig == 9 then Nine else Put(if j > 0 then dig + 1 else dig)
    else if j < 0 || (j == 0 && closed) then
      if j1 > 0 && (Cmp(2 * b, S) > 0 || (Cmp(2 * b, S) == 0 && dig % 2 == 1)) then
        if dig == 9 then Nine else Put(dig + 1)
      else Put(dig)
    else if j1 > 0 then
      if dig == 9 then Nine else Put(dig + 1)
    else More
  }

  lemma {:induction false} LastFigure(s: seq<nat>, dig: nat)
    requires dig <= 9
    ensures Num(s + [dig]) % 2 == dig % 2 && Num(s + [dig]) % 10 == dig
  {
    hide Num;
    NumAppend(s, dig);
    Figures(Num(s), dig);
    Parity(Num(s), dig);
  }

  lemma {:induction false} Figures(m: nat, d: nat)
    requires d <= 9
    ensures (10 * m + d) % 10 == d
  {
  }

  lemma {:induction false} Parity(m: nat, d: nat)
    ensures (10 * m + d) % 2 == d % 2
  {
  }

  lemma {:induction false} Successor(v: nat, S: nat)
    ensures (v + 1) * S == v * S + S
  {
  }

  /** Only the digits found have b/S in the unit above them. */
  lemma {:induction false} SameFloor(t: Target, s: seq<nat>, b: nat, mlo: nat, mhi: nat, v: nat)
    requires t.Valid() && At(t, s, b, mlo, mhi)
    requires v * t.S <= t.b * Power(10, |s| - 1) < v * t.S + t.S
    ensures v == Num(s)
  {
    hide Num, Power;
    Successor(v, t.S);
    Successor(Num(s), t.S);
    if v < Num(s) {
      Scaled(v + 1, Num(s), t.S);
    }
    if v > Num(s) {
      Scaled(Num(s) + 1, v, t.S);
    }
  }

  /** The distances of the decimals below and above, in terms of what is left. */
  lemma {:induction false} Distance(t: Target, s: seq<nat>, b: nat, mlo: nat, mhi: nat, v: nat)
    requires t.Valid() && At(t, s, b, mlo, mhi)
    ensures v == Num(s) ==> t.Far(v, |s|) == b
    ensures v < Num(s) ==> t.Far(v, |s|) >= t.S + b
    ensures v == Num(s) + 1 ==> t.Far(v, |s|) == t.S - b
    ensures v > Num(s) + 1 ==> t.Far(v, |s|) >= 2 * t.S - b
  {
    hide Num, Power;
    Successor(v, t.S);
    Successor(Num(s), t.S);
    Successor(Num(s) + 1, t.S);
    if v < Num(s) {
      Scaled(v + 1, Num(s), t.S);
    }
    if v > Num(s) + 1 {
      Scaled(Num(s) + 2, v, t.S);
    }
  }

  /** A decimal farther out is close enough only if the neighbour on its side is. */
  lemma {:induction false} NeighbourHit(t: Target, s: seq<nat>, b: nat, mlo: nat, mhi: nat, v: nat)
    requires t.Valid() && At(t, s, b, mlo, mhi) && t.Hit(v, |s|)
    ensures v <= Num(s) ==> !TooLow(b, mlo, t.closed)
    ensures v > Num(s) ==> !TooHigh(b, t.S, mhi, t.closed)
  {
    hide Num, Power;
    if v <= Num(s) {
      Scaled(v, Num(s), t.S);
    } else {
      Successor(Num(s), t.S);
      Scaled(Num(s) + 1, v, t.S);
    }
  }

  /** The upper neighbour is on the end of the interval just when the bound says so. */
  lemma {:induction false} EndReached(t: Target, s: seq<nat>, b: nat, mlo: nat, mhi: nat)
    requires t.Valid() && s != [] && At(t, s, b, mlo, mhi)
    ensures t.OnEnd(Num(s), |s|) <==> t.closed && b + mhi == t.S
    ensures forall v: nat | t.OnEnd(v, |s|) :: v == Num(s)
  {
    hide Num, Power, At;
    forall v: nat | t.OnEnd(v, |s|)
      ensures v == Num(s)
    {
      SameFloor(t, s, b, mlo, mhi, v);
    }
    AtFloor(t, s, b, mlo, mhi);
  }

  lemma {:induction false} AtFloor(t: Target, s: seq<nat>, b: nat, mlo: nat, mhi: nat)
    requires t.Valid() && At(t, s, b, mlo, mhi)
    ensures t.OnEnd(Num(s), |s|) <==> t.closed && b + mhi == t.S
  {
    hide Num, Power;
  }

  /** What the choice must have done for `w` to be the right one of the two neighbours. */
  ghost predicate Picked(t: Target, f: nat, b: nat, mlo: nat, mhi: nat, w: nat) {
    && (w == f || w == f + 1)
    && (w == f ==> !TooLow(b, mlo, t.closed))
    && (w == f + 1 ==> !TooHigh(b, t.S, mhi, t.closed))
    && (!TooLow(b, mlo, t.closed) && b + mhi > t.S ==> (w == f <==> 2 * b < t.S || (2 * b == t.S && f % 2 == 0)))
    && (t.closed && b <= mlo && b + mhi == t.S ==> (w == f <==> f % 10 != 9))
  }

  lemma {:induction false} NearestPicked(t: Target, s: seq<nat>, b: nat, mlo: nat, mhi: nat, w: nat, v: nat)
    requires t.Valid() && At(t, s, b, mlo, mhi) && Picked(t, Num(s), b, mlo, mhi, w)
    requires !(t.closed && b + mhi == t.S) && t.Hit(v, |s|)
    ensures v == w || t.Far(w, |s|) < t.Far(v, |s|) || (t.Far(w, |s|) == t.Far(v, |s|) && w % 2 == 0)
  {
    hide Num, Power, Target.Far, Target.Hit;
    Distance(t, s, b, mlo, mhi, v);
    Distance(t, s, b, mlo, mhi, w);
    NeighbourHit(t, s, b, mlo, mhi, v);
  }

  lemma {:induction false} ShortestPicked(t: Target, s: seq<nat>, b: nat, mlo: nat, mhi: nat, out: seq<nat>, up: int)
    requires t.Valid() && s != [] && At(t, s, b, mlo, mhi) && t.NoneBefore(|s|)
    requires |out| == |s| && Digits(out) && out[0] > 0 && 0 <= up <= 1
    requires Picked(t, Num(s), b, mlo, mhi, Num(out) * Power(10, up))
    ensures t.Shortest(out, up)
  {
    hide Num, Power, At, Target.Hit, Target.Far, Target.OnEnd, Target.NoneBefore;
    var w, n := Num(out) * Power(10, up), |s|;
    HitBelow(t, s, b, mlo, mhi);
    HitAbove(t, s, b, mlo, mhi);
    EndReached(t, s, b, mlo, mhi);
    if !t.OnEnd(Num(s), n) {
      forall v: nat | t.Hit(v, n)
        ensures v == w || t.Far(w, n) < t.Far(v, n) || (t.Far(w, n) == t.Far(v, n) && w % 2 == 0)
      {
        NearestPicked(t, s, b, mlo, mhi, w, v);
      }
    }
  }

  lemma {:induction false} EndsHere(t: Target, s: seq<nat>, b: nat, mlo: nat, mhi: nat, dig: nat)
    requires t.Valid() && s != [] && At(t, s, b, mlo, mhi) && t.NoneBefore(|s|) && s[0] > 0
    requires Decide(s[|s| - 1], b, t.S, mlo, mhi, t.closed) == Put(dig)
    ensures t.Shortest(s[..|s| - 1] + [dig], 0)
  {
    hide Power, Num, At, TooLow, TooHigh, Target.Shortest;
    var s0, last := s[..|s| - 1], s[|s| - 1];
    var out := s0 + [dig];
    assert s == s0 + [last];
    NumAppend(s0, last);
    NumAppend(s0, dig);
    DigitsOf(t, s, b, mlo, mhi);
    LastFigure(s0, last);
    Unscaled(Num(out));
    ShortestPicked(t, s, b, mlo, mhi, out, 0);
  }

  lemma {:induction false} DigitsOf(t: Target, s: seq<nat>, b: nat, mlo: nat, mhi: nat)
    requires At(t, s, b, mlo, mhi)
    ensures Digits(s)
  {
  }

  lemma {:induction false} Unscaled(v: nat)
    ensures v * Power(10, 0) == v
  {
  }

  // ----- The nine that is carried on -----

  /** What is close enough with a zero at the end is so without it. */
  lemma {:induction false} WithoutZero(t: Target, v: nat, n: nat)
    requires n > 0 && t.Hit(10 * v, n + 1)
    ensures t.Hit(v, n)
  {
    var p := Power(10, n - 1);
    Tenfold(t.b, p);
    Tenfold(t.mlo, p);
    Tenfold(t.mhi, p);
    assert (10 * v) * t.S == 10 * (v * t.S);
  }

  /** So the digits of a shortest decimal do not end in a zero. */
  lemma {:induction false} NoZeroAtEnd(t: Target, out: seq<nat>)
    requires t.Shortest(out, 0) && |out| > 1
    ensures out[|out| - 1] > 0
  {
    hide Power;
    if out[|out| - 1] == 0 {
      var s := out[..|out| - 1];
      Unscaled(Num(out));
      WithoutZero(t, Num(s), |s|);
      assert false;
    }
  }

  /** A nine is carried only from the first digit, where it makes the quotient ten. */
  lemma {:induction false} NineIsFirst(t: Target, s: seq<nat>, b: nat, mlo: nat, mhi: nat)
    requires t.Valid() && s != [] && At(t, s, b, mlo, mhi) && t.NoneBefore(|s|)
    requires Decide(s[|s| - 1], b, t.S, mlo, mhi, t.closed) == Nine
    ensures s == [9]
  {
    hide Power, Num, At, TooLow, TooHigh;
    var s0 := s[..|s| - 1];
    assert s == s0 + [9];
    NumAppend(s0, 9);
    HitAbove(t, s, b, mlo, mhi);
    if s0 != [] {
      WithoutZero(t, Num(s0) + 1, |s0|);
      assert false;
    }
  }

  lemma {:induction false} NumOne(d: nat)
    ensures Num([d]) == d
  {
    NumAppend([], d);
    assert [] + [d] == [d];
  }

  lemma {:induction false} TenShown(out: seq<nat>, up: int)
    requires Shows(out, up, 1, Num([9]) + 1)
    ensures out == [1] && up == 1
  {
    NumOne(9);
    NumOne(out[0]);
    assert out == [out[0]];
  }

  lemma {:induction false} NothingBefore(t: Target)
    ensures t.NoneBefore(1)
  {
  }

  lemma {:induction false} TenIsShortest(t: Target, b: nat, mlo: nat, mhi: nat)
    requires t.Valid() && At(t, [9], b, mlo, mhi)
    requires Decide(9, b, t.S, mlo, mhi, t.closed) == Nine
    ensures t.Shortest([1], 1)
  {
    hide At, TooLow, TooHigh, Target.Shortest;
    NumOne(9);
    NumOne(1);
    NothingBefore(t);
    ShortestPicked(t, [9], b, mlo, mhi, [1], 1);
  }

  // ----- There is only one such decimal -----

  lemma {:induction false} ShorterHit(t: Target, out: seq<nat>, up: int, n: nat, w: nat)
    requires t.Shortest(out, up) && n > 0 && t.Hit(w, n)
    ensures |out| <= n
  {
    hide Power, Num, Target.Hit, Target.Nearest, Target.OnEnd;
  }

  /** Between two even numbers at the same distance lies one that is nearer, and it is close enough if they are. */
  lemma {:induction false} NearerBetween(t: Target, n: nat, w: nat, w': nat)
    requires t.Valid() && n > 0 && w + 2 <= w' && t.Far(w, n) == t.Far(w', n) && t.Hit(w, n) && t.Hit(w', n)
    ensures t.Hit(w + 1, n) && t.Far(w + 1, n) < t.Far(w, n)
  {
    hide Power;
    Successor(w, t.S);
    Successor(w + 1, t.S);
    Scaled(w + 2, w', t.S);
  }

  lemma {:induction false} SameValue(t: Target, n: nat, w: nat, w': nat)
    requires t.Valid() && n > 0 && t.Hit(w, n) && t.Hit(w', n)
    requires t.Nearest(w, n) && t.Nearest(w', n)
    ensures w == w'
  {
    hide Power, Target.Hit, Target.Far;
    if w < w' {
      NearerBetween(t, n, w, w');
    } else if w' < w {
      NearerBetween(t, n, w', w);
    }
  }

  lemma {:induction false} NumAtLeast(s: seq<nat>)
    requires s != [] && s[0] > 0
    ensures Num(s) >= Power(10, |s| - 1)
  {
    if |s| > 1 {
      NumAtLeast(s[..|s| - 1]);
    }
  }

  lemma {:induction false} SameDigits(s: seq<nat>, s': seq<nat>)
    requires |s| == |s'| && Digits(s) && Digits(s') && Num(s) == Num(s')
    ensures s == s'
  {
    if s != [] {
      var k := |s| - 1;
      SameDigits(s[..k], s'[..k]);
      assert s == s[..k] + [s[k]] && s' == s'[..k] + [s'[k]];
    }
  }

  lemma {:induction false} SameShape(out: seq<nat>, up: int, out': seq<nat>, up': int)
    requires out != [] && |out| == |out'| && Digits(out) && Digits(out') && out[0] > 0 && out'[0] > 0
    requires 0 <= up <= 1 && 0 <= up' <= 1 && Num(out) * Power(10, up) == Num(out') * Power(10, up')
    ensures out == out' && up == up'
  {
    hide Num;
    NumBound(out);
    NumBound(out');
    NumAtLeast(out);
    NumAtLeast(out');
    assert Power(10, 1) == 10 && Power(10, |out|) == 10 * Power(10, |out| - 1);
    SameDigits(out, out');
  }

  /** No two decimals are shortest: the digits and their place are determined. */
  lemma {:induction false} ShortestUnique(t: Target, out: seq<nat>, up: int, out': seq<nat>, up': int)
    requires t.Valid() && t.Shortest(out, up) && t.Shortest(out', up')
    ensures out == out' && up == up'
  {
    hide Power, Num, Target.Hit, Target.Nearest, Target.OnEnd, Target.NoneBefore;
    ShorterHit(t, out', up', |out|, Num(out) * Power(10, up));
    ShorterHit(t, out, up, |out'|, Num(out') * Power(10, up'));
    var n, w, w' := |out|, Num(out) * Power(10, up), Num(out') * Power(10, up');
    if v: nat :| t.OnEnd(v, n) {
      assert w == w';
    } else {
      SameValue(t, n, w, w');
    }
    SameShape(out, up, out', up');
  }

  /** Where both decimals around b/S will do, the upper not just barely, the shortest one is b/S rounded half-to-even. */
  lemma {:induction false} NearerOfTwo(t: Target, out: seq<nat>, up: int, v: nat)
    requires t.Valid() && t.Shortest(out, up) && t.Hit(v, |out|)
    requires var p := Power(10, |out| - 1); v * t.S <= t.b * p < v * t.S + t.S < t.b * p + t.mhi * p
    ensures HalfEven(Num(out) * Power(10, up), t.b * Power(10, |out| - 1), t.S)
  {
    hide Power, Num;
    var n, w, p := |out|, Num(out) * Power(10, up), Power(10, |out| - 1);
    Successor(v, t.S);
    Growing(t.mlo, p);
    assert t.Hit(v + 1, n);
    forall u: nat
      ensures !t.OnEnd(u, n)
    {
      if t.OnEnd(u, n) {
        OneFloor(u, v, t.b * p, t.S);
      }
    }
    HalfEvenNear(t, n, w, v);
  }

  lemma {:induction false} OneFloor(u: nat, v: nat, x: nat, S: nat)
    requires u * S <= x < u * S + S && v * S <= x < v * S + S
    ensures u == v
  {
    Successor(u, S);
    Successor(v, S);
    if u < v {
      Scaled(u + 1, v, S);
    } else if v < u {
      Scaled(v + 1, u, S);
    }
  }

  lemma {:induction false} HalfEvenNear(t: Target, n: nat, w: nat, v: nat)
    requires t.Valid() && n > 0 && t.Nearest(w, n) && t.Hit(v, n) && t.Hit(v + 1, n)
    requires v * t.S <= t.b * Power(10, n - 1) < v * t.S + t.S
    ensures HalfEven(w, t.b * Power(10, n - 1), t.S)
  {
    hide Power, Target.Hit;
    Successor(v, t.S);
    Beaten(t, n, w, v);
    Beaten(t, n, w, v + 1);
    NearBoth(t.b * Power(10, n - 1), w * t.S, v * t.S, t.S, w % 2 == 0);
  }

  function Gap(x: int, y: int): nat { if x <= y then y - x else x - y }

  lemma {:induction false} Beaten(t: Target, n: nat, w: nat, v: nat)
    requires n > 0 && t.Nearest(w, n) && t.Hit(v, n)
    ensures var x := t.b * Power(10, n - 1);
      w * t.S == v * t.S || Gap(w * t.S, x) < Gap(v * t.S, x) || (Gap(w * t.S, x) == Gap(v * t.S, x) && w % 2 == 0)
  {
    hide Power, Target.Hit;
    assert v == w || t.Far(w, n) < t.Far(v, n) || (t.Far(w, n) == t.Far(v, n) && w % 2 == 0);
  }

  lemma {:induction false} NearBoth(x: int, w: int, v: int, S: int, even: bool)
    requires v <= x < v + S
    requires w == v || Gap(w, x) < Gap(v, x) || (Gap(w, x) == Gap(v, x) && even)
    requires w == v + S || Gap(w, x) < Gap(v + S, x) || (Gap(w, x) == Gap(v + S, x) && even)
    ensures 2 * x <= 2 * w + S && 2 * w <= 2 * x + S
    ensures 2 * x == 2 * w + S || 2 * w == 2 * x + S ==> even
  {
  }

  // ----- The loop -----

  ghost predicate Ahead(t: Target, s: seq<nat>, b: nat, mlo: nat, mhi: nat) {
    && Due(t.b, t.S, s, b) && b < 10 * t.S && Digits(s) && t.NoneBefore(|s| + 1)
    && mlo == t.mlo * Power(10, |s|) && mhi == t.mhi * Power(10, |s|)
    && (s == [] ==> t.S <= b) && (s != [] ==> s[0] > 0)
  }

  lemma {:induction false} AtStart(t: Target)
    requires t.Valid()
    ensures Ahead(t, [], t.b, t.mlo, t.mhi)
  {
    NothingTaken(t.b, t.S);
  }

  lemma {:induction false} DigitTaken(t: Target, s: seq<nat>, b: nat, mlo: nat, mhi: nat)
    requires t.Valid() && Ahead(t, s, b, mlo, mhi)
    ensures b / t.S <= 9 && b % t.S < t.S
    ensures At(t, s + [b / t.S], b % t.S, mlo, mhi) && t.NoneBefore(|s| + 1)
    ensures (s + [b / t.S])[0] > 0
  {
    hide Power, Num;
    TakeDigit(t.b, t.S, s, b);
    Divided(b, t.S);
  }

  lemma {:induction false} OnePlaceOn(t: Target, s: seq<nat>, b: nat, mlo: nat, mhi: nat)
    requires t.Valid() && At(t, s, b, mlo, mhi) && t.NoneBefore(|s|) && s[0] > 0
    requires TooLow(b, mlo, t.closed) && TooHigh(b, t.S, mhi, t.closed)
    ensures Ahead(t, s, 10 * b, 10 * mlo, 10 * mhi) && t.NoneBefore(|s| + 1)
    ensures 0 < mlo <= b < t.S
  {
    hide Num;
    NoneYet(t, s, b, mlo, mhi);
    NextPlace(t.b, t.S, s, b);
    Tenfold(t.mlo, Power(10, |s| - 1));
    Tenfold(t.mhi, Power(10, |s| - 1));
    Growing(t.mlo, Power(10, |s| - 1));
  }

  /**
   * Digits of b/S until they are close enough, or until there are `ilim` of them, which the
   * modes without a digit count never reach (`ilim` is then -1).
   */
  method ShortestDigits(t: Target, ilim: int, k: int) returns (out: seq<nat>, k1: int)
    requires t.Valid()
    ensures || (t.Shortest(out, k1 - k) && (ilim > 0 ==> |out| <= ilim))
            || (ilim > 0 && t.CutAt(out, k1 - k, ilim))
  {
    hide Power, Num, At, Ahead, Decide, TooLow, TooHigh, Target.Hit, Target.NoneBefore, Target.Shortest, Target.CutAt;
    var b, mlo, mhi := t.b, t.mlo, t.mhi;
    var s: seq<nat> := [];
    var i := 1;
    AtStart(t);
    while true
      invariant 1 <= i == |s| + 1 && (ilim > 0 ==> i <= ilim)
      invariant 0 <= b && 0 <= mlo && 0 <= mhi && Ahead(t, s, b, mlo, mhi)
      decreases t.S - mlo
    {
      DigitTaken(t, s, b, mlo, mhi);
      var dig := b / t.S;
      b := b % t.S;
      match Decide(dig, b, t.S, mlo, mhi, t.closed) {
        case Put(d) => {
          EndsHere(t, s + [dig], b, mlo, mhi, d);
          assert (s + [dig])[..|s|] == s;
          return s + [d], k;
        }
        case Nine => {
          NineIsFirst(t, s + [dig], b, mlo, mhi);
          TenIsShortest(t, b, mlo, mhi);
          out, k1 := RoundNineUp(s + [9], k);
          return;
        }
        case More => {
          s := s + [dig];
        }
      }
      OnePlaceOn(t, s, b, mlo, mhi);
      if i == ilim {
        break;
      }
      b, mlo, mhi := 10 * b, 10 * mlo, 10 * mhi;
      i := i + 1;
    }
    out, k1 := Cut(t, s, b, mlo, mhi, k, t.S);
  }

  method RoundNineUp(s: seq<nat>, k: int) returns (out: seq<nat>, k1: int)
    requires s == [9]
    ensures out == [1] && k1 == k + 1
  {
    out, k1 := Roundoff(s, k);
    TenShown(out, k1 - k);
  }

  method Cut(ghost t: Target, s: seq<nat>, b: nat, ghost mlo: nat, ghost mhi: nat, k: int, S: nat) returns (out: seq<nat>, k1: int)
    requires t.Valid() && S == t.S && At(t, s, b, mlo, mhi) && t.NoneBefore(|s| + 1) && s[0] > 0
    ensures t.CutAt(out, k1 - k, |s|)
  {
    hide Power, Num, Rounded;
    out, k1 := RoundLast(s, k, t.b, b, S);
  }
}
