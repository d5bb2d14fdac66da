/** The in-place exchange of two adjacent blocks of arguments, along gcd-many cycles. */
module GetoptPermute {
  import opened Multiples

  // ----- The greatest common divisor -----

  ghost predicate Divides(d: int, x: int) {
    exists q :: x == d * q
  }

  /** `g` is the greatest common divisor: a common divisor, and a combination of the two. */
  ghost predicate IsGcd(g: int, a: int, b: int) {
    && g > 0 && Divides(g, a) && Divides(g, b)
    && Combines(g, a, b)
  }

  ghost predicate Combines(g: int, a: int, b: int) {
    exists u, v :: Combination(u, v, a, b) == g
  }

  ghost function Combination(u: int, v: int, a: int, b: int): int {
    u * a + v * b
  }

  /** Every common divisor divides such a `g`, so it is indeed the greatest. */
  lemma {:induction false} GcdIsGreatest(g: int, a: int, b: int, d: int)
    requires IsGcd(g, a, b) && Divides(d, a) && Divides(d, b)
    ensures Divides(d, g) && (d > 0 ==> d <= g)
  {
    var u, v :| Combination(u, v, a, b) == g;
    var p :| a == d * p;
    var q :| b == d * q;
    Factor(u, v, d, p, q);
    assert g == d * (u * p + v * q);
    if d > 0 {
      AtLeastOne(d, u * p + v * q);
    }
  }

  lemma {:induction false} Factor(u: int, v: int, d: int, p: int, q: int)
    ensures u * (d * p) + v * (d * q) == d * (u * p + v * q)
  {
  }

  lemma {:induction false} AtLeastOne(d: int, k: int)
    requires d > 0 && d * k > 0
    ensures d <= d * k
  {
  }

  /** One step of Euclid's algorithm keeps the greatest common divisor. */
  lemma {:induction false} GcdStep(g: int, a: int, b: int)
    requires b > 0 && IsGcd(g, b, a % b)
    ensures IsGcd(g, a, b)
  {
    var k := a / b;
    var u, v :| Combination(u, v, b, a % b) == g;
    var p :| b == g * p;
    var q :| a % b == g * q;
    assert a == b * k + a % b;
    Factor(k, 1, g, p, q);
    assert a == g * (k * p + 1 * q);
    Rearranged(u, v, b, k, a);
    assert Combination(v, u - v * k, a, b) == g;
  }

  lemma {:induction false} Rearranged(u: int, v: int, b: int, k: int, a: int)
    ensures u * b + v * (a - b * k) == v * a + (u - v * k) * b
  {
  }

  lemma {:induction false} GcdZero(b: int)
    requires b > 0
    ensures IsGcd(b, b, 0)
  {
    assert b == b * 1 && 0 == b * 0;
    assert Combination(1, 0, b, 0) == b;
  }

  method Gcd(m: nat, n: nat) returns (g: nat)
    requires n > 0
    ensures IsGcd(g, m, n)
  {
    var a, b := m, n;
    var c := a % b;
    while c != 0
      invariant b > 0 && c == a % b
      invariant forall d :: IsGcd(d, a, b) ==> IsGcd(d, m, n)
      decreases c
    {
      forall d | IsGcd(d, b, c)
        ensures IsGcd(d, m, n)
      {
        GcdStep(d, a, b);
      }
      a := b;
      b := c;
      c := a % b;
    }
    GcdZero(b);
    GcdStep(b, a, b);
    g := b;
  }

  // ----- The cycles -----

  /** Where the argument at offset `x` belongs: the blocks have `m` and `n` arguments. */
  function Move(x: int, m: int, n: int): int {
    if x >= m then x - m else x + n
  }

  /** The offset after `j` moves from `c`. */
  ghost function Orbit(c: int, m: int, n: int, j: nat): int {
    if j == 0 then c else Move(Orbit(c, m, n, j - 1), m, n)
  }

  /** How often those moves went past the end and around. */
  ghost function Wraps(c: int, m: int, n: int, j: nat): int {
    if j == 0 then 0 else Wraps(c, m, n, j - 1) + (if Orbit(c, m, n, j - 1) >= m then 1 else 0)
  }

  ghost predicate Blocks(c: int, m: int, n: int) {
    m >= 0 && n > 0 && 0 <= c < m + n
  }

  lemma {:induction false} OrbitForm(c: int, m: int, n: int, j: nat)
    requires Blocks(c, m, n)
    ensures 0 <= Orbit(c, m, n, j) < m + n
    ensures Orbit(c, m, n, j) == c + j * n - (m + n) * Wraps(c, m, n, j)
  {
    if j == 0 {
      assert 0 * n == 0 && (m + n) * 0 == 0;
    } else {
      OrbitForm(c, m, n, j - 1);
      MoveForm(j - 1, n, m + n, Wraps(c, m, n, j - 1));
    }
  }

  lemma {:induction false} MoveForm(j: int, n: int, total: int, w: int)
    ensures (j + 1) * n == j * n + n && total * (w + 1) == total * w + total
  {
  }

  /** The numbers of a rotation: N = m + n arguments in g cycles of length len. */
  ghost predicate Cycles(m: int, n: int, g: int, len: int, h: int, u: int, v: int) {
    && m >= 0 && n > 0 && g > 0 && len > 0
    && m + n == g * len && n == g * h
    && u * n + v * (m + n) == g
  }

  lemma {:induction false} Combined(u: int, v: int, n: int, total: int, g: int, d: int, w: int)
    requires u * n + v * total == g && d * n == total * w
    ensures d * g == total * (u * w + v * d)
  {
    assert d * g == u * (d * n) + v * (total * d);
    assert u * (total * w) == total * (u * w);
    assert v * (total * d) == total * (v * d);
  }

  /** Within one cycle no offset comes twice. */
  lemma {:induction false} OrbitDistinct(c: int, m: int, n: int, j: nat, k: nat, g: int, len: int, h: int, u: int, v: int)
    requires Blocks(c, m, n) && Cycles(m, n, g, len, h, u, v)
    requires j < k < j + len
    ensures Orbit(c, m, n, j) != Orbit(c, m, n, k)
  {
    OrbitForm(c, m, n, j);
    OrbitForm(c, m, n, k);
    if Orbit(c, m, n, j) == Orbit(c, m, n, k) {
      var d, w := k - j, Wraps(c, m, n, k) - Wraps(c, m, n, j);
      Difference(j, k, n, m + n, Wraps(c, m, n, j), Wraps(c, m, n, k));
      Combined(u, v, n, m + n, g, d, w);
      Below(d, len, g);
      SmallMultiple(m + n, u * w + v * d, d * g);
      Positive(d, g);
    }
  }

  lemma {:induction false} Difference(j: int, k: int, n: int, total: int, wj: int, wk: int)
    requires j * n - total * wj == k * n - total * wk
    ensures (k - j) * n == total * (wk - wj)
  {
  }

  lemma {:induction false} Below(d: int, len: int, g: int)
    requires 0 < d < len && g > 0
    ensures 0 < d * g < g * len
  {
    assert d * g < len * g;
  }

  lemma {:induction false} Positive(d: int, g: int)
    requires d > 0 && g > 0
    ensures d * g > 0
  {
  }

  /** After `len` moves the cycle is closed. */
  lemma {:induction false} OrbitCloses(c: int, m: int, n: int, g: int, len: nat, h: int, u: int, v: int)
    requires Blocks(c, m, n) && Cycles(m, n, g, len, h, u, v)
    ensures Orbit(c, m, n, len) == c
  {
    OrbitForm(c, m, n, len);
    var w, x := Wraps(c, m, n, len), Orbit(c, m, n, len);
    WholeTurns(len, g, h, n, m + n, w, x - c);
    SmallMultiple(m + n, h - w, x - c);
  }

  lemma {:induction false} WholeTurns(len: int, g: int, h: int, n: int, total: int, w: int, x: int)
    requires n == g * h && total == g * len && x == len * n - total * w
    ensures x == total * (h - w)
  {
    assert len * (g * h) == (g * len) * h;
  }

  /** A cycle stays in one residue class. */
  lemma {:induction false} OrbitResidue(c: int, m: int, n: int, j: nat, g: int, len: int, h: int, u: int, v: int)
    requires Blocks(c, m, n) && Cycles(m, n, g, len, h, u, v)
    ensures Divides(g, Orbit(c, m, n, j) - c)
  {
    hide Orbit, Wraps;
    OrbitForm(c, m, n, j);
    CommonFactor(j, g, h, n, len, m + n, Wraps(c, m, n, j));
  }

  lemma {:induction false} CommonFactor(j: int, g: int, h: int, n: int, len: int, total: int, w: int)
    requires n == g * h && total == g * len
    ensures Divides(g, j * n - total * w)
  {
    assert j * (g * h) - (g * len) * w == g * (j * h - len * w);
  }

  /** A cycle visits every offset of its residue class. */
  lemma {:induction false} OrbitCovers(c: int, m: int, n: int, z: int, t: int, g: int, len: int, h: int, u: int, v: int) returns (j: nat)
    requires Blocks(c, m, n) && Cycles(m, n, g, len, h, u, v)
    requires 0 <= z < m + n && z - c == g * t
    ensures j < len && Orbit(c, m, n, j) == z
  {
    hide Orbit, Wraps;
    j := (t * u) % len;
    var q := (t * u) / len;
    OrbitForm(c, m, n, j);
    var x, w := Orbit(c, m, n, j), Wraps(c, m, n, j);
    CoverForm(t, u, v, n, m + n, g, len, h, j, q);
    Together(m + n, q * h + t * v, w);
    SmallMultiple(m + n, q * h + t * v + w, z - x);
  }

  lemma {:induction false} Together(k: int, a: int, b: int)
    ensures k * a + k * b == k * (a + b)
  {
  }

  lemma {:induction false} CoverForm(t: int, u: int, v: int, n: int, total: int, g: int, len: int, h: int, j: int, q: int)
    requires u * n + v * total == g && total == g * len && n == g * h && t * u == len * q + j
    ensures g * t == j * n + total * (q * h + t * v)
  {
    assert g * t == (t * u) * n + total * (t * v);
    assert (len * q + j) * n == (len * q) * n + j * n;
    assert (len * q) * (g * h) == (g * len) * (q * h);
    assert total * (q * h) + total * (t * v) == total * (q * h + t * v);
  }

  // ----- One cycle of swaps -----

  /** The numbers of a rotation of `total` arguments, as one value. */
  ghost predicate Rotation(m: int, n: int, g: int, len: int) {
    g > 0 && len > 0 && m + n == g * len && exists h, u, v :: Cycles(m, n, g, len, h, u, v)
  }

  /** The moves `1..j` of the cycle from `c` do not reach offset `z`. */
  ghost predicate Unvisited(z: int, c: int, m: int, n: int, j: nat) {
    forall k: nat :: 1 <= k <= j ==> Orbit(c, m, n, k) != z
  }

  /** Every argument the moves `1..j` reached has taken its predecessor's place. */
  ghost predicate Carried<T(!new)>(was: seq<T>, now: seq<T>, c: int, m: int, n: int, j: nat)
    requires Blocks(c, m, n) && |was| == |now| == m + n
  {
    forall k: nat {:trigger Orbit(c, m, n, k)} :: 1 <= k <= j ==> Carries(was, now, c, m, n, k)
  }

  ghost predicate Carries<T(!new)>(was: seq<T>, now: seq<T>, c: int, m: int, n: int, k: nat)
    requires Blocks(c, m, n) && |was| == |now| == m + n && k >= 1
  {
    OrbitForm(c, m, n, k);
    OrbitForm(c, m, n, k - 1);
    now[Orbit(c, m, n, k)] == was[Orbit(c, m, n, k - 1)]
  }

  ghost predicate Kept<T(!new)>(was: seq<T>, now: seq<T>, c: int, m: int, n: int, j: nat)
    requires Blocks(c, m, n) && |was| == |now| == m + n
  {
    forall z | 0 <= z < m + n && z != c :: Unvisited(z, c, m, n, j) ==> now[z] == was[z]
  }

  /** After `j` swaps with the argument at `c`, which holds the one still to be placed. */
  ghost predicate Swapped<T(!new)>(was: seq<T>, now: seq<T>, c: int, m: int, n: int, j: nat)
    requires Blocks(c, m, n) && |was| == |now| == m + n
  {
    OrbitForm(c, m, n, j);
    && Carried(was, now, c, m, n, j)
    && Kept(was, now, c, m, n, j)
    && now[c] == was[Orbit(c, m, n, j)]
  }

  lemma {:induction false} FirstVisit(c: int, m: int, n: int, j: nat, g: int, len: int)
    requires Blocks(c, m, n) && Rotation(m, n, g, len) && 1 <= j < len
    ensures Orbit(c, m, n, j) != c && Unvisited(Orbit(c, m, n, j), c, m, n, j - 1)
  {
    var h, u, v :| Cycles(m, n, g, len, h, u, v);
    OrbitDistinct(c, m, n, 0, j, g, len, h, u, v);
    forall k: nat | 1 <= k <= j - 1
      ensures Orbit(c, m, n, k) != Orbit(c, m, n, j)
    {
      OrbitDistinct(c, m, n, k, j, g, len, h, u, v);
    }
  }

  function Exchanged<T>(s: seq<T>, x: nat, y: nat): (r: seq<T>)
    requires x < |s| && y < |s|
    ensures |r| == |s|
  {
    s[x := s[y]][y := s[x]]
  }

  lemma {:induction false} OneMoreCarried<T(!new)>(was: seq<T>, now: seq<T>, c: int, m: int, n: int, j: nat, g: int, len: int)
    requires Blocks(c, m, n) && |was| == |now| == m + n && Rotation(m, n, g, len) && j + 1 < len
    requires Swapped(was, now, c, m, n, j)
    requires 0 <= Orbit(c, m, n, j + 1) < m + n
    ensures Carried(was, Exchanged(now, Orbit(c, m, n, j + 1), c), c, m, n, j + 1)
  {
    hide Orbit, Rotation;
    FirstVisit(c, m, n, j + 1, g, len);
    var next := Exchanged(now, Orbit(c, m, n, j + 1), c);
    forall k: nat | 1 <= k <= j + 1
      ensures Carries(was, next, c, m, n, k)
    {
      OrbitForm(c, m, n, k);
      OrbitForm(c, m, n, k - 1);
      if k <= j {
        FirstVisit(c, m, n, k, g, len);
        assert Carries(was, now, c, m, n, k);
      }
    }
  }

  lemma {:induction false} OneMoreKept<T(!new)>(was: seq<T>, now: seq<T>, c: int, m: int, n: int, j: nat)
    requires Blocks(c, m, n) && |was| == |now| == m + n && Kept(was, now, c, m, n, j)
    requires 0 <= Orbit(c, m, n, j + 1) < m + n
    ensures Kept(was, Exchanged(now, Orbit(c, m, n, j + 1), c), c, m, n, j + 1)
  {
    hide Orbit;
    var next := Exchanged(now, Orbit(c, m, n, j + 1), c);
    forall z | 0 <= z < m + n && z != c && Unvisited(z, c, m, n, j + 1)
      ensures next[z] == was[z]
    {
      assert Unvisited(z, c, m, n, j);
    }
  }

  /** One more swap, before the cycle closes. */
  lemma {:induction false} SwapStep<T(!new)>(was: seq<T>, now: seq<T>, c: int, m: int, n: int, j: nat, g: int, len: int)
    requires Blocks(c, m, n) && |was| == |now| == m + n && Rotation(m, n, g, len) && j + 1 < len
    requires Swapped(was, now, c, m, n, j)
    ensures 0 <= Orbit(c, m, n, j + 1) < m + n
    ensures Swapped(was, Exchanged(now, Orbit(c, m, n, j + 1), c), c, m, n, j + 1)
  {
    hide Orbit, Rotation, Carried;
    OrbitForm(c, m, n, j + 1);
    OneMoreCarried(was, now, c, m, n, j, g, len);
    OneMoreKept(was, now, c, m, n, j);
    FirstVisit(c, m, n, j + 1, g, len);
    assert now[Orbit(c, m, n, j + 1)] == was[Orbit(c, m, n, j + 1)];
  }

  // ----- What a whole cycle does -----

  /** Where the argument that belongs at offset `z` comes from. */
  function From(z: int, m: int, n: int): int {
    if z < n then z + m else z - n
  }

  /** The class of `c` modulo `g` has been rotated and the rest is untouched. */
  ghost predicate ClassRotated<T(!new)>(was: seq<T>, now: seq<T>, c: int, m: int, n: int, g: int)
    requires m >= 0 && n > 0 && |was| == |now| == m + n
  {
    forall z | 0 <= z < m + n :: now[z] == if Divides(g, z - c) then was[From(z, m, n)] else was[z]
  }

  lemma {:induction false} ClosingSwap<T(!new)>(was: seq<T>, now: seq<T>, c: int, m: int, n: int, g: int, len: nat, z: int)
    requires Blocks(c, m, n) && |was| == |now| == m + n && Rotation(m, n, g, len)
    requires Swapped(was, now, c, m, n, len - 1) && 0 <= z < m + n
    ensures now[z] == if Divides(g, z - c) then was[From(z, m, n)] else was[z]
  {
    var h, u, v :| Cycles(m, n, g, len, h, u, v);
    if Divides(g, z - c) {
      var t :| z - c == g * t;
      var k := OrbitCovers(c, m, n, z, t, g, len, h, u, v);
      Placed(was, now, c, m, n, g, len, k);
    } else {
      NotVisited(c, m, n, g, len, z);
    }
  }

  lemma {:induction false} NotVisited(c: int, m: int, n: int, g: int, len: nat, z: int)
    requires Blocks(c, m, n) && Rotation(m, n, g, len) && !Divides(g, z - c)
    ensures z != c && Unvisited(z, c, m, n, len - 1)
  {
    hide Orbit;
    var h, u, v :| Cycles(m, n, g, len, h, u, v);
    forall k: nat | 1 <= k <= len - 1
      ensures Orbit(c, m, n, k) != z
    {
      OrbitResidue(c, m, n, k, g, len, h, u, v);
    }
    assert 0 == g * 0;
  }

  lemma {:induction false} LastMove(c: int, m: int, n: int, g: int, len: nat)
    requires Blocks(c, m, n) && Rotation(m, n, g, len)
    ensures Move(Orbit(c, m, n, len - 1), m, n) == c
  {
    var h, u, v :| Cycles(m, n, g, len, h, u, v);
    OrbitCloses(c, m, n, g, len, h, u, v);
  }

  /** The argument at every visited offset is the one that moves there. */
  lemma {:induction false} Placed<T(!new)>(was: seq<T>, now: seq<T>, c: int, m: int, n: int, g: int, len: nat, k: nat)
    requires Blocks(c, m, n) && |was| == |now| == m + n && Rotation(m, n, g, len) && k < len
    requires Swapped(was, now, c, m, n, len - 1)
    requires 0 <= Orbit(c, m, n, k) < m + n
    ensures now[Orbit(c, m, n, k)] == was[From(Orbit(c, m, n, k), m, n)]
  {
    hide Kept, Rotation, Carried;
    if k == 0 {
      OrbitForm(c, m, n, len - 1);
      LastMove(c, m, n, g, len);
      FromMove(Orbit(c, m, n, len - 1), m, n);
    } else {
      CarriedHere(was, now, c, m, n, len - 1, k);
      NextOrbit(c, m, n, k - 1);
      FromMove(Orbit(c, m, n, k - 1), m, n);
    }
  }

  lemma {:induction false} FromMove(x: int, m: int, n: int)
    requires 0 <= x < m + n
    ensures From(Move(x, m, n), m, n) == x
  {
  }

  lemma {:induction false} CarriedHere<T(!new)>(was: seq<T>, now: seq<T>, c: int, m: int, n: int, j: nat, k: nat)
    requires Blocks(c, m, n) && |was| == |now| == m + n && Carried(was, now, c, m, n, j) && 1 <= k <= j
    ensures 0 <= Orbit(c, m, n, k) < m + n && 0 <= Orbit(c, m, n, k - 1) < m + n
    ensures now[Orbit(c, m, n, k)] == was[Orbit(c, m, n, k - 1)]
  {
    hide Orbit;
    OrbitForm(c, m, n, k);
    OrbitForm(c, m, n, k - 1);
    assert Carries(was, now, c, m, n, k);
  }

  method Swap<T>(a: array<T>, x: nat, y: nat)
    requires x < a.Length && y < a.Length
    modifies a
    ensures a[..] == Exchanged(old(a[..]), x, y)
  {
    a[x], a[y] := a[y], a[x];
  }

  lemma {:induction false} ExchangedInside<T>(s: seq<T>, start: nat, end: nat, x: nat, y: nat)
    requires start <= x < end <= |s| && start <= y < end
    ensures Exchanged(s, x, y)[start..end] == Exchanged(s[start..end], x - start, y - start)
    ensures Exchanged(s, x, y)[..start] == s[..start] && Exchanged(s, x, y)[end..] == s[end..]
    ensures x == y ==> Exchanged(s, x, y) == s
  {
  }

  /** The inner loop: one whole cycle of swaps rotates one residue class. */
  method MoveCycle<T(!new)>(nargv: array<T>, start: nat, mid: nat, end: nat, cstart: nat, len: nat, ghost g: int)
    requires start <= mid < end <= nargv.Length && start <= cstart < end
    requires len > 0 && Rotation(mid - start, end - mid, g, len)
    modifies nargv
    ensures nargv[..start] == old(nargv[..start]) && nargv[end..] == old(nargv[end..])
    ensures ClassRotated(old(nargv[start..end]), nargv[start..end], cstart - start, mid - start, end - mid, g)
  {
    hide Orbit, Rotation, Swapped, Exchanged;
    ghost var c, m, n := cstart - start, mid - start, end - mid;
    ghost var was := nargv[start..end];
    var pos, j := cstart, 0;
    StartSwapped(was, c, m, n);
    while j < len
      invariant 0 <= j <= len && start <= pos < end
      invariant nargv[..start] == old(nargv[..start]) && nargv[end..] == old(nargv[end..])
      invariant pos == start + Orbit(c, m, n, j)
      invariant Swapped(was, nargv[start..end], c, m, n, if j < len then j else len - 1)
    {
      ghost var now := nargv[start..end];
      NextOrbit(c, m, n, j);
      pos := if pos >= mid then pos - (mid - start) else pos + (end - mid);
      if j + 1 < len {
        SwapStep(was, now, c, m, n, j, g, len);
      } else {
        LastMove(c, m, n, g, len);
      }
      ExchangedInside(nargv[..], start, end, pos, cstart);
      Swap(nargv, pos, cstart);
      j := j + 1;
    }
    forall z | 0 <= z < m + n
      ensures nargv[start..end][z] == if Divides(g, z - c) then was[From(z, m, n)] else was[z]
    {
      ClosingSwap(was, nargv[start..end], c, m, n, g, len, z);
    }
  }

  lemma {:induction false} StartSwapped<T(!new)>(was: seq<T>, c: int, m: int, n: int)
    requires Blocks(c, m, n) && |was| == m + n
    ensures Orbit(c, m, n, 0) == c && Swapped(was, was, c, m, n, 0)
  {
  }

  lemma {:induction false} NextOrbit(c: int, m: int, n: int, j: nat)
    requires Blocks(c, m, n)
    ensures Orbit(c, m, n, j + 1) == Move(Orbit(c, m, n, j), m, n)
    ensures 0 <= Orbit(c, m, n, j + 1) < m + n
  {
    OrbitForm(c, m, n, j + 1);
  }

  // ----- All the cycles -----

  lemma {:induction false} ShiftedRemainder(z: int, g: int, k: int)
    requires g > 0
    ensures (z + g * k) % g == z % g
  {
    var q, r := z / g, z % g;
    assert z + g * k == g * (q + k) + r;
    RemainderOf(g, q + k, r);
  }

  /** The cycle that starts `i` past the middle holds exactly the offsets of residue `i`. */
  lemma {:induction false} ClassIsResidue(z: int, m: int, i: int, g: int, p: int)
    requires 0 <= i < g && m == g * p
    ensures Divides(g, z - (m + i)) <==> z % g == i
  {
    if Divides(g, z - (m + i)) {
      var t :| z - (m + i) == g * t;
      assert z == g * (p + t) + i;
      RemainderOf(g, p + t, i);
    }
    if z % g == i {
      Quotient(z, g, p, i);
    }
  }

  lemma {:induction false} Quotient(z: int, g: int, p: int, i: int)
    requires g > 0 && z % g == i
    ensures Divides(g, z - (g * p + i))
  {
    assert z - (g * p + i) == g * (z / g - p);
  }

  /** The classes below `i` have been rotated, the others not yet. */
  ghost predicate Rotated<T(!new)>(was: seq<T>, now: seq<T>, m: int, n: int, g: int, i: int)
    requires m >= 0 && n > 0 && g > 0 && |was| == |now| == m + n
  {
    forall z | 0 <= z < m + n :: now[z] == if z % g < i then was[From(z, m, n)] else was[z]
  }

  lemma {:induction false} FromResidue(z: int, m: int, n: int, g: int, p: int, h: int)
    requires g > 0 && m == g * p && n == g * h
    ensures From(z, m, n) % g == z % g
  {
    ShiftedRemainder(z, g, p);
    ShiftedRemainder(z, g, -h);
    assert g * -h == -n;
  }

  lemma {:induction false} NextClass<T(!new)>(was: seq<T>, now: seq<T>, next: seq<T>, m: int, n: int, g: int, i: int, p: int, h: int)
    requires m >= 0 && n > 0 && g > 0 && |was| == |now| == |next| == m + n && 0 <= i < g
    requires m == g * p && n == g * h
    requires Rotated(was, now, m, n, g, i) && ClassRotated(now, next, m + i, m, n, g)
    ensures Rotated(was, next, m, n, g, i + 1)
  {
    hide Divides;
    forall z | 0 <= z < m + n
      ensures next[z] == if z % g < i + 1 then was[From(z, m, n)] else was[z]
    {
      ClassIsResidue(z, m, i, g, p);
      FromResidue(z, m, n, g, p, h);
    }
  }

  /** With every class rotated the two blocks have changed places. */
  lemma {:induction false} AllRotated<T(!new)>(was: seq<T>, now: seq<T>, m: int, n: int, g: int)
    requires m >= 0 && n > 0 && g > 0 && |was| == |now| == m + n && Rotated(was, now, m, n, g, g)
    ensures now == was[m..] + was[..m]
  {
    forall z | 0 <= z < m + n
      ensures now[z] == (was[m..] + was[..m])[z]
    {
      assert z % g < g;
    }
  }

  lemma {:induction false} MakeRotation(m: int, n: int, g: int)
    requires m >= 0 && n > 0 && IsGcd(g, m, n)
    ensures Rotation(m, n, g, (m + n) / g)
    ensures Divides(g, m) && Divides(g, n) && g <= n && (m + n) / g > 0
  {
    var p :| m == g * p;
    var h :| n == g * h;
    var u, v :| Combination(u, v, m, n) == g;
    AtLeastOne(g, h);
    WholeCycles(m, n, g, p, h);
    OtherCombination(u, v, m, n);
    assert Cycles(m, n, g, p + h, h, v - u, u);
  }

  lemma {:induction false} WholeCycles(m: int, n: int, g: int, p: int, h: int)
    requires m >= 0 && n > 0 && g > 0 && m == g * p && n == g * h
    ensures m + n == g * (p + h) && (m + n) / g == p + h > 0
  {
    Together(g, p, h);
    AtLeast(g, p + h);
    ExactQuotient(g, p + h);
  }

  lemma {:induction false} ExactQuotient(g: int, k: int)
    requires g > 0
    ensures (g * k) / g == k
  {
    var q := (g * k) / g;
    RemainderOf(g, k, 0);
    Collected(g, k, q, 0);
    SmallMultiple(g, k - q, 0);
  }

  lemma {:induction false} OtherCombination(u: int, v: int, m: int, n: int)
    ensures (v - u) * n + u * (m + n) == u * m + v * n
  {
  }

  /** Exchanges the blocks [start, mid) and [mid, end), keeping the order within each. */
  method PermuteArgs<T(!new)>(start: nat, mid: nat, end: nat, nargv: array<T>)
    requires start <= mid < end <= nargv.Length
    modifies nargv
    ensures nargv[..] == old(nargv[..start] + nargv[mid..end] + nargv[start..mid] + nargv[end..])
  {
    hide Rotation, Rotated, ClassRotated, IsGcd;
    var nnonopts, nopts := mid - start, end - mid;
    var ncycle := Gcd(nnonopts, nopts);
    MakeRotation(nnonopts, nopts, ncycle);
    ghost var p :| nnonopts == ncycle * p;
    ghost var h :| nopts == ncycle * h;
    var cyclelen := (end - start) / ncycle;
    ghost var was := nargv[start..end];
    var i := 0;
    NoneRotated(was, nnonopts, nopts, ncycle);
    while i < ncycle
      invariant 0 <= i <= ncycle
      invariant nargv[..start] == old(nargv[..start]) && nargv[end..] == old(nargv[end..])
      invariant Rotated(was, nargv[start..end], nnonopts, nopts, ncycle, i)
    {
      ghost var now := nargv[start..end];
      MoveCycle(nargv, start, mid, end, mid + i, cyclelen, ncycle);
      NextClass(was, now, nargv[start..end], nnonopts, nopts, ncycle, i, p, h);
      i := i + 1;
    }
    AllRotated(was, nargv[start..end], nnonopts, nopts, ncycle);
    Assembled(old(nargv[..]), nargv[..], start, mid, end);
  }

  lemma {:induction false} Assembled<T(!new)>(was: seq<T>, now: seq<T>, start: nat, mid: nat, end: nat)
    requires start <= mid < end <= |was| == |now|
    requires now[..start] == was[..start] && now[end..] == was[end..]
    requires now[start..end] == was[start..end][mid - start..] + was[start..end][..mid - start]
    ensures now == was[..start] + was[mid..end] + was[start..mid] + was[end..]
  {
    assert was[start..end][mid - start..] == was[mid..end];
    assert was[start..end][..mid - start] == was[start..mid];
    assert now == now[..start] + now[start..end] + now[end..];
  }

  lemma {:induction false} NoneRotated<T(!new)>(was: seq<T>, m: int, n: int, g: int)
    requires m >= 0 && n > 0 && g > 0 && |was| == m + n
    ensures Rotated(was, was, m, n, g, 0)
  {
  }
}
