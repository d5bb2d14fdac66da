/**
  The strip: a flat array of operators whose operands are relative offsets, and the moves that
  following those offsets allows.  A state is the index of an operator about to be executed.
 */
module RegexStrip {
  import opened Basics
  import opened RegexLanguage

  /**
    One strip operator with its operand.  A set operand is the set itself rather than its number
    in the table of sets.
   */
  datatype Sop =
    | OEND
    | OCHAR(c: Byte)
    | OBOL
    | OEOL
    | OANY
    | OANYOF(cs: set<Byte>)
    | OBACK_(n: nat)
    | O_BACK(n: nat)
    | OPLUS_(fwd: nat)
    | O_PLUS(back: nat)
    | OQUEST_(fwd: nat)
    | O_QUEST(back: nat)
    | OLPAREN(n: nat)
    | ORPAREN(n: nat)
    | OCH_(fwd: nat)
    | OOR1(back: nat)
    | OOR2(fwd: nat)
    | O_CH(back: nat)
    | OBOW
    | OEOW

  type Strip = seq<Sop>

  /** What the matcher steps over: a byte of the text, or one of the codes that is not a byte. */
  datatype Input = Ch(c: Byte) | NOTHING | BOL | EOL | BOLEOL | BOW | EOW

  /** Does this operator consume `ch`? */
  predicate Eats(op: Sop, ch: Input) {
    match op
    case OCHAR(c) => ch == Ch(c)
    case OANY => ch.Ch?
    case OANYOF(cs) => ch.Ch? && ch.c in cs
    case OBOL => ch.BOL? || ch.BOLEOL?
    case OEOL => ch.EOL? || ch.BOLEOL?
    case OBOW => ch.BOW?
    case OEOW => ch.EOW?
    case _ => false
  }

  /** The operators that are passed only by consuming something. */
  predicate Consumes(op: Sop) {
    op.OCHAR? || op.OANY? || op.OANYOF? || Anchor(op)
  }

  /** Operators that stand for positions in the text rather than for bytes. */
  predicate Anchor(op: Sop) {
    op.OBOL? || op.OEOL? || op.OBOW? || op.OEOW?
  }

  /** From the operator after an OOR1, the O_CH at the end of the chain of OOR2s. */
  function ChoiceEnd(s: Strip, i: nat): nat
    decreases |s| - i
  {
    if i < |s| && s[i].OOR2? && s[i].fwd > 0 then ChoiceEnd(s, i + s[i].fwd) else i
  }

  /** The moves that consume nothing. */
  predicate Eps(s: Strip, p: int, q: int) {
    0 <= p < |s| &&
    match s[p]
    case OBACK_(_) => q == p + 1
    case O_BACK(_) => q == p + 1
    case OPLUS_(_) => q == p + 1
    case O_PLUS(back) => q == p + 1 || q == p - back
    case OQUEST_(fwd) => q == p + 1 || q == p + fwd
    case O_QUEST(_) => q == p + 1
    case OLPAREN(_) => q == p + 1
    case ORPAREN(_) => q == p + 1
    case OCH_(fwd) => q == p + 1 || q == p + fwd
    case OOR1(_) => q == ChoiceEnd(s, p + 1)
    case OOR2(fwd) => q == p + 1 || (q == p + fwd && !(p + fwd < |s| && s[p + fwd].O_CH?))
    case O_CH(_) => q == p + 1
    case _ => false
  }

  /** `n` moves, each from a state in [lo, hi), that consume `w` and lead from `p` to `q`. */
  ghost predicate Walk(s: Strip, lo: int, hi: int, p: int, w: Word, q: int, n: nat)
    decreases n, 0
  {
    if n == 0 then
      p == q && w == []
    else
      && lo <= p < hi
      && (|| EpsFirst(s, lo, hi, p, w, q, n - 1)
          || (0 <= p < |s| && w != [] && Eats(s[p], Ch(w[0])) && Walk(s, lo, hi, p + 1, w[1..], q, n - 1)))
  }

  ghost predicate EpsFirst(s: Strip, lo: int, hi: int, p: int, w: Word, q: int, n: nat)
    decreases n, 1
  {
    exists r :: Eps(s, p, r) && Walk(s, lo, hi, r, w, q, n)
  }

  /** The strings accepted by following the offsets of the block [lo, hi). */
  ghost function Accepted(s: Strip, lo: int, hi: int): Lang {
    iset w: Word | Accepts(s, lo, hi, w)
  }

  ghost predicate Accepts(s: Strip, lo: int, hi: int, w: Word) {
    Leads(s, lo, hi, lo, w, hi)
  }

  /** Some walk inside [lo, hi) consumes `w` from `p` to `q`. */
  ghost predicate Leads(s: Strip, lo: int, hi: int, p: int, w: Word, q: int) {
    exists n: nat :: Walk(s, lo, hi, p, w, q, n)
  }

  // ----- Walks -----

  lemma {:induction false} EpsStep(s: Strip, lo: int, hi: int, p: int, r: int, w: Word, q: int, n: nat)
    requires lo <= p < hi && Eps(s, p, r) && Walk(s, lo, hi, r, w, q, n)
    ensures Walk(s, lo, hi, p, w, q, n + 1)
  {
    assert EpsFirst(s, lo, hi, p, w, q, n);
  }

  lemma {:induction false} EatStep(s: Strip, lo: int, hi: int, p: int, c: Byte, w: Word, q: int, n: nat)
    requires lo <= p < hi && 0 <= p < |s| && Eats(s[p], Ch(c)) && Walk(s, lo, hi, p + 1, w, q, n)
    ensures Walk(s, lo, hi, p, [c] + w, q, n + 1)
  {
    assert ([c] + w)[1..] == w;
  }

  /** The first move of a nonempty walk. */
  lemma {:induction false} FirstMove(s: Strip, lo: int, hi: int, p: int, w: Word, q: int, n: nat) returns (r: int, v: Word)
    requires n > 0 && Walk(s, lo, hi, p, w, q, n)
    ensures Walk(s, lo, hi, r, v, q, n - 1)
    ensures (Eps(s, p, r) && v == w) ||
            (r == p + 1 && 0 <= p < |s| && w != [] && Eats(s[p], Ch(w[0])) && v == w[1..])
  {
    if EpsFirst(s, lo, hi, p, w, q, n - 1) {
      r :| Eps(s, p, r) && Walk(s, lo, hi, r, w, q, n - 1);
      v := w;
    } else {
      r, v := p + 1, w[1..];
    }
  }

  lemma {:induction false} WalkJoin(s: Strip, lo: int, hi: int, p: int, u: Word, r: int, m: nat, v: Word, q: int, n: nat)
    requires Walk(s, lo, hi, p, u, r, m) && Walk(s, lo, hi, r, v, q, n)
    ensures Walk(s, lo, hi, p, u + v, q, m + n)
    decreases m
  {
    if m == 0 {
      assert u + v == v;
    } else {
      var r', u' := FirstMove(s, lo, hi, p, u, r, m);
      WalkJoin(s, lo, hi, r', u', r, m - 1, v, q, n);
      if Eps(s, p, r') && u' == u {
        EpsStep(s, lo, hi, p, r', u + v, q, m - 1 + n);
      } else {
        assert [u[0]] + (u' + v) == u + v;
        EatStep(s, lo, hi, p, u[0], u' + v, q, m - 1 + n);
      }
    }
  }

  lemma {:induction false} WalkWiden(s: Strip, lo: int, hi: int, lo': int, hi': int, p: int, w: Word, q: int, n: nat)
    requires lo' <= lo && hi <= hi' && Walk(s, lo, hi, p, w, q, n)
    ensures Walk(s, lo', hi', p, w, q, n)
    decreases n
  {
    if n > 0 {
      var r, v := FirstMove(s, lo, hi, p, w, q, n);
      WalkWiden(s, lo, hi, lo', hi', r, v, q, n - 1);
      if Eps(s, p, r) && v == w {
        EpsStep(s, lo', hi', p, r, w, q, n - 1);
      }
    }
  }

  // ----- Blocks -----

  /** Every move from inside [a, b) stays inside it or arrives just past its end. */
  ghost predicate Closed(s: Strip, a: int, b: int) {
    && 0 <= a <= b <= |s|
    && forall p, q :: a <= p < b && Eps(s, p, q) ==> a <= q <= b
  }

  /** A walk that leaves a closed block leaves it through its end. */
  lemma {:induction false} FirstExit(s: Strip, lo: int, hi: int, a: int, b: int, p: int, w: Word, q: int, n: nat)
    returns (u: Word, v: Word, k: nat)
    requires Closed(s, a, b) && lo <= a && b <= hi
    requires a <= p <= b && !(a <= q < b)
    requires Walk(s, lo, hi, p, w, q, n)
    ensures k <= n && w == u + v
    ensures p < b ==> k > 0
    ensures Walk(s, a, b, p, u, b, k)
    ensures Walk(s, lo, hi, b, v, q, n - k)
    decreases n
  {
    if p == b {
      u, v, k := [], w, 0;
    } else {
      var r, w' := FirstMove(s, lo, hi, p, w, q, n);
      var u', v', k' := FirstExit(s, lo, hi, a, b, r, w', q, n - 1);
      v, k := v', k' + 1;
      if Eps(s, p, r) && w' == w {
        u := u';
        EpsStep(s, a, b, p, r, u, b, k');
      } else {
        u := [w[0]] + u';
        EatStep(s, a, b, p, w[0], u', b, k');
      }
    }
  }

  /** No move leaves the end of the window. */
  lemma {:induction false} WalkFromEnd(s: Strip, lo: int, hi: int, w: Word, q: int, n: nat)
    requires Walk(s, lo, hi, hi, w, q, n)
    ensures n == 0 && q == hi && w == []
  {
  }

  /** The operators `f` are found at `a`. */
  ghost predicate At(s: Strip, a: int, f: Strip) {
    0 <= a && a + |f| <= |s| && s[a..a + |f|] == f
  }

  lemma {:induction false} AtSplit(s: Strip, a: int, f: Strip, g: Strip)
    requires At(s, a, f + g)
    ensures At(s, a, f) && At(s, a + |f|, g)
  {
    assert s[a..a + |f|] == s[a..a + |f + g|][..|f|] == f;
    assert s[a + |f|..a + |f| + |g|] == s[a..a + |f + g|][|f|..] == g;
  }

  // ----- Nesting -----

  /** The operand at `p` leads to the operator's partner, inside [lo, hi). */
  ghost predicate Nested(s: Strip, lo: int, hi: int, p: int)
    requires 0 <= lo <= p < hi <= |s|
  {
    match s[p]
    case OEND => false
    case OPLUS_(fwd) => p + fwd < hi && s[p + fwd] == O_PLUS(fwd)
    case O_PLUS(back) => lo <= p - back && s[p - back] == OPLUS_(back)
    case OQUEST_(fwd) => 0 < fwd && p + fwd < hi && s[p + fwd] == O_QUEST(fwd)
    case O_QUEST(back) => lo <= p - back && s[p - back] == OQUEST_(back)
    case OCH_(fwd) => 2 <= fwd && p + fwd < hi && s[p + fwd].OOR2? && s[p + fwd - 1] == OOR1(fwd - 1)
    case OOR1(back) =>
      && lo <= p - back && (s[p - back].OOR1? || s[p - back].OCH_?)
      && p + 1 < hi && s[p + 1].OOR2?
      && ChoiceEnd(s, p + 1) < hi && s[ChoiceEnd(s, p + 1)].O_CH?
    case OOR2(fwd) =>
      && lo < p && s[p - 1].OOR1?
      && 0 < fwd && p + fwd < hi && (s[p + fwd].OOR2? || s[p + fwd].O_CH?)
    case O_CH(back) => lo <= p - back && s[p - back].OOR1?
    case _ => true
  }

  ghost predicate NestedOver(s: Strip, lo: int, hi: int, a: int, b: int) {
    && 0 <= lo <= a && b <= hi <= |s|
    && forall p :: a <= p < b ==> Nested(s, lo, hi, p)
  }

  /** The block [lo, hi) is well nested: each offset lands on its partner and stays in the block. */
  ghost predicate WellNested(s: Strip, lo: int, hi: int) {
    lo <= hi && NestedOver(s, lo, hi, lo, hi)
  }

  lemma {:induction false} NestedWiden(s: Strip, lo: int, hi: int, a: int, b: int, lo': int, hi': int)
    requires NestedOver(s, lo, hi, a, b) && 0 <= lo' <= lo && hi <= hi' <= |s|
    ensures NestedOver(s, lo', hi', a, b)
  {
    forall p | a <= p < b
      ensures Nested(s, lo', hi', p)
    {
      assert Nested(s, lo, hi, p);
    }
  }

  lemma {:induction false} NestedJoin(s: Strip, lo: int, hi: int, a: int, m: int, b: int)
    requires NestedOver(s, lo, hi, a, m) && NestedOver(s, lo, hi, m, b)
    ensures NestedOver(s, lo, hi, a, b)
  {
  }
}
