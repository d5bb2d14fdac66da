/** The shape of the code the compiler emits, its layout as a strip, and its meaning. */
module RegexCode {
  import opened Basics
  import opened RegexLanguage
  import opened RegexStrip

  datatype Code =
    | Empty
    | Cat(left: Code, right: Code)
    | Literal(c: Byte)
    | AnyByte
    | OneOf(cs: set<Byte>)
    | Group(n: nat, body: Code)
    | Plus(body: Code)
    | Quest(body: Code)
    | Choice(first: Code, rest: Branches)

  datatype Branches = Last(code: Code) | More(code: Code, rest: Branches)

  /** How a block lies in the strip. */
  function Flat(c: Code): Strip {
    match c
    case Empty => []
    case Cat(x, y) => Flat(x) + Flat(y)
    case Literal(b) => [OCHAR(b)]
    case AnyByte => [OANY]
    case OneOf(cs) => [OANYOF(cs)]
    case Group(n, x) => [OLPAREN(n)] + Flat(x) + [ORPAREN(n)]
    case Plus(x) => [OPLUS_(|Flat(x)| + 1)] + Flat(x) + [O_PLUS(|Flat(x)| + 1)]
    case Quest(x) => [OQUEST_(|Flat(x)| + 1)] + Flat(x) + [O_QUEST(|Flat(x)| + 1)]
    case Choice(x, rest) => [OCH_(|Flat(x)| + 2)] + Flat(x) + FlatRest(rest, |Flat(x)| + 1)
  }

  /** The branches after the first: `back` leads to the preceding OOR1 or OCH_. */
  function FlatRest(bs: Branches, back: nat): Strip {
    match bs
    case Last(x) => [OOR1(back), OOR2(|Flat(x)| + 1)] + Flat(x) + [O_CH(|Flat(x)| + 2)]
    case More(x, rest) => [OOR1(back), OOR2(|Flat(x)| + 2)] + Flat(x) + FlatRest(rest, |Flat(x)| + 2)
  }

  ghost function Meaning(c: Code): Lang {
    match c
    case Empty => EPSILON
    case Cat(x, y) => Concat(Meaning(x), Meaning(y))
    case Literal(b) => iset w: Word | |w| == 1 && w[0] == b
    case AnyByte => iset w: Word | |w| == 1
    case OneOf(cs) => iset w: Word | |w| == 1 && w[0] in cs
    case Group(_, x) => Meaning(x)
    case Plus(x) => Repeated(Meaning(x), 1, Unbounded)
    case Quest(x) => Meaning(x) + EPSILON
    case Choice(x, rest) => Meaning(x) + MeaningRest(rest)
  }

  ghost function MeaningRest(bs: Branches): Lang {
    match bs
    case Last(x) => Meaning(x)
    case More(x, rest) => Meaning(x) + MeaningRest(rest)
  }

  // ----- Where the parts of a block lie -----

  function Len(c: Code): nat { |Flat(c)| }

  lemma {:induction false} FlatGroup(n: nat, x: Code)
    ensures Flat(Group(n, x)) == [OLPAREN(n)] + Flat(x) + [ORPAREN(n)]
  {
  }

  lemma {:induction false} FlatLoops(x: Code)
    ensures Flat(Plus(x)) == [OPLUS_(|Flat(x)| + 1)] + Flat(x) + [O_PLUS(|Flat(x)| + 1)]
    ensures Flat(Quest(x)) == [OQUEST_(|Flat(x)| + 1)] + Flat(x) + [O_QUEST(|Flat(x)| + 1)]
  {
  }

  lemma {:induction false} FlatChoice(x: Code, rest: Branches)
    ensures Flat(Choice(x, rest)) == [OCH_(|Flat(x)| + 2)] + Flat(x) + FlatRest(rest, |Flat(x)| + 1)
  {
    hide FlatRest;
  }

  lemma {:induction false} FlatCat(x: Code, y: Code)
    ensures Flat(Cat(x, y)) == Flat(x) + Flat(y)
  {
  }

  lemma {:induction false} AtCons(s: Strip, a: int, op: Sop, f: Strip)
    requires At(s, a, [op] + f)
    ensures s[a] == op && At(s, a + 1, f)
  {
    AtSplit(s, a, [op], f);
    assert s[a] == s[a..a + 1][0];
  }

  lemma {:induction false} AtBracketed(s: Strip, a: int, open: Sop, f: Strip, close: Sop)
    requires At(s, a, [open] + f + [close])
    ensures s[a] == open && At(s, a + 1, f) && s[a + 1 + |f|] == close
  {
    AtSplit(s, a, [open] + f, [close]);
    AtCons(s, a, open, f);
    assert [close] == [close] + [];
    AtCons(s, a + 1 + |f|, close, []);
  }

  lemma {:induction false} AtCat(s: Strip, a: int, x: Code, y: Code)
    requires At(s, a, Flat(Cat(x, y)))
    ensures Len(Cat(x, y)) == Len(x) + Len(y)
    ensures At(s, a, Flat(x)) && At(s, a + Len(x), Flat(y))
  {
    hide Flat;
    FlatCat(x, y);
    AtSplit(s, a, Flat(x), Flat(y));
  }

  lemma {:induction false} AtGroup(s: Strip, a: int, n: nat, x: Code)
    requires At(s, a, Flat(Group(n, x)))
    ensures Len(Group(n, x)) == Len(x) + 2 && 0 <= a && a + Len(x) + 2 <= |s|
    ensures s[a] == OLPAREN(n) && At(s, a + 1, Flat(x)) && s[a + 1 + Len(x)] == ORPAREN(n)
  {
    hide Flat;
    FlatGroup(n, x);
    AtBracketed(s, a, OLPAREN(n), Flat(x), ORPAREN(n));
  }

  lemma {:induction false} AtPlus(s: Strip, a: int, x: Code)
    requires At(s, a, Flat(Plus(x)))
    ensures Len(Plus(x)) == Len(x) + 2 && 0 <= a && a + Len(x) + 2 <= |s|
    ensures s[a] == OPLUS_(Len(x) + 1) && At(s, a + 1, Flat(x)) && s[a + 1 + Len(x)] == O_PLUS(Len(x) + 1)
  {
    hide Flat;
    FlatLoops(x);
    AtBracketed(s, a, OPLUS_(Len(x) + 1), Flat(x), O_PLUS(Len(x) + 1));
  }

  lemma {:induction false} AtQuest(s: Strip, a: int, x: Code)
    requires At(s, a, Flat(Quest(x)))
    ensures Len(Quest(x)) == Len(x) + 2 && 0 <= a && a + Len(x) + 2 <= |s|
    ensures s[a] == OQUEST_(Len(x) + 1) && At(s, a + 1, Flat(x)) && s[a + 1 + Len(x)] == O_QUEST(Len(x) + 1)
  {
    hide Flat;
    FlatLoops(x);
    AtBracketed(s, a, OQUEST_(Len(x) + 1), Flat(x), O_QUEST(Len(x) + 1));
  }

  lemma {:induction false} AtChoice(s: Strip, a: int, x: Code, rest: Branches)
    requires At(s, a, Flat(Choice(x, rest)))
    ensures Len(Choice(x, rest)) == 1 + Len(x) + RestLen(rest)
    ensures 0 <= a && a + 1 + Len(x) + RestLen(rest) <= |s|
    ensures s[a] == OCH_(Len(x) + 2) && At(s, a + 1, Flat(x))
    ensures At(s, a + 1 + Len(x), FlatRest(rest, Len(x) + 1))
  {
    hide Flat, FlatRest, RestLen;
    FlatChoice(x, rest);
    FlatRestLength(rest, Len(x) + 1);
    AtSplit(s, a, [OCH_(Len(x) + 2)] + Flat(x), FlatRest(rest, Len(x) + 1));
    AtCons(s, a, OCH_(Len(x) + 2), Flat(x));
  }

  /** The length and the end of what follows the first branch. */
  function RestLen(bs: Branches): nat {
    match bs
    case Last(x) => Len(x) + 3
    case More(x, rest) => Len(x) + 2 + RestLen(rest)
  }

  lemma {:induction false} FlatRestLength(bs: Branches, back: nat)
    ensures |FlatRest(bs, back)| == RestLen(bs)
    decreases bs
  {
    if bs.More? {
      FlatRestLength(bs.rest, |Flat(bs.code)| + 2);
    }
  }

  lemma {:induction false} AtBranch(s: Strip, a: int, op: Sop, op': Sop, f: Strip, g: Strip)
    requires At(s, a, [op, op'] + f + g)
    ensures s[a] == op && s[a + 1] == op' && At(s, a + 2, f) && At(s, a + 2 + |f|, g)
  {
    AtSplit(s, a, [op, op'] + f, g);
    assert [op, op'] + f == [op] + ([op'] + f);
    AtCons(s, a, op, [op'] + f);
    AtCons(s, a + 1, op', f);
  }

  lemma {:induction false} AtRest(s: Strip, a: int, bs: Branches, back: nat)
    requires At(s, a, FlatRest(bs, back))
    ensures 0 <= a && a + RestLen(bs) <= |s|
    ensures RestLen(bs) == Len(bs.code) + (if bs.Last? then 3 else 2 + RestLen(bs.rest))
    ensures RestLen(bs) >= Len(bs.code) + 3
    ensures s[a] == OOR1(back)
    ensures s[a + 1] == OOR2(if bs.Last? then Len(bs.code) + 1 else Len(bs.code) + 2)
    ensures At(s, a + 2, Flat(bs.code))
    ensures bs.Last? ==> s[a + 2 + Len(bs.code)] == O_CH(Len(bs.code) + 2)
    ensures bs.More? ==> At(s, a + 2 + Len(bs.code), FlatRest(bs.rest, Len(bs.code) + 2))
  {
    hide Flat;
    FlatRestLength(bs, back);
    match bs
    case Last(x) =>
      AtBranch(s, a, OOR1(back), OOR2(Len(x) + 1), Flat(x), [O_CH(Len(x) + 2)]);
      assert [O_CH(Len(x) + 2)] == [O_CH(Len(x) + 2)] + [];
      AtCons(s, a + 2 + Len(x), O_CH(Len(x) + 2), []);
    case More(x, rest) =>
      AtBranch(s, a, OOR1(back), OOR2(Len(x) + 2), Flat(x), FlatRest(rest, Len(x) + 2));
  }

  /** From any OOR1 of a choice, the chain of OOR2s leads to its O_CH. */
  lemma {:induction false} ChoiceEndFound(s: Strip, a: int, bs: Branches, back: nat)
    requires At(s, a, FlatRest(bs, back))
    ensures a + RestLen(bs) <= |s|
    ensures ChoiceEnd(s, a + 1) == a + RestLen(bs) - 1
    ensures s[a + RestLen(bs) - 1].O_CH?
    decreases bs
  {
    hide Flat, FlatRest, At, Len;
    AtRest(s, a, bs, back);
    match bs
    case Last(x) =>
    case More(x, rest) =>
      AtRest(s, a + 2 + Len(x), rest, Len(x) + 2);
      ChoiceEndFound(s, a + 2 + Len(x), rest, Len(x) + 2);
  }

  // ----- Blocks are closed -----

  lemma {:induction false} ClosedJoin(s: Strip, a: int, m: int, b: int)
    requires Closed(s, a, m) && Closed(s, m, b)
    ensures Closed(s, a, b)
  {
  }

  lemma {:induction false} ClosedCons(s: Strip, a: int, b: int)
    requires a >= 0 && Closed(s, a + 1, b)
    requires forall q :: Eps(s, a, q) ==> a <= q <= b
    ensures Closed(s, a, b)
  {
  }

  /** The pairs of operators that enclose a block of `n` operators. */
  ghost predicate Encloses(open: Sop, n: nat, close: Sop) {
    match open
    case OLPAREN(k) => close == ORPAREN(k)
    case OPLUS_(fwd) => fwd == n + 1 && close == O_PLUS(n + 1)
    case OQUEST_(fwd) => fwd == n + 1 && close == O_QUEST(n + 1)
    case _ => false
  }

  lemma {:induction false} BracketClosed(s: Strip, a: int, open: Sop, f: Strip, close: Sop)
    requires At(s, a, [open] + f + [close]) && Encloses(open, |f|, close)
    requires Closed(s, a + 1, a + 1 + |f|)
    ensures Closed(s, a, a + |f| + 2)
  {
    AtBracketed(s, a, open, f, close);
  }

  lemma {:induction false} LeafClosed(s: Strip, a: int, c: Code)
    requires At(s, a, Flat(c)) && (c.Empty? || c.Literal? || c.AnyByte? || c.OneOf?)
    ensures Closed(s, a, a + Len(c))
  {
    if !c.Empty? {
      assert s[a] == s[a..a + 1][0];
    }
  }

  lemma {:induction false} BodyClosed(s: Strip, a: int, c: Code)
    requires At(s, a, Flat(c)) && (c.Group? || c.Plus? || c.Quest?)
    requires Closed(s, a + 1, a + 1 + Len(c.body))
    ensures Closed(s, a, a + Len(c))
  {
    var f := Flat(c.body);
    match c
    case Group(n, _) => BracketClosed(s, a, OLPAREN(n), f, ORPAREN(n));
    case Plus(_) => BracketClosed(s, a, OPLUS_(|f| + 1), f, O_PLUS(|f| + 1));
    case Quest(_) => BracketClosed(s, a, OQUEST_(|f| + 1), f, O_QUEST(|f| + 1));
  }

  lemma {:induction false} ChoiceClosed(s: Strip, a: int, x: Code, rest: Branches)
    requires At(s, a, Flat(Choice(x, rest)))
    requires Closed(s, a + 1, a + 1 + Len(x)) && Closed(s, a + 1 + Len(x), a + 1 + Len(x) + RestLen(rest))
    ensures Closed(s, a, a + Len(Choice(x, rest)))
  {
    hide Flat, FlatRest, Len, RestLen, Closed, At;
    AtChoice(s, a, x, rest);
    AtRest(s, a + 1 + Len(x), rest, Len(x) + 1);
    ClosedJoin(s, a + 1, a + 1 + Len(x), a + 1 + Len(x) + RestLen(rest));
    ClosedCons(s, a, a + 1 + Len(x) + RestLen(rest));
  }

  lemma {:induction false} FlatClosed(s: Strip, a: int, c: Code)
    requires At(s, a, Flat(c))
    ensures Closed(s, a, a + Len(c))
    decreases c
  {
    hide Flat, Len, At, Closed;
    match c
    case Cat(x, y) =>
      AtCat(s, a, x, y);
      FlatClosed(s, a, x);
      FlatClosed(s, a + Len(x), y);
      ClosedJoin(s, a, a + Len(x), a + Len(c));
    case Choice(x, rest) =>
      AtChoice(s, a, x, rest);
      FlatClosed(s, a + 1, x);
      RestClosed(s, a + 1 + Len(x), rest, Len(x) + 1);
      ChoiceClosed(s, a, x, rest);
    case Group(n, x) =>
      AtGroup(s, a, n, x);
      FlatClosed(s, a + 1, x);
      BodyClosed(s, a, c);
    case Plus(x) =>
      AtPlus(s, a, x);
      FlatClosed(s, a + 1, x);
      BodyClosed(s, a, c);
    case Quest(x) =>
      AtQuest(s, a, x);
      FlatClosed(s, a + 1, x);
      BodyClosed(s, a, c);
    case _ => LeafClosed(s, a, c);
  }

  lemma {:induction false} RestClosed(s: Strip, a: int, bs: Branches, back: nat)
    requires At(s, a, FlatRest(bs, back))
    ensures Closed(s, a, a + RestLen(bs))
    decreases bs
  {
    hide Flat, FlatRest, At, Len;
    AtRest(s, a, bs, back);
    ChoiceEndFound(s, a, bs, back);
    FlatClosed(s, a + 2, bs.code);
    match bs
    case Last(x) =>
    case More(x, rest) =>
      RestClosed(s, a + 2 + Len(x), rest, Len(x) + 2);
      ClosedJoin(s, a + 2, a + 2 + Len(x), a + RestLen(bs));
  }
}
