/** The layout of every block is well nested. */
module RegexNesting {
  import opened Basics
  import opened RegexLanguage
  import opened RegexStrip
  import opened RegexCode

  lemma {:induction false} NestedOne(s: Strip, lo: int, hi: int, p: int)
    requires 0 <= lo <= p < hi <= |s| && Nested(s, lo, hi, p)
    ensures NestedOver(s, lo, hi, p, p + 1)
  {
  }

  lemma {:induction false} LeafNested(s: Strip, a: int, c: Code)
    requires At(s, a, Flat(c)) && (c.Empty? || c.Literal? || c.AnyByte? || c.OneOf?)
    ensures WellNested(s, a, a + Len(c))
  {
    if !c.Empty? {
      assert s[a] == s[a..a + 1][0];
    }
  }

  /** An enclosing pair around a well-nested body. */
  lemma {:induction false} BracketNested(s: Strip, a: int, n: nat)
    requires 0 <= a && a + n + 2 <= |s| && Encloses(s[a], n, s[a + n + 1])
    requires WellNested(s, a + 1, a + 1 + n)
    ensures WellNested(s, a, a + n + 2)
  {
    NestedWiden(s, a + 1, a + 1 + n, a + 1, a + 1 + n, a, a + n + 2);
  }

  lemma {:induction false} FlatNested(s: Strip, a: int, c: Code)
    requires At(s, a, Flat(c))
    ensures WellNested(s, a, a + Len(c))
    decreases c
  {
    hide Flat, Len, At, NestedOver, Nested, WellNested;
    match c
    case Cat(x, y) =>
      AtCat(s, a, x, y);
      FlatNested(s, a, x);
      FlatNested(s, a + Len(x), y);
      NestedBoth(s, a, a + Len(x), a + Len(c));
    case Group(n, x) =>
      AtGroup(s, a, n, x);
      FlatNested(s, a + 1, x);
      BracketNested(s, a, Len(x));
    case Plus(x) =>
      AtPlus(s, a, x);
      FlatNested(s, a + 1, x);
      BracketNested(s, a, Len(x));
    case Quest(x) =>
      AtQuest(s, a, x);
      FlatNested(s, a + 1, x);
      BracketNested(s, a, Len(x));
    case Choice(x, rest) =>
      AtChoice(s, a, x, rest);
      FlatNested(s, a + 1, x);
      RestNested(s, a + 1 + Len(x), rest, Len(x) + 1, a);
      ChoiceNested(s, a, x, rest);
    case _ => LeafNested(s, a, c);
  }

  lemma {:induction false} ChoiceNested(s: Strip, a: int, x: Code, rest: Branches)
    requires At(s, a, Flat(Choice(x, rest)))
    requires var m, b := a + 1 + Len(x), a + Len(Choice(x, rest));
      WellNested(s, a + 1, m) && b <= |s| && NestedOver(s, a, b, m, b)
    ensures WellNested(s, a, a + Len(Choice(x, rest)))
  {
    hide Flat, FlatRest, Len, At, NestedOver;
    var m, b := a + 1 + Len(x), a + Len(Choice(x, rest));
    AtChoice(s, a, x, rest);
    AtRest(s, m, rest, Len(x) + 1);
    NestedWiden(s, a + 1, m, a + 1, m, a, b);
    NestedOne(s, a, b, a);
    NestedJoin(s, a, b, a, a + 1, m);
    NestedJoin(s, a, b, a, m, b);
  }

  lemma {:induction false} NestedBoth(s: Strip, a: int, m: int, b: int)
    requires WellNested(s, a, m) && WellNested(s, m, b)
    ensures WellNested(s, a, b)
  {
    NestedWiden(s, a, m, a, m, a, b);
    NestedWiden(s, m, b, m, b, a, b);
  }

  lemma {:induction false} RestNested(s: Strip, a: int, bs: Branches, back: nat, lo: int)
    requires At(s, a, FlatRest(bs, back)) && 0 <= lo <= a - back && a - back < |s|
    requires s[a - back].OOR1? || s[a - back].OCH_?
    requires back > 0
    ensures a + RestLen(bs) <= |s| && NestedOver(s, lo, a + RestLen(bs), a, a + RestLen(bs))
    decreases bs
  {
    hide Flat, FlatRest, Len, At, NestedOver;
    var x, hi := bs.code, a + RestLen(bs);
    var m := a + 2 + Len(x);
    AtRest(s, a, bs, back);
    ChoiceEndFound(s, a, bs, back);
    FlatNested(s, a + 2, x);
    NestedWiden(s, a + 2, m, a + 2, m, lo, hi);
    NestedOne(s, lo, hi, a);
    if bs.More? {
      AtRest(s, m, bs.rest, Len(x) + 2);
      RestNested(s, m, bs.rest, Len(x) + 2, lo);
    } else {
      NestedOne(s, lo, hi, m);
    }
    NestedOne(s, lo, hi, a + 1);
    NestedJoin(s, lo, hi, a, a + 1, a + 2);
    NestedJoin(s, lo, hi, a, a + 2, m);
    NestedJoin(s, lo, hi, a, m, hi);
  }
}
