/** Following the offsets of a laid-out block accepts exactly the block's meaning. */
module RegexMeaning {
  import opened Basics
  import opened RegexLanguage
  import opened RegexStrip
  import opened RegexCode

  // ----- Every walk spells a word of the meaning -----

  /** The only way on from `p`, when it consumes nothing. */
  lemma {:induction false} OnlyMove(s: Strip, lo: int, hi: int, p: int, w: Word, q: int, n: nat) returns (r: int)
    requires 0 <= p < |s| && p != q
    requires !s[p].OCHAR? && !s[p].OANY? && !s[p].OANYOF?
    requires Walk(s, lo, hi, p, w, q, n)
    ensures n > 0 && Eps(s, p, r) && Walk(s, lo, hi, r, w, q, n - 1)
  {
    var v;
    r, v := FirstMove(s, lo, hi, p, w, q, n);
  }

  /** The last operator of a block, an O_CH or a closing operator, only leads past the block. */
  lemma {:induction false} EndMove(s: Strip, lo: int, hi: int, w: Word, n: nat)
    requires 0 < hi <= |s| && (s[hi - 1].O_CH? || s[hi - 1].O_QUEST? || s[hi - 1].ORPAREN?)
    requires Walk(s, lo, hi, hi - 1, w, hi, n)
    ensures w == []
  {
    var r := OnlyMove(s, lo, hi, hi - 1, w, hi, n);
    WalkFromEnd(s, lo, hi, w, hi, n - 1);
  }

  lemma {:induction false} WalkInMeaning(s: Strip, a: int, c: Code, w: Word, n: nat)
    requires At(s, a, Flat(c)) && Walk(s, a, a + Len(c), a, w, a + Len(c), n)
    ensures w in Meaning(c)
    decreases c, 0, n
  {
    hide Walk, Flat, At, Len;
    match c
    case Cat(x, y) =>
      AtCat(s, a, x, y);
      CatWalk(s, a, x, y, w, n);
    case Group(k, x) =>
      AtGroup(s, a, k, x);
      GroupWalk(s, a, k, x, w, n);
    case Plus(x) =>
      AtPlus(s, a, x);
      var k := PlusWalk(s, a, x, w, n);
      RepeatedIntro(Meaning(x), 1, Unbounded, k, w);
    case Quest(x) =>
      AtQuest(s, a, x);
      QuestWalk(s, a, x, w, n);
    case Choice(x, rest) => ChoiceWalk(s, a, x, rest, w, n);
    case _ => LeafWalk(s, a, c, w, n);
  }

  lemma {:induction false} LeafWalk(s: Strip, a: int, c: Code, w: Word, n: nat)
    requires c.Empty? || c.Literal? || c.AnyByte? || c.OneOf?
    requires At(s, a, Flat(c)) && Walk(s, a, a + Len(c), a, w, a + Len(c), n)
    ensures w in Meaning(c)
  {
    hide Walk;
    match c
    case Empty => WalkFromEnd(s, a, a, w, a, n);
    case Literal(b) => SingleWalk(s, a, OCHAR(b), w, n);
    case AnyByte => SingleWalk(s, a, OANY, w, n);
    case OneOf(cs) => SingleWalk(s, a, OANYOF(cs), w, n);
  }

  lemma {:induction false} SingleWalk(s: Strip, a: int, op: Sop, w: Word, n: nat)
    requires At(s, a, [op]) && (op.OCHAR? || op.OANY? || op.OANYOF?)
    requires Walk(s, a, a + 1, a, w, a + 1, n)
    ensures |w| == 1 && Eats(op, Ch(w[0]))
  {
    assert s[a] == s[a..a + 1][0];
    var r, v := FirstMove(s, a, a + 1, a, w, a + 1, n);
    WalkFromEnd(s, a, a + 1, v, a + 1, n - 1);
  }

  /** A walk that enters a block spells a word of it before going on from its end. */
  lemma {:induction false} Through(s: Strip, lo: int, hi: int, a: int, x: Code, w: Word, n: nat)
    returns (u: Word, v: Word, k: nat)
    requires At(s, a, Flat(x)) && lo <= a && a + Len(x) <= hi
    requires Walk(s, lo, hi, a, w, hi, n)
    ensures w == u + v && u in Meaning(x)
    ensures k <= n && Walk(s, lo, hi, a + Len(x), v, hi, n - k)
    decreases x, 1, n
  {
    FlatClosed(s, a, x);
    u, v, k := FirstExit(s, lo, hi, a, a + Len(x), a, w, hi, n);
    WalkInMeaning(s, a, x, u, k);
  }

  lemma {:induction false} CatWalk(s: Strip, a: int, x: Code, y: Code, w: Word, n: nat)
    requires At(s, a, Flat(Cat(x, y)))
    requires Walk(s, a, a + Len(x) + Len(y), a, w, a + Len(x) + Len(y), n)
    ensures w in Concat(Meaning(x), Meaning(y))
    decreases Cat(x, y), 0, n, 0
  {
    hide Walk, Flat, At, Len, Meaning;
    var m, b := a + Len(x), a + Len(x) + Len(y);
    AtCat(s, a, x, y);
    var u, v, k := Through(s, a, b, a, x, w, n);
    var v1, v2, k' := Through(s, a, b, m, y, v, n - k);
    WalkFromEnd(s, a, b, v2, b, n - k - k');
    assert v == v1;
    ConcatIntro(Meaning(x), Meaning(y), u, v);
  }

  lemma {:induction false} GroupWalk(s: Strip, a: int, g: nat, x: Code, w: Word, n: nat)
    requires At(s, a, Flat(Group(g, x)))
    requires Walk(s, a, a + Len(x) + 2, a, w, a + Len(x) + 2, n)
    ensures w in Meaning(x)
    decreases Group(g, x), 0, n, 0
  {
    hide Walk, EpsFirst, Meaning, Flat, At, Len;
    var b := a + 2 + Len(x);
    AtGroup(s, a, g, x);
    var r := OnlyMove(s, a, b, a, w, b, n);
    var u, v, k := Through(s, a, b, a + 1, x, w, n - 1);
    EndMove(s, a, b, v, n - 1 - k);
    assert w == u;
  }

  lemma {:induction false} QuestWalk(s: Strip, a: int, x: Code, w: Word, n: nat)
    requires At(s, a, Flat(Quest(x)))
    requires Walk(s, a, a + Len(x) + 2, a, w, a + Len(x) + 2, n)
    ensures w in Meaning(x) + EPSILON
    decreases Quest(x), 0, n, 0
  {
    hide Walk, EpsFirst, Meaning, Flat, At, Len;
    var b := a + 2 + Len(x);
    AtQuest(s, a, x);
    var r := OnlyMove(s, a, b, a, w, b, n);
    if r == a + 1 {
      var u, v, k := Through(s, a, b, a + 1, x, w, n - 1);
      EndMove(s, a, b, v, n - 1 - k);
      assert w == u;
    } else {
      EndMove(s, a, b, w, n - 1);
    }
  }

  /** Each pass through a loop spells one word of its body. */
  lemma {:induction false} PlusWalk(s: Strip, a: int, x: Code, w: Word, n: nat) returns (passes: nat)
    requires At(s, a, Flat(Plus(x)))
    requires Walk(s, a, a + Len(x) + 2, a, w, a + Len(x) + 2, n)
    ensures passes >= 1 && w in Power(Meaning(x), passes)
    decreases x, 2, n
  {
    hide Walk, EpsFirst, Meaning, Flat, At, Len;
    var m, b := a + 1 + Len(x), a + 2 + Len(x);
    AtPlus(s, a, x);
    var r := OnlyMove(s, a, b, a, w, b, n);
    var u, v, k := Through(s, a, b, a + 1, x, w, n - 1);
    r := OnlyMove(s, a, b, m, v, b, n - 1 - k);
    if r == b {
      WalkFromEnd(s, a, b, v, b, n - 2 - k);
      assert w == u;
      PowerOne(Meaning(x));
      passes := 1;
    } else {
      var rest := PlusWalk(s, a, x, v, n - 2 - k);
      ConcatIntro(Meaning(x), Power(Meaning(x), rest), u, v);
      passes := rest + 1;
    }
  }

  /** The only move from an OOR1 leads to the O_CH, which leads past the choice. */
  lemma {:induction false} OOR1Moves(s: Strip, a: int, bs: Branches, back: nat)
    requires At(s, a, FlatRest(bs, back))
    ensures 0 <= a < a + RestLen(bs) - 1 < |s| && s[a].OOR1? && s[a + RestLen(bs) - 1].O_CH?
    ensures Eps(s, a, a + RestLen(bs) - 1) && Eps(s, a + RestLen(bs) - 1, a + RestLen(bs))
    ensures forall r :: Eps(s, a, r) ==> r == a + RestLen(bs) - 1
  {
    hide Flat, FlatRest, At, Len, RestLen;
    AtRest(s, a, bs, back);
    ChoiceEndFound(s, a, bs, back);
  }

  /** After a branch that is not the last, OOR1 jumps to the O_CH. */
  lemma {:induction false} FromOOR1(s: Strip, a: int, bs: Branches, back: nat, lo: int, w: Word, n: nat)
    requires At(s, a, FlatRest(bs, back))
    requires Walk(s, lo, a + RestLen(bs), a, w, a + RestLen(bs), n)
    ensures w == []
  {
    hide Flat, FlatRest, At, Len, RestLen, Walk, Eps;
    OOR1Moves(s, a, bs, back);
    var r := OnlyMove(s, lo, a + RestLen(bs), a, w, a + RestLen(bs), n);
    EndMove(s, lo, a + RestLen(bs), w, n - 1);
  }

  lemma {:induction false} RestWalk(s: Strip, a: int, bs: Branches, back: nat, lo: int, w: Word, n: nat)
    requires At(s, a, FlatRest(bs, back)) && lo <= a
    requires Walk(s, lo, a + RestLen(bs), a + 1, w, a + RestLen(bs), n)
    ensures w in MeaningRest(bs)
    decreases bs, 0, n
  {
    hide Walk, EpsFirst, Meaning, Flat, FlatRest, At, Len;
    var x, hi := bs.code, a + RestLen(bs);
    AtRest(s, a, bs, back);
    var r := OnlyMove(s, lo, hi, a + 1, w, hi, n);
    if bs.Last? {
      var u, v, k := Through(s, lo, hi, a + 2, x, w, n - 1);
      EndMove(s, lo, hi, v, n - 1 - k);
      assert w == u;
    } else if r == a + 2 {
      var u, v, k := Through(s, lo, hi, a + 2, x, w, n - 1);
      FromOOR1(s, a + 2 + Len(x), bs.rest, Len(x) + 2, lo, v, n - 1 - k);
      assert w == u;
    } else {
      RestWalk(s, a + 2 + Len(x), bs.rest, Len(x) + 2, lo, w, n - 1);
    }
  }

  lemma {:induction false} ChoiceWalk(s: Strip, a: int, x: Code, rest: Branches, w: Word, n: nat)
    requires At(s, a, Flat(Choice(x, rest)))
    requires Walk(s, a, a + Len(Choice(x, rest)), a, w, a + Len(Choice(x, rest)), n)
    ensures w in Meaning(x) + MeaningRest(rest)
    decreases Choice(x, rest), 0, n, 0
  {
    hide Walk, EpsFirst, Meaning, Flat, FlatRest, RestLen, At, Len;
    var m, b := a + 1 + Len(x), a + 1 + Len(x) + RestLen(rest);
    AtChoice(s, a, x, rest);
    AtRest(s, m, rest, Len(x) + 1);
    var r := OnlyMove(s, a, b, a, w, b, n);
    if r == a + 1 {
      var u, v, k := Through(s, a, b, a + 1, x, w, n - 1);
      FromOOR1(s, m, rest, Len(x) + 1, a, v, n - 1 - k);
      assert w == u;
    } else {
      RestWalk(s, m, rest, Len(x) + 1, a, w, n - 1);
    }
  }

  // ----- Every word of the meaning is spelled by a walk -----

  /** An operator that consumes nothing leads on. */
  lemma {:induction false} Lead(s: Strip, lo: int, hi: int, p: int, r: int, w: Word, q: int)
    requires lo <= p < hi && Eps(s, p, r) && Leads(s, lo, hi, r, w, q)
    ensures Leads(s, lo, hi, p, w, q)
  {
    var n: nat :| Walk(s, lo, hi, r, w, q, n);
    EpsStep(s, lo, hi, p, r, w, q, n);
  }

  lemma {:induction false} Arrived(s: Strip, lo: int, hi: int, q: int)
    ensures Leads(s, lo, hi, q, [], q)
  {
    assert Walk(s, lo, hi, q, [], q, 0);
  }

  /** A word of a block leads through it, inside any window around it. */
  lemma {:induction false} WordLeads(s: Strip, lo: int, hi: int, a: int, c: Code, w: Word, v: Word, q: int)
    requires At(s, a, Flat(c)) && lo <= a && a + Len(c) <= hi
    requires w in Meaning(c) && Leads(s, lo, hi, a + Len(c), v, q)
    ensures Leads(s, lo, hi, a, w + v, q)
    decreases c, 0
  {
    hide Leads, At, Flat, Len;
    match c
    case Cat(x, y) =>
      AtCat(s, a, x, y);
      var w1, w2 := ConcatElim(Meaning(x), Meaning(y), w);
      WordLeads(s, lo, hi, a + Len(x), y, w2, v, q);
      WordLeads(s, lo, hi, a, x, w1, w2 + v, q);
      assert w + v == w1 + (w2 + v);
    case Group(k, x) => GroupLeads(s, lo, hi, a, k, x, w, v, q);
    case Plus(x) =>
      AtPlus(s, a, x);
      var k: nat :| Within(1, k, Unbounded) && w in Power(Meaning(x), k);
      PlusLeads(s, lo, hi, a, x, k, w, v, q);
    case Quest(x) => QuestLeads(s, lo, hi, a, x, w, v, q);
    case Choice(x, rest) => ChoiceLeads(s, lo, hi, a, x, rest, w, v, q);
    case _ => LeafLeads(s, lo, hi, a, c, w, v, q);
  }

  lemma {:induction false} LeafLeads(s: Strip, lo: int, hi: int, a: int, c: Code, w: Word, v: Word, q: int)
    requires c.Empty? || c.Literal? || c.AnyByte? || c.OneOf?
    requires At(s, a, Flat(c)) && lo <= a && a + Len(c) <= hi
    requires w in Meaning(c) && Leads(s, lo, hi, a + Len(c), v, q)
    ensures Leads(s, lo, hi, a, w + v, q)
  {
    hide Leads, At;
    match c
    case Empty => assert w + v == v;
    case Literal(b) => SingleLeads(s, lo, hi, a, OCHAR(b), w, v, q);
    case AnyByte => SingleLeads(s, lo, hi, a, OANY, w, v, q);
    case OneOf(cs) => SingleLeads(s, lo, hi, a, OANYOF(cs), w, v, q);
  }

  lemma {:induction false} GroupLeads(s: Strip, lo: int, hi: int, a: int, k: nat, x: Code, w: Word, v: Word, q: int)
    requires At(s, a, Flat(Group(k, x))) && lo <= a && a + Len(Group(k, x)) <= hi
    requires w in Meaning(x) && Leads(s, lo, hi, a + Len(Group(k, x)), v, q)
    ensures Leads(s, lo, hi, a, w + v, q)
    decreases Group(k, x), 0, 0
  {
    hide Leads, At, Flat, Len, Meaning;
    AtGroup(s, a, k, x);
    Lead(s, lo, hi, a + 1 + Len(x), a + 2 + Len(x), v, q);
    WordLeads(s, lo, hi, a + 1, x, w, v, q);
    Lead(s, lo, hi, a, a + 1, w + v, q);
  }

  lemma {:induction false} QuestLeads(s: Strip, lo: int, hi: int, a: int, x: Code, w: Word, v: Word, q: int)
    requires At(s, a, Flat(Quest(x))) && lo <= a && a + Len(Quest(x)) <= hi
    requires w in Meaning(x) + EPSILON && Leads(s, lo, hi, a + Len(Quest(x)), v, q)
    ensures Leads(s, lo, hi, a, w + v, q)
    decreases Quest(x), 0, 0
  {
    hide Leads, At, Flat, Len, Meaning;
    AtQuest(s, a, x);
    Lead(s, lo, hi, a + 1 + Len(x), a + 2 + Len(x), v, q);
    if w in Meaning(x) {
      WordLeads(s, lo, hi, a + 1, x, w, v, q);
      Lead(s, lo, hi, a, a + 1, w + v, q);
    } else {
      assert w + v == v;
      Lead(s, lo, hi, a, a + 1 + Len(x), v, q);
    }
  }

  lemma {:induction false} SingleLeads(s: Strip, lo: int, hi: int, a: int, op: Sop, w: Word, v: Word, q: int)
    requires At(s, a, [op]) && lo <= a < hi
    requires |w| == 1 && Eats(op, Ch(w[0])) && Leads(s, lo, hi, a + 1, v, q)
    ensures Leads(s, lo, hi, a, w + v, q)
  {
    assert s[a] == s[a..a + 1][0];
    var n: nat :| Walk(s, lo, hi, a + 1, v, q, n);
    EatStep(s, lo, hi, a, w[0], v, q, n);
    assert w + v == [w[0]] + v;
  }

  lemma {:induction false} PlusLeads(s: Strip, lo: int, hi: int, a: int, x: Code, k: nat, w: Word, v: Word, q: int)
    requires At(s, a, Flat(Plus(x))) && lo <= a && a + Len(x) + 2 <= hi
    requires k >= 1 && w in Power(Meaning(x), k) && Leads(s, lo, hi, a + Len(x) + 2, v, q)
    ensures Leads(s, lo, hi, a, w + v, q)
    decreases x, 1, k
  {
    hide Walk, EpsFirst, Leads, Meaning, Flat, FlatRest, At, Len;
    var m := a + 1 + Len(x);
    AtPlus(s, a, x);
    var w1, w2 := ConcatElim(Meaning(x), Power(Meaning(x), k - 1), w);
    if k == 1 {
      assert w2 + v == v;
      Lead(s, lo, hi, m, m + 1, v, q);
    } else {
      PlusLeads(s, lo, hi, a, x, k - 1, w2, v, q);
      Lead(s, lo, hi, m, a, w2 + v, q);
    }
    WordLeads(s, lo, hi, a + 1, x, w1, w2 + v, q);
    Lead(s, lo, hi, a, a + 1, w1 + (w2 + v), q);
    assert w + v == w1 + (w2 + v);
  }

  lemma {:induction false} ChoiceLeads(s: Strip, lo: int, hi: int, a: int, x: Code, rest: Branches, w: Word, v: Word, q: int)
    requires At(s, a, Flat(Choice(x, rest))) && lo <= a && a + Len(Choice(x, rest)) <= hi
    requires w in Meaning(x) + MeaningRest(rest) && Leads(s, lo, hi, a + Len(Choice(x, rest)), v, q)
    ensures Leads(s, lo, hi, a, w + v, q)
    decreases Choice(x, rest), 0, 0
  {
    hide Walk, EpsFirst, Leads, Meaning, Flat, FlatRest, At, Len;
    var m := a + 1 + Len(x);
    AtChoice(s, a, x, rest);
    AtRest(s, m, rest, Len(x) + 1);
    if w in Meaning(x) {
      OOR1Leads(s, lo, hi, m, rest, Len(x) + 1, v, q);
      WordLeads(s, lo, hi, a + 1, x, w, v, q);
      Lead(s, lo, hi, a, a + 1, w + v, q);
    } else {
      RestLeads(s, lo, hi, m, rest, Len(x) + 1, w, v, q);
      Lead(s, lo, hi, a, m + 1, w + v, q);
    }
  }

  lemma {:induction false} OOR1Leads(s: Strip, lo: int, hi: int, a: int, bs: Branches, back: nat, v: Word, q: int)
    requires At(s, a, FlatRest(bs, back)) && lo <= a && a + RestLen(bs) <= hi
    requires Leads(s, lo, hi, a + RestLen(bs), v, q)
    ensures Leads(s, lo, hi, a, v, q)
  {
    hide Flat, FlatRest, At, Len, RestLen, Leads, Eps;
    OOR1Moves(s, a, bs, back);
    Lead(s, lo, hi, a + RestLen(bs) - 1, a + RestLen(bs), v, q);
    Lead(s, lo, hi, a, a + RestLen(bs) - 1, v, q);
  }

  lemma {:induction false} RestLeads(s: Strip, lo: int, hi: int, a: int, bs: Branches, back: nat, w: Word, v: Word, q: int)
    requires At(s, a, FlatRest(bs, back)) && lo <= a && a + RestLen(bs) <= hi
    requires w in MeaningRest(bs) && Leads(s, lo, hi, a + RestLen(bs), v, q)
    ensures Leads(s, lo, hi, a + 1, w + v, q)
    decreases bs, 0
  {
    hide Walk, EpsFirst, Leads, Meaning, Flat, FlatRest, At, Len;
    var x := bs.code;
    var m := a + 2 + Len(x);
    AtRest(s, a, bs, back);
    if bs.Last? {
      Lead(s, lo, hi, m, m + 1, v, q);
      WordLeads(s, lo, hi, a + 2, x, w, v, q);
      Lead(s, lo, hi, a + 1, a + 2, w + v, q);
    } else if w in Meaning(x) {
      OOR1Leads(s, lo, hi, m, bs.rest, Len(x) + 2, v, q);
      WordLeads(s, lo, hi, a + 2, x, w, v, q);
      Lead(s, lo, hi, a + 1, a + 2, w + v, q);
    } else {
      AtRest(s, m, bs.rest, Len(x) + 2);
      RestLeads(s, lo, hi, m, bs.rest, Len(x) + 2, w, v, q);
      Lead(s, lo, hi, a + 1, m + 1, w + v, q);
    }
  }

  /** Wherever a block lies, the strings its offsets accept are exactly its meaning. */
  lemma {:induction false} BlockAcceptsMeaning(s: Strip, a: int, c: Code)
    requires At(s, a, Flat(c))
    ensures Accepted(s, a, a + Len(c)) == Meaning(c)
  {
    var b := a + Len(c);
    forall w: Word
      ensures w in Accepted(s, a, b) <==> w in Meaning(c)
    {
      if Accepts(s, a, b, w) {
        var n: nat :| Walk(s, a, b, a, w, b, n);
        WalkInMeaning(s, a, c, w, n);
      }
      if w in Meaning(c) {
        Arrived(s, a, b, b);
        WordLeads(s, a, b, a, c, w, [], b);
        assert w + [] == w;
      }
    }
  }
}
