/**
  The start of the reported match.  It need not be the leftmost one: the search goes back only to
  the last place where the states were those of a fresh start.
 */
module RegexLeftmost {
  import opened Basics
  import opened RegexLanguage
  import opened RegexStrip
  import opened RegexCode
  import opened RegexEmit
  import opened RegexSearch
  import opened RegexScan
  import opened RegexGrammar
  import opened RegexReader
  import opened RegexCompile

  /** A match begins at `i` and ends by `stop`. */
  ghost predicate BeginsAt(s: Strip, lo: int, hi: int, text: Word, i: int, stop: int)
    requires 0 <= i && stop <= |text|
  {
    exists e :: i <= e <= stop && Accepts(s, lo, hi, text[i..e])
  }

  /** The leftmost place where a match begins. */
  ghost predicate Leftmost(s: Strip, lo: int, hi: int, text: Word, start: int, stop: int, i: int)
    requires 0 <= start && stop <= |text|
  {
    && start <= i <= stop && BeginsAt(s, lo, hi, text, i, stop)
    && forall j :: start <= j < i ==> !BeginsAt(s, lo, hi, text, j, stop)
  }

  /**
    The reported match is the leftmost one exactly when the states never become those of a fresh
    start between the place where the leftmost match begins and the first place where one ends.
   */
  lemma {:induction false} LeftmostExactly(s: Strip, lo: int, hi: int, text: Word, start: int, stop: int, so: int, eo: int, end: int, i: int)
    requires 0 <= start <= stop <= |text|
    requires Found(s, lo, hi, text, start, stop, so, eo) && FirstEnd(s, lo, hi, text, start, end)
    requires Leftmost(s, lo, hi, text, start, stop, i)
    ensures so == i <==> forall p :: i < p <= end ==> !Cold(s, lo, hi, text, start, p)
  {
    hide Cold, FirstEnd, Accepts;
    var end', cold :| FirstEnd(s, lo, hi, text, start, end') && LastCold(s, lo, hi, text, start, end', cold)
                      && FoundFrom(s, lo, hi, text, cold, stop, so, eo);
    FirstEndUnique(s, lo, hi, text, start, end, end');
    assert BeginsAt(s, lo, hi, text, so, stop);
    if cold <= i {
      StartsAt(s, lo, hi, text, start, cold, stop, so, eo, i);
    }
  }

  lemma {:induction false} StartsAt(s: Strip, lo: int, hi: int, text: Word, start: int, cold: int, stop: int, so: int, eo: int, i: int)
    requires 0 <= start <= cold <= i <= stop <= |text|
    requires FoundFrom(s, lo, hi, text, cold, stop, so, eo) && Leftmost(s, lo, hi, text, start, stop, i)
    ensures so == i
  {
    hide Accepts;
    assert BeginsAt(s, lo, hi, text, so, stop);
    BeginsNotNone(s, lo, hi, text, i, stop);
  }

  lemma {:induction false} BeginsNotNone(s: Strip, lo: int, hi: int, text: Word, i: int, stop: int)
    requires 0 <= i <= stop <= |text| && BeginsAt(s, lo, hi, text, i, stop)
    ensures !LongestFrom(s, lo, hi, text, i, stop, None)
  {
    hide Accepts;
  }

  // ----- A pattern and a text where it is not -----

  const A: Byte := 97
  const B: Byte := 98
  const C: Byte := 99

  /** The expression (a*|b)c */
  const EXPRESSION: Ere :=
    Single(Then(Piece(Paren(Alternative(Then(Piece(Ordinary(A), Star), Done), Single(Then(Piece(Ordinary(B), Once), Done)))), Once),
                Then(Piece(Ordinary(C), Once), Done)))

  const STRIP: Strip :=
    [OEND, OLPAREN(1), OCH_(7), OQUEST_(4), OPLUS_(2), OCHAR(A), O_PLUS(2), O_QUEST(4),
     OOR1(6), OOR2(2), OCHAR(B), O_CH(3), ORPAREN(1), OCHAR(C), OEND]

  const TEXT: Word := [B, C]

  /** The text of the expression. */
  const PATTERN: Word := [40, A, 42, 124, B, 41, C]

  /** The pattern is read as the expression. */
  lemma {:induction false} PatternOfExpression()
    ensures ReadEre(PATTERN, 0, TOPLEVEL) == Ok(EXPRESSION, |PATTERN|)
  {
    hide ReadEre;
    var inner := Alternative(Then(Piece(Ordinary(A), Star), Done), Single(Then(Piece(Ordinary(B), Once), Done)));
    InnerText(inner);
    var tail := Then(Piece(Ordinary(C), Once), Done);
    assert BranchText(tail) == [C] by {
      assert PieceText(tail.piece) == [C];
    }
    assert PieceText(Piece(Paren(inner), Once)) == [40, A, 42, 124, B, 41];
    assert EreText(EXPRESSION) == PATTERN;
    assert ValidBranch(tail) && !Vanishes(tail);
    ReadExactly(PATTERN, EXPRESSION);
  }

  lemma {:induction false} InnerText(e: Ere)
    requires e == Alternative(Then(Piece(Ordinary(A), Star), Done), Single(Then(Piece(Ordinary(B), Once), Done)))
    ensures EreText(e) == [A, 42, 124, B] && ValidEre(e)
  {
    assert PieceText(Piece(Ordinary(A), Star)) == [A, 42];
    assert BranchText(e.branch) == [A, 42];
    assert BranchText(e.rest.branch) == [B];
    assert ValidEre(e.rest);
  }

  /** The strip is the one that the expression compiles to. */
  lemma {:induction false} StripOfExpression()
    ensures Wrapped(EreCode(EXPRESSION, 0, false)) == STRIP
  {
    hide Flat, EreCode;
    CodeOfExpression();
    FlatOfGroup();
    FlatOfCat();
  }

  function Looped(): Code { Cat(Quest(Plus(Literal(A))), Empty) }
  function Chosen(): Code { Group(1, Choice(Looped(), Last(Cat(Literal(B), Empty)))) }

  lemma {:induction false} FlatOfLoop()
    ensures Flat(Looped()) == [OQUEST_(4), OPLUS_(2), OCHAR(A), O_PLUS(2), O_QUEST(4)]
  {
    assert Flat(Plus(Literal(A))) == [OPLUS_(2), OCHAR(A), O_PLUS(2)];
  }

  lemma {:induction false} FlatOfGroup()
    ensures Flat(Chosen()) == [OLPAREN(1), OCH_(7), OQUEST_(4), OPLUS_(2), OCHAR(A), O_PLUS(2), O_QUEST(4),
                               OOR1(6), OOR2(2), OCHAR(B), O_CH(3), ORPAREN(1)]
  {
    hide Looped, Flat;
    FlatGroup(1, Choice(Looped(), Last(Cat(Literal(B), Empty))));
    FlatChoice(Looped(), Last(Cat(Literal(B), Empty)));
    FlatOfLoop();
    FlatOfRest();
  }

  lemma {:induction false} FlatOfRest()
    ensures FlatRest(Last(Cat(Literal(B), Empty)), 6) == [OOR1(6), OOR2(2), OCHAR(B), O_CH(3)]
  {
    assert Flat(Cat(Literal(B), Empty)) == [OCHAR(B)];
  }

  lemma {:induction false} FlatOfCat()
    ensures Flat(Cat(Chosen(), Cat(Literal(C), Empty))) == Flat(Chosen()) + [OCHAR(C)]
  {
    hide Chosen;
    assert Flat(Cat(Literal(C), Empty)) == [OCHAR(C)];
  }

  lemma {:induction false} CodeOfExpression()
    ensures EreCode(EXPRESSION, 0, false) == Cat(Chosen(), Cat(Literal(C), Empty))
  {
    var first, second := Then(Piece(Ordinary(A), Star), Done), Single(Then(Piece(Ordinary(B), Once), Done));
    assert BranchCode(first, 1, false) == Cat(Quest(Plus(Literal(A))), Empty);
    assert RestCode(second, 1, false) == Last(Cat(Literal(B), Empty));
    assert EreCode(Alternative(first, second), 1, false) == Choice(Cat(Quest(Plus(Literal(A))), Empty), Last(Cat(Literal(B), Empty)));
  }

  lemma {:induction false} ChoiceEnds()
    ensures ChoiceEnd(STRIP, 9) == 11
  {
    assert ChoiceEnd(STRIP, 11) == 11;
  }

  /** No move that consumes nothing leads to the end. */
  lemma {:induction false} EndNeedsByte(p: int, q: int)
    requires 1 <= p < 14 && Eps(STRIP, p, q)
    ensures q < 14
  {
    ChoiceEnds();
  }

  lemma {:induction false} NoEmptyWay(p: int, n: nat)
    requires p < 14
    ensures !Walk(STRIP, 1, 14, p, [], 14, n)
    decreases n
  {
    hide Eps;
    if n > 0 && Walk(STRIP, 1, 14, p, [], 14, n) {
      var r, v := FirstMove(STRIP, 1, 14, p, [], 14, n);
      EndNeedsByte(p, r);
      NoEmptyWay(r, n - 1);
    }
  }

  lemma {:induction false} NothingLeads(p: int)
    requires p < 14
    ensures !Leads(STRIP, 1, 14, p, [], 14)
  {
    hide Walk;
    forall n: nat
      ensures !Walk(STRIP, 1, 14, p, [], 14, n)
    {
      NoEmptyWay(p, n);
    }
  }

  lemma {:induction false} OneEps(p: int, r: int, q: int)
    requires 1 <= p < 14 && Eps(STRIP, p, r) && Leads(STRIP, 1, 14, r, [], q)
    ensures Leads(STRIP, 1, 14, p, [], q)
  {
    hide Eps;
    var n: nat :| Walk(STRIP, 1, 14, r, [], q, n);
    EpsStep(STRIP, 1, 14, p, r, [], q, n);
  }

  /** The loop can be left at once, so the end of the choice is among the first states. */
  lemma {:induction false} ChoiceEndIsFresh()
    ensures Leads(STRIP, 1, 14, 1, [], 11) && Leads(STRIP, 1, 14, 11, [], 13)
  {
    ChoiceEnds();
    LeadsNowhere(STRIP, 1, 14, 11);
    OneEps(8, 11, 11);
    OneEps(7, 8, 11);
    OneEps(3, 7, 11);
    OneEps(2, 3, 11);
    OneEps(1, 2, 11);
    LeadsNowhere(STRIP, 1, 14, 13);
    OneEps(12, 13, 13);
    OneEps(11, 12, 13);
  }

  lemma {:induction false} NothingTwice()
    ensures var nothing: Word := []; nothing + nothing == nothing
  {
  }

  lemma {:induction false} EatsAt(r: int)
    requires 1 <= r < 14
    ensures Eats(STRIP[r], Ch(B)) <==> r == 10
    ensures Eats(STRIP[r], Ch(C)) <==> r == 13
  {
  }

  /** After the b the states are just those of a fresh start. */
  lemma {:induction false} ColdAfterB(q: int)
    requires Leads(STRIP, 1, 14, 1, [B], q)
    ensures Leads(STRIP, 1, 14, 11, [], q) && Leads(STRIP, 1, 14, 1, [], q)
  {
    hide Leads, Eats;
    assert [B] == [] + [B];
    var r := LastByte(STRIP, 1, 14, 1, [], B, q);
    EatsAt(r);
    ChoiceEndIsFresh();
    LeadsJoin(STRIP, 1, 14, 1, [], 11, [], q);
    NothingTwice();
  }

  lemma {:induction false} AcceptsC()
    ensures Accepts(STRIP, 1, 14, [C])
  {
    hide Leads;
    ChoiceEndIsFresh();
    LeadsJoin(STRIP, 1, 14, 1, [], 11, [], 13);
    NothingTwice();
    LeadsNowhere(STRIP, 1, 14, 14);
    LeadsEat(STRIP, 1, 14, 13, C, 14);
    LeadsJoin(STRIP, 1, 14, 1, [], 13, [C], 14);
    assert [] + [C] == [C];
  }

  lemma {:induction false} AcceptsBC()
    ensures Accepts(STRIP, 1, 14, TEXT)
  {
    hide Leads;
    ChoiceEndIsFresh();
    LeadsEat(STRIP, 1, 14, 10, B, 13);
    LeadsNowhere(STRIP, 1, 14, 10);
    ReachB();
    assert [] + [B] == [B] && [B] + [C] == TEXT;
    LeadsJoin(STRIP, 1, 14, 1, [], 10, [B], 13);
    LeadsNowhere(STRIP, 1, 14, 14);
    LeadsEat(STRIP, 1, 14, 13, C, 14);
    LeadsJoin(STRIP, 1, 14, 1, [B], 13, [C], 14);
  }

  lemma {:induction false} ReachB()
    ensures Leads(STRIP, 1, 14, 1, [], 10)
  {
    LeadsNowhere(STRIP, 1, 14, 10);
    OneEps(9, 10, 10);
    OneEps(2, 9, 10);
    OneEps(1, 2, 10);
  }

  lemma {:induction false} FirstEndIsTwo()
    ensures FirstEnd(STRIP, 1, 14, TEXT, 0, 2)
  {
    hide Leads;
    AcceptsC();
    assert TEXT[1..2] == [C];
    assert Begun(STRIP, 1, 14, TEXT, 0, 2, 14);
    forall e, i | 0 <= i <= e < 2
      ensures !Leads(STRIP, 1, 14, 1, TEXT[i..e], 14)
    {
      NothingLeads(1);
      NothingLeads(11);
      if i < e {
        assert TEXT[i..e] == [B];
        if Leads(STRIP, 1, 14, 1, [B], 14) {
          ColdAfterB(14);
        }
      } else {
        assert TEXT[i..e] == [];
      }
    }
  }

  lemma {:induction false} ColdAtOne()
    ensures LastCold(STRIP, 1, 14, TEXT, 0, 2, 1)
  {
    hide Leads;
    forall q
      ensures Begun(STRIP, 1, 14, TEXT, 0, 1, q) <==> Leads(STRIP, 1, 14, 1, [], q)
    {
      assert TEXT[0..1] == [B] && TEXT[1..1] == [];
      if Leads(STRIP, 1, 14, 1, [B], q) {
        ColdAfterB(q);
      }
      if Leads(STRIP, 1, 14, 1, [], q) {
        assert Leads(STRIP, 1, 14, 1, TEXT[1..1], q);
      }
    }
    NothingLeads(1);
    FirstEndIsTwo();
    assert !Cold(STRIP, 1, 14, TEXT, 0, 2);
  }

  /** On "bc" the match "c" at 1 is reported although "bc" at 0 matches. */
  lemma {:induction false} NotLeftmost()
    ensures Found(STRIP, 1, 14, TEXT, 0, 2, 1, 2) && Leftmost(STRIP, 1, 14, TEXT, 0, 2, 0)
  {
    hide Leads, FirstEnd, LastCold;
    FirstEndIsTwo();
    ColdAtOne();
    AcceptsC();
    AcceptsBC();
    assert TEXT[1..2] == [C] && TEXT[0..2] == TEXT;
    FoundIntro(STRIP, 1, 14, TEXT, 0, 2, 2, 1, 1, 2);
  }
}
