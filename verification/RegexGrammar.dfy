/**
  Extended regular expressions as trees (section 9.4 of XBD in IEEE Std 1003.1): the text a tree
  stands for, the language it denotes, and the code it is compiled to.
 */
module RegexGrammar {
  import opened Basics
  import opened RegexLanguage
  import opened RegexStrip
  import opened RegexCode
  import opened RegexEmit
  import opened RegexScan
  import opened RegexBracket

  datatype Ere = Single(branch: Branch) | Alternative(branch: Branch, rest: Ere)

  datatype Branch = Done | Then(piece: Piece, rest: Branch)

  datatype Piece = Piece(atom: Atom, dup: Dup)

  datatype Atom = Ordinary(c: Byte) | Escaped(c: Byte) | Dot | Bracket(list: CharList) | Paren(e: Ere) | Unit

  datatype Dup = Once | Star | OneOrMore | Question | Counted(lo: Word, hi: High)

  datatype High = Same | NoLimit | Limit(digits: Word)

  // ----- Numbers -----

  predicate IsDigit(c: int) { '0' as int <= c <= '9' as int }

  predicate AllDigits(d: Word) { forall i :: 0 <= i < |d| ==> IsDigit(d[i]) }

  /** The number that a string of digits stands for. */
  function Value(d: Word): nat {
    if d == [] then 0 else 10 * Value(d[..|d| - 1]) + DigitValue(d[|d| - 1])
  }

  function DigitValue(c: int): nat { if IsDigit(c) then c - '0' as int else 0 }

  /** A repetition count: digits for a number up to DUPMAX. */
  predicate IsCount(d: Word) {
    d != [] && AllDigits(d) && Value(d) <= DUPMAX
  }

  /** The bounds of a repetition; INFINITY stands for no upper bound. */
  function From(d: Dup): nat {
    match d
    case Once => 1
    case Star => 0
    case OneOrMore => 1
    case Question => 0
    case Counted(lo, _) => Value(lo)
  }

  function To(d: Dup): nat {
    match d
    case Once => 1
    case Star => INFINITY
    case OneOrMore => INFINITY
    case Question => 1
    case Counted(lo, Same) => Value(lo)
    case Counted(_, NoLimit) => INFINITY
    case Counted(_, Limit(hi)) => Value(hi)
  }

  predicate ValidDup(d: Dup) {
    d.Counted? ==>
      && IsCount(d.lo)
      && (d.hi.Limit? ==> IsCount(d.hi.digits) && Value(d.lo) <= Value(d.hi.digits))
  }

  lemma {:induction false} DupBounds(d: Dup)
    requires ValidDup(d)
    ensures From(d) <= To(d) <= INFINITY && From(d) <= DUPMAX
  {
  }

  // ----- The text of a tree -----

  function EreText(e: Ere): Word {
    match e
    case Single(b) => BranchText(b)
    case Alternative(b, rest) => BranchText(b) + [Chr('|')] + EreText(rest)
  }

  function BranchText(b: Branch): Word {
    match b
    case Done => []
    case Then(p, rest) => PieceText(p) + BranchText(rest)
  }

  function PieceText(p: Piece): Word {
    AtomText(p.atom) + DupText(p.dup)
  }

  function AtomText(a: Atom): Word {
    match a
    case Ordinary(c) => [c]
    case Escaped(c) => [Chr('\\'), c]
    case Dot => [Chr('.')]
    case Bracket(list) => [Chr('[')] + ListText(list)
    case Paren(e) => [Chr('(')] + EreText(e) + [Chr(')')]
    case Unit => [Chr('('), Chr(')')]
  }

  function DupText(d: Dup): Word {
    match d
    case Once => []
    case Star => [Chr('*')]
    case OneOrMore => [Chr('+')]
    case Question => [Chr('?')]
    case Counted(lo, hi) => [Chr('{')] + lo + HighText(hi) + [Chr('}')]
  }

  function HighText(h: High): Word {
    match h
    case Same => []
    case NoLimit => [Chr(',')]
    case Limit(d) => [Chr(',')] + d
  }

  // ----- The language of a tree -----

  ghost function Bytes(cs: set<Byte>): Lang {
    iset w: Word | |w| == 1 && w[0] in cs
  }

  ghost function EreLang(e: Ere, newline: bool): Lang {
    match e
    case Single(b) => BranchLang(b, newline)
    case Alternative(b, rest) => BranchLang(b, newline) + EreLang(rest, newline)
  }

  ghost function BranchLang(b: Branch, newline: bool): Lang {
    match b
    case Done => EPSILON
    case Then(p, rest) => Concat(PieceLang(p, newline), BranchLang(rest, newline))
  }

  ghost function PieceLang(p: Piece, newline: bool): Lang {
    DupLang(AtomLang(p.atom, newline), p.dup)
  }

  /** What a repetition makes of a language. */
  ghost function DupLang(a: Lang, d: Dup): Lang {
    match d
    case Once => a
    case Star => Repeated(a, 0, Unbounded)
    case OneOrMore => Repeated(a, 1, Unbounded)
    case Question => a + EPSILON
    case Counted(lo, Same) => Power(a, Value(lo))
    case Counted(lo, NoLimit) => Repeated(a, Value(lo), Unbounded)
    case Counted(lo, Limit(hi)) => Repeated(a, Value(lo), AtMost(Value(hi)))
  }

  ghost function AtomLang(a: Atom, newline: bool): Lang {
    match a
    case Ordinary(c) => Bytes({c})
    case Escaped(c) => Bytes({c})
    case Dot => Bytes(AnySet(newline))
    case Bracket(list) => Bytes(ListSet(list, newline))
    case Paren(e) => EreLang(e, newline)
    case Unit => EPSILON
  }

  function AnySet(newline: bool): set<Byte> {
    if newline then ALL - {Chr('\n')} else ALL
  }

  /** What a period, a byte and a list match: a newline that ends lines only if it is listed. */
  lemma {:induction false} ByteMatched(a: Atom, newline: bool, b: Byte)
    ensures a.Dot? ==> ([b] in AtomLang(a, newline) <==> !(newline && b == 10))
    ensures a.Ordinary? || a.Escaped? ==> ([b] in AtomLang(a, newline) <==> b == a.c)
    ensures a.Bracket? && !a.list.inverted ==> ([b] in AtomLang(a, newline) <==> b in ListedSet(a.list))
    ensures a.Bracket? && a.list.inverted ==>
              ([b] in AtomLang(a, newline) <==> b !in ListedSet(a.list) && !(newline && b == 10))
  {
    hide ListedSet;
  }

  /** Digits are read from the left, each worth ten of the next. */
  lemma {:induction false} ValueIs(d: Word, c: Byte)
    requires 48 <= c <= 57
    ensures Value([]) == 0 && Value(d + [c]) == 10 * Value(d) + (c - 48)
  {
    assert (d + [c])[..|d|] == d;
  }

  /** A count has only the digits from 48 to 57 and is at most 255. */
  lemma {:induction false} CountIs(d: Word)
    ensures IsCount(d) <==> d != [] && (forall i | 0 <= i < |d| :: 48 <= d[i] <= 57) && Value(d) <= 255
  {
    hide Value;
  }

  // ----- Trees that stand for expressions -----

  /** The bytes that mean something else than themselves where an atom is expected. */
  predicate Special(c: Byte) {
    c in [Chr('('), Chr(')'), Chr('^'), Chr('$'), Chr('|'), Chr('*'), Chr('+'), Chr('?'), Chr('.'), Chr('['), Chr('\\')]
  }

  predicate ValidEre(e: Ere) {
    && ValidBranch(e.branch) && !Vanishes(e.branch)
    && (e.Alternative? ==> ValidEre(e.rest))
  }

  /** A left brace stands for itself unless a digit follows. */
  predicate ValidBranch(b: Branch) {
    b.Then? ==>
      && ValidAtom(b.piece.atom) && ValidDup(b.piece.dup)
      && ValidBranch(b.rest)
      && (b.piece == Piece(Ordinary(Chr('{')), Once) ==> BranchText(b.rest) == [] || !IsDigit(BranchText(b.rest)[0]))
  }

  /** A branch of which nothing remains: every piece is repeated zero times. */
  predicate Vanishes(b: Branch) {
    b.Then? ==> To(b.piece.dup) == 0 && Vanishes(b.rest)
  }

  predicate ValidAtom(a: Atom) {
    match a
    case Ordinary(c) => !Special(c)
    case Bracket(list) => ValidList(list)
    case Paren(e) => ValidEre(e)
    case _ => true
  }

  // ----- The code of a tree; `n` groups come before it -----

  function EreGroups(e: Ere): nat {
    match e
    case Single(b) => BranchGroups(b)
    case Alternative(b, rest) => BranchGroups(b) + EreGroups(rest)
  }

  function BranchGroups(b: Branch): nat {
    match b
    case Done => 0
    case Then(p, rest) => AtomGroups(p.atom) + BranchGroups(rest)
  }

  function AtomGroups(a: Atom): nat {
    match a
    case Paren(e) => 1 + EreGroups(e)
    case Unit => 1
    case _ => 0
  }

  function EreCode(e: Ere, n: nat, newline: bool): Code {
    match e
    case Single(b) => BranchCode(b, n, newline)
    case Alternative(b, rest) => Choice(BranchCode(b, n, newline), RestCode(rest, n + BranchGroups(b), newline))
  }

  function RestCode(e: Ere, n: nat, newline: bool): Branches {
    match e
    case Single(b) => Last(BranchCode(b, n, newline))
    case Alternative(b, rest) => More(BranchCode(b, n, newline), RestCode(rest, n + BranchGroups(b), newline))
  }

  function BranchCode(b: Branch, n: nat, newline: bool): Code {
    match b
    case Done => Empty
    case Then(p, rest) => Cat(PieceCode(p, n, newline), BranchCode(rest, n + AtomGroups(p.atom), newline))
  }

  function PieceCode(p: Piece, n: nat, newline: bool): Code {
    DupCode(AtomCode(p.atom, n, newline), p.dup)
  }

  function DupCode(x: Code, d: Dup): Code {
    match d
    case Once => x
    case Star => Quest(Plus(x))
    case OneOrMore => Plus(x)
    case Question => Optional(x)
    case Counted(_, _) => if From(d) <= To(d) then RepeatCode(x, From(d), To(d)) else Empty
  }

  function AtomCode(a: Atom, n: nat, newline: bool): Code {
    match a
    case Ordinary(c) => Literal(c)
    case Escaped(c) => Literal(c)
    case Dot => if newline then SetCode(AnySet(newline)) else AnyByte
    case Bracket(list) => SetCode(ListSet(list, newline))
    case Paren(e) => Group(n + 1, EreCode(e, n + 1, newline))
    case Unit => Group(n + 1, Empty)
  }

  /** A set with one byte is laid out as that byte. */
  function SetCode(cs: set<Byte>): Code {
    if |cs| == 1 then Literal(FirstByte(cs)) else OneOf(cs)
  }

  function FirstByte(cs: set<Byte>): Byte
    requires |cs| == 1
  {
    TheOnly(cs);
    var b :| b in cs;
    b
  }

  lemma {:induction false} TheOnly(cs: set<Byte>)
    requires |cs| == 1
    ensures exists b :: b in cs
    ensures forall b, c :: b in cs && c in cs ==> b == c
  {
    var b :| b in cs;
    assert |cs - {b}| == 0;
    assert cs == {b};
  }

  // ----- The code of a tree means the language of the tree -----

  lemma {:induction false} SetMeaning(cs: set<Byte>)
    ensures Meaning(SetCode(cs)) == Bytes(cs)
  {
    if |cs| == 1 {
      TheOnly(cs);
    }
  }

  lemma {:induction false} AnyMeaning()
    ensures Meaning(AnyByte) == Bytes(ALL)
  {
  }

  lemma {:induction false} OptionalMeaning(x: Code)
    ensures Meaning(Optional(x)) == Meaning(x) + EPSILON
  {
    RepeatMeaning(x, 0, 1);
    RepeatedOptional(Meaning(x), AtMost(1));
    RepeatedOne(Meaning(x));
  }

  lemma {:induction false} StarMeaning(x: Code)
    ensures Meaning(Quest(Plus(x))) == Repeated(Meaning(x), 0, Unbounded)
  {
    RepeatedOptional(Meaning(x), Unbounded);
  }

  /** `*` as `+?`, `?` as `(y|)` and `{m,n}` unfolded all mean what they should. */
  lemma {:induction false} DupMeaning(x: Code, d: Dup)
    requires ValidDup(d)
    ensures Meaning(DupCode(x, d)) == DupLang(Meaning(x), d)
  {
    match d
    case Once =>
    case Star => StarMeaning(x);
    case OneOrMore =>
    case Question => OptionalMeaning(x);
    case Counted(lo, hi) => CountedMeaning(x, lo, hi);
  }

  lemma {:induction false} CountedMeaning(x: Code, lo: Word, hi: High)
    requires ValidDup(Counted(lo, hi))
    ensures Meaning(DupCode(x, Counted(lo, hi))) == DupLang(Meaning(x), Counted(lo, hi))
  {
    hide Meaning, RepeatCode, Repeated, Power;
    DupBounds(Counted(lo, hi));
    match hi
    case Same => RepeatMeaning(x, Value(lo), Value(lo)); RepeatedExact(Meaning(x), Value(lo));
    case NoLimit => RepeatMeaning(x, Value(lo), INFINITY);
    case Limit(d) => RepeatMeaning(x, Value(lo), Value(d));
  }

  /** The bounds allow `k` words in a row: as many, at least as many, or from so many up to so many. */
  predicate Allows(lo: Word, hi: High, k: nat) {
    Value(lo) <= k && (hi.Same? ==> k == Value(lo)) && (hi.Limit? ==> k <= Value(hi.digits))
  }

  function HighBound(hi: High): Bound {
    if hi.Limit? then AtMost(Value(hi.digits)) else Unbounded
  }

  lemma {:induction false} CountedIntro(a: Lang, lo: Word, hi: High, k: nat, w: Word)
    requires Allows(lo, hi, k) && w in Power(a, k)
    ensures w in DupLang(a, Counted(lo, hi))
  {
    hide Power, Value, Repeated;
    if !hi.Same? {
      RepeatedIntro(a, Value(lo), HighBound(hi), k, w);
    }
  }

  lemma {:induction false} CountedElim(a: Lang, lo: Word, hi: High, w: Word) returns (k: nat)
    requires w in DupLang(a, Counted(lo, hi))
    ensures Allows(lo, hi, k) && w in Power(a, k)
  {
    hide Power, Value;
    if hi.Same? {
      k := Value(lo);
    } else {
      assert Repeats(a, Value(lo), HighBound(hi), w);
      k :| Within(Value(lo), k, HighBound(hi)) && w in Power(a, k);
    }
  }

  /** The words that a counted repetition denotes are those that are an allowed number of the atom's words in a row. */
  lemma {:induction false} CountedWords(a: Lang, lo: Word, hi: High, w: Word)
    ensures w in DupLang(a, Counted(lo, hi)) <==> exists k: nat :: Allows(lo, hi, k) && w in Power(a, k)
  {
    hide Power, Value, DupLang, Allows;
    if w in DupLang(a, Counted(lo, hi)) {
      var k := CountedElim(a, lo, hi, w);
    }
    if k: nat :| Allows(lo, hi, k) && w in Power(a, k) {
      CountedIntro(a, lo, hi, k, w);
    }
  }

  lemma {:induction false} EreMeaning(e: Ere, n: nat, newline: bool)
    requires ValidEre(e)
    ensures Meaning(EreCode(e, n, newline)) == EreLang(e, newline)
    ensures MeaningRest(RestCode(e, n, newline)) == EreLang(e, newline)
    decreases e
  {
    hide Meaning, MeaningRest, BranchCode, BranchLang, BranchGroups, ValidBranch, Vanishes;
    var x := BranchCode(e.branch, n, newline);
    BranchMeaning(e.branch, n, newline);
    if e.Alternative? {
      var k := n + BranchGroups(e.branch);
      EreMeaning(e.rest, k, newline);
      ChoiceMeaning(x, RestCode(e.rest, k, newline));
    } else {
      LastMeaning(x);
    }
  }

  lemma {:induction false} ChoiceMeaning(x: Code, rest: Branches)
    ensures Meaning(Choice(x, rest)) == Meaning(x) + MeaningRest(rest)
    ensures MeaningRest(More(x, rest)) == Meaning(x) + MeaningRest(rest)
  {
  }

  lemma {:induction false} LastMeaning(x: Code)
    ensures MeaningRest(Last(x)) == Meaning(x)
  {
  }

  lemma {:induction false} BranchMeaning(b: Branch, n: nat, newline: bool)
    requires ValidBranch(b)
    ensures Meaning(BranchCode(b, n, newline)) == BranchLang(b, newline)
    decreases b
  {
    hide Concat, DupLang, DupCode, AtomCode, AtomLang, ValidAtom, ValidDup;
    if b.Then? {
      var a := b.piece.atom;
      AtomMeaning(a, n, newline);
      DupMeaning(AtomCode(a, n, newline), b.piece.dup);
      BranchMeaning(b.rest, n + AtomGroups(a), newline);
    }
  }

  lemma {:induction false} AtomMeaning(a: Atom, n: nat, newline: bool)
    requires ValidAtom(a)
    ensures Meaning(AtomCode(a, n, newline)) == AtomLang(a, newline)
    decreases a
  {
    match a
    case Ordinary(c) => LiteralMeaning(c);
    case Escaped(c) => LiteralMeaning(c);
    case Dot => SetMeaning(AnySet(newline)); AnyMeaning();
    case Bracket(list) => SetMeaning(ListSet(list, newline));
    case Paren(e) => EreMeaning(e, n + 1, newline);
    case Unit =>
  }

  lemma {:induction false} LiteralMeaning(c: Byte)
    ensures Meaning(Literal(c)) == Bytes({c})
  {
  }
}
