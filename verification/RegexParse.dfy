/** The recursive-descent compiler: each routine reads as the reader does and emits the tree's code. */
module RegexParse {
  import opened Basics
  import opened RegexLanguage
  import opened RegexStrip
  import opened RegexCode
  import opened RegexEmit
  import opened RegexScan
  import opened RegexBracket
  import opened RegexGrammar
  import opened RegexReader
  import opened RegexChoice

  // ----- Counts and repetition operators -----

  /** Parse a repetition count. */
  method PCount(p: Parse) returns (count: nat)
    requires p.Valid()
    modifies p`input, p`next, p`error
    ensures p.Valid() && p.Rest() <= old(p.Rest())
    ensures old(p.error).Some? ==> p.error == old(p.error)
    ensures old(p.error).None? ==>
      match ReadCount(old(p.input), old(p.next))
      case Err(e) => p.error == Some(e)
      case Ok(d, n) => p.error.None? && p.input == old(p.input) && p.next == n && count == Value(d)
  {
    hide Value, DigitsEnd;
    count := 0;
    var ndigits := 0;
    ghost var s, start := p.input, p.next;
    if p.error.None? {
      NoDigits(s, start);
    }
    while p.next < |p.input| && IsDigit(p.input[p.next]) && count <= DUPMAX
      invariant p.input == s && p.error == old(p.error) && start <= p.next && ndigits == p.next - start
      invariant p.error.None? ==> p.next <= |s| && count == Value(s[start..p.next])
      invariant p.error.None? ==> DigitsEnd(s, p.next, start) == DigitsEnd(s, start, start)
      invariant p.Valid()
      decreases |s| - p.next
    {
      OneDigit(s, start, p.next);
      count := count * 10 + (p.input[p.next] - '0' as int);
      p.next := p.next + 1;
      ndigits := ndigits + 1;
    }
    if p.error.None? {
      DigitsOver(s, start, p.next);
    }
    if !(ndigits > 0 && count <= DUPMAX) {
      p.SetError(BADBR);
    }
  }

  lemma {:induction false} NoDigits(s: Word, start: nat)
    requires start <= |s|
    ensures Value(s[start..start]) == 0
  {
  }

  lemma {:induction false} OneDigit(s: Word, start: nat, i: nat)
    requires start <= i < |s| && IsDigit(s[i])
    ensures Value(s[start..i + 1]) == 10 * Value(s[start..i]) + (s[i] - '0' as int)
    ensures Value(s[start..i]) <= DUPMAX ==> DigitsEnd(s, i, start) == DigitsEnd(s, i + 1, start)
  {
    var d := s[start..i + 1];
    assert d[..|d| - 1] == s[start..i] && d[|d| - 1] == s[i];
  }

  lemma {:induction false} DigitsOver(s: Word, start: nat, i: nat)
    requires start <= i <= |s|
    ensures i == |s| || !IsDigit(s[i]) || Value(s[start..i]) > DUPMAX ==> DigitsEnd(s, i, start) == i
  {
    hide Value;
  }

  /** Parse the bounds after a left brace. */
  method PBounds(p: Parse) returns (count: nat, count2: nat)
    requires p.Valid() && p.error.None?
    modifies p`input, p`next, p`error
    ensures p.Valid() && p.Rest() <= old(p.Rest())
    ensures var lo := ReadCount(old(p.input), old(p.next));
      if lo.Err? then p.error == Some(lo.e)
      else match ReadHigh(old(p.input), lo.next, lo.value)
        case Err(e) => p.error == Some(e)
        case Ok(hi, n) =>
          && p.error.None? && p.input == old(p.input) && p.next == n
          && count == Value(lo.value)
          && (hi.Same? ==> count2 == Value(lo.value))
          && (hi.NoLimit? ==> count2 == INFINITY)
          && (hi.Limit? ==> count2 == Value(hi.digits))
  {
    hide ReadCount;
    ghost var s := p.input;
    ghost var lo := ReadCount(s, p.next);
    count := PCount(p);
    var comma := p.Eat(',');
    if comma {
      if p.next < |p.input| && IsDigit(p.input[p.next]) {
        count2 := PCount(p);
        if !(count <= count2) {
          p.SetError(BADBR);
        }
      } else {
        count2 := INFINITY;
      }
    } else {
      count2 := count;
    }
  }

  /** Report a missing right brace. */
  method PMissingBrace(p: Parse)
    requires p.Valid()
    modifies p`input, p`next, p`error
    ensures p.Valid() && p.Rest() <= old(p.Rest())
    ensures old(p.error).Some? ==> p.error == old(p.error)
    ensures old(p.error).None? ==> p.error == Some(MissingBrace(old(p.input), old(p.next)))
  {
    ghost var s, i := p.input, p.next;
    while p.next < |p.input| && p.input[p.next] != Chr('}')
      invariant p.input == s && p.error == old(p.error) && p.Valid() && i <= p.next
      invariant forall j :: i <= j < p.next && j < |s| ==> s[j] != Chr('}')
      decreases |s| - p.next
    {
      p.next := p.next + 1;
    }
    if p.next >= |p.input| {
      p.SetError(EBRACE);
    }
    p.SetError(BADBR);
  }

  predicate Repetition(p: Parse)
    reads p
  {
    RepetitionAt(p.input, p.next)
  }

  /** Parse a repetition operator, if there is one, and apply it to the block from `pos` on. */
  method PDup(p: Parse, pos: nat, ghost x: Code)
    requires p.Valid()
    requires p.error.None? ==> pos <= |p.strip| && p.strip[pos..] == Flat(x)
    modifies p`input, p`next, p`error, p`strip
    ensures p.Valid() && p.Rest() <= old(p.Rest())
    ensures old(p.error).Some? ==> p.error == old(p.error)
    ensures old(p.error).None? ==>
      match ReadDup(old(p.input), old(p.next))
      case Err(e) => p.error == Some(e)
      case Ok(d, n) =>
        && p.error.None? && p.input == old(p.input) && p.next == n
        && p.strip == old(p.strip)[..pos] + Flat(DupCode(x, d))
  {
    hide Flat, ReadBounds;
    if !Repetition(p) {
      return;
    }
    ghost var s, i, pre := p.input, p.next, p.strip[..pos];
    var c := p.input[p.next];
    p.next := p.next + 1;
    if c == Chr('*') {
      p.MakePlus(pos, x);
      assert p.strip[..pos] == pre && p.strip[pos..] == Flat(Plus(x));
      p.MakeQuest(pos, Plus(x));
    } else if c == Chr('+') {
      p.MakePlus(pos, x);
    } else if c == Chr('?') {
      p.MakeOptional(pos, x);
    } else {
      PCounted(p, pos, x);
    }
    if Repetition(p) {
      p.SetError(BADRPT);
    }
  }

  method PCounted(p: Parse, pos: nat, ghost x: Code)
    requires p.Valid() && p.error.None? && pos <= |p.strip| && p.strip[pos..] == Flat(x)
    modifies p`input, p`next, p`error, p`strip
    ensures p.Valid() && p.Rest() <= old(p.Rest())
    ensures match ReadBounds(old(p.input), old(p.next))
      case Err(e) => p.error == Some(e)
      case Ok(d, n) =>
        && p.error.None? && p.input == old(p.input) && p.next == n
        && p.strip == old(p.strip)[..pos] + Flat(DupCode(x, d))
  {
    hide Flat, ReadCount, ReadHigh, MissingBrace;
    ghost var lo := ReadCount(p.input, p.next);
    ghost var s, i := p.input, p.next;
    var count, count2 := PBounds(p);
    if p.error.None? {
      CountSound(s, i);
      HighSound(s, lo.next, lo.value);
      DupBounds(Counted(lo.value, ReadHigh(s, lo.next, lo.value).value));
      p.Repeat(pos, count, count2, x);
    }
    var closed := p.Eat('}');
    if !closed {
      PMissingBrace(p);
    }
  }

  // ----- Bracket expressions -----

  /** The byte for a signed character. */
  function ToByte(i: int): Byte
    requires -128 <= i < 128
  {
    if i < 0 then i + 256 else i
  }

  /** Adds the bytes of a range one by one. */
  method AddRange(start: Byte, finish: Byte) returns (cs: set<Byte>)
    requires Signed(start) <= Signed(finish)
    ensures cs == Between(start, finish)
  {
    cs := {};
    var i := Signed(start);
    while i <= Signed(finish)
      invariant Signed(start) <= i <= Signed(finish) + 1
      invariant cs == set b: Byte | Signed(start) <= Signed(b) < i
    {
      cs := cs + {ToByte(i)};
      i := i + 1;
    }
  }

  lemma {:induction false} BetweenSelf(b: Byte)
    ensures Between(b, b) == {b}
  {
  }

  /** Parse one term of a bracket expression. */
  method PTerm(p: Parse) returns (cs: set<Byte>)
    requires p.Valid() && p.error.None? && p.next < |p.input|
    modifies p`input, p`next, p`error
    ensures p.Valid() && p.Rest() < old(p.Rest())
    ensures match ReadItem(old(p.input), old(p.next))
      case Err(e) => p.error == Some(e)
      case Ok(v, n) => p.error.None? && p.input == old(p.input) && p.next == n && cs == ItemSet(v)
  {
    hide Between;
    cs := {};
    var i := p.next;
    if SeeTwo(p.input, i, '[', ':') || SeeTwo(p.input, i, '[', '=') || SeeTwo(p.input, i, '[', '.') {
      p.SetError(OUTSIDE);
      return;
    }
    if p.input[i] == Chr('-') {
      p.SetError(ERANGE);
      return;
    }
    var start := p.input[i];
    var finish := start;
    p.next := p.next + 1;
    if p.AtChar('-') && p.next + 1 < |p.input| && p.input[p.next + 1] != Chr(']') {
      p.next := p.next + 1;
      if SeeTwo(p.input, p.next, '[', '.') {
        p.SetError(OUTSIDE);
        return;
      }
      finish := p.input[p.next];
      p.next := p.next + 1;
    }
    if Signed(start) > Signed(finish) {
      p.SetError(ERANGE);
      return;
    }
    BetweenSelf(start);
    cs := AddRange(start, finish);
  }

  /** What is left of a list, when `cs` has the bytes of `leading` and of the items before it. */
  ghost predicate TermsLeft(leading: set<Byte>, all: Parsed<Items>, cs: set<Byte>, left: Parsed<Items>) {
    match left
    case Err(e) => all == Err(e)
    case Ok(v, n) => all.Ok? && all.next == n && leading + ItemsSet(all.value) == cs + ItemsSet(v)
  }

  lemma {:induction false} OneTerm(s: Word, i: nat, leading: set<Byte>, all: Parsed<Items>, cs: set<Byte>)
    requires i <= |s| && MoreItems(s, i) && TermsLeft(leading, all, cs, ReadItems(s, i))
    ensures match ReadItem(s, i)
      case Err(e) => all == Err(e)
      case Ok(t, n) => TermsLeft(leading, all, cs + ItemSet(t), ReadItems(s, n))
  {
    hide ReadItem, ItemSet;
  }

  /** Parse the terms of a bracket expression. */
  method PTerms(p: Parse, leading: set<Byte>) returns (cs: set<Byte>)
    requires p.Valid() && p.error.None?
    modifies p`input, p`next, p`error
    ensures p.Valid() && p.Rest() <= old(p.Rest())
    ensures match ReadItems(old(p.input), old(p.next))
      case Err(e) => p.error == Some(e)
      case Ok(v, n) => p.error.None? && p.input == old(p.input) && p.next == n && cs == leading + ItemsSet(v)
  {
    hide ReadItem, ItemSet;
    cs := leading;
    ghost var s := p.input;
    ghost var r := ReadItems(s, p.next);
    while MoreItems(p.input, p.next)
      invariant p.Valid() && p.Rest() <= old(p.Rest())
      invariant p.error.None? ==> p.input == s && TermsLeft(leading, r, cs, ReadItems(s, p.next))
      invariant p.error.Some? ==> r == Err(p.error.value)
      decreases p.Rest()
    {
      OneTerm(s, p.next, leading, r, cs);
      var t := PTerm(p);
      cs := cs + t;
    }
  }

  /** Pass a byte that stands for itself at the front of a list. */
  method PLead(p: Parse) returns (cs: set<Byte>)
    requires p.Valid() && p.error.None?
    modifies p`next
    ensures p.Valid() && p.Rest() <= old(p.Rest())
    ensures p.next == old(p.next) + |LeadText(LeadAt(p.input, old(p.next)))|
    ensures cs == LeadSet(LeadAt(p.input, old(p.next)))
  {
    cs := {};
    var bracket := p.Eat(']');
    if bracket {
      cs := {Chr(']')};
    } else {
      var dash := p.Eat('-');
      if dash {
        cs := {Chr('-')};
      }
    }
  }

  /** Parse the list of a bracket expression, up to its closing bracket. */
  method PList(p: Parse, ghost inverted: bool) returns (cs: set<Byte>)
    requires p.Valid() && p.error.None?
    modifies p`input, p`next, p`error
    ensures p.Valid() && p.Rest() <= old(p.Rest())
    ensures match ReadList(old(p.input), old(p.next), inverted)
      case Err(e) => p.error == Some(e)
      case Ok(v, n) => p.error.None? && p.input == old(p.input) && p.next == n && cs == ListedSet(v)
  {
    hide ReadItems, ItemsSet, LeadAt, LeadText, LeadSet;
    cs := PLead(p);
    cs := PTerms(p, cs);
    var dash := p.Eat('-');
    if dash {
      cs := cs + {Chr('-')};
    }
    var closed := p.Eat(']');
    if !closed {
      p.SetError(EBRACK);
    }
  }

  /** Turns a set around, byte by byte from the last one. */
  method Invert(set0: set<Byte>, newline: bool) returns (cs: set<Byte>)
    ensures cs == Inverted(set0, newline)
  {
    cs := set0;
    var i: int := 256;
    while i > 0
      invariant 0 <= i <= 256
      invariant forall b: Byte :: b in cs <==> if b < i then b in set0 else b !in set0
    {
      i := i - 1;
      cs := if i in cs then cs - {i} else cs + {i};
    }
    if newline {
      cs := cs - {Chr('\n')};
    }
  }

  method PBracket(p: Parse)
    requires p.Valid() && p.error.None?
    modifies p`input, p`next, p`error, p`strip
    ensures p.Valid() && p.Rest() <= old(p.Rest())
    ensures match ReadBracket(old(p.input), old(p.next))
      case Err(e) => p.error == Some(e)
      case Ok(v, n) =>
        && p.error.None? && p.input == old(p.input) && p.next == n
        && p.strip == old(p.strip) + Flat(SetCode(ListSet(v, p.newline)))
  {
    hide ReadList, ListedSet, Inverted;
    ListKind(p.input, p.next);
    var invert := p.Eat('^');
    var cs := PList(p, invert);
    if p.error.Some? {
      return;
    }
    if invert {
      cs := Invert(cs, p.newline);
    }
    EmitSet(p, cs);
  }

  lemma {:induction false} ListKind(s: Word, i: nat)
    requires i <= |s|
    ensures ReadBracket(s, i).Ok? ==> ReadBracket(s, i).value.inverted == See(s, i, '^')
  {
    hide ReadItems;
  }

  /** Singleton sets are emitted as their byte. */
  method EmitSet(p: Parse, cs: set<Byte>)
    requires p.error.None?
    modifies p`strip
    ensures p.strip == old(p.strip) + Flat(SetCode(cs))
  {
    if |cs| == 1 {
      p.Emit(OCHAR(FirstByte(cs)));
    } else {
      p.Emit(OANYOF(cs));
    }
  }

  // ----- Expressions -----

  lemma {:induction false} LiteralFlat()
    ensures forall c: Byte :: Flat(Literal(c)) == [OCHAR(c)]
    ensures Flat(AnyByte) == [OANY]
  {
  }

  /** Parse an atom. */
  method PAtom(p: Parse)
    requires p.Valid() && p.error.None? && p.next < |p.input|
    modifies p
    ensures p.Valid() && p.Rest() < old(p.Rest())
    ensures match ReadAtom(old(p.input), old(p.next))
      case Err(e) => p.error == Some(e)
      case Ok(a, n) =>
        && p.error.None? && p.input == old(p.input) && p.next == n && p.nsub == old(p.nsub) + AtomGroups(a)
        && p.strip == old(p.strip) + Flat(AtomCode(a, old(p.nsub), p.newline))
    decreases p.Rest(), 0
  {
    hide ReadBracket, ReadParen, Flat, EreCode, SetCode, ListSet, AnySet;
    LiteralFlat();
    ghost var s, i := p.input, p.next;
    var c := p.input[p.next];
    p.next := p.next + 1;
    if c == Chr('(') {
      PParen(p);
    } else if c == Chr(')') {
      p.SetError(EPAREN);
    } else if c == Chr('^') || c == Chr('$') {
      p.SetError(OUTSIDE);
    } else if c == Chr('|') {
      p.SetError(EMPTY);
    } else if c == Chr('*') || c == Chr('+') || c == Chr('?') {
      p.SetError(BADRPT);
    } else if c == Chr('.') {
      if p.newline {
        EmitSet(p, AnySet(true));
      } else {
        p.Emit(OANY);
      }
    } else if c == Chr('[') {
      PBracket(p);
    } else if c == Chr('\\') {
      if p.next >= |p.input| {
        p.SetError(EESCAPE);
      } else {
        c := p.input[p.next];
        p.next := p.next + 1;
        p.Emit(OCHAR(c));
      }
    } else {
      if c == Chr('{') && p.next < |p.input| && IsDigit(p.input[p.next]) {
        p.SetError(BADRPT);
      }
      p.Emit(OCHAR(c));
    }
  }

  lemma {:induction false} GroupFlat(pre: Strip, n: nat, x: Code)
    ensures pre + Flat(Group(n, x)) == pre + [OLPAREN(n)] + Flat(x) + [ORPAREN(n)]
  {
    hide Flat;
    FlatGroup(n, x);
  }

  /** Parse a group, from after its left parenthesis. */
  method PParen(p: Parse)
    requires p.Valid() && p.error.None?
    modifies p
    ensures p.Valid() && p.Rest() <= old(p.Rest())
    ensures match ReadParen(old(p.input), old(p.next))
      case Err(e) => p.error == Some(e)
      case Ok(a, n) =>
        && p.error.None? && p.input == old(p.input) && p.next == n && p.nsub == old(p.nsub) + AtomGroups(a)
        && p.strip == old(p.strip) + Flat(AtomCode(a, old(p.nsub), p.newline))
    decreases p.Rest(), 5
  {
    hide ReadEre, Flat, EreCode;
    ghost var pre := p.strip;
    if p.next >= |p.input| {
      p.SetError(EPAREN);
    }
    p.nsub := p.nsub + 1;
    var subno := p.nsub;
    EmptyLayout();
    p.Emit(OLPAREN(subno));
    if !p.AtChar(')') {
      PEre(p, CLOSE);
    }
    p.Emit(ORPAREN(subno));
    ghost var e := ReadEre(old(p.input), old(p.next), CLOSE);
    GroupFlat(pre, subno, if old(p.AtChar(')')) || e.Err? then Empty else EreCode(e.value, subno, p.newline));
    var closed := p.Eat(')');
    if !closed {
      p.SetError(EPAREN);
    }
  }

  /** Parse an atom and the repetition operator that may follow. */
  method PExp(p: Parse)
    requires p.Valid() && p.error.None? && p.next < |p.input|
    modifies p
    ensures p.Valid() && p.Rest() < old(p.Rest())
    ensures match ReadPiece(old(p.input), old(p.next))
      case Err(e) => p.error == Some(e)
      case Ok(a, n) =>
        && p.error.None? && p.input == old(p.input) && p.next == n && p.nsub == old(p.nsub) + AtomGroups(a.atom)
        && p.strip == old(p.strip) + Flat(PieceCode(a, old(p.nsub), p.newline))
    decreases p.Rest(), 1
  {
    hide ReadAtom, ReadDup, Flat;
    var pos := |p.strip|;
    ghost var a := ReadAtom(p.input, p.next);
    ghost var pre, x := p.strip, if a.Ok? then AtomCode(a.value, p.nsub, p.newline) else Empty;
    PAtom(p);
    if p.error.Some? {
      return;
    }
    assert p.strip[pos..] == Flat(x) && p.strip[..pos] == pre;
    PDup(p, pos, x);
  }

  // ----- Concatenations -----

  function Append(b: Branch, b': Branch): Branch {
    match b
    case Done => b'
    case Then(p, rest) => Then(p, Append(rest, b'))
  }

  /** What is read when `done` has been read before. */
  ghost function After(done: Branch, r: Parsed<Branch>): Parsed<Branch> {
    if r.Err? then r else Ok(Append(done, r.value), r.next)
  }

  lemma {:induction false} AppendPiece(done: Branch, p: Piece, b: Branch)
    ensures Append(Append(done, Then(p, Done)), b) == Append(done, Then(p, b))
    ensures Append(done, Done) == done
    ensures BranchGroups(Append(done, Then(p, Done))) == BranchGroups(done) + AtomGroups(p.atom)
    decreases done
  {
    if done.Then? {
      AppendPiece(done.rest, p, b);
    }
  }

  lemma {:induction false} AppendCode(done: Branch, p: Piece, n: nat, newline: bool)
    ensures Flat(BranchCode(Append(done, Then(p, Done)), n, newline)) ==
      Flat(BranchCode(done, n, newline)) + Flat(PieceCode(p, n + BranchGroups(done), newline))
    decreases done
  {
    hide PieceCode;
    if done.Then? {
      AppendCode(done.rest, p, n + AtomGroups(done.piece.atom), newline);
    }
  }

  /** Parse the concatenated expressions of one branch. */
  method PConcatenation(p: Parse, stop: int)
    requires p.Valid()
    modifies p
    ensures p.Valid() && p.Rest() <= old(p.Rest())
    ensures old(p.error).Some? ==> p.error == old(p.error) && p.strip == old(p.strip)
    ensures old(p.error).None? ==>
      match ReadBranch(old(p.input), old(p.next), stop)
      case Err(e) => p.error == Some(e)
      case Ok(b, n) =>
        && p.error.None? && p.input == old(p.input) && p.next == n && p.nsub == old(p.nsub) + BranchGroups(b)
        && p.strip == old(p.strip) + Flat(BranchCode(b, old(p.nsub), p.newline))
    decreases p.Rest(), 2
  {
    hide Flat, ReadPiece, ReadBranch, BranchCode, BranchGroups, After, Append, PieceCode, AtomGroups;
    EmptyDone(p.nsub, p.newline);
    ghost var s, pre, n := p.input, p.strip, p.nsub;
    ghost var r := if p.error.None? then ReadBranch(s, p.next, stop) else Err(p.error.value);
    ghost var done := Done;
    NothingAppended(r);
    while !BranchEnds(p.input, p.next, stop)
      invariant p.Valid() && p.Rest() <= old(p.Rest())
      invariant p.error.Some? ==> r == Err(p.error.value)
      invariant old(p.error).Some? ==> p.error == old(p.error) && p.strip == old(p.strip)
      invariant p.error.None? ==> p.input == s && r == After(done, ReadBranch(s, p.next, stop))
      invariant p.error.None? ==> p.nsub == n + BranchGroups(done) && p.strip == pre + Flat(BranchCode(done, n, p.newline))
      decreases p.Rest()
    {
      ghost var piece := ReadPiece(s, p.next);
      OnePiece(s, p.next, stop, done, r);
      PExp(p);
      if p.error.None? {
        AppendPiece(done, piece.value, Done);
        AppendCode(done, piece.value, n, p.newline);
        done := Append(done, Then(piece.value, Done));
      }
    }
    if p.error.None? {
      BranchOver(s, p.next, stop, done);
    }
  }

  lemma {:induction false} EmptyDone(n: nat, newline: bool)
    ensures Flat(BranchCode(Done, n, newline)) == [] && BranchGroups(Done) == 0
  {
    EmptyLayout();
  }

  lemma {:induction false} NothingAppended(r: Parsed<Branch>)
    ensures After(Done, r) == r
  {
  }

  /** One more piece has been read. */
  lemma {:induction false} OnePiece(s: Word, i: nat, stop: int, done: Branch, r: Parsed<Branch>)
    requires i <= |s| && !BranchEnds(s, i, stop) && r == After(done, ReadBranch(s, i, stop))
    ensures match ReadPiece(s, i)
      case Err(e) => r == Err(e)
      case Ok(piece, n) => r == After(Append(done, Then(piece, Done)), ReadBranch(s, n, stop))
  {
    hide ReadPiece, Append;
    var piece := ReadPiece(s, i);
    if piece.Ok? && ReadBranch(s, piece.next, stop).Ok? {
      AppendPiece(done, piece.value, ReadBranch(s, piece.next, stop).value);
    }
  }

  lemma {:induction false} BranchOver(s: Word, i: nat, stop: int, done: Branch)
    requires i <= |s| && BranchEnds(s, i, stop)
    ensures After(done, ReadBranch(s, i, stop)) == Ok(done, i)
  {
    AppendPiece(done, Piece(Unit, Once), Done);
  }

  // ----- Alternations -----

  function WithAlternatives(done: seq<Branch>, e: Ere): Ere {
    if done == [] then e else Alternative(done[0], WithAlternatives(done[1..], e))
  }

  ghost function AfterBars(done: seq<Branch>, r: Parsed<Ere>): Parsed<Ere> {
    if r.Err? then r else Ok(WithAlternatives(done, r.value), r.next)
  }

  function Groups(done: seq<Branch>): nat {
    if done == [] then 0 else BranchGroups(done[0]) + Groups(done[1..])
  }

  function Codes(done: seq<Branch>, n: nat, newline: bool): seq<Code> {
    if done == [] then [] else [BranchCode(done[0], n, newline)] + Codes(done[1..], n + BranchGroups(done[0]), newline)
  }

  lemma {:induction false} OneMore(done: seq<Branch>, b: Branch, e: Ere)
    ensures WithAlternatives(done + [b], e) == WithAlternatives(done, Alternative(b, e))
    decreases |done|
  {
    var all := done + [b];
    if done == [] {
      assert WithAlternatives(all[1..], e) == e;
    } else {
      assert all[1..] == done[1..] + [b];
      OneMore(done[1..], b, e);
    }
  }

  lemma {:induction false} OneMoreCode(done: seq<Branch>, b: Branch, n: nat, newline: bool)
    ensures Groups(done + [b]) == Groups(done) + BranchGroups(b)
    ensures Codes(done + [b], n, newline) == Codes(done, n, newline) + [BranchCode(b, n + Groups(done), newline)]
    decreases |done|
  {
    hide BranchCode, BranchGroups;
    var all := done + [b];
    if done == [] {
      assert Groups(all[1..]) == 0;
      assert Codes(all[1..], n + BranchGroups(b), newline) == [];
    } else {
      assert all[1..] == done[1..] + [b];
      OneMoreCode(done[1..], b, n + BranchGroups(done[0]), newline);
    }
  }

  /** The code of all alternatives, from the codes of the branches before the last and of the last. */
  lemma {:induction false} RestCodes(done: seq<Branch>, b: Branch, n: nat, newline: bool)
    ensures RestCode(WithAlternatives(done, Single(b)), n, newline) ==
      ToBranches(Codes(done, n, newline), BranchCode(b, n + Groups(done), newline))
    decreases |done|
  {
    hide BranchCode;
    if done != [] {
      RestCodes(done[1..], b, n + BranchGroups(done[0]), newline);
      assert Codes(done, n, newline)[1..] == Codes(done[1..], n + BranchGroups(done[0]), newline);
    }
  }

  /** Emit what stands between two branches, of which `y` is the one just parsed. */
  method Bar(p: Parse, first: bool, conc: nat, back: nat, fwd: nat, ghost pre: Strip, ghost codes: seq<Code>, ghost y: Code)
    returns (prevback: nat, prevfwd: nat)
    requires p.error.None? && (first <==> codes == [])
    requires first ==> p.strip == pre + Flat(y) && conc == |pre|
    requires !first ==> p.strip == pre + OpenFlat(codes) + Flat(y) && fwd == |pre + OpenFlat(codes)| - 1 && back + 1 == fwd
    modifies p`strip
    ensures p.strip == pre + OpenFlat(codes + [y])
    ensures prevfwd == |p.strip| - 1 && prevback + 1 == prevfwd
  {
    hide Flat;
    ghost var f := Flat(y);
    if first {
      assert p.strip[..conc] == pre && p.strip[conc..] == f;
      p.Insert(OCH_(|p.strip| - conc + 1), conc);
      prevback, prevfwd := EmitBar(p, conc, conc, pre, OCH_(|f| + 1), f);
    } else {
      OpenEnd(pre, codes);
      ghost var head := (pre + OpenFlat(codes))[..fwd];
      assert p.strip == head + [OOR2(0)] + f;
      prevback, prevfwd := EmitBar(p, back, fwd, head, OOR2(0), f);
    }
    BarLayout(pre, codes, y, p.strip, if first then |f| + 1 else |f| + 2);
  }

  /** End a branch, fix the previous offset, and begin the next branch. */
  method EmitBar(p: Parse, back: nat, fwd: nat, ghost head: Strip, ghost op: Sop, ghost f: Strip)
    returns (prevback: nat, prevfwd: nat)
    requires p.error.None? && p.strip == head + [op] + f && fwd == |head| && back <= fwd
    modifies p`strip
    ensures p.strip == head + [Aimed(op, |f| + 2)] + (f + [OOR1(fwd - back + |f| + 1)]) + [OOR2(0)]
    ensures prevfwd == |p.strip| - 1 && prevback + 1 == prevfwd
  {
    var o := |p.strip| - back;
    p.Emit(OOR1(o));
    prevback := |p.strip| - 1;
    assert p.strip == head + [op] + (f + [OOR1(o)]);
    AimAt(head, op, f + [OOR1(o)], p.strip);
    p.Ahead(fwd);
    prevfwd := |p.strip|;
    p.Emit(OOR2(0));
  }

  /** An open choice ends with an OOR1 and an OOR2 whose offset is still to come. */
  lemma {:induction false} OpenEnd(pre: Strip, codes: seq<Code>)
    requires codes != []
    ensures |OpenFlat(codes)| >= 2 && (pre + OpenFlat(codes))[|pre + OpenFlat(codes)| - 1] == OOR2(0)
  {
  }

  lemma {:induction false} BarLayout(pre: Strip, codes: seq<Code>, y: Code, s: Strip, o: nat)
    requires codes == [] ==> o == |Flat(y)| + 1 && s == pre + [OCH_(|Flat(y)| + 2)] + (Flat(y) + [OOR1(o)]) + [OOR2(0)]
    requires codes != [] ==>
      && |OpenFlat(codes)| >= 2 && o == |Flat(y)| + 2
      && s == (pre + OpenFlat(codes))[..|pre + OpenFlat(codes)| - 1] + [OOR2(|Flat(y)| + 2)] + (Flat(y) + [OOR1(o)]) + [OOR2(0)]
    ensures s == pre + OpenFlat(codes + [y])
  {
    if codes == [] {
      FirstBar(pre, y, s);
    } else {
      LaterBar(pre, codes, y, s);
    }
  }

  lemma {:induction false} FirstBar(pre: Strip, y: Code, s: Strip)
    requires s == pre + [OCH_(|Flat(y)| + 2)] + (Flat(y) + [OOR1(|Flat(y)| + 1)]) + [OOR2(0)]
    ensures s == pre + OpenFlat([] + [y])
  {
    hide Flat;
    LenIs(y);
    assert ([] + [y])[1..] == [] && [] + [y] == [y];
    assert FlatMids([], Len(y) + 1) == [];
  }

  lemma {:induction false} LaterBar(pre: Strip, codes: seq<Code>, y: Code, s: Strip)
    requires codes != [] && |OpenFlat(codes)| >= 2
    requires s == (pre + OpenFlat(codes))[..|pre + OpenFlat(codes)| - 1] + [OOR2(|Flat(y)| + 2)] + (Flat(y) + [OOR1(|Flat(y)| + 2)]) + [OOR2(0)]
    ensures s == pre + OpenFlat(codes + [y])
  {
    hide Flat, FlatMids, LastBack;
    LenIs(y);
    var back := Len(codes[0]) + 1;
    var h := [OCH_(Len(codes[0]) + 2)] + Flat(codes[0]) + FlatMids(codes[1..], back);
    var k := LastBack(codes[1..], back);
    assert (codes + [y])[1..] == codes[1..] + [y] && (codes + [y])[0] == codes[0];
    MidsAppend(codes[1..], y, back);
    assert OpenFlat(codes) == h + [OOR1(k), OOR2(0)];
    assert (pre + OpenFlat(codes))[..|pre + OpenFlat(codes)| - 1] == pre + h + [OOR1(k)];
    Shuffle(pre, h, OOR1(k), OOR2(Len(y) + 2), Flat(y), OOR1(Len(y) + 2), OOR2(0));
    Prefix([OCH_(Len(codes[0]) + 2)] + Flat(codes[0]), FlatMids(codes[1..], back), [OOR1(k), OOR2(Len(y) + 2)] + Flat(y), [OOR1(Len(y) + 2), OOR2(0)]);
  }

  lemma {:induction false} Shuffle(pre: Strip, h: Strip, a: Sop, b: Sop, f: Strip, c: Sop, d: Sop)
    ensures (pre + h + [a]) + [b] + (f + [c]) + [d] == pre + (h + ([a, b] + f) + [c, d])
  {
  }

  lemma {:induction false} Prefix(a: Strip, b: Strip, c: Strip, d: Strip)
    ensures a + (b + c) + d == (a + b) + c + d
  {
  }

  /** Fix up the end of a choice, of which `y` is the last branch. */
  method CloseChoice(p: Parse, prevback: nat, prevfwd: nat, ghost pre: Strip, ghost codes: seq<Code>, ghost y: Code)
    requires p.error.None? && codes != [] && p.strip == pre + OpenFlat(codes) + Flat(y)
    requires prevfwd == |pre + OpenFlat(codes)| - 1 && prevback + 1 == prevfwd
    modifies p`strip
    ensures p.strip == pre + Flat(Choice(codes[0], ToBranches(codes[1..], y)))
  {
    hide Flat;
    OpenEnd(pre, codes);
    ghost var head := (pre + OpenFlat(codes))[..prevfwd];
    assert p.strip == head + [OOR2(0)] + Flat(y);
    AimAt(head, OOR2(0), Flat(y), p.strip);
    p.Ahead(prevfwd);
    p.Emit(O_CH(|p.strip| - prevback));
    CloseLayout(pre, codes, y, p.strip);
  }

  lemma {:induction false} CloseLayout(pre: Strip, codes: seq<Code>, y: Code, s: Strip)
    requires codes != [] && |OpenFlat(codes)| >= 2
    requires s == (pre + OpenFlat(codes))[..|pre + OpenFlat(codes)| - 1] + [OOR2(|Flat(y)| + 1)] + Flat(y) + [O_CH(|Flat(y)| + 2)]
    ensures s == pre + Flat(Choice(codes[0], ToBranches(codes[1..], y)))
  {
    hide Flat, FlatMids, LastBack;
    LenIs(y);
    LenIs(codes[0]);
    var back := Len(codes[0]) + 1;
    var k := LastBack(codes[1..], back);
    var h := [OCH_(Len(codes[0]) + 2)] + Flat(codes[0]) + FlatMids(codes[1..], back);
    RestFlat(codes[1..], y, back);
    FlatChoice(codes[0], ToBranches(codes[1..], y));
    assert (pre + OpenFlat(codes))[..|pre + OpenFlat(codes)| - 1] == pre + h + [OOR1(k)];
    Reassemble(pre, [OCH_(Len(codes[0]) + 2)] + Flat(codes[0]), FlatMids(codes[1..], back), OOR1(k), OOR2(Len(y) + 1), Flat(y), O_CH(Len(y) + 2));
  }

  lemma {:induction false} Reassemble(pre: Strip, a: Strip, m: Strip, b: Sop, c: Sop, f: Strip, d: Sop)
    ensures (pre + (a + m) + [b]) + [c] + f + [d] == pre + (a + (m + ([b, c] + f + [d])))
  {
  }

  lemma {:induction false} FinalGroups(done: seq<Branch>, b: Branch)
    ensures EreGroups(WithAlternatives(done, Single(b))) == Groups(done) + BranchGroups(b)
    decreases |done|
  {
    if done != [] {
      FinalGroups(done[1..], b);
    }
  }

  lemma {:induction false} CodesLength(done: seq<Branch>, n: nat, newline: bool)
    ensures |Codes(done, n, newline)| == |done|
    decreases |done|
  {
    hide BranchCode;
    if done != [] {
      CodesLength(done[1..], n + BranchGroups(done[0]), newline);
    }
  }

  /** The code of the whole expression. */
  lemma {:induction false} FinalCode(done: seq<Branch>, b: Branch, n: nat, newline: bool)
    ensures |Codes(done, n, newline)| == |done|
    ensures var codes, y := Codes(done, n, newline), BranchCode(b, n + Groups(done), newline);
      EreCode(WithAlternatives(done, Single(b)), n, newline) == if done == [] then y else Choice(codes[0], ToBranches(codes[1..], y))
  {
    hide BranchCode, BranchGroups, RestCode, ToBranches;
    CodesLength(done, n, newline);
    if done != [] {
      var k := n + BranchGroups(done[0]);
      RestCodes(done[1..], b, k, newline);
      assert Codes(done, n, newline)[1..] == Codes(done[1..], k, newline);
      assert k + Groups(done[1..]) == n + Groups(done);
    }
  }

  /** The code of a branch is empty exactly if nothing remains of it. */
  lemma {:induction false} VanishingCode(b: Branch, n: nat, newline: bool)
    ensures ValidBranch(b) ==> (|Flat(BranchCode(b, n, newline))| == 0 <==> Vanishes(b))
  {
    hide Flat, AtomCode, DupCode, AtomGroups, ValidAtom, ValidDup, To;
    if b.Done? {
      EmptyLayout();
    } else if ValidBranch(b) {
      var k := n + AtomGroups(b.piece.atom);
      VanishingCode(b.rest, k, newline);
      SolidAtom(b.piece.atom, n, newline);
      VanishingDup(AtomCode(b.piece.atom, n, newline), b.piece.dup);
      CatFlat([], PieceCode(b.piece, n, newline), BranchCode(b.rest, k, newline));
    }
  }

  lemma {:induction false} SolidAtom(a: Atom, n: nat, newline: bool)
    ensures |Flat(AtomCode(a, n, newline))| > 0
  {
  }

  lemma {:induction false} VanishingDup(x: Code, d: Dup)
    requires ValidDup(d) && |Flat(x)| > 0
    ensures |Flat(DupCode(x, d))| == 0 <==> To(d) == 0
  {
    DupBounds(d);
    if d.Counted? && To(d) > 0 {
      SolidRepeat(x, From(d), To(d));
    }
  }

  lemma {:induction false} SolidRepeat(x: Code, from: nat, to: nat)
    requires from <= to && to > 0 && |Flat(x)| > 0
    ensures |Flat(RepeatCode(x, from, to))| > 0
    decreases from == 0, to, from
  {
    if from == 0 {
      SolidRepeat(x, 1, to);
    }
  }

  /** Parse one branch, which must leave some code. */
  method PBranch(p: Parse, stop: int)
    requires p.Valid()
    modifies p
    ensures p.Valid() && p.Rest() <= old(p.Rest())
    ensures old(p.error).Some? ==> p.error == old(p.error) && p.strip == old(p.strip)
    ensures old(p.error).None? ==>
      match ReadBranch(old(p.input), old(p.next), stop)
      case Err(e) => p.error == Some(e)
      case Ok(b, n) =>
        if Vanishes(b) then p.error == Some(EMPTY)
        else
          && p.error.None? && p.input == old(p.input) && p.next == n && p.nsub == old(p.nsub) + BranchGroups(b)
          && p.strip == old(p.strip) + Flat(BranchCode(b, old(p.nsub), p.newline))
    decreases p.Rest(), 3
  {
    hide Flat, ReadBranch, Vanishes;
    var conc := |p.strip|;
    ghost var s, i, n := p.input, p.next, p.nsub;
    PConcatenation(p, stop);
    if p.error.None? {
      BranchSound(s, i, stop);
      VanishingCode(ReadBranch(s, i, stop).value, n, p.newline);
    }
    if |p.strip| == conc {
      p.SetError(EMPTY);
    }
  }

  /** Reading on after a bar. */
  lemma {:induction false} BarRead(s: Word, i: nat, stop: int, done: seq<Branch>)
    requires i <= |s| && ReadBranch(s, i, stop).Ok?
    requires var b := ReadBranch(s, i, stop); !Vanishes(b.value) && See(s, b.next, '|')
    ensures var b := ReadBranch(s, i, stop);
      AfterBars(done, ReadEre(s, i, stop)) == AfterBars(done + [b.value], ReadEre(s, b.next + 1, stop))
  {
    hide ReadBranch, Vanishes;
    var b := ReadBranch(s, i, stop);
    var rest := ReadEre(s, b.next + 1, stop);
    if rest.Ok? {
      OneMore(done, b.value, rest.value);
    }
  }

  /** Reading ends with a branch that no bar follows, or with an error in one. */
  lemma {:induction false} LastRead(s: Word, i: nat, stop: int, done: seq<Branch>)
    requires i <= |s|
    ensures match ReadBranch(s, i, stop)
      case Err(e) => AfterBars(done, ReadEre(s, i, stop)) == Err(e)
      case Ok(b, n) =>
        && (Vanishes(b) ==> AfterBars(done, ReadEre(s, i, stop)) == Err(EMPTY))
        && (!Vanishes(b) && !See(s, n, '|') ==> AfterBars(done, ReadEre(s, i, stop)) == Ok(WithAlternatives(done, Single(b)), n))
  {
    hide ReadBranch, Vanishes, WithAlternatives;
  }

  /** Parse an expression: concatenations separated by bars. */
  method PEre(p: Parse, stop: int)
    requires p.Valid()
    modifies p
    ensures p.Valid() && p.Rest() <= old(p.Rest())
    ensures old(p.error).Some? ==> p.error == old(p.error) && p.strip == old(p.strip)
    ensures old(p.error).None? ==>
      match ReadEre(old(p.input), old(p.next), stop)
      case Err(e) => p.error == Some(e)
      case Ok(e, n) =>
        && p.error.None? && p.input == old(p.input) && p.next == n && p.nsub == old(p.nsub) + EreGroups(e)
        && p.strip == old(p.strip) + Flat(EreCode(e, old(p.nsub), p.newline))
    decreases p.Rest(), 4
  {
    hide Flat, ReadEre, ReadBranch, OpenFlat, Vanishes, BranchCode, Codes, WithAlternatives, BranchGroups, AfterBars, EreCode, EreGroups;
    if p.error.Some? {
      return;
    }
    ghost var s, pre, n, newline := p.input, p.strip, p.nsub, p.newline;
    ghost var r := ReadEre(s, p.next, stop);
    ghost var done: seq<Branch>, b: Branch := [], Done;
    var first, prevback, prevfwd := true, 0, 0;
    NothingDone(r, n, newline);
    while true
      invariant p.Valid() && p.error.None? && p.Rest() <= old(p.Rest())
      invariant first <==> done == []
      invariant p.input == s && p.nsub == n + Groups(done)
      invariant r == AfterBars(done, ReadEre(s, p.next, stop))
      invariant |Codes(done, n, newline)| == |done|
      invariant first ==> p.strip == pre
      invariant !first ==> p.strip == pre + OpenFlat(Codes(done, n, newline)) && prevfwd + 1 == |p.strip| && prevback + 1 == prevfwd
      decreases p.Rest()
    {
      var conc := |p.strip|;
      ghost var i := p.next;
      LastRead(s, i, stop, done);
      PBranch(p, stop);
      if p.error.Some? {
        return;
      }
      b := ReadBranch(s, i, stop).value;
      var bar := p.Eat('|');
      if !bar {
        break;
      }
      ghost var y := BranchCode(b, n + Groups(done), newline);
      prevback, prevfwd := Bar(p, first, conc, prevback, prevfwd, pre, Codes(done, n, newline), y);
      first := false;
      BarRead(s, i, stop, done);
      OneMoreCode(done, b, n, newline);
      done := done + [b];
    }
    if !first {
      CloseChoice(p, prevback, prevfwd, pre, Codes(done, n, newline), BranchCode(b, n + Groups(done), newline));
    }
    FinalCode(done, b, n, newline);
    FinalGroups(done, b);
  }

  lemma {:induction false} NothingDone(r: Parsed<Ere>, n: nat, newline: bool)
    ensures Codes([], n, newline) == [] && AfterBars([], r) == r && Groups([]) == 0
  {
  }
}
