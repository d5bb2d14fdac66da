/**
  How the parser reads a pattern.  Reading is complete and exact: it succeeds on the text of every
  valid tree, gives that tree back, and succeeds on nothing else.
 */
module RegexReader {
  import opened Basics
  import opened RegexLanguage
  import opened RegexEmit
  import opened RegexScan
  import opened RegexBracket
  import opened RegexGrammar

  /** Ends a parenthesised expression. */
  const CLOSE: int := ')' as int
  /** Never ends one: no byte is equal to it. */
  const TOPLEVEL: int := 256

  predicate BranchEnds(s: Word, i: nat, stop: int) {
    i >= |s| || s[i] == Chr('|') || s[i] == stop
  }

  /** Is there a repetition operator at `i`?  A left brace is one if a digit follows. */
  predicate RepetitionAt(s: Word, i: nat) {
    See(s, i, '*') || See(s, i, '+') || See(s, i, '?') || (See(s, i, '{') && i + 1 < |s| && IsDigit(s[i + 1]))
  }

  // ----- Repetition operators -----

  /** The end of the digits of a count: the first that makes it too large ends it too. */
  function DigitsEnd(s: Word, i: nat, start: nat): (e: nat)
    requires start <= i <= |s|
    ensures i <= e <= |s|
    decreases |s| - i
  {
    if i < |s| && IsDigit(s[i]) && Value(s[start..i]) <= DUPMAX then DigitsEnd(s, i + 1, start) else i
  }

  function ReadCount(s: Word, i: nat): (r: Parsed<Word>)
    requires i <= |s|
    ensures r.Ok? ==> i < r.next <= |s|
  {
    var e := DigitsEnd(s, i, i);
    if e > i && Value(s[i..e]) <= DUPMAX then Ok(s[i..e], e) else Err(BADBR)
  }

  function ReadHigh(s: Word, i: nat, lo: Word): (r: Parsed<High>)
    requires i <= |s|
    ensures r.Ok? ==> i <= r.next <= |s|
  {
    if !See(s, i, ',') then Ok(Same, i)
    else if i + 1 < |s| && IsDigit(s[i + 1]) then
      var hi := ReadCount(s, i + 1);
      if hi.Err? then Err(hi.e)
      else if Value(lo) <= Value(hi.value) then Ok(Limit(hi.value), hi.next)
      else Err(BADBR)
    else Ok(NoLimit, i + 1)
  }

  /** A missing right brace is reported according to whether one comes later. */
  function MissingBrace(s: Word, i: nat): Error {
    if exists j :: i <= j < |s| && s[j] == Chr('}') then BADBR else EBRACE
  }

  function ReadBounds(s: Word, i: nat): (r: Parsed<Dup>)
    requires i <= |s|
    ensures r.Ok? ==> i < r.next <= |s|
  {
    var lo := ReadCount(s, i);
    if lo.Err? then Err(lo.e)
    else
      var hi := ReadHigh(s, lo.next, lo.value);
      if hi.Err? then Err(hi.e)
      else if See(s, hi.next, '}') then Ok(Counted(lo.value, hi.value), hi.next + 1)
      else Err(MissingBrace(s, hi.next))
  }

  function ReadDup(s: Word, i: nat): (r: Parsed<Dup>)
    requires i <= |s|
    ensures r.Ok? ==> i <= r.next <= |s|
  {
    if !RepetitionAt(s, i) then Ok(Once, i)
    else
      var r :=
        if See(s, i, '*') then Ok(Star, i + 1)
        else if See(s, i, '+') then Ok(OneOrMore, i + 1)
        else if See(s, i, '?') then Ok(Question, i + 1)
        else ReadBounds(s, i + 1);
      if r.Ok? && RepetitionAt(s, r.next) then Err(BADRPT) else r
  }

  // ----- Expressions -----

  function ReadEre(s: Word, i: nat, stop: int): (r: Parsed<Ere>)
    requires i <= |s|
    ensures r.Ok? ==> i <= r.next <= |s| && (r.next == |s| || s[r.next] == stop)
    decreases |s| - i, 3
  {
    var b := ReadBranch(s, i, stop);
    if b.Err? then Err(b.e)
    else if Vanishes(b.value) then Err(EMPTY)
    else if See(s, b.next, '|') then
      var rest := ReadEre(s, b.next + 1, stop);
      if rest.Err? then rest else Ok(Alternative(b.value, rest.value), rest.next)
    else Ok(Single(b.value), b.next)
  }

  function ReadBranch(s: Word, i: nat, stop: int): (r: Parsed<Branch>)
    requires i <= |s|
    ensures r.Ok? ==> i <= r.next <= |s| && BranchEnds(s, r.next, stop)
    decreases |s| - i, 2
  {
    if BranchEnds(s, i, stop) then Ok(Done, i)
    else
      var p := ReadPiece(s, i);
      if p.Err? then Err(p.e)
      else
        var rest := ReadBranch(s, p.next, stop);
        if rest.Err? then rest else Ok(Then(p.value, rest.value), rest.next)
  }

  function ReadPiece(s: Word, i: nat): (r: Parsed<Piece>)
    requires i < |s|
    ensures r.Ok? ==> i < r.next <= |s|
    decreases |s| - i, 1
  {
    var a := ReadAtom(s, i);
    if a.Err? then Err(a.e)
    else
      var d := ReadDup(s, a.next);
      if d.Err? then Err(d.e) else Ok(Piece(a.value, d.value), d.next)
  }

  function ReadAtom(s: Word, i: nat): (r: Parsed<Atom>)
    requires i < |s|
    ensures r.Ok? ==> i < r.next <= |s|
    decreases |s| - i, 0
  {
    if See(s, i, '(') then ReadParen(s, i + 1)
    else if See(s, i, ')') then Err(EPAREN)
    else if See(s, i, '^') || See(s, i, '$') then Err(OUTSIDE)
    else if See(s, i, '|') then Err(EMPTY)
    else if See(s, i, '*') || See(s, i, '+') || See(s, i, '?') then Err(BADRPT)
    else if See(s, i, '.') then Ok(Dot, i + 1)
    else if See(s, i, '[') then
      var r := ReadBracket(s, i + 1);
      if r.Err? then Err(r.e) else Ok(Bracket(r.value), r.next)
    else if See(s, i, '\\') then
      if i + 1 < |s| then Ok(Escaped(s[i + 1]), i + 2) else Err(EESCAPE)
    else if See(s, i, '{') && i + 1 < |s| && IsDigit(s[i + 1]) then Err(BADRPT)
    else Ok(Ordinary(s[i]), i + 1)
  }

  function ReadParen(s: Word, i: nat): (r: Parsed<Atom>)
    requires i <= |s|
    ensures r.Ok? ==> i < r.next <= |s|
    decreases |s| - i, 4
  {
    if i == |s| then Err(EPAREN)
    else if See(s, i, ')') then Ok(Unit, i + 1)
    else
      var e := ReadEre(s, i, CLOSE);
      if e.Err? then Err(e.e)
      else if See(s, e.next, ')') then Ok(Paren(e.value), e.next + 1)
      else Err(EPAREN)
  }

  // ----- What is read is a valid tree with that text -----

  lemma {:induction false} DigitsRead(s: Word, i: nat, start: nat)
    requires start <= i <= |s| && AllDigits(s[start..i])
    ensures AllDigits(s[start..DigitsEnd(s, i, start)])
    decreases |s| - i
  {
    if i < |s| && IsDigit(s[i]) && Value(s[start..i]) <= DUPMAX {
      assert s[start..i + 1] == s[start..i] + [s[i]];
      DigitsRead(s, i + 1, start);
    }
  }

  lemma {:induction false} CountSound(s: Word, i: nat)
    requires i <= |s| && ReadCount(s, i).Ok?
    ensures IsCount(ReadCount(s, i).value) && s[i..ReadCount(s, i).next] == ReadCount(s, i).value
  {
    DigitsRead(s, i, i);
  }

  lemma {:induction false} HighSound(s: Word, i: nat, lo: Word)
    requires i <= |s| && ReadHigh(s, i, lo).Ok?
    ensures var r := ReadHigh(s, i, lo);
      && HighText(r.value) == s[i..r.next]
      && (r.value.Limit? ==> IsCount(r.value.digits) && Value(lo) <= Value(r.value.digits))
  {
    var r := ReadHigh(s, i, lo);
    if r.value.Limit? {
      CountSound(s, i + 1);
      assert s[i..r.next] == [s[i]] + s[i + 1..r.next];
    }
  }

  lemma {:induction false} Pieces(s: Word, a: nat, b: nat, c: nat)
    requires a < b <= c < |s|
    ensures s[a..c + 1] == [s[a]] + s[a + 1..b] + s[b..c] + [s[c]]
  {
  }

  lemma {:induction false} BoundsSound(s: Word, i: nat)
    requires 0 < i <= |s| && See(s, i - 1, '{') && ReadBounds(s, i).Ok?
    ensures var r := ReadBounds(s, i); ValidDup(r.value) && DupText(r.value) == s[i - 1..r.next]
  {
    hide ReadCount, ReadHigh;
    var lo := ReadCount(s, i);
    CountSound(s, i);
    var hi := ReadHigh(s, lo.next, lo.value);
    HighSound(s, lo.next, lo.value);
    Pieces(s, i - 1, lo.next, hi.next);
  }

  lemma {:induction false} DupSound(s: Word, i: nat)
    requires i <= |s| && ReadDup(s, i).Ok?
    ensures var r := ReadDup(s, i); ValidDup(r.value) && DupText(r.value) == s[i..r.next]
  {
    if See(s, i, '{') && RepetitionAt(s, i) {
      BoundsSound(s, i + 1);
    }
  }

  lemma {:induction false} Barred(s: Word, a: nat, b: nat, c: nat)
    requires a <= b < c <= |s|
    ensures s[a..c] == s[a..b] + [s[b]] + s[b + 1..c]
  {
  }

  lemma {:induction false} EreSound(s: Word, i: nat, stop: int)
    requires i <= |s| && ReadEre(s, i, stop).Ok?
    ensures var r := ReadEre(s, i, stop); ValidEre(r.value) && EreText(r.value) == s[i..r.next]
    decreases |s| - i, 3
  {
    hide ReadBranch, ValidBranch, BranchText, Vanishes;
    var b := ReadBranch(s, i, stop);
    BranchSound(s, i, stop);
    if See(s, b.next, '|') {
      var rest := ReadEre(s, b.next + 1, stop);
      EreSound(s, b.next + 1, stop);
      Barred(s, i, b.next, rest.next);
    }
  }

  lemma {:induction false} BranchSound(s: Word, i: nat, stop: int)
    requires i <= |s| && ReadBranch(s, i, stop).Ok?
    ensures var r := ReadBranch(s, i, stop); ValidBranch(r.value) && BranchText(r.value) == s[i..r.next]
    decreases |s| - i, 2
  {
    hide ReadPiece, PieceText, ValidAtom, ValidDup, Chr, IsDigit;
    if !BranchEnds(s, i, stop) {
      var p := ReadPiece(s, i);
      var rest := ReadBranch(s, p.next, stop);
      PieceSound(s, i);
      BranchSound(s, p.next, stop);
      assert s[i..rest.next] == s[i..p.next] + s[p.next..rest.next];
      if p.value == Piece(Ordinary(Chr('{')), Once) && s[p.next..rest.next] != [] {
        assert s[p.next..rest.next][0] == s[p.next];
      }
    }
  }

  lemma {:induction false} OnceRead(s: Word, i: nat)
    requires i <= |s|
    ensures ReadDup(s, i).Ok? && ReadDup(s, i).value.Once? ==> ReadDup(s, i).next == i
  {
  }

  lemma {:induction false} PieceSound(s: Word, i: nat)
    requires i < |s| && ReadPiece(s, i).Ok?
    ensures var r := ReadPiece(s, i);
      && ValidAtom(r.value.atom) && ValidDup(r.value.dup) && PieceText(r.value) == s[i..r.next]
      && (r.value == Piece(Ordinary(Chr('{')), Once) && r.next < |s| ==> !IsDigit(s[r.next]))
    decreases |s| - i, 1
  {
    hide ReadAtom, ReadDup, AtomText, DupText, ValidAtom, ValidDup;
    var a := ReadAtom(s, i);
    AtomSound(s, i);
    DupSound(s, a.next);
    OnceRead(s, a.next);
    var d := ReadDup(s, a.next);
    assert s[i..d.next] == s[i..a.next] + s[a.next..d.next];
  }

  lemma {:induction false} AtomSound(s: Word, i: nat)
    requires i < |s| && ReadAtom(s, i).Ok?
    ensures var r := ReadAtom(s, i);
      && ValidAtom(r.value) && AtomText(r.value) == s[i..r.next]
      && (r.value == Ordinary(Chr('{')) && r.next < |s| ==> r.next == i + 1 && !IsDigit(s[r.next]))
    decreases |s| - i, 0
  {
    hide ReadBracket, ReadParen, ValidEre;
    var r := ReadAtom(s, i);
    if See(s, i, '(') {
      ParenSound(s, i + 1);
    } else if See(s, i, '[') {
      BracketSound(s, i + 1);
      assert s[i..r.next] == [s[i]] + s[i + 1..r.next];
    }
  }

  lemma {:induction false} ParenSound(s: Word, i: nat)
    requires 0 < i <= |s| && See(s, i - 1, '(') && ReadParen(s, i).Ok?
    ensures var r := ReadParen(s, i); ValidAtom(r.value) && AtomText(r.value) == s[i - 1..r.next]
    ensures !ReadParen(s, i).value.Ordinary?
    decreases |s| - i, 4
  {
    if !See(s, i, ')') {
      var e := ReadEre(s, i, CLOSE);
      EreSound(s, i, CLOSE);
      assert s[i - 1..e.next + 1] == [s[i - 1]] + s[i..e.next] + [s[e.next]];
    }
  }

  // ----- The text of every valid tree is read as that tree -----

  lemma {:induction false} ValueGrows(d: Word, k: nat)
    requires k <= |d|
    ensures Value(d[..k]) <= Value(d)
    decreases |d|
  {
    if k < |d| {
      ValueGrows(d[..|d| - 1], k);
      assert d[..|d| - 1][..k] == d[..k];
    } else {
      assert d[..k] == d;
    }
  }

  lemma {:induction false} DigitsComplete(s: Word, i: nat, start: nat, n: nat)
    requires start <= i <= n <= |s| && IsCount(s[start..n]) && (n < |s| ==> !IsDigit(s[n]))
    ensures DigitsEnd(s, i, start) == n
    decreases n - i
  {
    var d := s[start..n];
    ValueGrows(d, i - start);
    assert d[..i - start] == s[start..i];
    if i < n {
      assert d[i - start] == s[i];
      DigitsComplete(s, i + 1, start, n);
    }
  }

  lemma {:induction false} CountComplete(s: Word, i: nat, n: nat)
    requires i <= n <= |s| && IsCount(s[i..n]) && (n < |s| ==> !IsDigit(s[n]))
    ensures ReadCount(s, i) == Ok(s[i..n], n)
  {
    DigitsComplete(s, i, i, n);
  }

  lemma {:induction false} HighComplete(s: Word, i: nat, n: nat, lo: Word, h: High)
    requires i <= n < |s| && s[i..n] == HighText(h) && s[n] == Chr('}')
    requires h.Limit? ==> IsCount(h.digits) && Value(lo) <= Value(h.digits)
    ensures ReadHigh(s, i, lo) == Ok(h, n)
  {
    match h
    case Same =>
    case NoLimit => FirstOf(s, i, n, Chr(','), []);
    case Limit(d) =>
      FirstOf(s, i, n, Chr(','), d);
      CountComplete(s, i + 1, n);
      assert s[i + 1] == d[0];
  }

  lemma {:induction false} HighStart(s: Word, i: nat, n: nat, h: High)
    requires i <= n < |s| && s[i..n] == HighText(h) && s[n] == Chr('}')
    ensures !IsDigit(s[i])
  {
    match h
    case Same =>
    case NoLimit => FirstOf(s, i, n, Chr(','), []);
    case Limit(d) => FirstOf(s, i, n, Chr(','), d);
  }

  lemma {:induction false} BraceParts(s: Word, i: nat, n: nat, lo: Word, hi: High)
    requires i <= n <= |s| && s[i..n] == DupText(Counted(lo, hi))
    ensures i + 1 + |lo| < n && s[i] == Chr('{') && s[n - 1] == Chr('}')
    ensures s[i + 1..i + 1 + |lo|] == lo && s[i + 1 + |lo|..n - 1] == HighText(hi)
  {
    hide HighText;
    var t := HighText(hi);
    assert [Chr('{')] + lo + t + [Chr('}')] == [Chr('{')] + (lo + t + [Chr('}')]);
    FirstOf(s, i, n, Chr('{'), lo + t + [Chr('}')]);
    LastOf(s, i + 1, n, lo + t, Chr('}'));
    Cut(s, i + 1, n - 1, lo, t);
  }

  lemma {:induction false} BoundsComplete(s: Word, i: nat, n: nat, lo: Word, hi: High)
    requires i <= n <= |s| && s[i..n] == DupText(Counted(lo, hi)) && ValidDup(Counted(lo, hi))
    ensures i + 1 < n && s[i] == Chr('{') && IsDigit(s[i + 1]) && ReadBounds(s, i + 1) == Ok(Counted(lo, hi), n)
  {
    hide ReadCount, ReadHigh, HighText, Value;
    BraceParts(s, i, n, lo, hi);
    assert s[i + 1] == s[i + 1..i + 1 + |lo|][0] == lo[0];
    HighStart(s, i + 1 + |lo|, n - 1, hi);
    CountComplete(s, i + 1, i + 1 + |lo|);
    HighComplete(s, i + 1 + |lo|, n - 1, lo, hi);
  }

  lemma {:induction false} DupComplete(s: Word, i: nat, n: nat, d: Dup)
    requires i <= n <= |s| && s[i..n] == DupText(d) && ValidDup(d) && !RepetitionAt(s, n)
    ensures ReadDup(s, i) == Ok(d, n)
  {
    match d
    case Once =>
    case Star => FirstOf(s, i, n, Chr('*'), []);
    case OneOrMore => FirstOf(s, i, n, Chr('+'), []);
    case Question => FirstOf(s, i, n, Chr('?'), []);
    case Counted(lo, hi) => BoundsComplete(s, i, n, lo, hi);
  }

  lemma {:induction false} BranchSplit(b: Branch)
    requires b.Then?
    ensures BranchText(b) == AtomText(b.piece.atom) + (DupText(b.piece.dup) + BranchText(b.rest))
  {
  }

  /** What may follow a branch that is read to its end, or to where something else is wrong. */
  predicate NoDigit(s: Word, n: nat) { n < |s| ==> !IsDigit(s[n]) }

  /** A branch goes on with a byte that is no repetition operator and ends no branch. */
  lemma {:induction false} BranchStart(s: Word, i: nat, n: nat, b: Branch, stop: int)
    requires i <= n <= |s| && s[i..n] == BranchText(b) && ValidBranch(b)
    requires NoDigit(s, n) && (b.Done? ==> !RepetitionAt(s, n))
    requires stop == CLOSE || stop == TOPLEVEL
    ensures !RepetitionAt(s, i)
    ensures b.Then? ==> i < n && !BranchEnds(s, i, stop)
  {
    hide AtomText, DupText, ValidAtom;
    if b.Then? {
      var a, rest := AtomText(b.piece.atom), DupText(b.piece.dup) + BranchText(b.rest);
      BranchSplit(b);
      Cut(s, i, n, a, rest);
      AtomStart(s, i, i + |a|, b.piece.atom);
      if b.piece.atom == Ordinary(Chr('{')) {
        BraceText(b.piece.atom);
        BraceFollowed(s, i + 1, n, b);
      }
    }
  }

  lemma {:induction false} BraceText(a: Atom)
    requires a.Ordinary?
    ensures |AtomText(a)| == 1
  {
  }

  lemma {:induction false} AtomStart(s: Word, i: nat, m: nat, a: Atom)
    requires i <= m <= |s| && s[i..m] == AtomText(a) && ValidAtom(a)
    ensures i < m && s[i] == AtomText(a)[0]
    ensures s[i] != Chr('|') && s[i] != Chr(')') && s[i] != Chr('*') && s[i] != Chr('+') && s[i] != Chr('?')
    ensures s[i] == Chr('{') ==> a == Ordinary(Chr('{'))
  {
    assert s[i] == s[i..m][0];
  }

  lemma {:induction false} DupStart(d: Dup)
    requires d != Once
    ensures DupText(d) != [] && !IsDigit(DupText(d)[0])
  {
  }

  /** No digit follows a left brace that stands for itself. */
  lemma {:induction false} BraceFollowed(s: Word, i: nat, n: nat, b: Branch)
    requires b.Then? && b.piece.atom == Ordinary(Chr('{')) && ValidBranch(b)
    requires i <= n <= |s| && s[i..n] == DupText(b.piece.dup) + BranchText(b.rest) && NoDigit(s, n)
    ensures NoDigit(s, i)
  {
    if b.piece.dup != Once {
      DupStart(b.piece.dup);
      assert s[i] == s[i..n][0];
    } else if BranchText(b.rest) != [] {
      assert s[i] == s[i..n][0];
    }
  }

  lemma {:induction false} EreComplete(s: Word, i: nat, n: nat, e: Ere, stop: int)
    requires i <= n <= |s| && s[i..n] == EreText(e) && ValidEre(e)
    requires (stop == CLOSE || stop == TOPLEVEL) && (n == |s| || s[n] == stop)
    ensures ReadEre(s, i, stop) == Ok(e, n)
    decreases e, 1
  {
    hide ReadBranch, BranchText, ValidBranch, Vanishes;
    match e
    case Single(b) => BranchComplete(s, i, n, b, stop);
    case Alternative(b, rest) =>
      var t := BranchText(b);
      assert EreText(e) == t + ([Chr('|')] + EreText(rest));
      Cut(s, i, n, t, [Chr('|')] + EreText(rest));
      FirstOf(s, i + |t|, n, Chr('|'), EreText(rest));
      BranchComplete(s, i, i + |t|, b, stop);
      EreComplete(s, i + |t| + 1, n, rest, stop);
  }

  lemma {:induction false} SolidText(p: Piece)
    ensures |PieceText(p)| > 0
  {
  }

  lemma {:induction false} BranchComplete(s: Word, i: nat, n: nat, b: Branch, stop: int)
    requires i <= n <= |s| && s[i..n] == BranchText(b) && ValidBranch(b)
    requires (stop == CLOSE || stop == TOPLEVEL) && BranchEnds(s, n, stop)
    ensures ReadBranch(s, i, stop) == Ok(b, n)
    decreases b, 0
  {
    hide ReadPiece, PieceText, DupText, ValidAtom, ValidDup;
    if b.Then? {
      BranchStart(s, i, n, b, stop);
      Cut(s, i, n, PieceText(b.piece), BranchText(b.rest));
      var m := i + |PieceText(b.piece)|;
      BranchStart(s, m, n, b.rest, stop);
      if b.piece.atom == Ordinary(Chr('{')) {
        BranchSplit(b);
        FirstOf(s, i, n, Chr('{'), DupText(b.piece.dup) + BranchText(b.rest));
        BraceFollowed(s, i + 1, n, b);
      }
      SolidText(b.piece);
      PieceComplete(s, i, m, b.piece);
      BranchComplete(s, m, n, b.rest, stop);
    }
  }

  lemma {:induction false} PieceComplete(s: Word, i: nat, n: nat, p: Piece)
    requires i < n <= |s| && s[i..n] == PieceText(p) && ValidAtom(p.atom) && ValidDup(p.dup)
    requires !RepetitionAt(s, n)
    requires p.atom == Ordinary(Chr('{')) && i + 1 < |s| ==> !IsDigit(s[i + 1])
    ensures ReadPiece(s, i) == Ok(p, n)
    decreases p, 0
  {
    hide ReadAtom, ReadDup;
    Cut(s, i, n, AtomText(p.atom), DupText(p.dup));
    var m := i + |AtomText(p.atom)|;
    AtomComplete(s, i, m, p.atom);
    DupComplete(s, m, n, p.dup);
  }

  lemma {:induction false} AtomComplete(s: Word, i: nat, n: nat, a: Atom)
    requires i < |s| && i <= n <= |s| && s[i..n] == AtomText(a) && ValidAtom(a)
    requires a == Ordinary(Chr('{')) && i + 1 < |s| ==> !IsDigit(s[i + 1])
    ensures ReadAtom(s, i) == Ok(a, n)
    decreases a, 0
  {
    hide ReadBracket, ReadEre, ValidEre;
    match a
    case Ordinary(c) => FirstOf(s, i, n, c, []);
    case Escaped(c) =>
      assert [Chr('\\'), c] == [Chr('\\')] + [c];
      FirstOf(s, i, n, Chr('\\'), [c]);
      FirstOf(s, i + 1, n, c, []);
    case Dot => FirstOf(s, i, n, Chr('.'), []);
    case Bracket(list) =>
      FirstOf(s, i, n, Chr('['), ListText(list));
      BracketComplete(s, i + 1, n, list);
    case Paren(e) => ParenComplete(s, i, n, e);
    case Unit =>
      assert [Chr('('), Chr(')')] == [Chr('(')] + [Chr(')')];
      FirstOf(s, i, n, Chr('('), [Chr(')')]);
      FirstOf(s, i + 1, n, Chr(')'), []);
  }

  lemma {:induction false} ParenComplete(s: Word, i: nat, n: nat, e: Ere)
    requires i < |s| && i <= n <= |s| && s[i..n] == AtomText(Paren(e)) && ValidEre(e)
    ensures See(s, i, '(') && ReadParen(s, i + 1) == Ok(Paren(e), n)
    decreases e, 2
  {
    hide ReadEre, ValidEre;
    var t := EreText(e);
    assert AtomText(Paren(e)) == [Chr('(')] + (t + [Chr(')')]);
    FirstOf(s, i, n, Chr('('), t + [Chr(')')]);
    LastOf(s, i + 1, n, t, Chr(')'));
    EreComplete(s, i + 1, n - 1, e, CLOSE);
    EreStart(s, i + 1, n - 1, e);
  }

  /** A valid expression is not empty and does not begin with a right parenthesis. */
  lemma {:induction false} EreStart(s: Word, i: nat, n: nat, e: Ere)
    requires i <= n <= |s| && s[i..n] == EreText(e) && ValidEre(e)
    ensures i < n && !See(s, i, ')')
  {
    var b := e.branch;
    var t, a := BranchText(b), AtomText(b.piece.atom);
    var tail := if e.Single? then [] else [Chr('|')] + EreText(e.rest);
    assert EreText(e) == t + tail;
    Cut(s, i, n, t, tail);
    BranchSplit(b);
    Cut(s, i, i + |t|, a, DupText(b.piece.dup) + BranchText(b.rest));
    AtomStart(s, i, i + |a|, b.piece.atom);
  }

  /** A pattern is accepted exactly if it is the text of a valid tree, which is the one read. */
  lemma {:induction false} ReadExactly(s: Word, e: Ere)
    ensures ReadEre(s, 0, TOPLEVEL) == Ok(e, |s|) <==> ValidEre(e) && EreText(e) == s
  {
    assert s[0..|s|] == s;
    if ReadEre(s, 0, TOPLEVEL) == Ok(e, |s|) {
      EreSound(s, 0, TOPLEVEL);
    }
    if ValidEre(e) && EreText(e) == s {
      EreComplete(s, 0, |s|, e, TOPLEVEL);
    }
  }
}
