/**
  Which error refuses a pattern.  What comes before the fault is the front of a valid expression,
  with a parenthesis left open for every group that the fault lies in.
 */
module RegexErrors {
  import opened Basics
  import opened RegexLanguage
  import opened RegexScan
  import opened RegexBracket
  import opened RegexGrammar
  import opened RegexReader

  // ----- The part of a pattern before the fault -----

  /** Branches of which the last may go on: it may yet be empty. */
  predicate ValidFront(f: Ere) {
    ValidBranch(f.branch) && (f.Alternative? ==> !Vanishes(f.branch) && ValidFront(f.rest))
  }

  function LastBranch(f: Ere): Branch {
    match f
    case Single(b) => b
    case Alternative(_, rest) => LastBranch(rest)
  }

  /** The last piece has a repetition operator. */
  predicate RepeatedLast(b: Branch) {
    b.Then? && if b.rest.Then? then RepeatedLast(b.rest) else !b.piece.dup.Once?
  }

  /** The front of an expression, or one with a group left open behind it. */
  datatype Prefix = Level(front: Ere) | Open(front: Ere, inner: Prefix)

  function PrefixText(p: Prefix): Word {
    match p
    case Level(f) => EreText(f)
    case Open(f, q) => EreText(f) + ([Chr('(')] + PrefixText(q))
  }

  predicate ValidPrefix(p: Prefix) {
    ValidFront(p.front) && (p.Open? ==> ValidPrefix(p.inner))
  }

  // ----- The faults -----

  /** At `i`, behind the pieces of `b`, stands what no expression goes on with. */
  predicate BadPiece(s: Word, i: nat, b: Branch, open: bool, e: Error) {
    || (e == EPAREN && !open && See(s, i, ')'))
    || (e == EESCAPE && See(s, i, '\\') && i + 1 == |s|)
    || (e == BADRPT && RepetitionAt(s, i) && (b.Done? || RepeatedLast(b)))
    || (e == OUTSIDE && (See(s, i, '^') || See(s, i, '$')))
    || BadList(s, i, e)
    || BadBounds(s, i, b, e)
  }

  predicate BadList(s: Word, i: nat, e: Error) {
    See(s, i, '[') && ReadBracket(s, i + 1) == Err(e)
  }

  /** Bounds that would repeat the last piece. */
  predicate BadBounds(s: Word, i: nat, b: Branch, e: Error) {
    b.Then? && !RepeatedLast(b) && See(s, i, '{') && RepetitionAt(s, i) && ReadBounds(s, i + 1) == Err(e)
  }

  /** A branch of which nothing remains ends at `i`. */
  predicate BadEnd(s: Word, i: nat, b: Branch, open: bool) {
    Vanishes(b) && (i >= |s| || s[i] == Chr('|') || (open && s[i] == Chr(')')))
  }

  /** The text ends in a group that has something in it, or nothing at all. */
  predicate Unclosed(s: Word, i: nat, f: Ere) {
    i >= |s| && (f == Single(Done) || !Vanishes(LastBranch(f)))
  }

  /** A group may be empty as a whole, but no branch of it. */
  predicate Fault(s: Word, i: nat, f: Ere, open: bool, e: Error) {
    || BadPiece(s, i, LastBranch(f), open, e)
    || (e == EMPTY && BadEnd(s, i, LastBranch(f), open) && (open && f == Single(Done) ==> See(s, i, '|')))
    || (e == EPAREN && open && Unclosed(s, i, f))
  }

  predicate FaultIn(s: Word, i: nat, p: Prefix, open: bool, e: Error) {
    match p
    case Level(f) => Fault(s, i, f, open, e)
    case Open(_, q) => FaultIn(s, i, q, true, e)
  }

  /** The pattern is right up to `i`, and there stands the fault. */
  ghost predicate Refuses(s: Word, e: Error) {
    exists p: Prefix, i: nat :: i <= |s| && RightUpTo(s, p, i) && FaultIn(s, i, p, false, e)
  }

  predicate RightUpTo(s: Word, p: Prefix, i: nat)
    requires i <= |s|
  {
    ValidPrefix(p) && PrefixText(p) == s[..i]
  }

  // ----- A refused pattern has the fault -----

  predicate Stop(stop: int) { stop == CLOSE || stop == TOPLEVEL }

  /** What keeps a branch from being read on: the pieces before the fault, and the group that it may lie in. */
  datatype Broken = Broken(b: Branch, group: Option<Prefix>, at: nat)

  function BrokenText(r: Broken): Word {
    BranchText(r.b) + if r.group.Some? then [Chr('(')] + PrefixText(r.group.value) else []
  }

  predicate BrokenRight(s: Word, i: nat, r: Broken, open: bool, e: Error) {
    && i <= r.at <= |s| && s[i..r.at] == BrokenText(r) && ValidBranch(r.b)
    && match r.group
       case Some(q) => ValidPrefix(q) && FaultIn(s, r.at, q, true, e)
       case None => BadPiece(s, r.at, r.b, open, e)
  }

  lemma {:induction false} AtomRefused(s: Word, i: nat, stop: int, e: Error) returns (r: Broken)
    requires i < |s| && Stop(stop) && !BranchEnds(s, i, stop) && ReadAtom(s, i) == Err(e)
    ensures BrokenRight(s, i, r, stop == CLOSE, e) && r.b.Done?
    decreases |s| - i, 0
  {
    hide ReadParen, ReadBracket, FaultIn, ValidPrefix;
    r := Broken(Done, None, i);
    if See(s, i, '(') {
      var q, j := ParenRefused(s, i + 1, e);
      r := Broken(Done, Some(q), j);
      assert s[i..j] == [s[i]] + s[i + 1..j];
      assert BrokenText(r) == [Chr('(')] + PrefixText(q);
    } else {
      assert BadPiece(s, i, Done, stop == CLOSE, e);
    }
  }

  lemma {:induction false} ParenRefused(s: Word, i: nat, e: Error) returns (q: Prefix, j: nat)
    requires i <= |s| && ReadParen(s, i) == Err(e)
    ensures i <= j <= |s| && s[i..j] == PrefixText(q) && ValidPrefix(q) && FaultIn(s, j, q, true, e)
    decreases |s| - i, 4
  {
    hide ReadEre, BadPiece, Vanishes;
    if i == |s| {
      q, j := Level(Single(Done)), i;
    } else {
      var r := ReadEre(s, i, CLOSE);
      if r.Err? {
        q, j := EreRefused(s, i, CLOSE, e);
      } else {
        EreSound(s, i, CLOSE);
        q, j := Level(r.value), r.next;
        FrontOfWhole(r.value);
      }
    }
  }

  lemma {:induction false} FrontOfWhole(e: Ere)
    requires ValidEre(e)
    ensures ValidFront(e) && !Vanishes(LastBranch(e))
  {
    if e.Alternative? {
      FrontOfWhole(e.rest);
    }
  }

  /** As a fault, but it is left open whether the group is empty as a whole. */
  predicate Loose(s: Word, i: nat, p: Prefix, open: bool, e: Error) {
    match p
    case Level(f) => BadPiece(s, i, LastBranch(f), open, e) || (e == EMPTY && BadEnd(s, i, LastBranch(f), open))
    case Open(_, q) => FaultIn(s, i, q, true, e)
  }

  lemma {:induction false} EreRefused(s: Word, i: nat, stop: int, e: Error) returns (p: Prefix, j: nat)
    requires i <= |s| && Stop(stop) && ReadEre(s, i, stop) == Err(e)
    ensures i <= j <= |s| && s[i..j] == PrefixText(p) && ValidPrefix(p) && Loose(s, j, p, stop == CLOSE, e)
    decreases |s| - i, 3
  {
    hide ReadBranch, BadPiece, Vanishes, ValidBranch, BranchText, FaultIn;
    var b := ReadBranch(s, i, stop);
    if b.Err? {
      var r := BranchRefused(s, i, stop, e);
      p, j := WithGroup(Single(r.b), r.group), r.at;
    } else {
      BranchSound(s, i, stop);
      if Vanishes(b.value) {
        p, j := Level(Single(b.value)), b.next;
      } else {
        p, j := EreRefused(s, b.next + 1, stop, e);
        Barred(s, i, b.next, j);
        p := Behind(b.value, p);
      }
    }
  }

  function WithGroup(f: Ere, group: Option<Prefix>): Prefix {
    if group.Some? then Open(f, group.value) else Level(f)
  }

  /** The prefix with an alternative before it. */
  function Behind(b: Branch, p: Prefix): (r: Prefix)
    ensures PrefixText(r) == BranchText(b) + [Chr('|')] + PrefixText(p)
  {
    p.(front := Alternative(b, p.front))
  }

  lemma {:induction false} BranchRefused(s: Word, i: nat, stop: int, e: Error) returns (r: Broken)
    requires i <= |s| && Stop(stop) && ReadBranch(s, i, stop) == Err(e)
    ensures BrokenRight(s, i, r, stop == CLOSE, e)
    decreases |s| - i, 2
  {
    hide ReadPiece, BrokenRight;
    var p := ReadPiece(s, i);
    if p.Err? {
      r := PieceRefused(s, i, stop, e);
    } else {
      PieceSound(s, i);
      var r' := BranchRefused(s, p.next, stop, e);
      NoRepetition(s, i);
      r := r'.(b := Then(p.value, r'.b));
      PieceBefore(s, i, p.value, p.next, r', stop == CLOSE, e);
    }
  }

  /** No repetition operator follows a piece. */
  lemma {:induction false} NoRepetition(s: Word, i: nat)
    requires i < |s| && ReadPiece(s, i).Ok?
    ensures !RepetitionAt(s, ReadPiece(s, i).next)
  {
    hide ReadAtom, ReadBounds;
  }

  lemma {:induction false} PieceBefore(s: Word, i: nat, p: Piece, m: nat, r: Broken, open: bool, e: Error)
    requires i < m <= |s| && s[i..m] == PieceText(p) && ValidAtom(p.atom) && ValidDup(p.dup) && !RepetitionAt(s, m)
    requires p == Piece(Ordinary(Chr('{')), Once) && m < |s| ==> !IsDigit(s[m])
    requires BrokenRight(s, m, r, open, e)
    ensures BrokenRight(s, i, r.(b := Then(p, r.b)), open, e)
  {
    hide PieceText, ValidAtom, ValidDup, FaultIn, ValidPrefix, PrefixText, RepetitionAt, ReadBounds, ReadBracket, IsDigit, Chr;
    var b := Then(p, r.b);
    assert s[i..r.at] == s[i..m] + s[m..r.at];
    if BranchText(r.b) != [] {
      assert BranchText(r.b)[0] == BrokenText(r)[0] == s[m..r.at][0] == s[m];
    }
    assert ValidBranch(b);
    assert BrokenText(r.(b := b)) == PieceText(p) + BrokenText(r);
  }

  lemma {:induction false} PieceRefused(s: Word, i: nat, stop: int, e: Error) returns (r: Broken)
    requires i < |s| && Stop(stop) && !BranchEnds(s, i, stop) && ReadPiece(s, i) == Err(e)
    ensures BrokenRight(s, i, r, stop == CLOSE, e)
    decreases |s| - i, 1
  {
    hide ReadAtom, ReadBounds, ReadBracket, ValidAtom, ValidDup, AtomText, DupText, BrokenRight;
    var a := ReadAtom(s, i);
    if a.Err? {
      r := AtomRefused(s, i, stop, e);
    } else {
      AtomSound(s, i);
      r := DupRefused(s, i, a.next, a.value, stop == CLOSE, e);
    }
  }

  /** The repetition operator at `i`, whatever follows it. */
  function Operator(s: Word, i: nat): (r: Parsed<Dup>)
    requires i < |s|
    ensures r.Ok? ==> i < r.next <= |s|
  {
    if See(s, i, '*') then Ok(Star, i + 1)
    else if See(s, i, '+') then Ok(OneOrMore, i + 1)
    else if See(s, i, '?') then Ok(Question, i + 1)
    else ReadBounds(s, i + 1)
  }

  lemma {:induction false} DupRefused(s: Word, i: nat, m: nat, a: Atom, open: bool, e: Error) returns (r: Broken)
    requires i < m <= |s| && s[i..m] == AtomText(a) && ValidAtom(a) && ReadDup(s, m) == Err(e)
    ensures BrokenRight(s, i, r, open, e)
  {
    hide BrokenRight, Operator, RepetitionAt, ReadDup, ReadBounds, ValidAtom, ValidDup, AtomText, DupText;
    OperatorRefused(s, m, e);
    var d := Operator(s, m);
    if d.Ok? {
      OperatorSound(s, m);
      r := Broken(Then(Piece(a, d.value), Done), None, d.next);
      Spliced(s, i, m, d.next);
    } else {
      r := Broken(Then(Piece(a, Once), Done), None, m);
      NoOperator(AtomText(a));
    }
    OnePieceBroken(s, i, r, open, e);
  }

  lemma {:induction false} Spliced(s: Word, a: nat, b: nat, c: nat)
    requires a <= b <= c <= |s|
    ensures s[a..c] == s[a..b] + s[b..c]
  {
  }

  lemma {:induction false} NoOperator(t: Word)
    ensures t + DupText(Once) == t && ValidDup(Once)
  {
  }

  lemma {:induction false} OperatorRefused(s: Word, i: nat, e: Error)
    requires i <= |s| && ReadDup(s, i) == Err(e)
    ensures i < |s| && RepetitionAt(s, i)
    ensures if Operator(s, i).Ok? then e == BADRPT && RepetitionAt(s, Operator(s, i).next)
            else See(s, i, '{') && ReadBounds(s, i + 1) == Err(e)
  {
    hide ReadBounds;
  }

  lemma {:induction false} OnePieceBroken(s: Word, i: nat, r: Broken, open: bool, e: Error)
    requires r.b.Then? && r.b.rest.Done? && r.group.None? && ValidAtom(r.b.piece.atom) && ValidDup(r.b.piece.dup)
    requires i <= r.at <= |s| && s[i..r.at] == AtomText(r.b.piece.atom) + DupText(r.b.piece.dup) && RepetitionAt(s, r.at)
    requires if r.b.piece.dup.Once? then See(s, r.at, '{') && ReadBounds(s, r.at + 1) == Err(e) else e == BADRPT
    ensures BrokenRight(s, i, r, open, e)
  {
    hide ReadBounds, ReadBracket, ValidAtom, ValidDup, AtomText, DupText;
    OnePiece(r.b.piece.atom, r.b.piece.dup);
    assert BrokenText(r) == BranchText(r.b);
    assert ValidBranch(r.b.rest) && BranchText(r.b.rest) == [];
    assert RepeatedLast(r.b) <==> !r.b.piece.dup.Once?;
  }

  lemma {:induction false} OnePiece(a: Atom, d: Dup)
    ensures BranchText(Then(Piece(a, d), Done)) == AtomText(a) + DupText(d)
  {
    hide AtomText, DupText;
    assert BranchText(Done) == [];
  }

  lemma {:induction false} OperatorSound(s: Word, i: nat)
    requires i < |s| && RepetitionAt(s, i) && Operator(s, i).Ok?
    ensures var r := Operator(s, i); ValidDup(r.value) && DupText(r.value) == s[i..r.next] && !r.value.Once?
  {
    hide ReadCount, ReadHigh;
    if See(s, i, '{') {
      BoundsSound(s, i + 1);
    }
  }

  lemma {:induction false} RefusedFor(s: Word, e: Error)
    requires ReadEre(s, 0, TOPLEVEL) == Err(e)
    ensures Refuses(s, e)
  {
    hide ReadEre, ValidPrefix, BadPiece;
    var p, j := EreRefused(s, 0, TOPLEVEL, e);
    assert s[0..j] == s[..j];
    assert RightUpTo(s, p, j) && FaultIn(s, j, p, false, e);
  }

  // ----- A pattern with the fault is refused -----

  /** The pieces before a place are read, then what stands there. */
  lemma {:induction false} BranchOn(s: Word, i: nat, n: nat, b: Branch, stop: int, e: Error)
    requires i <= n <= |s| && s[i..n] == BranchText(b) && ValidBranch(b) && Stop(stop)
    requires NoDigit(s, n) && (b.Then? ==> !RepetitionAt(s, n)) && ReadBranch(s, n, stop) == Err(e)
    ensures ReadBranch(s, i, stop) == Err(e)
    decreases b
  {
    hide ReadPiece, PieceText, ValidAtom, ValidDup, RepetitionAt, BranchEnds;
    if b.Then? {
      var m := FirstRead(s, i, n, b, stop);
      BranchOn(s, m, n, b.rest, stop, e);
    }
  }

  lemma {:induction false} FirstRead(s: Word, i: nat, n: nat, b: Branch, stop: int) returns (m: nat)
    requires i <= n <= |s| && s[i..n] == BranchText(b) && ValidBranch(b) && Stop(stop) && b.Then?
    requires NoDigit(s, n) && (b.rest.Done? ==> !RepetitionAt(s, n))
    ensures i < m <= n && s[m..n] == BranchText(b.rest) && ReadPiece(s, i) == Ok(b.piece, m) && !BranchEnds(s, i, stop)
  {
    hide ReadPiece, PieceText, DupText, ValidAtom, ValidDup;
    BranchStart(s, i, n, b, stop);
    Cut(s, i, n, PieceText(b.piece), BranchText(b.rest));
    m := i + |PieceText(b.piece)|;
    BranchStart(s, m, n, b.rest, stop);
    if b.piece.atom == Ordinary(Chr('{')) {
      BranchSplit(b);
      FirstOf(s, i, n, Chr('{'), DupText(b.piece.dup) + BranchText(b.rest));
      BraceFollowed(s, i + 1, n, b);
    }
    SolidText(b.piece);
    PieceComplete(s, i, m, b.piece);
  }

  /** A repetition operator that the last piece cannot take. */
  lemma {:induction false} BranchRepeated(s: Word, i: nat, n: nat, b: Branch, stop: int, e: Error)
    requires i <= n <= |s| && s[i..n] == BranchText(b) && ValidBranch(b) && Stop(stop) && b.Then?
    requires RepetitionAt(s, n) && if RepeatedLast(b) then e == BADRPT else See(s, n, '{') && ReadBounds(s, n + 1) == Err(e)
    ensures ReadBranch(s, i, stop) == Err(e)
    decreases b
  {
    hide ReadPiece, PieceText, ValidAtom, ValidDup, ReadBounds, BranchEnds;
    if b.rest.Then? {
      var m := FirstRead(s, i, n, b, stop);
      BranchRepeated(s, m, n, b.rest, stop, e);
    } else {
      BranchStart(s, i, n, b, stop);
      PieceRepeated(s, i, n, b, e);
    }
  }

  lemma {:induction false} PieceRepeated(s: Word, i: nat, n: nat, b: Branch, e: Error)
    requires i < n <= |s| && s[i..n] == BranchText(b) && ValidBranch(b) && b.Then? && b.rest.Done?
    requires RepetitionAt(s, n)
    requires if !b.piece.dup.Once? then e == BADRPT else See(s, n, '{') && ReadBounds(s, n + 1) == Err(e)
    ensures ReadPiece(s, i) == Err(e)
  {
    hide ReadAtom, ReadDup, AtomText, DupText, ValidAtom, ValidDup, ReadBounds;
    var a, d := b.piece.atom, b.piece.dup;
    OnePiece(a, d);
    Cut(s, i, n, AtomText(a), DupText(d));
    var m := i + |AtomText(a)|;
    if a == Ordinary(Chr('{')) {
      BraceText(a);
      assert DupText(d) + BranchText(Done) == DupText(d);
      BraceFollowed(s, m, n, b);
    }
    AtomComplete(s, i, m, a);
    DupAgain(s, m, n, d, e);
  }

  lemma {:induction false} DupAgain(s: Word, i: nat, n: nat, d: Dup, e: Error)
    requires i <= n <= |s| && s[i..n] == DupText(d) && ValidDup(d) && RepetitionAt(s, n)
    requires if !d.Once? then e == BADRPT else See(s, n, '{') && ReadBounds(s, n + 1) == Err(e)
    ensures ReadDup(s, i) == Err(e)
  {
    hide ReadBounds;
    match d
    case Once =>
    case Star => FirstOf(s, i, n, Chr('*'), []);
    case OneOrMore => FirstOf(s, i, n, Chr('+'), []);
    case Question => FirstOf(s, i, n, Chr('?'), []);
    case Counted(lo, hi) => BoundsComplete(s, i, n, lo, hi);
  }

  /** Where the last branch of a front begins. */
  lemma {:induction false} FrontOn(s: Word, i: nat, n: nat, f: Ere, stop: int) returns (k: nat)
    requires i <= n <= |s| && s[i..n] == EreText(f) && ValidFront(f) && Stop(stop)
    ensures i <= k <= n && s[k..n] == BranchText(LastBranch(f)) && ValidBranch(LastBranch(f))
    ensures ReadBranch(s, k, stop).Err? ==> ReadEre(s, i, stop) == Err(ReadBranch(s, k, stop).e)
    ensures ReadBranch(s, k, stop).Ok? && Vanishes(ReadBranch(s, k, stop).value) ==> ReadEre(s, i, stop) == Err(EMPTY)
    decreases f
  {
    hide ReadBranch, BranchText, ValidBranch, Vanishes;
    k := i;
    if f.Alternative? {
      var t := BranchText(f.branch);
      assert EreText(f) == t + ([Chr('|')] + EreText(f.rest));
      Cut(s, i, n, t, [Chr('|')] + EreText(f.rest));
      FirstOf(s, i + |t|, n, Chr('|'), EreText(f.rest));
      BranchComplete(s, i, i + |t|, f.branch, stop);
      k := FrontOn(s, i + |t| + 1, n, f.rest, stop);
    }
  }

  /** A front that is not empty begins with an atom. */
  lemma {:induction false} FrontStart(s: Word, i: nat, n: nat, f: Ere)
    requires i <= n <= |s| && s[i..n] == EreText(f) && ValidFront(f)
    ensures f == Single(Done) ==> i == n
    ensures f != Single(Done) ==> i < n && !See(s, i, ')')
  {
    hide ValidAtom, AtomText;
    if f != Single(Done) {
      var b := f.branch;
      var t, a := BranchText(b), AtomText(b.piece.atom);
      var tail := if f.Single? then [] else [Chr('|')] + EreText(f.rest);
      assert EreText(f) == t + tail;
      Cut(s, i, n, t, tail);
      BranchSplit(b);
      Cut(s, i, i + |t|, a, DupText(b.piece.dup) + BranchText(b.rest));
      AtomStart(s, i, i + |a|, b.piece.atom);
    }
  }

  lemma {:induction false} WholeOfFront(f: Ere)
    requires ValidFront(f) && !Vanishes(LastBranch(f))
    ensures ValidEre(f)
  {
    if f.Alternative? {
      WholeOfFront(f.rest);
    }
  }

  /** Read as a group or as the whole pattern. */
  function ErrorOf(s: Word, i: nat, open: bool): Option<Error>
    requires i <= |s|
  {
    if open then (var r := ReadParen(s, i); if r.Err? then Some(r.e) else None)
    else (var r := ReadEre(s, i, TOPLEVEL); if r.Err? then Some(r.e) else None)
  }

  /** An error in the expression is one of the group that it begins. */
  lemma {:induction false} GroupError(s: Word, i: nat, open: bool, e: Error)
    requires i <= |s| && ReadEre(s, i, if open then CLOSE else TOPLEVEL) == Err(e)
    requires open ==> i < |s| && !See(s, i, ')')
    ensures ErrorOf(s, i, open) == Some(e)
  {
    hide ReadEre;
  }

  lemma {:induction false} PieceFault(s: Word, i: nat, n: nat, f: Ere, open: bool, e: Error)
    requires i <= n <= |s| && s[i..n] == EreText(f) && ValidFront(f) && BadPiece(s, n, LastBranch(f), open, e)
    ensures ErrorOf(s, i, open) == Some(e)
  {
    hide ReadEre, ReadBranch, ReadBounds, ReadBracket, BranchText, ValidBranch, ValidFront, ErrorOf;
    var stop := if open then CLOSE else TOPLEVEL;
    var b := LastBranch(f);
    var k := FrontOn(s, i, n, f, stop);
    FrontStart(s, i, n, f);
    if b.Then? && RepetitionAt(s, n) {
      BranchRepeated(s, k, n, b, stop, e);
    } else {
      AtomFault(s, n, b, open, e);
      BranchOn(s, k, n, b, stop, e);
    }
    GroupError(s, i, open, e);
  }

  lemma {:induction false} AtomFault(s: Word, n: nat, b: Branch, open: bool, e: Error)
    requires n <= |s| && BadPiece(s, n, b, open, e) && (b.Then? ==> !RepetitionAt(s, n))
    ensures n < |s| && NoDigit(s, n) && ReadBranch(s, n, if open then CLOSE else TOPLEVEL) == Err(e)
  {
    hide ReadBounds, ReadBracket;
    assert ReadAtom(s, n) == Err(e);
  }

  lemma {:induction false} LevelFault(s: Word, i: nat, n: nat, f: Ere, open: bool, e: Error)
    requires i <= n <= |s| && s[i..n] == EreText(f) && ValidFront(f) && Fault(s, n, f, open, e)
    ensures ErrorOf(s, i, open) == Some(e)
  {
    hide BadPiece, ReadBranch, ReadEre, Vanishes, ValidFront, ValidBranch, EreText, BranchText, ErrorOf;
    var stop := if open then CLOSE else TOPLEVEL;
    if BadPiece(s, n, LastBranch(f), open, e) {
      PieceFault(s, i, n, f, open, e);
    } else if e == EMPTY {
      var k := FrontOn(s, i, n, f, stop);
      BranchComplete(s, k, n, LastBranch(f), stop);
      FrontStart(s, i, n, f);
      GroupError(s, i, open, e);
    } else {
      UnclosedFault(s, i, n, f);
    }
  }

  lemma {:induction false} UnclosedFault(s: Word, i: nat, n: nat, f: Ere)
    requires i <= n <= |s| && s[i..n] == EreText(f) && ValidFront(f) && Unclosed(s, n, f)
    ensures ErrorOf(s, i, true) == Some(EPAREN)
  {
    hide ReadEre, ValidFront, EreText, Vanishes;
    FrontStart(s, i, n, f);
    if f != Single(Done) {
      WholeOfFront(f);
      EreComplete(s, i, n, f, CLOSE);
    }
  }

  lemma {:induction false} PrefixFault(s: Word, i: nat, n: nat, p: Prefix, open: bool, e: Error)
    requires i <= n <= |s| && s[i..n] == PrefixText(p) && ValidPrefix(p) && FaultIn(s, n, p, open, e)
    ensures ErrorOf(s, i, open) == Some(e)
    decreases p
  {
    hide Fault, ReadBranch, ReadEre, ValidFront, EreText, ErrorOf;
    match p
    case Level(f) => LevelFault(s, i, n, f, open, e);
    case Open(f, q) =>
      var t := EreText(f);
      Cut(s, i, n, t, [Chr('(')] + PrefixText(q));
      FirstOf(s, i + |t|, n, Chr('('), PrefixText(q));
      PrefixFault(s, i + |t| + 1, n, q, true, e);
      OpenFault(s, i, i + |t|, f, open, e);
  }

  lemma {:induction false} OpenFault(s: Word, i: nat, m: nat, f: Ere, open: bool, e: Error)
    requires i <= m < |s| && s[i..m] == EreText(f) && ValidFront(f) && See(s, m, '(') && ErrorOf(s, m + 1, true) == Some(e)
    ensures ErrorOf(s, i, open) == Some(e)
  {
    hide ReadEre, ValidFront, EreText, BranchText, ValidBranch;
    var stop := if open then CLOSE else TOPLEVEL;
    var k := FrontOn(s, i, m, f, stop);
    FrontStart(s, i, m, f);
    assert ReadAtom(s, m) == Err(e);
    BranchOn(s, k, m, LastBranch(f), stop, e);
    GroupError(s, i, open, e);
  }

  /** A pattern is refused with an error exactly if it is right up to a place where that fault stands. */
  lemma {:induction false} RefusedExactly(s: Word, e: Error)
    ensures ReadEre(s, 0, TOPLEVEL) == Err(e) <==> Refuses(s, e)
  {
    hide ReadEre, FaultIn, ValidPrefix;
    if ReadEre(s, 0, TOPLEVEL) == Err(e) {
      RefusedFor(s, e);
    }
    if Refuses(s, e) {
      var p: Prefix, i: nat :| i <= |s| && RightUpTo(s, p, i) && FaultIn(s, i, p, false, e);
      assert s[0..i] == s[..i];
      PrefixFault(s, 0, i, p, false, e);
    }
  }

  // ----- What is wrong with a bracket expression -----

  /** A range that runs backwards, or a dash between items. */
  predicate BadRange(s: Word, j: nat) {
    || (See(s, j, '-') && !See(s, j + 1, ']'))
    || (j + 2 < |s| && See(s, j + 1, '-') && Signed(s[j]) > Signed(s[j + 2]))
  }

  /** The start of a class, an equivalence class or a collating element. */
  predicate NotModelled(s: Word, j: nat) {
    SeeTwo(s, j, '[', ':') || SeeTwo(s, j, '[', '=') || SeeTwo(s, j, '[', '.')
  }

  /** Items end at a right bracket, at a dash before one, or with the text. */
  lemma {:induction false} ItemsEndAt(s: Word, i: nat)
    requires i <= |s|
    ensures ReadItems(s, i).Ok? ==> forall j | i <= j < ReadItems(s, i).next :: s[j] != Chr(']')
    ensures ReadItems(s, i).Err? ==> match ReadItems(s, i).e
      case ERANGE => exists j :: i <= j && BadRange(s, j)
      case OUTSIDE => exists j :: i <= j && NotModelled(s, j)
      case _ => false
    decreases |s| - i
  {
    if MoreItems(s, i) {
      var t := ReadItem(s, i);
      if t.Ok? {
        ItemsEndAt(s, t.next);
      } else {
        assert t.e == ERANGE ==> BadRange(s, i);
        assert t.e == OUTSIDE ==> NotModelled(s, i) || NotModelled(s, i + 2);
      }
    }
  }

  /** EBRACK: no right bracket but a leading one; ERANGE: a bad range; and else what is not modelled. */
  lemma {:induction false} ListRefused(s: Word, i: nat, e: Error)
    requires i <= |s| && ReadBracket(s, i) == Err(e)
    ensures match e
      case EBRACK => forall j | i + 2 <= j < |s| :: s[j] != Chr(']')
      case ERANGE => exists j :: i <= j && BadRange(s, j)
      case OUTSIDE => exists j :: i <= j && NotModelled(s, j)
      case _ => false
  {
    hide ReadItems;
    var k := if See(s, i, '^') then i + 1 else i;
    ItemsEndAt(s, k + |LeadText(LeadAt(s, k))|);
  }

  // ----- What is wrong with bounds -----

  predicate TooLarge(s: Word, a: nat, b: nat) {
    a <= b <= |s| && AllDigits(s[a..b]) && Value(s[a..b]) > 255
  }

  /** The second number is smaller than the first. */
  predicate Reversed(s: Word, a: nat, b: nat, c: nat) {
    && a <= b < c <= |s| && s[b] == Chr(',')
    && AllDigits(s[a..b]) && AllDigits(s[b + 1..c]) && Value(s[b + 1..c]) < Value(s[a..b])
  }

  lemma {:induction false} CountRefused(s: Word, i: nat)
    requires i < |s| && IsDigit(s[i]) && ReadCount(s, i).Err?
    ensures TooLarge(s, i, DigitsEnd(s, i, i)) && ReadCount(s, i).e == BADBR
  {
    DigitsRead(s, i, i);
    assert s[i..i] == [];
  }

  lemma {:induction false} DigitsNoBrace(s: Word, i: nat)
    requires i <= |s| && ReadCount(s, i).Ok?
    ensures forall j | i <= j < ReadCount(s, i).next :: s[j] != Chr('}')
  {
    CountSound(s, i);
    var d, n := ReadCount(s, i).value, ReadCount(s, i).next;
    assert forall j | i <= j < n :: s[j] == d[j - i];
  }

  /** EBRACE: there is no right brace; BADBR: there is one that does not follow, or the numbers are wrong. */
  lemma {:induction false} BoundsRefused(s: Word, i: nat, e: Error)
    requires i < |s| && IsDigit(s[i]) && ReadBounds(s, i) == Err(e)
    ensures e == EBRACE || e == BADBR
    ensures e == EBRACE ==> forall j | i <= j < |s| :: s[j] != Chr('}')
    ensures e == BADBR ==>
      || (exists j :: i <= j < |s| && s[j] == Chr('}'))
      || (exists a, b :: i <= a && TooLarge(s, a, b))
      || (exists b, c :: Reversed(s, i, b, c))
  {
    hide ReadCount, TooLarge, Value;
    var lo := ReadCount(s, i);
    if lo.Err? {
      CountRefused(s, i);
    } else {
      CountSound(s, i);
      DigitsNoBrace(s, i);
      if See(s, lo.next, ',') && lo.next + 1 < |s| && IsDigit(s[lo.next + 1]) {
        var hi := ReadCount(s, lo.next + 1);
        if hi.Err? {
          CountRefused(s, lo.next + 1);
        } else {
          CountSound(s, lo.next + 1);
          DigitsNoBrace(s, lo.next + 1);
          assert Value(lo.value) > Value(hi.value) ==> Reversed(s, i, lo.next, hi.next);
        }
      }
    }
  }
}
