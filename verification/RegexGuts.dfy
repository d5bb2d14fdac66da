/** The compiled expression and what the matcher may rely on. */
module RegexGuts {
  import opened Basics
  import opened RegexLanguage
  import opened RegexStrip
  import opened RegexSearch

  datatype Guts = Guts(
    strip: Strip,
    firststate: nat,       // where the strip begins
    laststate: nat,        // where it ends
    must: Option<Word>,    // every match contains this string
    nplus: nat,            // how deep loops nest
    nbol: nat,
    neol: nat,
    newline: bool,         // CUB_REG_NEWLINE was given
    nosub: bool,           // CUB_REG_NOSUB was given
    bad: bool)             // the scans of the finished strip found it wrongly nested
  {
    /** The states of the whole expression, as `matcher` passes them on. */
    function First(): int { firststate + 1 }
    function Last(): int { laststate }

    /** [lo, hi) is a block of the strip that may be run on its own. */
    ghost predicate Block(lo: int, hi: int) {
      && 0 < lo <= hi < |strip|
      && WellNested(strip, lo, hi)
      && AnchorFree(strip, lo, hi)
    }

    ghost function Language(): Lang {
      Accepted(strip, First(), Last())
    }

    /** What compilation establishes. */
    ghost predicate Valid() {
      && Block(First(), Last())
      && (must.Some? ==> must.value != [] && forall w :: w in Language() ==> Contains(w, must.value))
    }
  }

  ghost predicate Contains(w: Word, m: Word) {
    exists i, j :: 0 <= i <= j <= |w| && w[i..j] == m
  }

  /** What `cub_regexec` reports; the span is there if the caller asked for it. */
  datatype Outcome = BADPAT | INVARG | NOMATCH | MATCH(span: Option<(int, int)>)

  /** The outcome is right for the text between `start` and `stop`. */
  ghost predicate Correct(g: Guts, text: Word, start: int, stop: int, nmatch: nat, r: Outcome)
    requires 0 <= start <= stop <= |text|
  {
    match r
    case BADPAT => false
    case INVARG => false
    case NOMATCH => !Occurs(g.strip, g.First(), g.Last(), text, start, stop)
    case MATCH(span) =>
      && Occurs(g.strip, g.First(), g.Last(), text, start, stop)
      && (span.Some? <==> nmatch > 0 && !g.nosub)
      && (span.Some? ==>
            && start <= span.value.0 <= span.value.1 <= stop
            && LongestFrom(g.strip, g.First(), g.Last(), text, span.value.0, stop, Some(span.value.1))
            && Found(g.strip, g.First(), g.Last(), text, start, stop, span.value.0, span.value.1))
  }

  /** Only one outcome is right. */
  lemma {:induction false} CorrectUnique(g: Guts, text: Word, start: int, stop: int, nmatch: nat, r: Outcome, r': Outcome)
    requires 0 <= start <= stop <= |text|
    requires Correct(g, text, start, stop, nmatch, r) && Correct(g, text, start, stop, nmatch, r')
    ensures r == r'
  {
    hide Found, LongestFrom, Occurs;
    if r.MATCH? && r.span.Some? {
      FoundUnique(g.strip, g.First(), g.Last(), text, start, stop, r.span.value.0, r.span.value.1, r'.span.value.0, r'.span.value.1);
    }
  }

  datatype ExecFlags = ExecFlags(notbol: bool, noteol: bool)

  /** The value of `c` beyond either end of the text. */
  const OUT := 256

  predicate IsWord(c: int) {
    '0' as int <= c <= '9' as int || 'A' as int <= c <= 'Z' as int || 'a' as int <= c <= 'z' as int || c == '_' as int
  }

  /** The line boundary that lies between two characters, and how often to step over it. */
  method AtLine(g: Guts, flags: ExecFlags, lastc: int, c: int) returns (flagch: Input, i: nat)
    ensures flagch.NOTHING? || flagch.BOL? || flagch.EOL? || flagch.BOLEOL?
    ensures i > 0 ==> !flagch.NOTHING?
  {
    flagch, i := NOTHING, 0;
    if (lastc == '\n' as int && g.newline) || (lastc == OUT && !flags.notbol) {
      flagch, i := BOL, g.nbol;
    }
    if (c == '\n' as int && g.newline) || (c == OUT && !flags.noteol) {
      flagch := if flagch.BOL? then BOLEOL else EOL;
      i := i + g.neol;
    }
  }

  /** The word boundary that lies there, unless only the line boundary does. */
  method AtWord(line: Input, lastc: int, c: int) returns (flagch: Input)
    ensures !line.Ch? ==> !flagch.Ch?
  {
    flagch := line;
    if (flagch.BOL? || (lastc != OUT && !IsWord(lastc))) && c != OUT && IsWord(c) {
      flagch := BOW;
    }
    if lastc != OUT && IsWord(lastc) && (flagch.EOL? || (c != OUT && !IsWord(c))) {
      flagch := EOW;
    }
  }

  // ----- What the matcher does before it runs the strip -----

  /** A part of the text that the caller names with CUB_REG_STARTEND and that is not reversed lies in it. */
  predicate InText(text: Word, range: Option<(int, int)>) {
    range.Some? && range.value.0 <= range.value.1 ==> 0 <= range.value.0 && range.value.1 <= |text|
  }

  /** Does the text between `start` and `stop` contain `must`? */
  method Prescreen(text: Word, start: int, stop: int, must: Word) returns (found: bool)
    requires 0 <= start <= stop <= |text| && must != []
    ensures found <==> Contains(text[start..stop], must)
  {
    var dp := start;
    while dp < stop
      invariant start <= dp <= stop
      invariant forall i, j :: start <= i < dp && i <= j <= stop ==> text[i..j] != must
    {
      if text[dp] == must[0] && stop - dp >= |must| && text[dp..dp + |must|] == must {
        SliceOfSlice(text, start, stop, dp - start, dp + |must| - start);
        return true;
      }
      dp := dp + 1;
    }
    forall i, j | 0 <= i <= j <= stop - start
      ensures text[start..stop][i..j] != must
    {
      SliceOfSlice(text, start, stop, i, j);
    }
    return false;
  }

  lemma {:induction false} ContainsWithin(text: Word, start: int, stop: int, i: int, e: int, m: Word)
    requires 0 <= start <= i <= e <= stop <= |text| && Contains(text[i..e], m)
    ensures Contains(text[start..stop], m)
  {
    var a, b :| 0 <= a <= b <= e - i && text[i..e][a..b] == m;
    SliceOfSlice(text, i, e, a, b);
    SliceOfSlice(text, start, stop, i - start + a, i - start + b);
  }

  /** The prescreen never rejects text that contains a match. */
  lemma {:induction false} ScreenedOut(g: Guts, text: Word, start: int, stop: int)
    requires g.Valid() && 0 <= start <= stop <= |text|
    requires g.must.Some? && !Contains(text[start..stop], g.must.value)
    ensures !Occurs(g.strip, g.First(), g.Last(), text, start, stop)
  {
    forall i, e | start <= i <= e <= stop
      ensures !Accepts(g.strip, g.First(), g.Last(), text[i..e])
    {
      if Accepts(g.strip, g.First(), g.Last(), text[i..e]) {
        assert text[i..e] in g.Language();
        ContainsWithin(text, start, stop, i, e, g.must.value);
      }
    }
  }
}
