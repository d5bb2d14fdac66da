/** The RLIKE operator: a pattern compiled when it is new, kept for the next call, and matched against whole strings. */
module RegexLike {
  import opened Basics
  import opened RegexLanguage
  import opened RegexGuts
  import opened RegexScan
  import opened RegexGrammar
  import opened RegexReader
  import opened RegexErrors
  import opened RegexCompile
  import RegexExec

  datatype Answer = Unknown | True | False | CompileError(e: Error) | ExecError

  /** What the compiler sees of a pattern: the bytes before the first that is zero. */
  function CString(p: Word): (r: Word)
    ensures r <= p && 0 !in r && (|r| < |p| ==> p[|r|] == 0)
  {
    if p == [] || p[0] == 0 then [] else [p[0]] + CString(p[1..])
  }

  lemma {:induction false} CStringTwice(p: Word)
    ensures CString(CString(p)) == CString(p)
  {
    if p != [] && p[0] != 0 {
      CStringTwice(p[1..]);
      assert CString(p)[1..] == CString(p[1..]);
    }
  }

  /** Some part of the text is a word of the expression. */
  ghost predicate Matches(e: Ere, text: Word) {
    exists i, j :: 0 <= i <= j <= |text| && text[i..j] in EreLang(e, false)
  }

  /** The right answer: an error if the pattern is the text of no expression, else whether the text matches it. */
  ghost predicate Right(pattern: Word, text: Word, r: Answer) {
    && (r.CompileError? <==> forall e: Ere :: ValidEre(e) ==> EreText(e) != pattern)
    && (r.CompileError? ==> Refuses(pattern, r.e))
    && forall e: Ere | ValidEre(e) && EreText(e) == pattern ::
         if Matches(e, text) then r.True? else r.False?
  }

  lemma {:induction false} RefusedAnswer(pattern: Word, text: Word, e: Error)
    requires CompiledAs(pattern, false, true, Refused(e))
    ensures Right(pattern, text, CompileError(e))
  {
    hide ReadEre, ValidEre, EreText, EreLang, Matches, Refuses;
    RefusedExactly(pattern, e);
    forall t: Ere
      ensures !(ValidEre(t) && EreText(t) == pattern)
    {
      ReadExactly(pattern, t);
    }
  }

  lemma {:induction false} MatchedAnswer(pattern: Word, text: Word, g: Guts, o: Outcome)
    requires CompiledAs(pattern, false, true, Compiled(g)) && Correct(g, text, 0, |text|, 0, o)
    ensures o.NOMATCH? || o.MATCH?
    ensures Right(pattern, text, if o.MATCH? then True else False)
  {
    hide ReadEre, ValidEre, EreText, EreLang, Guts.Valid, Guts.Language, EreCode, Wrapped;
    var e := ReadEre(pattern, 0, TOPLEVEL).value;
    OutcomeByLanguage(g, e, false, text, 0, |text|, 0, o);
    forall t: Ere | ValidEre(t) && EreText(t) == pattern
      ensures t == e
    {
      ReadExactly(pattern, t);
    }
  }

  /** The pattern and the expression that calls hand on to each other. */
  class Like {
    var pattern: Option<Word>
    var regex: Option<Guts>

    ghost predicate Valid()
      reads this
    {
      && (pattern.Some? <==> regex.Some?)
      && (regex.Some? ==> CompiledAs(CString(pattern.value), false, true, Compiled(regex.value)))
    }

    constructor ()
      ensures Valid()
    {
      pattern, regex := None, None;
    }

    /** Match a string against a pattern; either may be NULL. */
    method RLike(src: Option<Word>, pat: Option<Word>) returns (r: Answer)
      requires Valid()
      modifies this
      ensures Valid()
      ensures r.Unknown? <==> src.None? || pat.None?
      ensures src.Some? && pat.Some? ==> Right(CString(pat.value), src.value, r)
      ensures if r.True? || r.False? then pattern.Some? && CString(pattern.value) == CString(pat.value) else pattern.None?
    {
      hide CompiledAs, Correct, Right;
      if src.None? || pat.None? {
        pattern, regex := None, None;
        return Unknown;
      }
      r := Unknown;
      if pattern.None? || regex.None? || pat.value != CString(pattern.value) {
        pattern, regex := pat, None;
        var c := RegComp(CString(pat.value), false, true);
        match c {
          case Refused(e) =>
            RefusedAnswer(CString(pat.value), src.value, e);
            r := CompileError(e);
          case Compiled(g) => regex := Some(g);
        }
      } else {
        CStringTwice(pattern.value);
      }
      if r.Unknown? {
        CompiledReady(CString(pat.value), regex.value);
        var o := RegexExec.RegExec(regex.value, src.value, None, 0, ExecFlags(false, false));
        MatchedAnswer(CString(pat.value), src.value, regex.value, o);
        r := match o case MATCH(_) => True case NOMATCH => False case _ => ExecError;
      }
      if r.CompileError? || r.ExecError? {
        pattern, regex := None, None;
      }
    }
  }

  lemma {:induction false} CompiledReady(pattern: Word, g: Guts)
    requires CompiledAs(pattern, false, true, Compiled(g))
    ensures g.Valid() && !g.bad
  {
    hide ReadEre, EreText, EreLang, Guts.Valid, Guts.Language, EreCode, Wrapped;
  }
}
