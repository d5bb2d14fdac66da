/** Compilation of a whole pattern. */
module RegexCompile {
  import opened Basics
  import opened RegexLanguage
  import opened RegexStrip
  import opened RegexCode
  import opened RegexMeaning
  import opened RegexNesting
  import opened RegexSearch
  import opened RegexGuts
  import opened RegexRuns
  import opened RegexMust
  import opened RegexEmit
  import opened RegexScan
  import opened RegexGrammar
  import opened RegexReader
  import opened RegexParse

  datatype Compiled = Refused(error: Error) | Compiled(g: Guts)

  /** The strip of a whole expression. */
  function Wrapped(c: Code): Strip {
    [OEND] + Flat(c) + [OEND]
  }

  lemma {:induction false} WrappedAt(c: Code)
    ensures |Wrapped(c)| == Len(c) + 2 && Wrapped(c)[0] == OEND && Wrapped(c)[Len(c) + 1] == OEND
    ensures At(Wrapped(c), 1, Flat(c))
  {
    assert Wrapped(c)[1..1 + Len(c)] == Flat(c);
  }

  // ----- No anchors -----

  ghost predicate Plain(s: Strip) {
    forall i :: 0 <= i < |s| ==> !Anchor(s[i]) && !s[i].OEND?
  }

  lemma {:induction false} FlatPlain(c: Code)
    ensures Plain(Flat(c))
    decreases c
  {
    match c
    case Cat(x, y) => FlatPlain(x); FlatPlain(y);
    case Group(_, x) => FlatPlain(x);
    case Plus(x) => FlatPlain(x);
    case Quest(x) => FlatPlain(x);
    case Choice(x, rest) => FlatPlain(x); RestPlain(rest, |Flat(x)| + 1);
    case _ =>
  }

  lemma {:induction false} RestPlain(bs: Branches, back: nat)
    ensures Plain(FlatRest(bs, back))
    decreases bs
  {
    match bs
    case Last(x) => FlatPlain(x);
    case More(x, rest) => FlatPlain(x); RestPlain(rest, |Flat(x)| + 2);
  }

  lemma {:induction false} WrappedPlain(c: Code)
    ensures forall i :: 1 <= i < |Wrapped(c)| - 1 ==> !Anchor(Wrapped(c)[i]) && !Wrapped(c)[i].OEND?
  {
    hide Flat;
    FlatPlain(c);
    forall i | 1 <= i < |Wrapped(c)| - 1
      ensures !Anchor(Wrapped(c)[i]) && !Wrapped(c)[i].OEND?
    {
      assert Wrapped(c)[i] == Flat(c)[i - 1];
    }
  }

  lemma {:induction false} WrappedEnds(c: Code)
    ensures var s := Wrapped(c);
      |s| >= 2 && s[0].OEND? && s[|s| - 1].OEND? && forall i :: 1 <= i < |s| - 1 ==> !s[i].OEND?
  {
    WrappedAt(c);
    WrappedPlain(c);
  }

  // ----- What compilation establishes -----

  lemma {:induction false} WrappedFinished(c: Code)
    ensures Finished(Wrapped(c))
  {
    WrappedAt(c);
    FlatNested(Wrapped(c), 1, c);
  }

  /** Every string accepted by a compiled strip contains the mandatory string. */
  lemma {:induction false} MustContained(c: Code, w: Word)
    requires w in Meaning(c)
    ensures var best := ScanStrip(Wrapped(c), 1, Scan([], [])); best.Some? && Contains(w, best.value)
  {
    hide Flat, At, Len, Meaning, ScanCode;
    var s, t := Wrapped(c), ScanCode(c, Scan([], []));
    WrappedAt(c);
    ScanBlock(s, 1, c, Scan([], []));
    assert Holds(Scan([], []), []) by { ContainsSelf([]); }
    ScanHolds(c, Scan([], []), [], w);
    assert [] + w == w;
    BreakHolds(t, w, []);
    assert w + [] == w;
  }

  lemma {:induction false} CountOfBlock(c: Code)
    ensures Count(Wrapped(c), |Wrapped(c)|) == (0, PlusDepth(c))
  {
    var s := Wrapped(c);
    WrappedAt(c);
    BlockCounted(s, 1, c);
    assert Count(s, 1) == (0, 0);
  }

  /**
    The right result of compiling: the error that the grammar finds, or a valid strip that accepts
    the language of the tree that the pattern is the text of, with its first longest run of literals.
   */
  ghost predicate CompiledAs(pattern: Word, newline: bool, nosub: bool, r: Compiled) {
    match ReadEre(pattern, 0, TOPLEVEL)
    case Err(e) => r == Refused(e)
    case Ok(e, _) =>
      && EreText(e) == pattern && ValidEre(e)
      && r.Compiled? && r.g.strip == Wrapped(EreCode(e, 0, newline)) && r.g.Valid()
      && r.g.Language() == EreLang(e, newline)
      && Longest(r.g.strip, |r.g.strip|, if r.g.must.Some? then r.g.must.value else [])
      && r.g.nplus == PlusDepth(EreCode(e, 0, newline)) && r.g.newline == newline && r.g.nosub == nosub && !r.g.bad
      && r.g.nbol == 0 && r.g.neol == 0
  }

  /** Compile a pattern. */
  method RegComp(pattern: Word, newline: bool, nosub: bool) returns (r: Compiled)
    ensures CompiledAs(pattern, newline, nosub, r)
  {
    hide Flat, ReadEre, EreCode, EreGroups, CompiledAs, Wrapped, Parse.Rest;
    var p := new Parse(pattern, newline);
    p.Emit(OEND);
    var firststate := |p.strip| - 1;
    PEre(p, TOPLEVEL);
    p.Emit(OEND);
    if p.error.Some? {
      RefusedRight(pattern, newline, nosub);
      return Refused(p.error.value);
    }
    var laststate := |p.strip| - 1;
    WrappedIs(EreCode(ReadEre(pattern, 0, TOPLEVEL).value, 0, newline));
    var g := Scanned(pattern, p.strip, firststate, laststate, newline, nosub);
    return Compiled(g);
  }

  /** The scans over the finished strip, and the result of the compilation. */
  method Scanned(ghost pattern: Word, strip: Strip, firststate: nat, laststate: nat, newline: bool, nosub: bool) returns (g: Guts)
    requires ReadEre(pattern, 0, TOPLEVEL).Ok?
    requires strip == Wrapped(EreCode(ReadEre(pattern, 0, TOPLEVEL).value, 0, newline))
    requires firststate == 0 && laststate == |strip| - 1
    ensures CompiledAs(pattern, newline, nosub, Compiled(g))
  {
    hide ReadEre, EreCode, PlusDepth, ScanStrip, Count, Finished, Longest, CompiledAs, Wrapped;
    ghost var c := EreCode(ReadEre(pattern, 0, TOPLEVEL).value, 0, newline);
    WrappedFinished(c);
    WrappedEnds(c);
    var must := FindMust(strip);
    var nplus, bad := PlusCount(strip);
    CountOfBlock(c);
    g := Guts(strip, firststate, laststate, must, nplus, 0, 0, newline, nosub, bad);
    CompiledRight(pattern, g);
  }

  lemma {:induction false} WrappedIs(c: Code)
    ensures Wrapped(c) == [OEND] + Flat(c) + [OEND] && |Wrapped(c)| == |Flat(c)| + 2
  {
    hide Flat;
  }

  lemma {:induction false} RefusedRight(pattern: Word, newline: bool, nosub: bool)
    requires ReadEre(pattern, 0, TOPLEVEL).Err?
    ensures CompiledAs(pattern, newline, nosub, Refused(ReadEre(pattern, 0, TOPLEVEL).e))
  {
    hide ReadEre;
  }

  /** What was scanned from the strip makes the result right. */
  lemma {:induction false} CompiledRight(pattern: Word, g: Guts)
    requires ReadEre(pattern, 0, TOPLEVEL).Ok?
    requires g.strip == Wrapped(EreCode(ReadEre(pattern, 0, TOPLEVEL).value, 0, g.newline))
    requires g.firststate == 0 && g.laststate == |g.strip| - 1 && g.nbol == 0 && g.neol == 0
    requires var best := ScanStrip(g.strip, 1, Scan([], []));
      best.Some? && g.must == if best.value == [] then None else Some(best.value)
    requires Longest(g.strip, |g.strip|, if g.must.Some? then g.must.value else [])
    requires g.nplus == Count(g.strip, |g.strip|).1 && g.bad == (Count(g.strip, |g.strip|).0 != 0)
    ensures CompiledAs(pattern, g.newline, g.nosub, Compiled(g))
  {
    hide Flat, ReadEre, Meaning, EreCode, ScanStrip, Count, EreText, ValidEre, PlusDepth, EreLang, Wrapped, Longest;
    hide Guts.Valid, Guts.Language;
    var e := ReadEre(pattern, 0, TOPLEVEL).value;
    var c := EreCode(e, 0, g.newline);
    EreSound(pattern, 0, TOPLEVEL);
    WholePattern(pattern);
    CountOfBlock(c);
    GutsValid(g, c);
    EreMeaning(e, 0, g.newline);
  }

  lemma {:induction false} WholePattern(pattern: Word)
    ensures pattern[0..|pattern|] == pattern
    ensures ReadEre(pattern, 0, TOPLEVEL).Ok? ==> ReadEre(pattern, 0, TOPLEVEL).next == |pattern|
  {
    hide ReadEre;
  }

  lemma {:induction false} GutsValid(g: Guts, c: Code)
    requires g.strip == Wrapped(c) && g.firststate == 0 && g.laststate == |g.strip| - 1
    requires var best := ScanStrip(g.strip, 1, Scan([], []));
      best.Some? && g.must == if best.value == [] then None else Some(best.value)
    ensures g.Valid() && g.Language() == Meaning(c)
  {
    hide Flat, Meaning, ScanStrip, At;
    WrappedAt(c);
    WrappedFinished(c);
    WrappedPlain(c);
    BlockAcceptsMeaning(g.strip, 1, c);
    forall w | w in g.Language()
      ensures g.must.Some? ==> Contains(w, g.must.value)
    {
      MustContained(c, w);
    }
  }

  /**
    What a right outcome says about the pattern itself: no substring is in its language, or the
    span is, and is the longest from its start.
   */
  lemma {:induction false} OutcomeByLanguage(g: Guts, e: Ere, newline: bool, text: Word, start: int, stop: int, nmatch: nat, r: Outcome)
    requires 0 <= start <= stop <= |text| && g.Language() == EreLang(e, newline)
    requires Correct(g, text, start, stop, nmatch, r)
    ensures r.NOMATCH? <==> forall i, j :: start <= i <= j <= stop ==> text[i..j] !in EreLang(e, newline)
    ensures r.MATCH? && r.span.Some? ==>
              var (so, eo) := r.span.value;
              && start <= so <= eo <= stop && text[so..eo] in EreLang(e, newline)
              && forall j :: eo < j <= stop ==> text[so..j] !in EreLang(e, newline)
  {
    hide EreLang, Found, Accepts;
    forall w: Word
      ensures Accepts(g.strip, g.First(), g.Last(), w) <==> w in EreLang(e, newline)
    {
      assert w in g.Language() <==> Accepts(g.strip, g.First(), g.Last(), w);
    }
  }
}
