/** The two scans over a finished strip: the mandatory literal string and the nesting of loops. */
module RegexMust {
  import opened Basics
  import opened RegexLanguage
  import opened RegexStrip
  import opened RegexCode
  import opened RegexGuts
  import opened RegexRuns

  function Longer(run: Word, best: Word): Word {
    if |run| > |best| then run else best
  }

  // ----- The mandatory string, by the shape of the code -----

  datatype Scan = Scan(run: Word, best: Word)

  function Break(t: Scan): Scan {
    Scan([], Longer(t.run, t.best))
  }

  /** What scanning a block does to the run of literals at hand and the longest run so far. */
  function ScanCode(c: Code, t: Scan): Scan {
    match c
    case Empty => t
    case Cat(x, y) => ScanCode(y, ScanCode(x, t))
    case Literal(b) => Scan(t.run + [b], t.best)
    case Group(_, x) => ScanCode(x, t)
    case Plus(x) => Break(ScanCode(x, t))
    case _ => Break(t)
  }

  ghost predicate EndsWith(w: Word, v: Word) {
    |v| <= |w| && w[|w| - |v|..] == v
  }

  lemma {:induction false} ContainsSelf(w: Word)
    ensures Contains(w, w)
  {
    assert w[0..|w|] == w;
  }

  lemma {:induction false} ContainsExtend(u: Word, v: Word, m: Word)
    requires Contains(u, m)
    ensures Contains(u + v, m)
  {
    var i, j :| 0 <= i <= j <= |u| && u[i..j] == m;
    assert (u + v)[i..j] == m;
  }

  lemma {:induction false} EndContains(w: Word, v: Word)
    requires EndsWith(w, v)
    ensures Contains(w, v)
  {
    assert w[|w| - |v|..|w|] == v;
  }

  /** What the scan holds is right for the text `u` read so far. */
  ghost predicate Holds(t: Scan, u: Word) {
    EndsWith(u, t.run) && Contains(u, t.best)
  }

  lemma {:induction false} BreakHolds(t: Scan, u: Word, v: Word)
    requires Holds(t, u)
    ensures Holds(Break(t), u + v)
  {
    EndContains(u, t.run);
    ContainsExtend(u, v, t.run);
    ContainsExtend(u, v, t.best);
  }

  lemma {:induction false} LiteralHolds(t: Scan, u: Word, b: Byte)
    requires Holds(t, u)
    ensures Holds(Scan(t.run + [b], t.best), u + [b])
  {
    ContainsExtend(u, [b], t.best);
    assert (u + [b])[|u| - |t.run|..] == t.run + [b];
  }

  lemma {:induction false} FirstPass(a: Lang, w: Word) returns (u: Word, v: Word)
    requires w in Repeated(a, 1, Unbounded)
    ensures u in a && w == u + v
  {
    var k: nat :| Within(1, k, Unbounded) && w in Power(a, k);
    u, v := ConcatElim(a, Power(a, k - 1), w);
  }

  /** Whatever word of the block follows, the scan stays right. */
  lemma {:induction false} ScanHolds(c: Code, t: Scan, u: Word, w: Word)
    requires Holds(t, u) && w in Meaning(c)
    ensures Holds(ScanCode(c, t), u + w)
    decreases c
  {
    hide Concat, Repeated, Holds, Break, Contains;
    match c
    case Empty => assert u + w == u;
    case Cat(x, y) =>
      var w1, w2 := ConcatElim(Meaning(x), Meaning(y), w);
      ScanHolds(x, t, u, w1);
      ScanHolds(y, ScanCode(x, t), u + w1, w2);
      assert u + w == (u + w1) + w2;
    case Literal(b) =>
      assert w == [b];
      LiteralHolds(t, u, b);
    case Group(_, x) => ScanHolds(x, t, u, w);
    case Plus(x) =>
      var w1, w2 := FirstPass(Meaning(x), w);
      ScanHolds(x, t, u, w1);
      BreakHolds(ScanCode(x, t), u + w1, w2);
      assert u + w == (u + w1) + w2;
    case _ => BreakHolds(t, u, w);
  }

  // ----- The scan over the strip -----

  predicate SkipEnd(op: Sop) {
    op.O_QUEST? || op.O_CH?
  }

  /** From `j`, the end of what must be skipped, or None if the strip is bad. */
  function Skip(s: Strip, j: nat): Option<nat>
    decreases |s| - j
  {
    if j >= |s| then None
    else if SkipEnd(s[j]) then Some(j)
    else if s[j].OOR2? && s[j].fwd > 0 then Skip(s, j + s[j].fwd)
    else None
  }

  lemma {:induction false} SkipForward(s: Strip, j: nat)
    ensures Skip(s, j).Some? ==> j <= Skip(s, j).value < |s| && SkipEnd(s[Skip(s, j).value])
    decreases |s| - j
  {
    if j < |s| && !SkipEnd(s[j]) && s[j].OOR2? && s[j].fwd > 0 {
      SkipForward(s, j + s[j].fwd);
    }
  }

  /** The longest run of mandatory literals found from `i` to the OEND, or None if the strip is bad. */
  function ScanStrip(s: Strip, i: nat, t: Scan): Option<Word>
    decreases |s| - i
  {
    if i >= |s| then None
    else if s[i].OEND? then Some(Break(t).best)
    else if s[i].OCHAR? then ScanStrip(s, i + 1, Scan(t.run + [s[i].c], t.best))
    else if s[i].OPLUS_? || s[i].OLPAREN? || s[i].ORPAREN? then ScanStrip(s, i + 1, t)
    else if s[i].OQUEST_? || s[i].OCH_? then
      SkipForward(s, i + s[i].fwd);
      var e := Skip(s, i + s[i].fwd);
      if e.None? || e.value <= i then None else ScanStrip(s, e.value, Break(t))
    else ScanStrip(s, i + 1, Break(t))
  }

  lemma {:induction false} SkipRest(s: Strip, a: int, bs: Branches, back: nat)
    requires At(s, a, FlatRest(bs, back))
    ensures Skip(s, a + 1) == Some(a + RestLen(bs) - 1)
    decreases bs
  {
    hide Flat, FlatRest, At, Len;
    AtRest(s, a, bs, back);
    if bs.More? {
      AtRest(s, a + 2 + Len(bs.code), bs.rest, Len(bs.code) + 2);
      SkipRest(s, a + 2 + Len(bs.code), bs.rest, Len(bs.code) + 2);
    }
  }

  /** What is skipped breaks the run, and so does the operator that ends it. */
  lemma {:induction false} ScanSkip(s: Strip, a: int, e: int, t: Scan)
    requires 0 <= a < e < |s| && (s[a].OQUEST_? || s[a].OCH_?) && Skip(s, a + s[a].fwd) == Some(e)
    ensures ScanStrip(s, a, t) == ScanStrip(s, e + 1, Break(t))
  {
    SkipForward(s, a + s[a].fwd);
    assert ScanStrip(s, e, Break(t)) == ScanStrip(s, e + 1, Break(Break(t)));
  }

  lemma {:induction false} ScanLeaf(s: Strip, a: int, c: Code, t: Scan)
    requires At(s, a, Flat(c)) && (c.Empty? || c.Literal? || c.AnyByte? || c.OneOf?)
    ensures ScanStrip(s, a, t) == ScanStrip(s, a + Len(c), ScanCode(c, t))
  {
    LeafAt(s, a, c);
  }

  /** Scanning the strip over a block does what its shape says; the strip is never bad. */
  lemma {:induction false} ScanBlock(s: Strip, a: int, c: Code, t: Scan)
    requires At(s, a, Flat(c))
    ensures ScanStrip(s, a, t) == ScanStrip(s, a + Len(c), ScanCode(c, t))
    decreases c
  {
    hide Flat, At, Len, Skip;
    match c
    case Cat(x, y) =>
      AtCat(s, a, x, y);
      ScanBlock(s, a, x, t);
      ScanBlock(s, a + Len(x), y, ScanCode(x, t));
    case Group(n, x) =>
      AtGroup(s, a, n, x);
      ScanBlock(s, a + 1, x, t);
    case Plus(x) =>
      AtPlus(s, a, x);
      ScanBlock(s, a + 1, x, t);
    case Quest(x) =>
      AtQuest(s, a, x);
      SkipHere(s, a + 1 + Len(x));
      ScanSkip(s, a, a + 1 + Len(x), t);
    case Choice(x, rest) =>
      ScanChoice(s, a, x, rest, t);
    case _ => ScanLeaf(s, a, c, t);
  }

  lemma {:induction false} SkipHere(s: Strip, j: nat)
    requires j < |s| && SkipEnd(s[j])
    ensures Skip(s, j) == Some(j)
  {
  }

  lemma {:induction false} ScanChoice(s: Strip, a: int, x: Code, rest: Branches, t: Scan)
    requires At(s, a, Flat(Choice(x, rest)))
    ensures ScanStrip(s, a, t) == ScanStrip(s, a + Len(Choice(x, rest)), Break(t))
  {
    hide Flat, At, Len, Skip, ScanStrip;
    AtChoice(s, a, x, rest);
    AtRest(s, a + 1 + Len(x), rest, Len(x) + 1);
    SkipRest(s, a + 1 + Len(x), rest, Len(x) + 1);
    ScanSkip(s, a, a + Len(x) + RestLen(rest), t);
  }

  lemma {:induction false} LeafAt(s: Strip, a: int, c: Code)
    requires At(s, a, Flat(c))
    ensures c.Empty? ==> Len(c) == 0
    ensures c.Literal? ==> Len(c) == 1 && 0 <= a < |s| && s[a] == OCHAR(c.c)
    ensures c.AnyByte? ==> Len(c) == 1 && 0 <= a < |s| && s[a] == OANY
    ensures c.OneOf? ==> Len(c) == 1 && 0 <= a < |s| && s[a] == OANYOF(c.cs)
  {
    if c.Literal? || c.AnyByte? || c.OneOf? {
      assert s[a] == s[a..a + 1][0];
    }
  }

  // ----- The method that finds the string -----

  /** A finished strip: a well-nested block between two endmarkers. */
  ghost predicate Finished(s: Strip) {
    |s| >= 2 && s[|s| - 1].OEND? && WellNested(s, 1, |s| - 1)
  }

  lemma {:induction false} SkipFound(s: Strip, j: nat)
    requires Finished(s) && 1 <= j < |s| - 1 && (s[j].OOR2? || SkipEnd(s[j]))
    ensures Skip(s, j).Some? && j <= Skip(s, j).value < |s| - 1
    decreases |s| - j
  {
    if s[j].OOR2? {
      assert Nested(s, 1, |s| - 1, j);
      SkipFound(s, j + s[j].fwd);
    }
  }

  // ----- What is found is the first longest run -----

  lemma {:induction false} SkipIsClose(s: Strip, j: nat)
    ensures Skip(s, j).Some? ==> ChoiceEnd(s, j) == Skip(s, j).value
    decreases |s| - j
  {
    if j < |s| && !SkipEnd(s[j]) && s[j].OOR2? && s[j].fwd > 0 {
      SkipIsClose(s, j + s[j].fwd);
    }
  }

  lemma {:induction false} LongestPassed(s: Strip, p: nat, t: Scan)
    requires 1 <= p < |s| && !Inside(s, p) && Passed(s[p])
    requires RunTo(s, p, t.run) && Longest(s, p, Break(t).best)
    ensures RunTo(s, p + 1, t.run + Spelled(s[p])) && Longest(s, p + 1, Break(Scan(t.run + Spelled(s[p]), t.best)).best)
  {
    hide Chars, Inside, Passed, Stretch;
    RunPasses(s, p, t.run);
    OneLonger(s, p, t.run, t.best, t.run + Spelled(s[p]));
  }

  /** A run that has grown by a character may become the longest, and is then the first of its length. */
  lemma {:induction false} OneLonger(s: Strip, p: nat, run: Word, best: Word, run': Word)
    requires p < |s| && (run' == run || |run'| == |run| + 1)
    requires RunTo(s, p + 1, run') && Longest(s, p, Longer(run, best))
    ensures Longest(s, p + 1, Longer(run', best))
  {
    hide Chars, Inside, Passed;
    var w, w' := Longer(run, best), Longer(run', best);
    var q := p + 1;
    if w' != w {
      var a: nat :| Stretch(s, a, q) && Chars(s[a..q]) == run';
      assert FirstAt(s, w', a, q);
    }
  }

  lemma {:induction false} ScanOption(s: Strip, p: nat, t: Scan) returns (e: nat)
    requires Finished(s) && 1 <= p < |s| - 1 && Opens(s[p])
    ensures p < e < |s| - 1 && e == Close(s, p) && ScanStrip(s, p, t) == ScanStrip(s, e + 1, Break(t))
  {
    hide ScanStrip, Skip;
    assert Nested(s, 1, |s| - 1, p);
    SkipFound(s, p + s[p].fwd);
    SkipIsClose(s, p + s[p].fwd);
    e := Skip(s, p + s[p].fwd).value;
    ScanSkip(s, p, e, t);
  }

  lemma {:induction false} OnlyLastEnds(s: Strip, p: nat)
    requires Finished(s) && 1 <= p < |s|
    ensures s[p].OEND? <==> p == |s| - 1
  {
    assert p < |s| - 1 ==> Nested(s, 1, |s| - 1, p);
  }

  /** From a place where nothing is open, the scan ends with the first longest run of the whole strip. */
  lemma {:induction false} ScanLongest(s: Strip, p: nat, t: Scan)
    requires Finished(s) && 1 <= p < |s| && !Inside(s, p)
    requires RunTo(s, p, t.run) && Longest(s, p, Break(t).best)
    ensures ScanStrip(s, p, t).Some? && Longest(s, |s|, ScanStrip(s, p, t).value)
    decreases |s| - p
  {
    hide Inside, RunTo, Longest, Finished, Close, Skip, Break;
    OnlyLastEnds(s, p);
    if s[p].OEND? {
      LastIsEnd(s);
      LongestWhole(s, Break(t).best);
    } else if Passed(s[p]) {
      OutsideNext(s, p);
      LongestPassed(s, p, t);
      assert t.run + [] == t.run;
      ScanLongest(s, p + 1, Scan(t.run + Spelled(s[p]), t.best));
    } else if Opens(s[p]) {
      var e := ScanOption(s, p, t);
      OutsideAfter(s, p);
      BarrenOption(s, p);
      LongestBarren(s, p, e + 1, Break(t).best);
      BreakTwice(t);
      ScanLongest(s, e + 1, Break(t));
    } else {
      OutsideNext(s, p);
      BarrenNext(s, p);
      LongestBarren(s, p, p + 1, Break(t).best);
      BreakTwice(t);
      ScanLongest(s, p + 1, Break(t));
    }
  }

  lemma {:induction false} LastIsEnd(s: Strip)
    requires Finished(s)
    ensures |s| >= 2 && s[|s| - 1].OEND?
  {
  }

  lemma {:induction false} BreakTwice(t: Scan)
    ensures Break(t).run == [] && Break(Break(t)).best == Break(t).best
  {
  }

  lemma {:induction false} LongestAtStart(s: Strip)
    requires |s| >= 2
    ensures !Inside(s, 1) && RunTo(s, 1, []) && Longest(s, 1, [])
  {
    hide Inside;
    NoChars(s, 1);
    NothingOpen(s);
  }

  lemma {:induction false} NothingOpen(s: Strip)
    ensures !Inside(s, 1)
  {
  }

  /** Skip an optional part; the strip is well nested, so this never finds it bad. */
  method SkipOver(s: Strip, scan: int) returns (end: int)
    requires Finished(s) && 1 <= scan < |s| - 1 && (s[scan].OQUEST_? || s[scan].OCH_?)
    ensures scan < end < |s| - 1 && Skip(s, scan + s[scan].fwd) == Some(end)
  {
    assert Nested(s, 1, |s| - 1, scan);
    end := scan + s[scan].fwd;
    SkipFound(s, end);
    while !SkipEnd(s[end])
      invariant scan < end < |s| - 1 && (s[end].OOR2? || SkipEnd(s[end]))
      invariant Skip(s, end) == Skip(s, scan + s[scan].fwd)
      decreases |s| - end
    {
      assert Nested(s, 1, |s| - 1, end);
      end := end + s[end].fwd;
    }
  }

  /** Where a run of literals lies in the strip. */
  ghost predicate LiesAt(s: Strip, run: Word, start: int, stop: int) {
    0 <= start <= stop <= |s| && Chars(s[start..stop]) == run
  }

  lemma {:induction false} RunGrows(s: Strip, run: Word, start: int, scan: int)
    requires LiesAt(s, run, start, scan) && scan < |s|
    ensures LiesAt(s, if s[scan].OCHAR? then run + [s[scan].c] else run, start, scan + 1)
  {
    hide Chars;
    CharsNext(s, start, scan);
  }

  lemma {:induction false} RunStarts(s: Strip, scan: int)
    requires 0 <= scan <= |s|
    ensures LiesAt(s, [], scan, scan)
  {
    assert s[scan..scan] == [];
  }

  /** The bytes that a run of literals spells. */
  method Extract(s: Strip, start: int, mlen: int, ghost stop: int, ghost best: Word) returns (cp: Word)
    requires LiesAt(s, best, start, stop) && mlen == |best|
    ensures cp == best
  {
    hide Chars;
    cp := [];
    var scan := start;
    while |cp| < mlen
      invariant start <= scan <= stop && cp + Chars(s[scan..stop]) == best
      decreases stop - scan
    {
      RunStarts(s, stop);
      CharsFirst(s, scan, stop);
      if s[scan].OCHAR? {
        cp := cp + [s[scan].c];
      }
      scan := scan + 1;
    }
    assert cp == best;
  }

  /** The longest mandatory literal string, if there is one; of several the first. */
  method FindMust(s: Strip) returns (must: Option<Word>)
    requires Finished(s)
    ensures must.Some? ==> must.value != [] && Longest(s, |s|, must.value)
    ensures must.None? ==> Longest(s, |s|, [])
    ensures ScanStrip(s, 1, Scan([], [])).Some?
    ensures var best := ScanStrip(s, 1, Scan([], [])).value;
      must == if best == [] then None else Some(best)
  {
    hide LiesAt, Skip, WellNested, Longest, Inside, RunTo;
    LongestAtStart(s);
    ScanLongest(s, 1, Scan([], []));
    var scan, newlen, newstart, mlen, start := 1, 0, 1, 0, 1;
    ghost var t, stop := Scan([], []), 1;
    RunStarts(s, 1);
    while !s[scan].OEND?
      invariant 1 <= scan < |s|
      invariant ScanStrip(s, scan, t) == ScanStrip(s, 1, Scan([], []))
      invariant newlen == |t.run| && mlen == |t.best|
      invariant newlen > 0 ==> LiesAt(s, t.run, newstart, scan)
      invariant LiesAt(s, t.best, start, stop)
      decreases |s| - scan
    {
      if s[scan].OCHAR? {
        if newlen == 0 {
          newstart := scan;
          RunStarts(s, scan);
        }
        RunGrows(s, t.run, newstart, scan);
        t := Scan(t.run + [s[scan].c], t.best);
        newlen, scan := newlen + 1, scan + 1;
      } else if s[scan].OPLUS_? || s[scan].OLPAREN? || s[scan].ORPAREN? {
        if newlen > 0 {
          RunGrows(s, t.run, newstart, scan);
        }
        scan := scan + 1;
      } else {
        if newlen > mlen {
          start, stop, mlen := newstart, scan, newlen;
        }
        if s[scan].OQUEST_? || s[scan].OCH_? {
          scan := SkipOver(s, scan);
        } else {
          scan := scan + 1;
        }
        t, newlen := Break(t), 0;
      }
    }
    if newlen > mlen {
      start, stop, mlen := newstart, scan, newlen;
    }
    if mlen == 0 {
      return None;
    }
    var cp := Extract(s, start, mlen, stop, Break(t).best);
    return Some(cp);
  }

  // ----- Loop nesting -----

  function Max(a: nat, b: nat): nat { if a > b then a else b }

  /** How deep loops nest in a block. */
  function PlusDepth(c: Code): nat {
    match c
    case Cat(x, y) => Max(PlusDepth(x), PlusDepth(y))
    case Group(_, x) => PlusDepth(x)
    case Plus(x) => 1 + PlusDepth(x)
    case Quest(x) => PlusDepth(x)
    case Choice(x, rest) => Max(PlusDepth(x), RestDepth(rest))
    case _ => 0
  }

  function RestDepth(bs: Branches): nat {
    match bs
    case Last(x) => PlusDepth(x)
    case More(x, rest) => Max(PlusDepth(x), RestDepth(rest))
  }

  /** The count over the first `i` operators: loops open, and the most that were ever open. */
  function Count(s: Strip, i: nat): (int, int)
    requires i <= |s|
  {
    if i == 0 then (0, 0)
    else
      var (open, most) := Count(s, i - 1);
      if s[i - 1].OPLUS_? then (open + 1, most)
      else if s[i - 1].O_PLUS? then (open - 1, if open > most then open else most)
      else (open, most)
  }

  /** A block leaves the number of open loops alone and raises the most to its depth. */
  ghost predicate Counted(s: Strip, a: int, b: int, depth: nat) {
    && 0 <= a <= b <= |s|
    && Count(s, b).0 == Count(s, a).0
    && Count(s, b).1 == if depth > 0 && Count(s, a).0 + depth > Count(s, a).1 then Count(s, a).0 + depth else Count(s, a).1
  }

  lemma {:induction false} CountedJoin(s: Strip, a: int, m: int, b: int, d: nat, d': nat)
    requires Counted(s, a, m, d) && Counted(s, m, b, d')
    ensures Counted(s, a, b, Max(d, d'))
  {
  }

  lemma {:induction false} CountedPlain(s: Strip, a: int)
    requires 0 <= a < |s| && !s[a].OPLUS_? && !s[a].O_PLUS?
    ensures Counted(s, a, a + 1, 0)
  {
  }

  lemma {:induction false} BlockCounted(s: Strip, a: int, c: Code)
    requires At(s, a, Flat(c))
    ensures Counted(s, a, a + Len(c), PlusDepth(c))
    decreases c
  {
    hide Flat, At, Len, Counted, Count, RestDepth, Max;
    match c
    case Cat(x, y) =>
      AtCat(s, a, x, y);
      BlockCounted(s, a, x);
      BlockCounted(s, a + Len(x), y);
      CountedJoin(s, a, a + Len(x), a + Len(c), PlusDepth(x), PlusDepth(y));
    case Group(n, x) =>
      AtGroup(s, a, n, x);
      BlockCounted(s, a + 1, x);
      PlainAround(s, a, a + 1 + Len(x), PlusDepth(x));
    case Plus(x) =>
      AtPlus(s, a, x);
      BlockCounted(s, a + 1, x);
      LoopAround(s, a, a + 1 + Len(x), PlusDepth(x));
    case Quest(x) =>
      AtQuest(s, a, x);
      BlockCounted(s, a + 1, x);
      PlainAround(s, a, a + 1 + Len(x), PlusDepth(x));
    case Choice(x, rest) =>
      AtChoice(s, a, x, rest);
      BlockCounted(s, a + 1, x);
      RestCounted(s, a + 1 + Len(x), rest, Len(x) + 1);
      ChoiceCounted(s, a, a + 1 + Len(x), a + Len(c), PlusDepth(x), RestDepth(rest));
    case _ => LeafCounted(s, a, c);
  }

  lemma {:induction false} ChoiceCounted(s: Strip, a: int, m: int, b: int, d: nat, d': nat)
    requires 0 <= a < |s| && s[a].OCH_? && Counted(s, a + 1, m, d) && Counted(s, m, b, d')
    ensures Counted(s, a, b, Max(d, d'))
  {
    hide Count;
    CountedPlain(s, a);
    CountedJoin(s, a, a + 1, m, 0, d);
    CountedJoin(s, a, m, b, d, d');
  }

  lemma {:induction false} LeafCounted(s: Strip, a: int, c: Code)
    requires At(s, a, Flat(c)) && (c.Empty? || c.Literal? || c.AnyByte? || c.OneOf?)
    ensures Counted(s, a, a + Len(c), 0)
  {
    LeafAt(s, a, c);
  }

  lemma {:induction false} PlainAround(s: Strip, a: int, m: int, d: nat)
    requires 0 <= a < m < |s| && !s[a].OPLUS_? && !s[a].O_PLUS? && !s[m].OPLUS_? && !s[m].O_PLUS?
    requires Counted(s, a + 1, m, d)
    ensures Counted(s, a, m + 1, d)
  {
    CountedPlain(s, a);
    CountedPlain(s, m);
  }

  lemma {:induction false} LoopAround(s: Strip, a: int, m: int, d: nat)
    requires 0 <= a < m < |s| && s[a].OPLUS_? && s[m].O_PLUS?
    requires Counted(s, a + 1, m, d)
    ensures Counted(s, a, m + 1, d + 1)
  {
    assert Count(s, a + 1) == (Count(s, a).0 + 1, Count(s, a).1);
  }

  lemma {:induction false} RestCounted(s: Strip, a: int, bs: Branches, back: nat)
    requires At(s, a, FlatRest(bs, back))
    ensures Counted(s, a, a + RestLen(bs), RestDepth(bs))
    decreases bs
  {
    hide Flat, FlatRest, At, Len, Counted, Count, PlusDepth, RestLen;
    var x := bs.code;
    var m := a + 2 + Len(x);
    AtRest(s, a, bs, back);
    CountedPlain(s, a);
    CountedPlain(s, a + 1);
    CountedJoin(s, a, a + 1, a + 2, 0, 0);
    BlockCounted(s, a + 2, x);
    CountedJoin(s, a, a + 2, m, 0, PlusDepth(x));
    if bs.Last? {
      CountedPlain(s, m);
      CountedJoin(s, a, m, m + 1, PlusDepth(x), 0);
    } else {
      RestCounted(s, m, bs.rest, Len(x) + 2);
      CountedJoin(s, a, m, a + RestLen(bs), PlusDepth(x), RestDepth(bs.rest));
    }
  }

  /** Count the nesting of loops. */
  method PlusCount(s: Strip) returns (maxnest: int, bad: bool)
    requires |s| >= 2 && s[0].OEND? && s[|s| - 1].OEND? && forall i :: 1 <= i < |s| - 1 ==> !s[i].OEND?
    ensures maxnest == Count(s, |s|).1
    ensures bad <==> Count(s, |s|).0 != 0
  {
    var plusnest := 0;
    maxnest := 0;
    var scan := 1;
    while !s[scan].OEND?
      invariant 1 <= scan < |s| && Count(s, scan) == (plusnest, maxnest)
      decreases |s| - scan
    {
      if s[scan].OPLUS_? {
        plusnest := plusnest + 1;
      } else if s[scan].O_PLUS? {
        if plusnest > maxnest {
          maxnest := plusnest;
        }
        plusnest := plusnest - 1;
      }
      scan := scan + 1;
    }
    bad := plusnest != 0;
  }
}
