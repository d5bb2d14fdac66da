/** Runs of literals that every match must contain: where they may stand in a strip, and the first longest one. */
module RegexRuns {
  import opened Basics
  import opened RegexLanguage
  import opened RegexStrip

  // ----- The characters of a stretch -----

  /** The characters of the OCHAR operators. */
  function Chars(s: Strip): Word {
    if s == [] then [] else (if s[0].OCHAR? then [s[0].c] else []) + Chars(s[1..])
  }

  lemma {:induction false} JoinWords(a: Word, b: Word, c: Word)
    ensures a + (b + c) == (a + b) + c
  {
  }

  lemma {:induction false} CharsAppend(s: Strip, op: Sop)
    ensures Chars(s + [op]) == Chars(s) + (if op.OCHAR? then [op.c] else [])
  {
    var t := s + [op];
    if s == [] {
      assert t[1..] == [] && t[0] == op;
      assert Chars(t[1..]) == [];
    } else {
      assert t[0] == s[0] && t[1..] == s[1..] + [op];
      CharsAppend(s[1..], op);
      JoinWords(if s[0].OCHAR? then [s[0].c] else [], Chars(s[1..]), if op.OCHAR? then [op.c] else []);
    }
  }

  lemma {:induction false} CharsNext(s: Strip, a: int, b: int)
    requires 0 <= a <= b < |s|
    ensures Chars(s[a..b + 1]) == Chars(s[a..b]) + (if s[b].OCHAR? then [s[b].c] else [])
  {
    assert s[a..b + 1] == s[a..b] + [s[b]];
    CharsAppend(s[a..b], s[b]);
  }

  lemma {:induction false} CharsFirst(s: Strip, a: int, b: int)
    requires 0 <= a < b <= |s|
    ensures Chars(s[a..b]) == (if s[a].OCHAR? then [s[a].c] else []) + Chars(s[a + 1..b])
  {
    assert s[a..b][1..] == s[a + 1..b];
  }

  lemma {:induction false} NoChars(s: Strip, a: int)
    requires 0 <= a <= |s|
    ensures Chars(s[a..a]) == []
  {
  }

  // ----- Where a run may stand -----

  predicate Opens(op: Sop) {
    op.OQUEST_? || op.OCH_?
  }

  /** The operator that ends an option or a choice. */
  function Close(s: Strip, k: nat): nat
    requires k < |s| && Opens(s[k])
  {
    ChoiceEnd(s, k + s[k].fwd)
  }

  /** `i` is past the start of an option or choice, not past its end, and that one lies in no other. */
  ghost predicate Inside(s: Strip, i: nat) {
    exists k: nat :: 1 <= k < i && k < |s| && Opens(s[k]) && !Inside(s, k) && i <= Close(s, k)
  }

  /** A match goes through these operators whatever the text is, and in between consumes nothing but the characters. */
  predicate Passed(op: Sop) {
    op.OCHAR? || op.OPLUS_? || op.OLPAREN? || op.ORPAREN?
  }

  /** Operators in a row that every match passes, from a place that lies in no option or choice. */
  ghost predicate Stretch(s: Strip, i: nat, j: nat) {
    && 1 <= i <= j <= |s| && !Inside(s, i)
    && forall k | i <= k < j :: Passed(s[k])
  }

  /** No stretch up to `p` has more than `n` characters. */
  ghost predicate NoneOver(s: Strip, p: nat, n: nat) {
    forall i: nat, j: nat | Stretch(s, i, j) && j <= p :: |Chars(s[i..j])| <= n
  }

  /** The stretch [i, j) spells `w`, and whatever ends before it is shorter. */
  ghost predicate FirstAt(s: Strip, w: Word, i: nat, j: nat) {
    && Stretch(s, i, j) && Chars(s[i..j]) == w
    && forall a: nat, b: nat | Stretch(s, a, b) && b < j :: |Chars(s[a..b])| < |w|
  }

  /** `w` is the longest that a stretch up to `p` spells, and of several the first; nothing if none has a character. */
  ghost predicate Longest(s: Strip, p: nat, w: Word) {
    && NoneOver(s, p, |w|)
    && (w != [] ==> exists i: nat, j: nat :: j <= p && FirstAt(s, w, i, j))
  }

  /** `run` is what the longest stretch that ends at `p` spells. */
  ghost predicate RunTo(s: Strip, p: nat, run: Word) {
    && (forall a: nat | Stretch(s, a, p) :: |Chars(s[a..p])| <= |run|)
    && (run != [] ==> exists a: nat :: Stretch(s, a, p) && Chars(s[a..p]) == run)
  }

  // ----- One operator on -----

  lemma {:induction false} OutsideNext(s: Strip, p: nat)
    requires 1 <= p < |s| && !Opens(s[p]) && !Inside(s, p)
    ensures !Inside(s, p + 1)
  {
    hide Opens, Close;
  }

  /** Behind an option or choice that lies in no other, nothing is open. */
  lemma {:induction false} OutsideAfter(s: Strip, p: nat)
    requires 1 <= p < |s| && Opens(s[p]) && !Inside(s, p)
    ensures !Inside(s, Close(s, p) + 1)
  {
    hide Opens, Close;
    CloseAhead(s, p);
    forall k: nat | 1 <= k < |s| && Opens(s[k]) && !Inside(s, k)
      ensures Close(s, k) <= Close(s, p) || Close(s, p) < k
    {
      if k > p && k <= Close(s, p) {
        InsideIntro(s, p, k);
      } else if k < p && p <= Close(s, k) {
        InsideIntro(s, k, p);
      }
    }
  }

  lemma {:induction false} CloseAhead(s: Strip, k: nat)
    requires k < |s| && Opens(s[k])
    ensures k <= Close(s, k)
  {
    ChainAhead(s, k + s[k].fwd);
  }

  lemma {:induction false} ChainAhead(s: Strip, i: nat)
    ensures i <= ChoiceEnd(s, i)
    decreases |s| - i
  {
    if i < |s| && s[i].OOR2? && s[i].fwd > 0 {
      ChainAhead(s, i + s[i].fwd);
    }
  }

  lemma {:induction false} InsideIntro(s: Strip, k: nat, i: nat)
    requires 1 <= k < |s| && Opens(s[k]) && !Inside(s, k) && k < i <= Close(s, k)
    ensures Inside(s, i)
  {
  }

  lemma {:induction false} StretchCut(s: Strip, a: nat, p: nat)
    requires Stretch(s, a, p + 1) && a <= p
    ensures Stretch(s, a, p) && Passed(s[p])
  {
    hide Inside, Passed;
  }

  lemma {:induction false} StretchOn(s: Strip, a: nat, p: nat)
    requires Stretch(s, a, p) && p < |s| && Passed(s[p])
    ensures Stretch(s, a, p + 1)
  {
    hide Inside, Passed;
  }

  /** What the operator adds to a run. */
  function Spelled(op: Sop): Word {
    if op.OCHAR? then [op.c] else []
  }

  lemma {:induction false} RunPasses(s: Strip, p: nat, run: Word)
    requires 1 <= p < |s| && !Inside(s, p) && Passed(s[p]) && RunTo(s, p, run)
    ensures RunTo(s, p + 1, run + Spelled(s[p]))
  {
    hide Chars, Inside, Passed;
    var q := p + 1;
    forall a: nat | Stretch(s, a, q)
      ensures |Chars(s[a..q])| <= |run + Spelled(s[p])|
    {
      if a <= p {
        StretchCut(s, a, p);
        CharsNext(s, a, p);
      } else {
        NoChars(s, a);
      }
    }
    var a: nat := p;
    if run != [] {
      a :| Stretch(s, a, p) && Chars(s[a..p]) == run;
    } else {
      NoChars(s, p);
    }
    StretchOn(s, a, p);
    CharsNext(s, a, p);
  }

  /** No character is passed between `p` and `q`. */
  ghost predicate Barren(s: Strip, p: nat, q: nat) {
    forall a: nat, b: nat | Stretch(s, a, b) && p < b <= q :: a == b
  }

  lemma {:induction false} BarrenNext(s: Strip, p: nat)
    requires p < |s| && !Passed(s[p])
    ensures Barren(s, p, p + 1)
  {
    hide Inside, Passed;
  }

  lemma {:induction false} BarrenOption(s: Strip, p: nat)
    requires 1 <= p < |s| && Opens(s[p]) && !Inside(s, p)
    ensures Barren(s, p, Close(s, p) + 1)
  {
    hide Close, Inside;
    forall a: nat, b: nat | Stretch(s, a, b) && p < b
      ensures a > Close(s, p)
    {
      if p < a <= Close(s, p) {
        InsideIntro(s, p, a);
      }
    }
  }

  lemma {:induction false} LongestBarren(s: Strip, p: nat, q: nat, w: Word)
    requires p < q <= |s| && Barren(s, p, q) && Longest(s, p, w)
    ensures Longest(s, q, w) && RunTo(s, q, [])
  {
    hide Chars, Inside, Passed;
    forall a: nat, b: nat | Stretch(s, a, b) && b <= q
      ensures a <= b <= |s| && |Chars(s[a..b])| <= |w|
    {
      if b > p {
        NoChars(s, a);
      }
    }
    forall a: nat | Stretch(s, a, q)
      ensures a <= q <= |s| && |Chars(s[a..q])| <= 0
    {
      NoChars(s, a);
    }
  }

  /** Nothing comes after the last operator. */
  lemma {:induction false} LongestWhole(s: Strip, w: Word)
    requires s != [] && s[|s| - 1].OEND? && Longest(s, |s| - 1, w)
    ensures Longest(s, |s|, w)
  {
    hide Inside, NoneOver, FirstAt;
    BarrenNext(s, |s| - 1);
    LongestBarren(s, |s| - 1, |s|, w);
  }

  // ----- There is only one -----

  /** A stretch cut off at its start is one of fewer characters. */
  lemma {:induction false} SuffixSpelled(s: Strip, i: nat, a: nat, j: nat)
    requires i <= a <= j <= |s|
    ensures |Chars(s[a..j])| <= |Chars(s[i..j])|
    ensures |Chars(s[a..j])| == |Chars(s[i..j])| ==> Chars(s[a..j]) == Chars(s[i..j])
    decreases a - i
  {
    if i < a {
      CharsFirst(s, i, j);
      SuffixSpelled(s, i + 1, a, j);
    }
  }

  lemma {:induction false} NotLonger(s: Strip, w: Word, w': Word)
    requires Longest(s, |s|, w) && Longest(s, |s|, w')
    ensures |w| <= |w'|
  {
    hide Chars, Inside;
    if w != [] {
      var i: nat, j: nat :| j <= |s| && FirstAt(s, w, i, j);
      assert |Chars(s[i..j])| <= |w'|;
    }
  }

  lemma {:induction false} LongestUnique(s: Strip, w: Word, w': Word)
    requires Longest(s, |s|, w) && Longest(s, |s|, w')
    ensures w == w'
  {
    hide Chars, Stretch, FirstAt, NoneOver;
    NotLonger(s, w, w');
    NotLonger(s, w', w);
    if w != [] {
      var i: nat, j: nat :| j <= |s| && FirstAt(s, w, i, j);
      var i': nat, j': nat :| j' <= |s| && FirstAt(s, w', i', j');
      SameRun(s, w, i, j, w', i', j');
    }
  }

  lemma {:induction false} SameRun(s: Strip, w: Word, i: nat, j: nat, w': Word, i': nat, j': nat)
    requires FirstAt(s, w, i, j) && FirstAt(s, w', i', j') && |w| == |w'|
    ensures w == w'
  {
    hide Chars;
    if i <= i' {
      SuffixSpelled(s, i, i', j);
    } else {
      SuffixSpelled(s, i', i, j);
    }
  }
}
