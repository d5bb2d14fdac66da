/** The state sets of a whole run over a text: what `slow`, `fast` and the start search rely on. */
module RegexSearch {
  import opened Basics
  import opened RegexLanguage
  import opened RegexStrip
  import opened RegexStates

  /** `x` is the set of states that some walk from `lo` reaches by consuming `w`. */
  ghost predicate Reached(s: Strip, lo: int, hi: int, w: Word, x: States) {
    forall q :: q in x <==> Leads(s, lo, hi, lo, w, q)
  }

  /** Some walk that begins at a position from `start` on has come to `q` at position `p`. */
  ghost predicate Begun(s: Strip, lo: int, hi: int, text: Word, start: int, p: int, q: int) {
    exists i :: 0 <= start <= i <= p <= |text| && Leads(s, lo, hi, lo, text[i..p], q)
  }

  ghost predicate AllBegun(s: Strip, lo: int, hi: int, text: Word, start: int, p: int, x: States) {
    forall q :: q in x <==> Begun(s, lo, hi, text, start, p, q)
  }

  /** No operator of the block stands for a position in the text. */
  ghost predicate AnchorFree(s: Strip, lo: int, hi: int) {
    forall p :: lo <= p < hi && 0 <= p < |s| ==> !Anchor(s[p])
  }

  ghost predicate EpsClosed(s: Strip, lo: int, hi: int, x: States) {
    forall p, q :: p in x && Leads(s, lo, hi, p, [], q) ==> q in x
  }

  // ----- Cutting and joining walks -----

  lemma {:induction false} LeadsJoin(s: Strip, lo: int, hi: int, p: int, u: Word, r: int, v: Word, q: int)
    requires Leads(s, lo, hi, p, u, r) && Leads(s, lo, hi, r, v, q)
    ensures Leads(s, lo, hi, p, u + v, q)
  {
    var m: nat :| Walk(s, lo, hi, p, u, r, m);
    var n: nat :| Walk(s, lo, hi, r, v, q, n);
    WalkJoin(s, lo, hi, p, u, r, m, v, q, n);
  }

  lemma {:induction false} LeadsNowhere(s: Strip, lo: int, hi: int, p: int)
    ensures Leads(s, lo, hi, p, [], p)
  {
    assert Walk(s, lo, hi, p, [], p, 0);
  }

  lemma {:induction false} LeadsEat(s: Strip, lo: int, hi: int, p: int, c: Byte, q: int)
    requires lo <= p < hi && 0 <= p < |s| && Eats(s[p], Ch(c)) && Leads(s, lo, hi, p + 1, [], q)
    ensures Leads(s, lo, hi, p, [c], q)
  {
    var n: nat :| Walk(s, lo, hi, p + 1, [], q, n);
    EatStep(s, lo, hi, p, c, [], q, n);
    assert [c] + [] == [c];
  }

  lemma {:induction false} WalkSplit(s: Strip, lo: int, hi: int, p: int, u: Word, v: Word, q: int, n: nat) returns (r: int)
    requires Walk(s, lo, hi, p, u + v, q, n)
    ensures Leads(s, lo, hi, p, u, r) && Leads(s, lo, hi, r, v, q)
    decreases n
  {
    if u == [] {
      r := p;
      assert u + v == v;
      LeadsNowhere(s, lo, hi, p);
    } else {
      var p', w := FirstMove(s, lo, hi, p, u + v, q, n);
      if Eps(s, p, p') && w == u + v {
        r := WalkSplit(s, lo, hi, p', u, v, q, n - 1);
        var k: nat :| Walk(s, lo, hi, p', u, r, k);
        EpsStep(s, lo, hi, p, p', u, r, k);
      } else {
        assert w == u[1..] + v;
        r := WalkSplit(s, lo, hi, p', u[1..], v, q, n - 1);
        var k: nat :| Walk(s, lo, hi, p', u[1..], r, k);
        EatStep(s, lo, hi, p, u[0], u[1..], r, k);
        assert [u[0]] + u[1..] == u;
      }
    }
  }

  /** A walk over one byte: moves that consume nothing, the byte, and such moves again. */
  lemma {:induction false} OneByte(s: Strip, lo: int, hi: int, p: int, c: Byte, q: int, n: nat) returns (r: int)
    requires Walk(s, lo, hi, p, [c], q, n)
    ensures Leads(s, lo, hi, p, [], r) && Leads(s, lo, hi, r + 1, [], q)
    ensures lo <= r < hi && 0 <= r < |s| && Eats(s[r], Ch(c))
    decreases n
  {
    var p', w := FirstMove(s, lo, hi, p, [c], q, n);
    if Eps(s, p, p') && w == [c] {
      r := OneByte(s, lo, hi, p', c, q, n - 1);
      var k: nat :| Walk(s, lo, hi, p', [], r, k);
      EpsStep(s, lo, hi, p, p', [], r, k);
    } else {
      r := p;
      LeadsNowhere(s, lo, hi, p);
    }
  }

  lemma {:induction false} LastByte(s: Strip, lo: int, hi: int, p: int, w: Word, c: Byte, q: int) returns (r: int)
    requires Leads(s, lo, hi, p, w + [c], q)
    ensures Leads(s, lo, hi, p, w, r) && Leads(s, lo, hi, r + 1, [], q)
    ensures lo <= r < hi && 0 <= r < |s| && Eats(s[r], Ch(c))
  {
    var n: nat :| Walk(s, lo, hi, p, w + [c], q, n);
    var r' := WalkSplit(s, lo, hi, p, w, [c], q, n);
    var k: nat :| Walk(s, lo, hi, r', [c], q, k);
    r := OneByte(s, lo, hi, r', c, q, k);
    LeadsJoin(s, lo, hi, p, w, r', [], r);
    assert w + [] == w;
  }

  // ----- Steps -----

  /** A byte leads on exactly through the successors of the states before it. */
  lemma {:induction false} ByteStep(s: Strip, lo: int, hi: int, w: Word, c: Byte, q: int)
    ensures Leads(s, lo, hi, lo, w + [c], q) <==>
            exists p :: lo <= p < hi && 0 <= p < |s| && Leads(s, lo, hi, lo, w, p) && Eats(s[p], Ch(c))
                        && Leads(s, lo, hi, p + 1, [], q)
  {
    if Leads(s, lo, hi, lo, w + [c], q) {
      var r := LastByte(s, lo, hi, lo, w, c, q);
    }
    forall p | lo <= p < hi && 0 <= p < |s| && Leads(s, lo, hi, lo, w, p) && Eats(s[p], Ch(c)) && Leads(s, lo, hi, p + 1, [], q)
      ensures Leads(s, lo, hi, lo, w + [c], q)
    {
      LeadsEat(s, lo, hi, p, c, q);
      LeadsJoin(s, lo, hi, lo, w, p, [c], q);
    }
  }

  lemma {:induction false} StartReached(s: Strip, lo: int, hi: int, x: States)
    requires IsStep(s, lo, hi, {lo}, NOTHING, {lo}, x)
    ensures Reached(s, lo, hi, [], x)
  {
    forall q
      ensures After(s, lo, hi, {lo}, NOTHING, {lo}, q) <==> Leads(s, lo, hi, lo, [], q)
    {
      if Leads(s, lo, hi, lo, [], q) {
        assert Seed(s, lo, hi, {lo}, NOTHING, {lo}, lo);
      }
    }
  }

  lemma {:induction false} StepReached(s: Strip, lo: int, hi: int, w: Word, c: Byte, x: States, y: States)
    requires Reached(s, lo, hi, w, x) && IsStep(s, lo, hi, x, Ch(c), {}, y)
    ensures Reached(s, lo, hi, w + [c], y)
  {
    forall q
      ensures After(s, lo, hi, x, Ch(c), {}, q) <==> Leads(s, lo, hi, lo, w + [c], q)
    {
      ByteStep(s, lo, hi, w, c, q);
      if Leads(s, lo, hi, lo, w + [c], q) {
        var p :| lo <= p < hi && 0 <= p < |s| && Leads(s, lo, hi, lo, w, p) && Eats(s[p], Ch(c)) && Leads(s, lo, hi, p + 1, [], q);
        assert Seed(s, lo, hi, x, Ch(c), {}, p + 1);
      }
      if After(s, lo, hi, x, Ch(c), {}, q) {
        var r :| Seed(s, lo, hi, x, Ch(c), {}, r) && Leads(s, lo, hi, r, [], q);
        assert Leads(s, lo, hi, (r - 1) + 1, [], q);
      }
    }
  }

  /** Starting afresh before every byte. */
  lemma {:induction false} StepBegun(s: Strip, lo: int, hi: int, text: Word, start: int, p: int, x: States, clean: States, y: States)
    requires 0 <= start <= p < |text|
    requires AllBegun(s, lo, hi, text, start, p, x) && Reached(s, lo, hi, [], clean)
    requires IsStep(s, lo, hi, x, Ch(text[p]), clean, y)
    ensures AllBegun(s, lo, hi, text, start, p + 1, y)
  {
    forall q
      ensures After(s, lo, hi, x, Ch(text[p]), clean, q) <==> Begun(s, lo, hi, text, start, p + 1, q)
    {
      if After(s, lo, hi, x, Ch(text[p]), clean, q) {
        BegunByStep(s, lo, hi, text, start, p, x, clean, q);
      }
      if Begun(s, lo, hi, text, start, p + 1, q) {
        StepByBegun(s, lo, hi, text, start, p, x, clean, q);
      }
    }
  }

  lemma {:induction false} BegunByStep(s: Strip, lo: int, hi: int, text: Word, start: int, p: int, x: States, clean: States, q: int)
    requires 0 <= start <= p < |text|
    requires AllBegun(s, lo, hi, text, start, p, x) && Reached(s, lo, hi, [], clean)
    requires After(s, lo, hi, x, Ch(text[p]), clean, q)
    ensures Begun(s, lo, hi, text, start, p + 1, q)
  {
    var c := text[p];
    var r :| Seed(s, lo, hi, x, Ch(c), clean, r) && Leads(s, lo, hi, r, [], q);
    if r in clean {
      LeadsJoin(s, lo, hi, lo, [], r, [], q);
      assert text[p + 1..p + 1] == [] + [];
    } else {
      var i :| 0 <= start <= i <= p && Leads(s, lo, hi, lo, text[i..p], r - 1);
      assert Leads(s, lo, hi, (r - 1) + 1, [], q);
      ByteStep(s, lo, hi, text[i..p], c, q);
      assert text[i..p + 1] == text[i..p] + [c];
    }
  }

  lemma {:induction false} StepByBegun(s: Strip, lo: int, hi: int, text: Word, start: int, p: int, x: States, clean: States, q: int)
    requires 0 <= start <= p < |text|
    requires AllBegun(s, lo, hi, text, start, p, x) && Reached(s, lo, hi, [], clean)
    requires Begun(s, lo, hi, text, start, p + 1, q)
    ensures After(s, lo, hi, x, Ch(text[p]), clean, q)
  {
    var c := text[p];
    var i :| 0 <= start <= i <= p + 1 && Leads(s, lo, hi, lo, text[i..p + 1], q);
    if i == p + 1 {
      assert text[i..p + 1] == [];
      LeadsNowhere(s, lo, hi, q);
      assert Seed(s, lo, hi, x, Ch(c), clean, q);
    } else {
      assert text[i..p + 1] == text[i..p] + [c];
      var r := LastByte(s, lo, hi, lo, text[i..p], c, q);
      assert Begun(s, lo, hi, text, start, p, r);
      assert Seed(s, lo, hi, x, Ch(c), clean, r + 1);
    }
  }

  // ----- Steps over something that is not a byte -----

  lemma {:induction false} ReachedClosed(s: Strip, lo: int, hi: int, w: Word, x: States)
    requires Reached(s, lo, hi, w, x)
    ensures EpsClosed(s, lo, hi, x)
  {
    forall p, q | p in x && Leads(s, lo, hi, p, [], q)
      ensures q in x
    {
      LeadsJoin(s, lo, hi, lo, w, p, [], q);
      assert w + [] == w;
    }
  }

  lemma {:induction false} BegunClosed(s: Strip, lo: int, hi: int, text: Word, start: int, p: int, x: States)
    requires AllBegun(s, lo, hi, text, start, p, x)
    ensures EpsClosed(s, lo, hi, x)
  {
    forall r, q | r in x && Leads(s, lo, hi, r, [], q)
      ensures q in x
    {
      var i :| 0 <= start <= i <= p <= |text| && Leads(s, lo, hi, lo, text[i..p], r);
      LeadsJoin(s, lo, hi, lo, text[i..p], r, [], q);
      assert text[i..p] + [] == text[i..p];
    }
  }

  /** On a block without anchors, a step over a boundary changes nothing. */
  lemma {:induction false} BoundaryStep(s: Strip, lo: int, hi: int, ch: Input, x: States, y: States)
    requires AnchorFree(s, lo, hi) && EpsClosed(s, lo, hi, x) && !ch.Ch?
    requires IsStep(s, lo, hi, x, ch, x, y)
    ensures x == y
  {
    forall q
      ensures q in x <==> After(s, lo, hi, x, ch, x, q)
    {
      LeadsNowhere(s, lo, hi, q);
      if q in x {
        assert Seed(s, lo, hi, x, ch, x, q);
      }
    }
    assert forall q :: q in x <==> q in y;
  }

  // ----- What the searches report -----

  /** `r` is the largest end in [start, stop] of a match that begins at `start`, or None. */
  ghost predicate LongestFrom(s: Strip, lo: int, hi: int, text: Word, start: int, stop: int, r: Option<int>)
    requires 0 <= start <= stop <= |text|
  {
    match r
    case None => forall e :: start <= e <= stop ==> !Accepts(s, lo, hi, text[start..e])
    case Some(end) =>
      && start <= end <= stop && Accepts(s, lo, hi, text[start..end])
      && forall e :: end < e <= stop ==> !Accepts(s, lo, hi, text[start..e])
  }

  /** Some match lies inside [start, stop]. */
  ghost predicate Occurs(s: Strip, lo: int, hi: int, text: Word, start: int, stop: int)
    requires 0 <= start && stop <= |text|
  {
    exists i, e :: start <= i <= e <= stop && Accepts(s, lo, hi, text[i..e])
  }

  lemma {:induction false} ReachedAccepts(s: Strip, lo: int, hi: int, w: Word, x: States)
    requires Reached(s, lo, hi, w, x)
    ensures hi in x <==> Accepts(s, lo, hi, w)
  {
  }

  /** When no state is left, no longer match can come. */
  lemma {:induction false} DeadEnd(s: Strip, lo: int, hi: int, w: Word, v: Word)
    requires Reached(s, lo, hi, w, {})
    ensures !Accepts(s, lo, hi, w + v)
  {
    if Accepts(s, lo, hi, w + v) {
      var n: nat :| Walk(s, lo, hi, lo, w + v, hi, n);
      var r := WalkSplit(s, lo, hi, lo, w, v, hi, n);
      assert false;
    }
  }

  /**
    If at `cold` the states are just those of a fresh start, then a match that is under way there
    is also a match that begins there.
   */
  lemma {:induction false} ColdStart(s: Strip, lo: int, hi: int, text: Word, start: int, cold: int, p: int, clean: States)
    requires 0 <= start <= cold <= p <= |text|
    requires AllBegun(s, lo, hi, text, start, cold, clean) && Reached(s, lo, hi, [], clean)
    requires Begun(s, lo, hi, text, start, p, hi)
    ensures Occurs(s, lo, hi, text, cold, p)
  {
    var i :| 0 <= start <= i <= p && Leads(s, lo, hi, lo, text[i..p], hi);
    if i < cold {
      assert text[i..p] == text[i..cold] + text[cold..p];
      var n: nat :| Walk(s, lo, hi, lo, text[i..p], hi, n);
      var r := WalkSplit(s, lo, hi, lo, text[i..cold], text[cold..p], hi, n);
      assert Begun(s, lo, hi, text, start, cold, r);
      LeadsJoin(s, lo, hi, lo, [], r, text[cold..p], hi);
      assert [] + text[cold..p] == text[cold..p];
      assert Accepts(s, lo, hi, text[cold..p]);
    } else {
      assert Accepts(s, lo, hi, text[i..p]);
    }
  }

  lemma {:induction false} BegunAtStart(s: Strip, lo: int, hi: int, text: Word, start: int, x: States)
    requires 0 <= start <= |text| && Reached(s, lo, hi, [], x)
    ensures AllBegun(s, lo, hi, text, start, start, x)
  {
    assert text[start..start] == [];
    forall q
      ensures Begun(s, lo, hi, text, start, start, q) <==> Leads(s, lo, hi, lo, [], q)
    {
      if Leads(s, lo, hi, lo, [], q) {
        assert Leads(s, lo, hi, lo, text[start..start], q);
      }
    }
  }

  lemma {:induction false} BegunAccepts(s: Strip, lo: int, hi: int, text: Word, start: int, p: int, x: States)
    requires AllBegun(s, lo, hi, text, start, p, x)
    ensures hi in x <==> Begun(s, lo, hi, text, start, p, hi)
  {
  }

  /** `end` is the first place where a match that begins from `start` on ends. */
  ghost predicate FirstEnd(s: Strip, lo: int, hi: int, text: Word, start: int, end: int) {
    && Begun(s, lo, hi, text, start, end, hi)
    && forall e :: start <= e < end ==> !Begun(s, lo, hi, text, start, e, hi)
  }

  lemma {:induction false} OccursEarlier(s: Strip, lo: int, hi: int, text: Word, start: int, cold: int, p: int, stop: int)
    requires 0 <= start <= cold && p <= stop <= |text|
    requires Occurs(s, lo, hi, text, cold, p)
    ensures Occurs(s, lo, hi, text, start, stop) && Occurs(s, lo, hi, text, cold, stop)
  {
  }

  lemma {:induction false} NeverBegun(s: Strip, lo: int, hi: int, text: Word, start: int, stop: int)
    requires 0 <= start <= stop <= |text|
    requires forall e :: start <= e <= stop ==> !Begun(s, lo, hi, text, start, e, hi)
    ensures !Occurs(s, lo, hi, text, start, stop)
  {
    forall i, e | start <= i <= e <= stop
      ensures !Accepts(s, lo, hi, text[i..e])
    {
      assert !Begun(s, lo, hi, text, start, e, hi);
    }
  }

  /** If nothing matches from `start`, a match that occurs begins later. */
  lemma {:induction false} OccursLater(s: Strip, lo: int, hi: int, text: Word, start: int, stop: int)
    requires 0 <= start <= stop <= |text| && Occurs(s, lo, hi, text, start, stop)
    requires LongestFrom(s, lo, hi, text, start, stop, None)
    ensures start < stop && Occurs(s, lo, hi, text, start + 1, stop)
  {
    var i, e :| start <= i <= e <= stop && Accepts(s, lo, hi, text[i..e]);
    assert i != start;
  }

  // ----- The answer is determined by the strip and the text -----

  /** At `p` the states are just those of a fresh start. */
  ghost predicate Cold(s: Strip, lo: int, hi: int, text: Word, start: int, p: int) {
    forall q :: Begun(s, lo, hi, text, start, p, q) <==> Leads(s, lo, hi, lo, [], q)
  }

  /** `cold` is the last such place up to `end`. */
  ghost predicate LastCold(s: Strip, lo: int, hi: int, text: Word, start: int, end: int, cold: int) {
    && start <= cold <= end && Cold(s, lo, hi, text, start, cold)
    && forall p :: cold < p <= end ==> !Cold(s, lo, hi, text, start, p)
  }

  lemma {:induction false} ColdIsEqual(s: Strip, lo: int, hi: int, text: Word, start: int, p: int, x: States, clean: States)
    requires AllBegun(s, lo, hi, text, start, p, x) && Reached(s, lo, hi, [], clean)
    ensures x == clean <==> Cold(s, lo, hi, text, start, p)
  {
    if Cold(s, lo, hi, text, start, p) {
      forall q
        ensures q in x <==> q in clean
      {
        assert q in x <==> Begun(s, lo, hi, text, start, p, q);
        assert q in clean <==> Leads(s, lo, hi, lo, [], q);
      }
    }
    if x == clean {
      forall q
        ensures Begun(s, lo, hi, text, start, p, q) <==> Leads(s, lo, hi, lo, [], q)
      {
        assert q in x <==> Begun(s, lo, hi, text, start, p, q);
        assert q in clean <==> Leads(s, lo, hi, lo, [], q);
      }
    }
  }

  /** The span that the start search finds from `cold` on. */
  ghost predicate FoundFrom(s: Strip, lo: int, hi: int, text: Word, cold: int, stop: int, so: int, eo: int)
    requires 0 <= cold && stop <= |text|
  {
    && cold <= so <= stop
    && (forall i :: cold <= i < so ==> LongestFrom(s, lo, hi, text, i, stop, None))
    && LongestFrom(s, lo, hi, text, so, stop, Some(eo))
  }

  /** The span reported: the first match from the last cold place before the first end. */
  ghost predicate Found(s: Strip, lo: int, hi: int, text: Word, start: int, stop: int, so: int, eo: int)
    requires 0 <= start && stop <= |text|
  {
    exists end, cold ::
      && FirstEnd(s, lo, hi, text, start, end)
      && LastCold(s, lo, hi, text, start, end, cold)
      && FoundFrom(s, lo, hi, text, cold, stop, so, eo)
  }

  lemma {:induction false} FoundIntro(s: Strip, lo: int, hi: int, text: Word, start: int, stop: int, end: int, cold: int, so: int, eo: int)
    requires 0 <= start <= cold && stop <= |text|
    requires FirstEnd(s, lo, hi, text, start, end) && LastCold(s, lo, hi, text, start, end, cold)
    requires FoundFrom(s, lo, hi, text, cold, stop, so, eo)
    ensures Found(s, lo, hi, text, start, stop, so, eo) && so <= eo <= stop
  {
  }

  lemma {:induction false} FirstEndUnique(s: Strip, lo: int, hi: int, text: Word, start: int, end: int, end': int)
    requires FirstEnd(s, lo, hi, text, start, end) && FirstEnd(s, lo, hi, text, start, end')
    ensures end == end'
  {
  }

  lemma {:induction false} LastColdUnique(s: Strip, lo: int, hi: int, text: Word, start: int, end: int, cold: int, cold': int)
    requires LastCold(s, lo, hi, text, start, end, cold) && LastCold(s, lo, hi, text, start, end, cold')
    ensures cold == cold'
  {
  }

  lemma {:induction false} LongestUnique(s: Strip, lo: int, hi: int, text: Word, start: int, stop: int, r: Option<int>, r': Option<int>)
    requires 0 <= start <= stop <= |text|
    requires LongestFrom(s, lo, hi, text, start, stop, r) && LongestFrom(s, lo, hi, text, start, stop, r')
    ensures r == r'
  {
  }

  lemma {:induction false} FoundFromUnique(s: Strip, lo: int, hi: int, text: Word, cold: int, stop: int, so: int, eo: int, so': int, eo': int)
    requires 0 <= cold && stop <= |text|
    requires FoundFrom(s, lo, hi, text, cold, stop, so, eo) && FoundFrom(s, lo, hi, text, cold, stop, so', eo')
    ensures so == so' && eo == eo'
  {
    hide LongestFrom;
    if so < so' {
      LongestUnique(s, lo, hi, text, so, stop, None, Some(eo));
    } else if so' < so {
      LongestUnique(s, lo, hi, text, so', stop, None, Some(eo'));
    } else {
      LongestUnique(s, lo, hi, text, so, stop, Some(eo), Some(eo'));
    }
  }

  lemma {:induction false} FoundUnique(s: Strip, lo: int, hi: int, text: Word, start: int, stop: int, so: int, eo: int, so': int, eo': int)
    requires 0 <= start && stop <= |text|
    requires Found(s, lo, hi, text, start, stop, so, eo) && Found(s, lo, hi, text, start, stop, so', eo')
    ensures so == so' && eo == eo'
  {
    hide FirstEnd, FoundFrom;
    var end, cold :| FirstEnd(s, lo, hi, text, start, end) && LastCold(s, lo, hi, text, start, end, cold) && FoundFrom(s, lo, hi, text, cold, stop, so, eo);
    var end', cold' :| FirstEnd(s, lo, hi, text, start, end') && LastCold(s, lo, hi, text, start, end', cold') && FoundFrom(s, lo, hi, text, cold', stop, so', eo');
    FirstEndUnique(s, lo, hi, text, start, end, end');
    LastColdUnique(s, lo, hi, text, start, end, cold, cold');
    FoundFromUnique(s, lo, hi, text, cold, stop, so, eo, so', eo');
  }
}
