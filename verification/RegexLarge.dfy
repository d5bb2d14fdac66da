/** The matching engine over a vector with one entry for each state. */
module RegexLarge {
  import opened Basics
  import opened RegexLanguage
  import opened RegexStrip
  import opened RegexStates
  import opened RegexSearch
  import opened RegexGuts

  ghost function Bits(v: array<bool>): States
    reads v
  {
    set i | 0 <= i < v.Length && v[i]
  }

  /** If state `here` is in `src`, state `there` is in `dst`. */
  method Mark(dst: array<bool>, src: array<bool>, here: int, there: int)
    requires 0 <= here < src.Length && 0 <= there < dst.Length
    modifies dst
    ensures Bits(dst) == old(Bits(dst)) + (if here in old(Bits(src)) then {there} else {})
  {
    ghost var before := Bits(dst);
    dst[there] := dst[there] || src[here];
    assert forall i :: i in Bits(dst) <==> 0 <= i < dst.Length && dst[i];
  }

  method IsSet(v: array<bool>, n: int) returns (b: bool)
    requires 0 <= n < v.Length
    ensures b <==> n in Bits(v)
  {
    b := v[n];
  }

  /** From state `pc`, both the next state and `q`. */
  method MarkBoth(aft: array<bool>, pc: int, q: int)
    requires 0 <= pc < aft.Length - 1 && 0 <= q < aft.Length
    modifies aft
    ensures Bits(aft) == old(Bits(aft)) + (if pc in old(Bits(aft)) then {pc + 1, q} else {})
  {
    Mark(aft, aft, pc, pc + 1);
    Mark(aft, aft, pc, q);
  }

  /** At the end of a loop; go back to its entry if that has just been marked. */
  method MarkLoop(aft: array<bool>, pc: int, entry: int) returns (next: int)
    requires 0 <= entry < pc < aft.Length - 1
    modifies aft
    ensures Bits(aft) == old(Bits(aft)) + (if pc in old(Bits(aft)) then {pc + 1, entry} else {})
    ensures next == if entry !in old(Bits(aft)) && entry in Bits(aft) then entry else pc + 1
  {
    Mark(aft, aft, pc, pc + 1);
    var i := IsSet(aft, entry);
    Mark(aft, aft, pc, entry);
    var j := IsSet(aft, entry);
    next := if !i && j then entry else pc + 1;  // a new entry: scan the body again
  }

  /** Execute the operator at `pc`; `next` is where the scan goes on. */
  method Execute(s: Strip, start: int, stop: int, bef: array<bool>, ch: Input, aft: array<bool>, pc: int)
    returns (next: int)
    requires 0 <= start <= pc < stop < |s| && Nested(s, start, stop, pc)
    requires bef.Length == aft.Length == |s|
    modifies aft
    ensures start <= next
    ensures Executed(s, pc, old(Bits(bef)), ch, old(Bits(aft)), Bits(aft), next)
  {
    hide Bits, Executed, Marks, Eps, Nested;
    OffsetsInside(s, start, stop, pc);
    ghost var b, x := Bits(bef), Bits(aft);
    next := pc + 1;
    if Consumes(s[pc]) {
      if Eats(s[pc], ch) {
        Mark(aft, bef, pc, pc + 1);
      }
    } else if s[pc].O_PLUS? {  // on, or round again
      next := MarkLoop(aft, pc, pc - s[pc].back);
    } else if s[pc].OQUEST_? || s[pc].OCH_? {  // into the option, or past it
      MarkBoth(aft, pc, pc + s[pc].fwd);
    } else if s[pc].OOR1? {  // the branch is over: go to the end of the choice
      var i := IsSet(aft, pc);
      if i {
        var look := FindChoiceEnd(s, start, stop, pc);
        Mark(aft, aft, pc, look);
      }
    } else if s[pc].OOR2? && !s[pc + s[pc].fwd].O_CH? {  // this branch, or a later one
      MarkBoth(aft, pc, pc + s[pc].fwd);
    } else {  // straight on
      Mark(aft, aft, pc, pc + 1);
    }
    assert Bits(aft) == x + Gains(s, pc, b, ch, x);
    ExecutedGains(s, start, stop, pc, b, ch, x, next);
  }

  /** From an OOR1, look along the chain of OOR2s for the O_CH. */
  method FindChoiceEnd(s: Strip, start: int, stop: int, pc: int) returns (end: int)
    requires 0 <= start <= pc < stop < |s| && s[pc].OOR1? && Nested(s, start, stop, pc)
    ensures end == ChoiceEnd(s, pc + 1)
  {
    end := pc + 1;
    ChoiceEndBeyond(s, end);
    while !s[end].O_CH?
      invariant pc + 1 <= end <= ChoiceEnd(s, pc + 1)
      invariant ChoiceEnd(s, end) == ChoiceEnd(s, pc + 1)
      decreases stop - end
    {
      ChoiceEndBeyond(s, end + s[end].fwd);
      end := end + s[end].fwd;
    }
  }

  /**
    Take `aft` to the closure of itself and of the successors of `bef` on `ch`.  A step may work
    in place only if no operator consumes `ch`.
   */
  method Step(s: Strip, start: int, stop: int, bef: array<bool>, ch: Input, aft: array<bool>)
    requires 0 < start <= stop < |s| && WellNested(s, start, stop)
    requires bef.Length == aft.Length == |s|
    requires bef != aft || forall p :: start <= p < stop ==> !Eats(s[p], ch)
    modifies aft
    ensures IsStep(s, start, stop, old(Bits(bef)), ch, old(Bits(aft)), Bits(aft))
  {
    hide Bits, Executed, Scanned, IsStep;
    ghost var b, a := Bits(bef), Bits(aft);
    var pc := start;
    ScanStart(s, start, stop, b, ch, a);
    while pc != stop
      invariant start <= pc <= stop
      invariant Scanned(s, start, stop, b, ch, a, Bits(aft), pc)
      invariant bef != aft ==> Bits(bef) == b
      decreases Missing(|s|, Bits(aft)), stop - pc
    {
      ghost var b', x := Bits(bef), Bits(aft);
      var next := Execute(s, start, stop, bef, ch, aft, pc);
      if bef == aft {
        ExecutedIdle(s, pc, b', b, ch, x, Bits(aft), next);
      }
      ScanKept(s, start, stop, b, ch, a, x, pc, Bits(aft), next);
      MissingShrinks(s, pc, b, ch, x, Bits(aft), next, |s|);
      pc := next;
    }
    ScanDone(s, start, stop, b, ch, a, Bits(aft));
  }

  // ----- Operations on whole vectors -----

  method Clear(v: array<bool>)
    modifies v
    ensures Bits(v) == {}
  {
    forall i | 0 <= i < v.Length {
      v[i] := false;
    }
  }

  method Assign(d: array<bool>, s: array<bool>)
    requires d.Length == s.Length
    modifies d
    ensures Bits(d) == old(Bits(s))
  {
    forall i | 0 <= i < d.Length {
      d[i] := s[i];
    }
    assert forall i :: i in Bits(d) <==> 0 <= i < d.Length && d[i];
    assert forall i :: i in old(Bits(s)) <==> 0 <= i < d.Length && old(s[i]);
  }

  method Equal(a: array<bool>, b: array<bool>) returns (eq: bool)
    requires a.Length == b.Length
    ensures eq <==> Bits(a) == Bits(b)
  {
    eq := true;
    for i := 0 to a.Length
      invariant forall k :: 0 <= k < i ==> a[k] == b[k]
    {
      if a[i] != b[i] {
        assert i in Bits(a) <==> i !in Bits(b);
        return false;
      }
    }
    assert forall i :: i in Bits(a) <==> i in Bits(b);
  }

  method SetOne(v: array<bool>, n: int)
    requires 0 <= n < v.Length
    modifies v
    ensures Bits(v) == old(Bits(v)) + {n}
  {
    v[n] := true;
    assert forall i :: i in Bits(v) <==> 0 <= i < v.Length && v[i];
  }

  class LargeMatch {
    const g: Guts
    const text: Word
    const beginp: int
    const endp: int
    const flags: ExecFlags
    const st: array<bool>
    const clean: array<bool>
    const tmp: array<bool>
    const empty: array<bool>
    var coldp: int

    constructor (g: Guts, text: Word, beginp: int, endp: int, flags: ExecFlags)
      requires 0 <= beginp <= endp <= |text|
      ensures Valid() && fresh(st) && fresh(clean) && fresh(tmp) && fresh(empty)
      ensures this.g == g && this.text == text && this.beginp == beginp && this.endp == endp
    {
      var n := |g.strip|;
      this.g, this.text, this.beginp, this.endp, this.flags := g, text, beginp, endp, flags;
      st := new bool[n];
      clean := new bool[n];
      tmp := new bool[n];
      empty := new bool[n];
      coldp := beginp;
      new;
      Clear(empty);
    }

    ghost predicate Valid()
      reads empty
    {
      && st.Length == clean.Length == tmp.Length == empty.Length == |g.strip|
      && st != clean && st != tmp && st != empty && clean != tmp && clean != empty && tmp != empty
      && Bits(empty) == {}
      && 0 <= beginp <= endp <= |text|
    }

    /** The steps over the boundaries between `lastc` and `c`. */
    method Boundaries(lastc: int, c: int, startst: int, stopst: int)
      requires Valid() && g.Block(startst, stopst)
      requires EpsClosed(g.strip, startst, stopst, Bits(st))
      modifies st
      ensures Valid() && Bits(st) == old(Bits(st))
    {
      hide Bits, EpsClosed;
      ghost var x := Bits(st);
      var flagch, i := AtLine(g, flags, lastc, c);
      while i > 0
        invariant Valid() && Bits(st) == x
      {
        InPlace(flagch, startst, stopst);
        i := i - 1;
      }
      flagch := AtWord(flagch, lastc, c);
      if flagch.BOW? || flagch.EOW? {
        InPlace(flagch, startst, stopst);
      }
    }

    method InPlace(flagch: Input, startst: int, stopst: int)
      requires Valid() && g.Block(startst, stopst) && !flagch.Ch?
      requires EpsClosed(g.strip, startst, stopst, Bits(st))
      modifies st
      ensures Valid() && Bits(st) == old(Bits(st))
    {
      ghost var x := Bits(st);
      Step(g.strip, startst, stopst, st, flagch, st);
      BoundaryStep(g.strip, startst, stopst, flagch, x, Bits(st));
    }

    /** The longest match that begins at `start` and ends by `stop`. */
    method Slow(start: int, stop: int, startst: int, stopst: int) returns (matchp: Option<int>)
      requires Valid() && g.Block(startst, stopst) && beginp <= start <= stop <= endp
      modifies st, tmp
      ensures Valid() && LongestFrom(g.strip, startst, stopst, text, start, stop, matchp)
    {
      hide Bits, IsStep, Reached, Accepts, EpsClosed, WellNested, AnchorFree;
      var p := start;
      var lastc: int;
      var c := if start == beginp then OUT else text[start - 1];
      Begin(startst, stopst);
      assert text[start..p] == [];
      matchp := None;
      while true
        invariant Valid() && start <= p <= stop
        invariant Reached(g.strip, startst, stopst, text[start..p], Bits(st))
        invariant matchp.Some? ==> start <= matchp.value < p && Accepts(g.strip, startst, stopst, text[start..matchp.value])
        invariant forall e :: (if matchp.Some? then matchp.value + 1 else start) <= e < p ==> !Accepts(g.strip, startst, stopst, text[start..e])
        decreases stop - p
      {
        lastc := c;
        c := if p == endp then OUT else text[p];
        ReachedClosed(g.strip, startst, stopst, text[start..p], Bits(st));
        Boundaries(lastc, c, startst, stopst);

        var accepted := IsSet(st, stopst);
        ReachedAccepts(g.strip, startst, stopst, text[start..p], Bits(st));
        if accepted {
          matchp := Some(p);
        }
        var dead := Equal(st, empty);
        if dead || p == stop {
          break;
        }

        Assign(tmp, st);
        Assign(st, empty);
        Step(g.strip, startst, stopst, tmp, Ch(text[p]), st);
        StepReached(g.strip, startst, stopst, text[start..p], text[p], Bits(tmp), Bits(st));
        assert text[start..p + 1] == text[start..p] + [text[p]];
        p := p + 1;
      }
      if p < stop {
        forall e | p < e <= stop
          ensures !Accepts(g.strip, startst, stopst, text[start..e])
        {
          DeadEnd(g.strip, startst, stopst, text[start..p], text[p..e]);
          assert text[start..e] == text[start..p] + text[p..e];
        }
      }
    }

    /** The states of a fresh start. */
    method Begin(startst: int, stopst: int)
      requires Valid() && g.Block(startst, stopst)
      modifies st
      ensures Valid() && Reached(g.strip, startst, stopst, [], Bits(st))
    {
      Clear(st);
      SetOne(st, startst);
      Step(g.strip, startst, stopst, st, NOTHING, st);
      StartReached(g.strip, startst, stopst, Bits(st));
    }

    /**
      Is there a match anywhere between `start` and `stop`?  On success `coldp` is a place at or
      after which a match begins.
     */
    method Fast(start: int, stop: int, startst: int, stopst: int) returns (r: Option<int>)
      requires Valid() && g.Block(startst, stopst) && beginp <= start <= stop <= endp
      modifies st, clean, tmp, `coldp
      ensures Valid() && start <= coldp <= stop
      ensures r.Some? <==> Occurs(g.strip, startst, stopst, text, start, stop)
      ensures r.Some? ==> Occurs(g.strip, startst, stopst, text, coldp, stop)
      ensures r.Some? ==> r.value - 1 <= stop && FirstEnd(g.strip, startst, stopst, text, start, r.value - 1)
      ensures r.Some? ==> LastCold(g.strip, startst, stopst, text, start, r.value - 1, coldp)
    {
      hide Bits, IsStep, Reached, AllBegun, Cold, Accepts, EpsClosed, WellNested, AnchorFree;
      var p := start;
      var lastc: int;
      var c := if start == beginp then OUT else text[start - 1];
      Begin(startst, stopst);
      Assign(clean, st);
      BegunAtStart(g.strip, startst, stopst, text, start, Bits(st));
      ColdIsEqual(g.strip, startst, stopst, text, start, start, Bits(st), Bits(clean));
      var cold := start;
      while true
        invariant Valid() && start <= cold <= p <= stop
        invariant Reached(g.strip, startst, stopst, [], Bits(clean))
        invariant AllBegun(g.strip, startst, stopst, text, start, p, Bits(st))
        invariant AllBegun(g.strip, startst, stopst, text, start, cold, Bits(clean))
        invariant Cold(g.strip, startst, stopst, text, start, cold)
        invariant forall e :: cold < e < p ==> !Cold(g.strip, startst, stopst, text, start, e)
        invariant forall e :: start <= e < p ==> !Begun(g.strip, startst, stopst, text, start, e, stopst)
        decreases stop - p
      {
        lastc := c;
        c := if p == endp then OUT else text[p];
        var cool := Equal(st, clean);
        ColdIsEqual(g.strip, startst, stopst, text, start, p, Bits(st), Bits(clean));
        if cool {
          cold := p;
        }
        BegunClosed(g.strip, startst, stopst, text, start, p, Bits(st));
        Boundaries(lastc, c, startst, stopst);

        var accepted := IsSet(st, stopst);
        BegunAccepts(g.strip, startst, stopst, text, start, p, Bits(st));
        if accepted || p == stop {
          break;
        }

        Assign(tmp, st);
        Assign(st, clean);
        Step(g.strip, startst, stopst, tmp, Ch(text[p]), st);
        StepBegun(g.strip, startst, stopst, text, start, p, Bits(tmp), Bits(clean), Bits(st));
        p := p + 1;
      }
      coldp := cold;
      var accepted := IsSet(st, stopst);
      BegunAccepts(g.strip, startst, stopst, text, start, p, Bits(st));
      if accepted {
        ColdStart(g.strip, startst, stopst, text, start, cold, p, Bits(clean));
        OccursEarlier(g.strip, startst, stopst, text, start, cold, p, stop);
        r := Some(p + 1);
      } else {
        NeverBegun(g.strip, startst, stopst, text, start, stop);
        r := None;
      }
    }
  }

  /** Match the expression against the text, or the part of it that the caller named. */
  method Matcher(g: Guts, text: Word, range: Option<(int, int)>, nmatch: nat, flags: ExecFlags) returns (r: Outcome)
    requires g.Valid() && InText(text, range)
    ensures range.None? ==> Correct(g, text, 0, |text|, nmatch, r)
    ensures range.Some? && range.value.0 <= range.value.1 ==> Correct(g, text, range.value.0, range.value.1, nmatch, r)
    ensures range.Some? && range.value.1 < range.value.0 ==> r.INVARG?
  {
    hide LastCold, FirstEnd, LongestFrom, Occurs;
    var start, stop := 0, |text|;
    if range.Some? {
      start, stop := range.value.0, range.value.1;
    }
    if stop < start {
      return INVARG;
    }
    if g.must.Some? {
      var found := Prescreen(text, start, stop, g.must.value);
      if !found {
        ScreenedOut(g, text, start, stop);
        return NOMATCH;
      }
    }
    var m := new LargeMatch(g, text, start, stop, flags);
    var endp := m.Fast(start, stop, g.First(), g.Last());
    if endp.None? {
      return NOMATCH;
    }
    if nmatch == 0 || g.nosub {
      return MATCH(None);
    }
    ghost var end, cold := endp.value - 1, m.coldp;
    endp := m.Slow(m.coldp, stop, g.First(), g.Last());
    while endp.None?
      invariant m.Valid() && fresh(m) && fresh(m.st) && fresh(m.tmp) && start <= m.coldp <= stop
      invariant Occurs(g.strip, g.First(), g.Last(), text, m.coldp, stop)
      invariant cold <= m.coldp && forall i :: cold <= i < m.coldp ==> LongestFrom(g.strip, g.First(), g.Last(), text, i, stop, None)
      invariant LongestFrom(g.strip, g.First(), g.Last(), text, m.coldp, stop, endp)
      decreases stop - m.coldp
    {
      OccursLater(g.strip, g.First(), g.Last(), text, m.coldp, stop);
      m.coldp := m.coldp + 1;
      endp := m.Slow(m.coldp, stop, g.First(), g.Last());
    }
    FoundIntro(g.strip, g.First(), g.Last(), text, start, stop, end, cold, m.coldp, endp.value);
    return MATCH(Some((m.coldp, endp.value)));
  }
}
