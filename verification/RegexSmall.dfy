/** The matching engine over the bits of one machine word, for strips of at most 32 operators. */
module RegexSmall {
  import opened Basics
  import opened RegexLanguage
  import opened RegexStrip
  import opened RegexStates
  import opened RegexSearch
  import opened RegexGuts
  import opened RegexMask
  import Large = RegexLarge

  /** Execute the operator at `pc`, whose bit is `here`. */
  method Execute(s: Strip, start: int, stop: int, bef: bv32, ch: Input, aft: bv32, pc: int, here: bv32)
    returns (r: bv32, next: int)
    requires 0 < start <= pc < stop < |s| <= WIDTH && Nested(s, start, stop, pc) && here == One(pc)
    ensures start <= next
    ensures Executed(s, pc, Mask(bef), ch, Mask(aft), Mask(r), next)
  {
    hide Executed, Marks, Eps, One, Mask, Nested;
    OffsetsInside(s, start, stop, pc);
    ghost var b, x := Mask(bef), Mask(aft);
    r, next := aft, pc + 1;
    if Consumes(s[pc]) {
      if Eats(s[pc], ch) {
        r := MarkOne(aft, bef, pc, here, 1);
      }
    } else if s[pc].O_PLUS? {  // on, or round again
      r, next := MarkLoop(aft, pc, here, s[pc].back);
    } else if s[pc].OQUEST_? || s[pc].OCH_? {  // into the option, or past it
      r := MarkBoth(aft, pc, here, s[pc].fwd);
    } else if s[pc].OOR1? {  // the branch is over: go to the end of the choice
      r := MarkEnd(s, start, stop, aft, pc, here);
    } else if s[pc].OOR2? && !s[pc + s[pc].fwd].O_CH? {  // this branch, or a later one
      r := MarkBoth(aft, pc, here, s[pc].fwd);
    } else {  // straight on
      r := MarkOne(aft, aft, pc, here, 1);
    }
    assert Mask(r) == x + Gains(s, pc, b, ch, x);
    ExecutedGains(s, start, stop, pc, b, ch, x, next);
  }

  /** If state `pc` is in `src`, state `pc + n` is in the result. */
  method MarkOne(dst: bv32, src: bv32, pc: int, here: bv32, n: nat) returns (r: bv32)
    requires 0 <= pc && pc + n < WIDTH && here == One(pc)
    ensures Mask(r) == Mask(dst) + (if pc in Mask(src) then {pc + n} else {})
  {
    hide One, Forward, Mask, Has;
    HasMask(src, pc);
    ForwardMask(dst, src, pc, n);
    r := Forward(dst, src, here, n);
  }

  method MarkEnd(s: Strip, start: int, stop: int, aft: bv32, pc: int, here: bv32) returns (r: bv32)
    requires 0 <= start <= pc < stop < |s| <= WIDTH && Nested(s, start, stop, pc) && here == One(pc) && s[pc].OOR1?
    ensures Mask(r) == Mask(aft) + (if pc in Mask(aft) then {ChoiceEnd(s, pc + 1)} else {})
  {
    hide One, Mask, IsSet;
    r := aft;
    HereTest(aft, pc);
    if IsSet(aft, here) {
      var look := Large.FindChoiceEnd(s, start, stop, pc);
      ChoiceEndBeyond(s, pc + 1);
      r := MarkOne(aft, aft, pc, here, look - pc);
    }
  }

  method MarkBoth(aft: bv32, pc: int, here: bv32, fwd: nat) returns (r: bv32)
    requires 0 <= pc < WIDTH - 1 && here == One(pc) && pc + fwd < WIDTH
    ensures Mask(r) == Mask(aft) + (if pc in Mask(aft) then {pc + 1, pc + fwd} else {})
  {
    hide One, Forward, Mask, Has;
    r := MarkOne(aft, aft, pc, here, 1);
    r := MarkOne(r, r, pc, here, fwd);
  }

  method MarkLoop(aft: bv32, pc: int, here: bv32, back: nat) returns (r: bv32, next: int)
    requires 0 < back <= pc < WIDTH - 1 && here == One(pc)
    ensures Mask(r) == Mask(aft) + (if pc in Mask(aft) then {pc + 1, pc - back} else {})
    ensures next == if pc - back !in Mask(aft) && pc - back in Mask(r) then pc - back else pc + 1
  {
    hide One, Forward, Mask, Has, Back, IsSetBack;
    var r' := MarkOne(aft, aft, pc, here, 1);
    HasMask(r', pc);
    HasMask(r', pc - back);
    BackTest(r', pc, back);
    var i := IsSetBack(r', here, back);
    BackMask(r', r', pc, back);
    r := Back(r', r', here, back);
    HasMask(r, pc - back);
    BackTest(r, pc, back);
    next := if !i && IsSetBack(r, here, back) then pc - back else pc + 1;
  }

  method Step(s: Strip, start: int, stop: int, bef: bv32, ch: Input, aft: bv32) returns (r: bv32)
    requires 0 < start <= stop < |s| <= WIDTH && WellNested(s, start, stop)
    ensures IsStep(s, start, stop, Mask(bef), ch, Mask(aft), Mask(r))
  {
    hide Mask, Executed, Scanned, IsStep, One;
    ghost var b, a := Mask(bef), Mask(aft);
    r := aft;
    var pc, here := start, One(start);
    ScanStart(s, start, stop, b, ch, a);
    while pc != stop
      invariant start <= pc <= stop && here == One(pc)
      invariant Scanned(s, start, stop, b, ch, a, Mask(r), pc)
      decreases Missing(|s|, Mask(r)), stop - pc
    {
      ghost var x := Mask(r);
      var next;
      r, next := Execute(s, start, stop, bef, ch, r, pc, here);
      ScanKept(s, start, stop, b, ch, a, x, pc, Mask(r), next);
      MissingShrinks(s, pc, b, ch, x, Mask(r), next, |s|);
      NextOne(pc);
      here := if next == pc + 1 then here << 1 else One(next);
      pc := next;
    }
    ScanDone(s, start, stop, b, ch, a, Mask(r));
  }

  class SmallMatch {
    const g: Guts
    const text: Word
    const beginp: int
    const endp: int
    const flags: ExecFlags
    var coldp: int

    constructor (g: Guts, text: Word, beginp: int, endp: int, flags: ExecFlags)
      requires 0 <= beginp <= endp <= |text| && |g.strip| <= WIDTH
      ensures Valid()
      ensures this.g == g && this.text == text && this.beginp == beginp && this.endp == endp
    {
      this.g, this.text, this.beginp, this.endp, this.flags := g, text, beginp, endp, flags;
      coldp := beginp;
    }

    ghost predicate Valid() {
      |g.strip| <= WIDTH && 0 <= beginp <= endp <= |text|
    }

    /** The steps over the boundaries between `lastc` and `c`. */
    method Boundaries(v: bv32, lastc: int, c: int, startst: int, stopst: int) returns (st: bv32)
      requires Valid() && g.Block(startst, stopst)
      requires EpsClosed(g.strip, startst, stopst, Mask(v))
      ensures Mask(st) == Mask(v)
    {
      hide Mask, EpsClosed;
      st := v;
      var flagch, i := AtLine(g, flags, lastc, c);
      while i > 0
        invariant Mask(st) == Mask(v)
      {
        st := InPlace(st, flagch, startst, stopst);
        i := i - 1;
      }
      flagch := AtWord(flagch, lastc, c);
      if flagch.BOW? || flagch.EOW? {
        st := InPlace(st, flagch, startst, stopst);
      }
    }

    method InPlace(v: bv32, flagch: Input, startst: int, stopst: int) returns (st: bv32)
      requires Valid() && g.Block(startst, stopst) && !flagch.Ch?
      requires EpsClosed(g.strip, startst, stopst, Mask(v))
      ensures Mask(st) == Mask(v)
    {
      hide Mask;
      st := Step(g.strip, startst, stopst, v, flagch, v);
      BoundaryStep(g.strip, startst, stopst, flagch, Mask(v), Mask(st));
    }

    /** The states of a fresh start. */
    method Begin(startst: int, stopst: int) returns (st: bv32)
      requires Valid() && g.Block(startst, stopst)
      ensures Reached(g.strip, startst, stopst, [], Mask(st))
    {
      hide Mask, One, Set;
      ZeroMask();
      SetMask(0, startst);
      st := Set(0, One(startst));
      st := Step(g.strip, startst, stopst, st, NOTHING, st);
      StartReached(g.strip, startst, stopst, Mask(st));
    }

    /** The longest match that begins at `start` and ends by `stop`. */
    method Slow(start: int, stop: int, startst: int, stopst: int) returns (matchp: Option<int>)
      requires Valid() && g.Block(startst, stopst) && beginp <= start <= stop <= endp
      ensures LongestFrom(g.strip, startst, stopst, text, start, stop, matchp)
    {
      hide Mask, One, IsSet, IsStep, Reached, Accepts, EpsClosed, WellNested, AnchorFree;
      var empty: bv32 := 0;
      ZeroMask();
      var p := start;
      var lastc: int;
      var c := if start == beginp then OUT else text[start - 1];
      var st := Begin(startst, stopst);
      assert text[start..p] == [];
      matchp := None;
      while true
        invariant start <= p <= stop
        invariant Reached(g.strip, startst, stopst, text[start..p], Mask(st))
        invariant matchp.Some? ==> start <= matchp.value < p && Accepts(g.strip, startst, stopst, text[start..matchp.value])
        invariant forall e :: (if matchp.Some? then matchp.value + 1 else start) <= e < p ==> !Accepts(g.strip, startst, stopst, text[start..e])
        decreases stop - p
      {
        lastc := c;
        c := if p == endp then OUT else text[p];
        ReachedClosed(g.strip, startst, stopst, text[start..p], Mask(st));
        st := Boundaries(st, lastc, c, startst, stopst);

        HereTest(st, stopst);
        ReachedAccepts(g.strip, startst, stopst, text[start..p], Mask(st));
        if IsSet(st, One(stopst)) {
          matchp := Some(p);
        }
        MaskInjective(st, empty);
        if st == empty || p == stop {
          break;
        }

        var tmp := st;
        st := empty;
        st := Step(g.strip, startst, stopst, tmp, Ch(text[p]), st);
        StepReached(g.strip, startst, stopst, text[start..p], text[p], Mask(tmp), Mask(st));
        assert text[start..p + 1] == text[start..p] + [text[p]];
        p := p + 1;
      }
      if p < stop {
        forall e | p < e <= stop
          ensures !Accepts(g.strip, startst, stopst, text[start..e])
        {
          DeadEnd(g.strip, startst, stopst, text[start..p], text[p..e]);
          assert text[start..e] == text[start..p] + text[p..e];
        }
      }
    }

    /**
      Is there a match anywhere between `start` and `stop`?  On success `coldp` is a place at or
      after which a match begins.
     */
    method Fast(start: int, stop: int, startst: int, stopst: int) returns (r: Option<int>)
      requires Valid() && g.Block(startst, stopst) && beginp <= start <= stop <= endp
      modifies `coldp
      ensures start <= coldp <= stop
      ensures r.Some? <==> Occurs(g.strip, startst, stopst, text, start, stop)
      ensures r.Some? ==> Occurs(g.strip, startst, stopst, text, coldp, stop)
      ensures r.Some? ==> r.value - 1 <= stop && FirstEnd(g.strip, startst, stopst, text, start, r.value - 1)
      ensures r.Some? ==> LastCold(g.strip, startst, stopst, text, start, r.value - 1, coldp)
    {
      hide Mask, One, IsSet, IsStep, Reached, AllBegun, Cold, Accepts, EpsClosed, WellNested, AnchorFree;
      var p := start;
      var lastc: int;
      var c := if start == beginp then OUT else text[start - 1];
      var st := Begin(startst, stopst);
      var clean := st;
      BegunAtStart(g.strip, startst, stopst, text, start, Mask(st));
      ColdIsEqual(g.strip, startst, stopst, text, start, start, Mask(st), Mask(clean));
      var cold := start;
      while true
        invariant start <= cold <= p <= stop
        invariant Reached(g.strip, startst, stopst, [], Mask(clean))
        invariant AllBegun(g.strip, startst, stopst, text, start, p, Mask(st))
        invariant AllBegun(g.strip, startst, stopst, text, start, cold, Mask(clean))
        invariant Cold(g.strip, startst, stopst, text, start, cold)
        invariant forall e :: cold < e < p ==> !Cold(g.strip, startst, stopst, text, start, e)
        invariant forall e :: start <= e < p ==> !Begun(g.strip, startst, stopst, text, start, e, stopst)
        decreases stop - p
      {
        lastc := c;
        c := if p == endp then OUT else text[p];
        MaskInjective(st, clean);
        ColdIsEqual(g.strip, startst, stopst, text, start, p, Mask(st), Mask(clean));
        if st == clean {
          cold := p;
        }
        BegunClosed(g.strip, startst, stopst, text, start, p, Mask(st));
        st := Boundaries(st, lastc, c, startst, stopst);

        HereTest(st, stopst);
        BegunAccepts(g.strip, startst, stopst, text, start, p, Mask(st));
        if IsSet(st, One(stopst)) || p == stop {
          break;
        }

        var tmp := st;
        st := clean;
        st := Step(g.strip, startst, stopst, tmp, Ch(text[p]), st);
        StepBegun(g.strip, startst, stopst, text, start, p, Mask(tmp), Mask(clean), Mask(st));
        p := p + 1;
      }
      coldp := cold;
      HereTest(st, stopst);
      BegunAccepts(g.strip, startst, stopst, text, start, p, Mask(st));
      if IsSet(st, One(stopst)) {
        ColdStart(g.strip, startst, stopst, text, start, cold, p, Mask(clean));
        OccursEarlier(g.strip, startst, stopst, text, start, cold, p, stop);
        r := Some(p + 1);
      } else {
        NeverBegun(g.strip, startst, stopst, text, start, stop);
        r := None;
      }
    }
  }

  /** Match the expression against the text, or the part of it that the caller named. */
  method Matcher(g: Guts, text: Word, range: Option<(int, int)>, nmatch: nat, flags: ExecFlags) returns (r: Outcome)
    requires g.Valid() && InText(text, range) && |g.strip| <= WIDTH
    ensures range.None? ==> Correct(g, text, 0, |text|, nmatch, r)
    ensures range.Some? && range.value.0 <= range.value.1 ==> Correct(g, text, range.value.0, range.value.1, nmatch, r)
    ensures range.Some? && range.value.1 < range.value.0 ==> r.INVARG?
  {
    hide LastCold, FirstEnd, LongestFrom, Occurs;
    var start, stop := 0, |text|;
    if range.Some? {
      start, stop := range.value.0, range.value.1;
    }
    if stop < start {
      return INVARG;
    }
    if g.must.Some? {
      var found := Prescreen(text, start, stop, g.must.value);
      if !found {
        ScreenedOut(g, text, start, stop);
        return NOMATCH;
      }
    }
    var m := new SmallMatch(g, text, start, stop, flags);
    var endp := m.Fast(start, stop, g.First(), g.Last());
    if endp.None? {
      return NOMATCH;
    }
    if nmatch == 0 || g.nosub {
      return MATCH(None);
    }
    ghost var end, cold := endp.value - 1, m.coldp;
    endp := m.Slow(m.coldp, stop, g.First(), g.Last());
    while endp.None?
      invariant m.Valid() && fresh(m) && start <= m.coldp <= stop
      invariant Occurs(g.strip, g.First(), g.Last(), text, m.coldp, stop)
      invariant cold <= m.coldp && forall i :: cold <= i < m.coldp ==> LongestFrom(g.strip, g.First(), g.Last(), text, i, stop, None)
      invariant LongestFrom(g.strip, g.First(), g.Last(), text, m.coldp, stop, endp)
      decreases stop - m.coldp
    {
      OccursLater(g.strip, g.First(), g.Last(), text, m.coldp, stop);
      m.coldp := m.coldp + 1;
      endp := m.Slow(m.coldp, stop, g.First(), g.Last());
    }
    FoundIntro(g.strip, g.First(), g.Last(), text, start, stop, end, cold, m.coldp, endp.value);
    return MATCH(Some((m.coldp, endp.value)));
  }
}
