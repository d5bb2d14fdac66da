/**
  What one step of the matcher does to a set of states, and the invariant of the scan that
  computes it.  Both state representations are proved against this module.
 */
module RegexStates {
  import opened Basics
  import opened RegexLanguage
  import opened RegexStrip

  type States = set<int>

  /** The states a step starts from: those in `aft`, and the successors of `bef` on `ch`. */
  ghost predicate Seed(s: Strip, lo: int, hi: int, bef: States, ch: Input, aft: States, r: int) {
    || r in aft
    || (lo <= r - 1 < hi && 0 <= r - 1 < |s| && r - 1 in bef && Eats(s[r - 1], ch))
  }

  /** The closure of the seeds under the moves that consume nothing. */
  ghost predicate After(s: Strip, lo: int, hi: int, bef: States, ch: Input, aft: States, q: int) {
    exists r :: Seed(s, lo, hi, bef, ch, aft, r) && Leads(s, lo, hi, r, [], q)
  }

  /** `x` is exactly the set of states after the step. */
  ghost predicate IsStep(s: Strip, lo: int, hi: int, bef: States, ch: Input, aft: States, x: States) {
    forall q :: q in x <==> After(s, lo, hi, bef, ch, aft, q)
  }

  // ----- One operator of the scan -----

  /** Executing the operator at `p` marks state `q`. */
  ghost predicate Marks(s: Strip, p: int, bef: States, ch: Input, x: States, q: int)
  {
    && 0 <= p < |s|
    && (|| (p in x && Eps(s, p, q))
        || (q == p + 1 && p in bef && Eats(s[p], ch)))
  }

  /** Executing the operator at `p` took the marked states from `x` to `y` and the scan to `next`. */
  ghost predicate Executed(s: Strip, p: int, bef: States, ch: Input, x: States, y: States, next: int) {
    && (forall q :: q in y <==> q in x || Marks(s, p, bef, ch, x, q))
    && next <= p + 1
    && (forall q :: q in y && q !in x ==> next <= q)
    && (next <= p ==> next in y && next !in x)
  }

  /**
    The scan's invariant: only states of the closure are marked, and every operator before `pc`
    has been executed to completion.
   */
  ghost predicate Scanned(s: Strip, lo: int, hi: int, bef: States, ch: Input, aft: States, x: States, pc: int) {
    && lo <= pc <= hi
    && aft <= x
    && (forall q :: q in x ==> After(s, lo, hi, bef, ch, aft, q))
    && (forall p, q :: lo <= p < pc && Marks(s, p, bef, ch, x, q) ==> q in x)
  }

  lemma {:induction false} ScanStart(s: Strip, lo: int, hi: int, bef: States, ch: Input, aft: States)
    requires lo <= hi
    ensures Scanned(s, lo, hi, bef, ch, aft, aft, lo)
  {
    forall q | q in aft
      ensures After(s, lo, hi, bef, ch, aft, q)
    {
      assert Seed(s, lo, hi, bef, ch, aft, q) && Walk(s, lo, hi, q, [], q, 0);
    }
  }

  /** A mark never leaves the closure. */
  lemma {:induction false} MarkIsAfter(s: Strip, lo: int, hi: int, bef: States, ch: Input, aft: States, x: States, p: int, q: int)
    requires lo <= p < hi && Marks(s, p, bef, ch, x, q)
    requires p in x ==> After(s, lo, hi, bef, ch, aft, p)
    ensures After(s, lo, hi, bef, ch, aft, q)
  {
    if p in x && Eps(s, p, q) {
      var r :| Seed(s, lo, hi, bef, ch, aft, r) && Leads(s, lo, hi, r, [], p);
      var n: nat :| Walk(s, lo, hi, r, [], p, n);
      assert Walk(s, lo, hi, q, [], q, 0);
      EpsStep(s, lo, hi, p, q, [], q, 0);
      WalkJoin(s, lo, hi, r, [], p, n, [], q, 1);
      var nothing: Word := [];
      assert nothing + nothing == nothing;
      assert Leads(s, lo, hi, r, [], q);
    } else {
      assert Seed(s, lo, hi, bef, ch, aft, q) && Walk(s, lo, hi, q, [], q, 0);
    }
  }

  /** Executing one operator keeps the invariant, whether the scan goes on or rescans a loop. */
  lemma {:induction false} ScanKept(s: Strip, lo: int, hi: int, bef: States, ch: Input, aft: States, x: States, pc: int, y: States, next: int)
    requires Scanned(s, lo, hi, bef, ch, aft, x, pc) && pc < hi && lo <= next
    requires Executed(s, pc, bef, ch, x, y, next)
    ensures Scanned(s, lo, hi, bef, ch, aft, y, next) && next <= pc + 1
  {
    assert forall q :: q in aft ==> q in x && q in y;
    forall q | q in y
      ensures After(s, lo, hi, bef, ch, aft, q)
    {
      if q !in x {
        MarkIsAfter(s, lo, hi, bef, ch, aft, x, pc, q);
      }
    }
    forall p, q | lo <= p < next && Marks(s, p, bef, ch, y, q)
      ensures q in y
    {
      assert p in y ==> p in x;
      assert Marks(s, p, bef, ch, x, q);
    }
  }

  /** If the operator at `p` does not consume `ch`, the states before do not matter. */
  lemma {:induction false} ExecutedIdle(s: Strip, p: int, bef: States, bef': States, ch: Input, x: States, y: States, next: int)
    requires Executed(s, p, bef, ch, x, y, next) && 0 <= p < |s| && !Eats(s[p], ch)
    ensures Executed(s, p, bef', ch, x, y, next)
  {
    forall q
      ensures Marks(s, p, bef, ch, x, q) <==> Marks(s, p, bef', ch, x, q)
    {
    }
  }

  /** The states below `n` that are not in `x`: a rescan always makes this set smaller. */
  function Missing(n: nat, x: States): States {
    set i | 0 <= i < n && i !in x
  }

  lemma {:induction false} MissingShrinks(s: Strip, p: int, bef: States, ch: Input, x: States, y: States, next: int, n: nat)
    requires Executed(s, p, bef, ch, x, y, next) && 0 <= next < n
    ensures Missing(n, y) <= Missing(n, x)
    ensures next <= p ==> Missing(n, y) < Missing(n, x)
  {
    if next <= p {
      assert next in Missing(n, x) && next !in Missing(n, y);
    }
  }

  lemma {:induction false} ClosureContained(s: Strip, lo: int, hi: int, bef: States, ch: Input, x: States, r: int, q: int, n: nat)
    requires forall p, p' :: lo <= p < hi && Marks(s, p, bef, ch, x, p') ==> p' in x
    requires r in x && Walk(s, lo, hi, r, [], q, n)
    ensures q in x
    decreases n
  {
    if n > 0 {
      var r', v := FirstMove(s, lo, hi, r, [], q, n);
      assert Marks(s, r, bef, ch, x, r');
      ClosureContained(s, lo, hi, bef, ch, x, r', q, n - 1);
    }
  }

  /** When the scan reaches its end, the marked states are exactly the closure. */
  lemma {:induction false} ScanDone(s: Strip, lo: int, hi: int, bef: States, ch: Input, aft: States, x: States)
    requires Scanned(s, lo, hi, bef, ch, aft, x, hi)
    ensures IsStep(s, lo, hi, bef, ch, aft, x)
  {
    forall q | After(s, lo, hi, bef, ch, aft, q)
      ensures q in x
    {
      var r :| Seed(s, lo, hi, bef, ch, aft, r) && Leads(s, lo, hi, r, [], q);
      assert r in x by {
        if r !in aft {
          assert Marks(s, r - 1, bef, ch, x, r);
        }
      }
      var n: nat :| Walk(s, lo, hi, r, [], q, n);
      ClosureContained(s, lo, hi, bef, ch, x, r, q, n);
    }
  }

  /** The states one operator leads to without consuming. */
  function Targets(s: Strip, p: int): States
    requires 0 <= p < |s|
  {
    match s[p]
    case O_PLUS(back) => {p + 1, p - back}
    case OQUEST_(fwd) => {p + 1, p + fwd}
    case OCH_(fwd) => {p + 1, p + fwd}
    case OOR1(_) => {ChoiceEnd(s, p + 1)}
    case OOR2(fwd) => if p + fwd < |s| && s[p + fwd].O_CH? then {p + 1} else {p + 1, p + fwd}
    case OEND => {}
    case _ => if Consumes(s[p]) then {} else {p + 1}
  }

  /** The states that executing the operator at `p` adds. */
  function Gains(s: Strip, p: int, bef: States, ch: Input, x: States): States
    requires 0 <= p < |s|
  {
    (if p in x then Targets(s, p) else {}) + (if p in bef && Eats(s[p], ch) then {p + 1} else {})
  }

  /** The offsets of a nested operator stay inside the block. */
  lemma {:induction false} OffsetsInside(s: Strip, lo: int, hi: int, p: int)
    requires 0 <= lo <= p < hi < |s| && Nested(s, lo, hi, p)
    ensures !s[p].OEND?
    ensures s[p].O_PLUS? ==> 0 < s[p].back && lo <= p - s[p].back
    ensures s[p].OOR1? ==> ChoiceEnd(s, p + 1) < hi
    ensures s[p].OQUEST_? || s[p].OCH_? || s[p].OOR2? ==> 0 < s[p].fwd && p + s[p].fwd < hi
  {
  }

  lemma {:induction false} GainsAreMarks(s: Strip, p: int, bef: States, ch: Input, x: States, q: int)
    requires 0 <= p < |s|
    ensures q in Gains(s, p, bef, ch, x) <==> Marks(s, p, bef, ch, x, q)
  {
    assert Eps(s, p, q) <==> q in Targets(s, p);
  }

  /** Adding the gains executes the operator, if the scan goes back to a loop newly entered. */
  lemma {:induction false} ExecutedGains(s: Strip, lo: int, hi: int, p: int, bef: States, ch: Input, x: States, next: int)
    requires 0 <= lo <= p < hi < |s| && Nested(s, lo, hi, p)
    requires var y := x + Gains(s, p, bef, ch, x);
      next == if s[p].O_PLUS? && p - s[p].back !in x && p - s[p].back in y then p - s[p].back else p + 1
    ensures lo <= next
    ensures Executed(s, p, bef, ch, x, x + Gains(s, p, bef, ch, x), next)
  {
    forall q {
      GainsAreMarks(s, p, bef, ch, x, q);
    }
    ChoiceEndBeyond(s, p + 1);
  }

  lemma {:induction false} ChoiceEndBeyond(s: Strip, i: nat)
    ensures i <= ChoiceEnd(s, i)
    decreases |s| - i
  {
    if i < |s| && s[i].OOR2? && s[i].fwd > 0 {
      ChoiceEndBeyond(s, i + s[i].fwd);
    }
  }

  /** Two sets that are the same step are the same set. */
  lemma {:induction false} StepUnique(s: Strip, lo: int, hi: int, bef: States, ch: Input, aft: States, x: States, y: States)
    requires IsStep(s, lo, hi, bef, ch, aft, x) && IsStep(s, lo, hi, bef, ch, aft, y)
    ensures x == y
  {
    forall q
      ensures q in x <==> q in y
    {
      assert q in x <==> After(s, lo, hi, bef, ch, aft, q);
      assert q in y <==> After(s, lo, hi, bef, ch, aft, q);
    }
  }
}
