/** The choice between the two state representations. */
module RegexExec {
  import opened Basics
  import opened RegexLanguage
  import opened RegexStrip
  import opened RegexStates
  import opened RegexGuts
  import opened RegexMask
  import RegexSmall
  import RegexLarge

  /** Match with the small representation if the strip has room in it. */
  method RegExec(g: Guts, text: Word, range: Option<(int, int)>, nmatch: nat, flags: ExecFlags) returns (r: Outcome)
    requires g.Valid() && InText(text, range)
    ensures g.bad ==> r.BADPAT?
    ensures !g.bad && range.None? ==> Correct(g, text, 0, |text|, nmatch, r)
    ensures !g.bad && range.Some? && range.value.0 <= range.value.1 ==>
              Correct(g, text, range.value.0, range.value.1, nmatch, r)
    ensures !g.bad && range.Some? && range.value.1 < range.value.0 ==> r.INVARG?
  {
    if g.bad {
      return BADPAT;
    }
    if |g.strip| <= WIDTH {
      r := RegexSmall.Matcher(g, text, range, nmatch, flags);
    } else {
      r := RegexLarge.Matcher(g, text, range, nmatch, flags);
    }
  }

  /** Where both matchers can run, they give the same answer. */
  method Agree(g: Guts, text: Word, range: Option<(int, int)>, nmatch: nat, flags: ExecFlags)
    returns (small: Outcome, large: Outcome)
    requires g.Valid() && InText(text, range) && |g.strip| <= WIDTH
    ensures small == large
  {
    small := RegexSmall.Matcher(g, text, range, nmatch, flags);
    large := RegexLarge.Matcher(g, text, range, nmatch, flags);
    if range.None? {
      CorrectUnique(g, text, 0, |text|, nmatch, small, large);
    } else if range.value.0 <= range.value.1 {
      CorrectUnique(g, text, range.value.0, range.value.1, nmatch, small, large);
    }
  }

  /** From the same states, a step over the mask and one over the vector lead to the same states. */
  method StepsAgree(s: Strip, start: int, stop: int, ch: Input, bef: bv32, aft: bv32, vbef: array<bool>, vaft: array<bool>)
    returns (r: bv32)
    requires 0 < start <= stop < |s| <= WIDTH && WellNested(s, start, stop)
    requires vbef.Length == vaft.Length == |s|
    requires vbef != vaft || forall p :: start <= p < stop ==> !Eats(s[p], ch)
    requires Mask(bef) == RegexLarge.Bits(vbef) && Mask(aft) == RegexLarge.Bits(vaft)
    modifies vaft
    ensures Mask(r) == RegexLarge.Bits(vaft)
  {
    hide Mask, RegexLarge.Bits, IsStep;
    ghost var b, a := Mask(bef), Mask(aft);
    r := RegexSmall.Step(s, start, stop, bef, ch, aft);
    RegexLarge.Step(s, start, stop, vbef, ch, vaft);
    StepUnique(s, start, stop, b, ch, a, Mask(r), RegexLarge.Bits(vaft));
  }

  /** The states before each byte of a text, with `add` put in before every step. */
  ghost predicate Run(s: Strip, start: int, stop: int, text: Word, add: States, xs: seq<States>) {
    && |xs| == |text| + 1
    && forall i | 0 <= i < |text| :: IsStep(s, start, stop, xs[i], Ch(text[i]), add, xs[i + 1])
  }

  /** Whatever the representation, the same first states give the same ones after every byte. */
  lemma {:induction false} RunsAgree(s: Strip, start: int, stop: int, text: Word, add: States, xs: seq<States>, ys: seq<States>)
    requires Run(s, start, stop, text, add, xs) && Run(s, start, stop, text, add, ys) && xs[0] == ys[0]
    ensures xs == ys
  {
    hide IsStep;
    var i := 0;
    while i < |text|
      invariant 0 <= i <= |text| && xs[..i + 1] == ys[..i + 1]
    {
      assert xs[i] == xs[..i + 1][i] && ys[i] == ys[..i + 1][i];
      StepUnique(s, start, stop, xs[i], Ch(text[i]), add, xs[i + 1], ys[i + 1]);
      assert xs[..i + 2] == xs[..i + 1] + [xs[i + 1]] && ys[..i + 2] == ys[..i + 1] + [ys[i + 1]];
      i := i + 1;
    }
  }
}
