/** The layout of a choice while its branches are still being parsed. */
module RegexChoice {
  import opened Basics
  import opened RegexLanguage
  import opened RegexStrip
  import opened RegexCode

  /** The finished branches after the first; each is followed by another branch. */
  function FlatMids(codes: seq<Code>, back: nat): Strip {
    if codes == [] then []
    else [OOR1(back), OOR2(Len(codes[0]) + 2)] + Flat(codes[0]) + FlatMids(codes[1..], Len(codes[0]) + 2)
  }

  function LastBack(codes: seq<Code>, back: nat): nat {
    if codes == [] then back else Len(codes[|codes| - 1]) + 2
  }

  /** A choice of which the next branch is yet to come: the last offset is still open. */
  function OpenFlat(codes: seq<Code>): Strip
    requires codes != []
  {
    var back := Len(codes[0]) + 1;
    [OCH_(Len(codes[0]) + 2)] + Flat(codes[0]) + FlatMids(codes[1..], back) + [OOR1(LastBack(codes[1..], back)), OOR2(0)]
  }

  function ToBranches(codes: seq<Code>, y: Code): Branches {
    if codes == [] then Last(y) else More(codes[0], ToBranches(codes[1..], y))
  }

  lemma {:induction false} MidsAppend(codes: seq<Code>, y: Code, back: nat)
    ensures FlatMids(codes + [y], back) == FlatMids(codes, back) + ([OOR1(LastBack(codes, back)), OOR2(Len(y) + 2)] + Flat(y))
    ensures LastBack(codes + [y], back) == Len(y) + 2
    decreases |codes|
  {
    hide Flat, Len;
    var all := codes + [y];
    if codes == [] {
      assert all[1..] == [];
      assert FlatMids(all[1..], Len(y) + 2) == [];
    } else {
      assert all[1..] == codes[1..] + [y];
      MidsAppend(codes[1..], y, Len(codes[0]) + 2);
      LastBackStep(codes, back);
      Associate([OOR1(back), OOR2(Len(codes[0]) + 2)] + Flat(codes[0]), FlatMids(codes[1..], Len(codes[0]) + 2),
                [OOR1(LastBack(codes, back)), OOR2(Len(y) + 2)] + Flat(y));
    }
  }

  lemma {:induction false} LastBackStep(codes: seq<Code>, back: nat)
    requires codes != []
    ensures LastBack(codes[1..], Len(codes[0]) + 2) == LastBack(codes, back)
  {
  }

  lemma {:induction false} Associate(a: Strip, b: Strip, c: Strip)
    ensures a + (b + c) == a + b + c
  {
  }

  /** Closing a choice with its last branch gives the layout of the whole choice. */
  lemma {:induction false} RestFlat(codes: seq<Code>, y: Code, back: nat)
    ensures FlatRest(ToBranches(codes, y), back) ==
      FlatMids(codes, back) + ([OOR1(LastBack(codes, back)), OOR2(Len(y) + 1)] + Flat(y) + [O_CH(Len(y) + 2)])
    decreases |codes|
  {
    hide Flat, Len;
    if codes != [] {
      RestFlat(codes[1..], y, Len(codes[0]) + 2);
      LastBackStep(codes, back);
      LenIs(codes[0]);
      Associate([OOR1(back), OOR2(Len(codes[0]) + 2)] + Flat(codes[0]), FlatMids(codes[1..], Len(codes[0]) + 2),
                [OOR1(LastBack(codes, back)), OOR2(Len(y) + 1)] + Flat(y) + [O_CH(Len(y) + 2)]);
    } else {
      LenIs(y);
    }
  }

  lemma {:induction false} LenIs(c: Code)
    ensures Len(c) == |Flat(c)|
  {
  }
}
