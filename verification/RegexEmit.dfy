/** The parse structure and the operations that build the strip in place. */
module RegexEmit {
  import opened Basics
  import opened RegexLanguage
  import opened RegexStrip
  import opened RegexScan
  import opened RegexCode

  const DUPMAX := 255
  const INFINITY := DUPMAX + 1

  // ----- The code of a bounded repetition -----

  /** `y?` is laid out as `(y|)`. */
  function Optional(x: Code): Code {
    Choice(x, Last(Empty))
  }

  function RepeatCode(x: Code, from: nat, to: nat): Code
    requires from <= to
    decreases from == 0, to, from
  {
    if to == 0 then Empty
    else if from == 0 then Optional(RepeatCode(x, 1, to))
    else if from == 1 && to == 1 then x
    else if from == 1 && to == INFINITY then Plus(x)
    else if from == 1 then Cat(Optional(x), RepeatCode(x, 1, to - 1))
    else if to == INFINITY then Cat(x, RepeatCode(x, from - 1, to))
    else Cat(x, RepeatCode(x, from - 1, to - 1))
  }

  function UpTo(to: nat): Bound {
    if to == INFINITY then Unbounded else AtMost(to)
  }

  /** The code of x{from,to} means from `from` to `to` words of x in a row. */
  lemma {:induction false} RepeatMeaning(x: Code, from: nat, to: nat)
    requires from <= to <= INFINITY && from <= DUPMAX
    ensures Meaning(RepeatCode(x, from, to)) == Repeated(Meaning(x), from, UpTo(to))
    decreases from == 0, to, from
  {
    var a := Meaning(x);
    if to == 0 {
      RepeatedZero(a);
    } else if from == 0 {
      RepeatMeaning(x, 1, to);
      RepeatedOptional(a, UpTo(to));
    } else if from == 1 && to == 1 {
      RepeatedOne(a);
    } else if from == 1 && to == INFINITY {
    } else if from == 1 {
      RepeatMeaning(x, 1, to - 1);
      RepeatedStagger(a, to);
      assert Meaning(Optional(x)) == a + EPSILON;
    } else if to == INFINITY {
      RepeatMeaning(x, from - 1, to);
      RepeatedPeel(a, from, Unbounded);
    } else {
      RepeatMeaning(x, from - 1, to - 1);
      RepeatedPeel(a, from, AtMost(to));
    }
  }

  // ----- In-place construction -----

  /** The operator with its forward offset filled in. */
  function Aimed(op: Sop, fwd: nat): Sop {
    match op
    case OCH_(_) => OCH_(fwd)
    case OOR2(_) => OOR2(fwd)
    case _ => op
  }

  /** Where the aimed operator lies. */
  lemma {:induction false} AimAt(pre: Strip, op: Sop, post: Strip, s: Strip)
    requires s == pre + [op] + post
    ensures s[|pre|] == op
    ensures forall op' :: s[|pre| := op'] == pre + [op'] + post
  {
  }

  lemma {:induction false} Regroup(pre: Strip, h: Sop, f: Strip, a: Sop, b: Sop, c: Sop)
    ensures pre + (([h] + f) + ([a, b] + [] + [c])) == pre + [h] + (f + [a]) + [b] + [] + [c]
  {
  }

  lemma {:induction false} EmptyBranch(n: nat)
    ensures FlatRest(Last(Empty), n) == [OOR1(n), OOR2(1)] + [] + [O_CH(2)]
  {
    EmptyLayout();
  }

  lemma {:induction false} OptionalLayout(pre: Strip, x: Code)
    ensures var f := Flat(x);
      pre + Flat(Optional(x)) == pre + [OCH_(|f| + 2)] + (f + [OOR1(|f| + 1)]) + [OOR2(1)] + [] + [O_CH(2)]
  {
    hide Flat, FlatRest;
    var f := Flat(x);
    FlatChoice(x, Last(Empty));
    EmptyBranch(|f| + 1);
    Regroup(pre, OCH_(|f| + 2), f, OOR1(|f| + 1), OOR2(1), O_CH(2));
  }

  lemma {:induction false} CatFlat(pre: Strip, x: Code, y: Code)
    ensures pre + Flat(Cat(x, y)) == (pre + Flat(x)) + Flat(y)
  {
    hide Flat;
    FlatCat(x, y);
  }

  lemma {:induction false} EmptyLayout()
    ensures Flat(Empty) == []
  {
  }

  /** The operand of an optional part begins one operator in. */
  lemma {:induction false} OptionalBody(pre: Strip, x: Code)
    ensures |Flat(Optional(x))| == |Flat(x)| + 4
    ensures (pre + Flat(Optional(x)))[|pre| + 1..|pre| + 1 + |Flat(x)|] == Flat(x)
  {
    hide Flat;
    OptionalLayout(pre, x);
    OptionalLayout([], x);
    SliceMiddle(pre + [OCH_(|Flat(x)| + 2)], Flat(x), [OOR1(|Flat(x)| + 1)] + [OOR2(1)] + [O_CH(2)], pre + Flat(Optional(x)));
  }

  lemma {:induction false} SliceMiddle(a: Strip, b: Strip, c: Strip, s: Strip)
    requires s == a + b + c
    ensures s[|a|..|a| + |b|] == b
  {
  }

  class Parse {
    var input: Word
    var next: nat
    var error: Option<Error>
    var strip: Strip
    var nsub: nat
    const newline: bool

    /** An error stops the scanner; otherwise it is inside the pattern. */
    ghost predicate Valid()
      reads this
    {
      if error.Some? then next >= |input| else next <= |input|
    }

    /** How much of the pattern is left. */
    function Rest(): nat
      reads this
    {
      if next < |input| then |input| - next else 0
    }

    predicate AtChar(c: char)
      requires c < 256 as char
      reads this
    {
      next < |input| && input[next] == c as int
    }

    /** Pass `c` if it comes next. */
    method Eat(c: char) returns (eaten: bool)
      requires c < 256 as char && Valid()
      modifies this`next
      ensures Valid() && eaten == old(AtChar(c))
      ensures next == if eaten then old(next) + 1 else old(next)
    {
      eaten := AtChar(c);
      if eaten {
        next := next + 1;
      }
    }

    constructor (pattern: Word, newline: bool)
      ensures input == pattern && next == 0 && error == None && strip == [] && nsub == 0 && this.newline == newline
    {
      input, next, error, strip, nsub := pattern, 0, None, [], 0;
      this.newline := newline;
    }

    /** Keep the first error, and leave nothing to read. */
    method SetError(e: Error)
      modifies this`input, this`next, this`error
      ensures error == if old(error).None? then Some(e) else old(error)
      ensures input == [] && next == 0
    {
      if error.None? {
        error := Some(e);
      }
      input, next := [], 0;
    }

    method Emit(op: Sop)
      modifies this`strip
      ensures strip == if error.Some? then old(strip) else old(strip) + [op]
    {
      if error.Some? {
        return;
      }
      strip := strip + [op];
    }

    /** Insert an operator at `pos` and move up what follows it. */
    method Insert(op: Sop, pos: nat)
      requires error.None? ==> pos <= |strip|
      modifies this`strip
      ensures strip == if error.Some? then old(strip) else old(strip)[..pos] + [op] + old(strip)[pos..]
    {
      if error.Some? {
        return;
      }
      var sn := |strip|;
      Emit(op);
      var s := strip[sn];
      strip := strip[..pos] + [s] + strip[pos..sn];
    }

    /** Aim the operator at `pos` at the end of the strip. */
    method Ahead(pos: nat)
      requires error.None? ==> pos < |strip|
      modifies this`strip
      ensures strip == if error.Some? then old(strip) else old(strip)[pos := Aimed(old(strip)[pos], |old(strip)| - pos)]
    {
      if error.Some? {
        return;
      }
      strip := strip[pos := Aimed(strip[pos], |strip| - pos)];
    }

    /** Emit a copy of a part of the strip. */
    method Dupl(start: nat, finish: nat) returns (ret: nat)
      requires start <= finish <= |strip|
      modifies this`strip
      ensures ret == |old(strip)| && strip == old(strip) + old(strip)[start..finish]
    {
      ret := |strip|;
      strip := strip + strip[start..finish];
    }

    /** Put the block at the end of the strip in a loop. */
    method MakePlus(pos: nat, ghost x: Code)
      requires error.None? && pos <= |strip| && strip[pos..] == Flat(x)
      modifies this`strip
      ensures strip == old(strip)[..pos] + Flat(Plus(x))
    {
      FlatLoops(x);
      hide Flat;
      Insert(OPLUS_(|strip| - pos + 1), pos);
      Emit(O_PLUS(|strip| - pos));
    }

    /** Make the block at the end of the strip optional. */
    method MakeQuest(pos: nat, ghost x: Code)
      requires error.None? && pos <= |strip| && strip[pos..] == Flat(x)
      modifies this`strip
      ensures strip == old(strip)[..pos] + Flat(Quest(x))
    {
      FlatLoops(x);
      hide Flat;
      Insert(OQUEST_(|strip| - pos + 1), pos);
      Emit(O_QUEST(|strip| - pos));
    }

    /** Close the choice that an OCH_ at `pos` began, with an empty second branch. */
    method CloseOptional(pos: nat, fwd: nat, ghost pre: Strip, ghost x: Code)
      requires error.None? && pos == |pre| && strip == pre + [OCH_(fwd)] + Flat(x)
      modifies this`strip
      ensures strip == pre + Flat(Optional(x))
    {
      hide Flat;
      ghost var f := Flat(x);
      Emit(OOR1(|strip| - pos));
      assert strip == pre + [OCH_(fwd)] + (f + [OOR1(|f| + 1)]);
      AimAt(pre, OCH_(fwd), f + [OOR1(|f| + 1)], strip);
      Ahead(pos);
      EmitTail(strip);
      OptionalLayout(pre, x);
    }

    /** The empty second branch. */
    method EmitTail(ghost head: Strip)
      requires error.None? && strip == head
      modifies this`strip
      ensures strip == head + [OOR2(1)] + [] + [O_CH(2)]
    {
      Emit(OOR2(0));
      AimAt(head, OOR2(0), [], strip);
      Ahead(|strip| - 1);
      Emit(O_CH(2));
    }

    /** Make the block at the end of the strip optional, as a choice. */
    method MakeOptional(pos: nat, ghost x: Code)
      requires error.None? && pos <= |strip| && strip[pos..] == Flat(x)
      modifies this`strip
      ensures strip == old(strip)[..pos] + Flat(Optional(x))
    {
      ghost var pre := strip[..pos];
      var fwd := |strip| - pos + 1;
      Insert(OCH_(fwd), pos);
      CloseOptional(pos, fwd, pre, x);
    }

    /** Turn the last block of the strip into the code of its repetition. */
    method Repeat(start: nat, from: nat, to: nat, ghost x: Code)
      requires error.None? && start <= |strip| && strip[start..] == Flat(x)
      requires from <= to <= INFINITY && from <= DUPMAX
      modifies this`strip
      ensures strip == old(strip)[..start] + Flat(RepeatCode(x, from, to))
      decreases from == 0, to, from, 0
    {
      hide Flat;
      var finish := |strip|;
      ghost var pre := strip[..start];
      assert strip == pre + Flat(x);
      if to == 0 {
        EmptyLayout();
        strip := strip[..start];  // nothing is left of the block
      } else if from == 0 {  // optional, and then at least once
        var fwd := |strip| - start + 1;
        Insert(OCH_(fwd), start);
        assert strip[..start + 1] == pre + [OCH_(fwd)];
        Repeat(start + 1, 1, to, x);
        CloseOptional(start, fwd, pre, RepeatCode(x, 1, to));
      } else if from == 1 && to == 1 {
      } else if from == 1 && to < INFINITY {  // an optional copy before one fewer
        MakeOptional(start, x);
        OptionalBody(pre, x);
        var copy := Dupl(start + 1, finish + 1);
        assert copy == finish + 4;
        RepeatOn(copy, 1, to - 1, x, pre, Optional(x));
      } else if from == 1 {  // one loop
        MakePlus(start, x);
      } else {  // a copy before one fewer
        var copy := Dupl(start, finish);
        RepeatOn(copy, from - 1, if to == INFINITY then to else to - 1, x, pre, x);
      }
    }

    /** Repeat a copy that lies behind the block of `y`. */
    method RepeatOn(copy: nat, from: nat, to: nat, ghost x: Code, ghost pre: Strip, ghost y: Code)
      requires error.None? && copy == |pre + Flat(y)| && strip == pre + Flat(y) + Flat(x)
      requires from <= to <= INFINITY && 1 <= from <= DUPMAX
      modifies this`strip
      ensures strip == pre + Flat(Cat(y, RepeatCode(x, from, to)))
      decreases false, to, from, 1
    {
      hide RepeatCode, Flat;
      assert strip[copy..] == Flat(x) && strip[..copy] == pre + Flat(y);
      Repeat(copy, from, to, x);
      CatFlat(pre, y, RepeatCode(x, from, to));
    }
  }
}
