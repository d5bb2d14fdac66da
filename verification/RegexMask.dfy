/** Sets of at most 32 states as the bits of a machine word. */
module RegexMask {
  import opened RegexStates

  const WIDTH := 32

  /** The word with just the bit of state `n`. */
  function One(n: nat): bv32 {
    if n == 0 then 1 else One(n - 1) << 1
  }

  /** A shift by `n` places, one place at a time. */
  function ShiftLeft(m: bv32, n: nat): bv32 {
    if n == 0 then m else ShiftLeft(m, n - 1) << 1
  }

  function ShiftRight(m: bv32, n: nat): bv32 {
    if n == 0 then m else ShiftRight(m, n - 1) >> 1
  }

  /** The macros of the small state representation. */
  predicate IsSet(v: bv32, o: bv32) {
    Both(v, o) != 0
  }

  function Set(v: bv32, o: bv32): bv32 {
    v | o
  }

  function Both(v: bv32, o: bv32): bv32 {
    v & o
  }

  function Forward(dst: bv32, src: bv32, here: bv32, n: nat): bv32 {
    Set(dst, ShiftLeft(Both(src, here), n))
  }

  function Back(dst: bv32, src: bv32, here: bv32, n: nat): bv32 {
    Set(dst, ShiftRight(Both(src, here), n))
  }

  predicate IsSetBack(v: bv32, here: bv32, n: nat) {
    IsSet(v, ShiftRight(here, n))
  }

  predicate Has(m: bv32, n: int) {
    0 <= n < WIDTH && IsSet(m, One(n))
  }

  ghost function Mask(m: bv32): States {
    set i | 0 <= i < WIDTH && Has(m, i)
  }

  // ----- Words with one bit -----

  predicate OneBit(x: bv32) {
    x != 0 && x & (x - 1) == 0
  }

  lemma {:induction false} OneTable()
    ensures One(0) == 0x1 && One(1) == 0x2 && One(2) == 0x4 && One(3) == 0x8
    ensures One(4) == 0x10 && One(5) == 0x20 && One(6) == 0x40 && One(7) == 0x80
    ensures One(8) == 0x100 && One(9) == 0x200 && One(10) == 0x400 && One(11) == 0x800
    ensures One(12) == 0x1000 && One(13) == 0x2000 && One(14) == 0x4000 && One(15) == 0x8000
    ensures One(16) == 0x10000 && One(17) == 0x20000 && One(18) == 0x40000 && One(19) == 0x80000
    ensures One(20) == 0x100000 && One(21) == 0x200000 && One(22) == 0x400000 && One(23) == 0x800000
    ensures One(24) == 0x1000000 && One(25) == 0x2000000 && One(26) == 0x4000000 && One(27) == 0x8000000
    ensures One(28) == 0x10000000 && One(29) == 0x20000000 && One(30) == 0x40000000 && One(31) == 0x80000000
  {
  }

  lemma {:induction false} OneHasOneBit(n: nat)
    requires n < WIDTH
    ensures OneBit(One(n)) && (n < WIDTH - 1 ==> One(n) < 0x8000_0000)
  {
    OneTable();
  }

  lemma {:induction false} Doubled(x: bv32)
    requires OneBit(x) && x < 0x8000_0000
    ensures x < x << 1 && (x << 1) >> 1 == x
  {
  }

  lemma {:induction false} OneIncreases(n: nat, k: nat)
    requires n < k < WIDTH
    ensures One(n) < One(k)
    decreases k
  {
    OneHasOneBit(k - 1);
    Doubled(One(k - 1));
    if n < k - 1 {
      OneIncreases(n, k - 1);
    }
  }

  lemma {:induction false} DisjointBits(x: bv32, y: bv32)
    requires OneBit(x) && OneBit(y) && x != y
    ensures x & y == 0
  {
  }

  lemma {:induction false} AndOneBit(m: bv32, x: bv32)
    requires OneBit(x)
    ensures m & x == 0 || m & x == x
  {
  }

  /** Two words with one bit have it in common only if they are the same. */
  lemma {:induction false} OneDistinct(n: nat, k: nat)
    requires n < WIDTH && k < WIDTH
    ensures IsSet(One(n), One(k)) <==> n == k
  {
    hide One;
    OneHasOneBit(n);
    OneHasOneBit(k);
    if n < k {
      OneIncreases(n, k);
      DisjointBits(One(n), One(k));
    } else if k < n {
      OneIncreases(k, n);
      DisjointBits(One(n), One(k));
    } else {
      AndItself(One(n));
    }
  }

  lemma {:induction false} AndItself(x: bv32)
    ensures x & x == x
  {
  }

  lemma {:induction false} ShiftLeftOne(p: nat, n: nat)
    ensures ShiftLeft(One(p), n) == One(p + n)
    decreases n
  {
    if n > 0 {
      ShiftLeftOne(p, n - 1);
    }
  }

  lemma {:induction false} ShiftZero(n: nat)
    ensures ShiftLeft(0, n) == 0 && ShiftRight(0, n) == 0
  {
    if n > 0 {
      ShiftZero(n - 1);
    }
  }

  lemma {:induction false} ShiftRightOne(p: nat, n: nat)
    requires n <= p < WIDTH
    ensures ShiftRight(One(p), n) == One(p - n)
    decreases n
  {
    if n > 0 {
      ShiftRightOne(p, n - 1);
      OneHasOneBit(p - n);
      Doubled(One(p - n));
    }
  }

  // ----- The operations of the engine -----

  lemma {:induction false} Distribute(d: bv32, e: bv32, f: bv32)
    ensures Both(Set(d, e), f) == Set(Both(d, f), Both(e, f))
  {
  }

  lemma {:induction false} SetNonzero(d: bv32, e: bv32)
    ensures Set(d, e) != 0 <==> d != 0 || e != 0
  {
  }

  lemma {:induction false} IsSetSet(d: bv32, e: bv32, f: bv32)
    ensures IsSet(Set(d, e), f) <==> IsSet(d, f) || IsSet(e, f)
  {
    hide Set, Both;
    Distribute(d, e, f);
    SetNonzero(Both(d, f), Both(e, f));
  }

  lemma {:induction false} SetHas(m: bv32, n: nat, i: nat)
    requires n < WIDTH && i < WIDTH
    ensures Has(Set(m, One(n)), i) <==> Has(m, i) || i == n
  {
    hide One, Set, IsSet;
    IsSetSet(m, One(n), One(i));
    OneDistinct(n, i);
  }

  /** Adding state `n` to a word. */
  lemma {:induction false} SetMask(m: bv32, n: nat)
    requires n < WIDTH
    ensures Mask(Set(m, One(n))) == Mask(m) + {n}
  {
    hide One, Set, Has;
    forall i: nat | i < WIDTH {
      SetHas(m, n, i);
    }
  }

  lemma {:induction false} SetZero(m: bv32)
    ensures Set(m, 0) == m
  {
  }

  lemma {:induction false} BothOneBit(m: bv32, x: bv32)
    requires OneBit(x)
    ensures Both(m, x) == if IsSet(m, x) then x else 0
  {
    hide OneBit;
    AndOneBit(m, x);
  }

  lemma {:induction false} BothHere(src: bv32, pc: nat)
    requires pc < WIDTH
    ensures Both(src, One(pc)) == if Has(src, pc) then One(pc) else 0
  {
    hide One, OneBit, Both, IsSet;
    OneHasOneBit(pc);
    BothOneBit(src, One(pc));
  }

  /** From the present state to the one `n` further on. */
  lemma {:induction false} ForwardMask(dst: bv32, src: bv32, pc: nat, n: nat)
    requires pc + n < WIDTH
    ensures Mask(Forward(dst, src, One(pc), n)) == Mask(dst) + (if Has(src, pc) then {pc + n} else {})
  {
    hide One, ShiftLeft, Has, Mask, Set, Both;
    BothHere(src, pc);
    if Has(src, pc) {
      ShiftLeftOne(pc, n);
      SetMask(dst, pc + n);
    } else {
      ShiftZero(n);
      SetZero(dst);
    }
  }

  /** The same, `n` states back. */
  lemma {:induction false} BackMask(dst: bv32, src: bv32, pc: nat, n: nat)
    requires n <= pc < WIDTH
    ensures Mask(Back(dst, src, One(pc), n)) == Mask(dst) + (if Has(src, pc) then {pc - n} else {})
  {
    hide One, ShiftRight, Has, Mask, Set, Both;
    BothHere(src, pc);
    if Has(src, pc) {
      ShiftRightOne(pc, n);
      SetMask(dst, pc - n);
    } else {
      ShiftZero(n);
      SetZero(dst);
    }
  }

  lemma {:induction false} BackTest(v: bv32, pc: nat, n: nat)
    requires n <= pc < WIDTH
    ensures IsSetBack(v, One(pc), n) <==> Has(v, pc - n)
  {
    hide One, ShiftRight, IsSet;
    ShiftRightOne(pc, n);
  }

  lemma {:induction false} NextOne(n: nat)
    ensures One(n + 1) == One(n) << 1
  {
  }

  lemma {:induction false} HasMask(v: bv32, n: int)
    ensures Has(v, n) <==> n in Mask(v)
  {
    hide One, IsSet;
  }

  lemma {:induction false} HereTest(v: bv32, pc: nat)
    requires pc < WIDTH
    ensures IsSet(v, One(pc)) <==> pc in Mask(v)
  {
    hide One, IsSet;
  }

  lemma {:induction false} ZeroMask()
    ensures Mask(0) == {}
  {
    hide One, IsSet;
    forall i: nat | i < WIDTH
      ensures !Has(0, i)
    {
      ZeroIsSet(One(i));
    }
  }

  lemma {:induction false} ZeroIsSet(x: bv32)
    ensures !IsSet(0, x)
  {
  }

  // ----- Comparing -----

  predicate Agree(a: bv32, b: bv32, x: bv32) {
    IsSet(a, x) <==> IsSet(b, x)
  }

  lemma {:induction false} AgreeOnAll(a: bv32, b: bv32)
    requires Agree(a, b, 0x1) && Agree(a, b, 0x2) && Agree(a, b, 0x4) && Agree(a, b, 0x8)
    requires Agree(a, b, 0x10) && Agree(a, b, 0x20) && Agree(a, b, 0x40) && Agree(a, b, 0x80)
    requires Agree(a, b, 0x100) && Agree(a, b, 0x200) && Agree(a, b, 0x400) && Agree(a, b, 0x800)
    requires Agree(a, b, 0x1000) && Agree(a, b, 0x2000) && Agree(a, b, 0x4000) && Agree(a, b, 0x8000)
    requires Agree(a, b, 0x10000) && Agree(a, b, 0x20000) && Agree(a, b, 0x40000) && Agree(a, b, 0x80000)
    requires Agree(a, b, 0x100000) && Agree(a, b, 0x200000) && Agree(a, b, 0x400000) && Agree(a, b, 0x800000)
    requires Agree(a, b, 0x1000000) && Agree(a, b, 0x2000000) && Agree(a, b, 0x4000000) && Agree(a, b, 0x8000000)
    requires Agree(a, b, 0x10000000) && Agree(a, b, 0x20000000) && Agree(a, b, 0x40000000) && Agree(a, b, 0x80000000)
    ensures a == b
  {
  }

  /** Words are equal exactly if they hold the same states. */
  lemma {:induction false} MaskInjective(a: bv32, b: bv32)
    ensures a == b <==> Mask(a) == Mask(b)
  {
    hide One, Agree;
    if Mask(a) == Mask(b) {
      forall i: nat | i < WIDTH
        ensures Agree(a, b, One(i))
      {
        AgreeAt(a, b, i);
      }
      OneTable();
      AgreeOnAll(a, b);
    }
  }

  lemma {:induction false} AgreeAt(a: bv32, b: bv32, i: nat)
    requires i < WIDTH && Mask(a) == Mask(b)
    ensures Agree(a, b, One(i))
  {
    hide One, IsSet;
    assert i in Mask(a) <==> Has(a, i);
    assert i in Mask(b) <==> Has(b, i);
  }
}
