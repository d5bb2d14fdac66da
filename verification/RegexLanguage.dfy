/** Languages over bytes, and the operations that give a regular expression its meaning. */
module RegexLanguage {
  import opened Basics

  type Word = seq<Byte>
  type Lang = iset<Word>

  ghost const EPSILON: Lang := iset w: Word | w == []

  ghost function Concat(a: Lang, b: Lang): Lang {
    iset w: Word | Splits(a, b, w)
  }

  ghost predicate Splits(a: Lang, b: Lang, w: Word) {
    exists i :: 0 <= i <= |w| && w[..i] in a && w[i..] in b
  }

  /** The words that are `k` words of `a` in a row. */
  ghost function Power(a: Lang, k: nat): Lang {
    if k == 0 then EPSILON else Concat(a, Power(a, k - 1))
  }

  /** At least `from` and, when `to` bounds it, at most `to` words of `a` in a row. */
  datatype Bound = AtMost(n: nat) | Unbounded

  ghost predicate Within(from: nat, k: nat, to: Bound) {
    from <= k && (to.AtMost? ==> k <= to.n)
  }

  ghost function Repeated(a: Lang, from: nat, to: Bound): Lang {
    iset w: Word | Repeats(a, from, to, w)
  }

  ghost predicate Repeats(a: Lang, from: nat, to: Bound, w: Word) {
    exists k: nat :: Within(from, k, to) && w in Power(a, k)
  }

  // ----- Membership -----

  lemma {:induction false} ConcatIntro(a: Lang, b: Lang, u: Word, v: Word)
    requires u in a && v in b
    ensures u + v in Concat(a, b)
  {
    var w := u + v;
    assert w[..|u|] == u && w[|u|..] == v;
  }

  lemma {:induction false} ConcatElim(a: Lang, b: Lang, w: Word) returns (u: Word, v: Word)
    requires w in Concat(a, b)
    ensures u in a && v in b && w == u + v
  {
    var i :| 0 <= i <= |w| && w[..i] in a && w[i..] in b;
    u, v := w[..i], w[i..];
  }

  lemma {:induction false} RepeatedIntro(a: Lang, from: nat, to: Bound, k: nat, w: Word)
    requires Within(from, k, to) && w in Power(a, k)
    ensures w in Repeated(a, from, to)
  {
  }

  lemma {:induction false} ConcatEpsilonMember(a: Lang, w: Word)
    ensures w in Concat(EPSILON, a) <==> w in a
    ensures w in Concat(a, EPSILON) <==> w in a
  {
    if w in a {
      ConcatIntro(EPSILON, a, [], w);
      ConcatIntro(a, EPSILON, w, []);
      assert [] + w == w == w + [];
    }
    if w in Concat(EPSILON, a) {
      var u, v := ConcatElim(EPSILON, a, w);
      assert w == v;
    }
    if w in Concat(a, EPSILON) {
      var u, v := ConcatElim(a, EPSILON, w);
      assert w == u;
    }
  }

  lemma {:induction false} ConcatEpsilon(a: Lang)
    ensures Concat(EPSILON, a) == a
    ensures Concat(a, EPSILON) == a
  {
    forall w: Word {
      ConcatEpsilonMember(a, w);
    }
  }

  lemma {:induction false} PowerOne(a: Lang)
    ensures Power(a, 1) == a
  {
    ConcatEpsilon(a);
  }

  // ----- The unfoldings of a bounded repetition -----

  lemma {:induction false} RepeatedZero(a: Lang)
    ensures Repeated(a, 0, AtMost(0)) == EPSILON
  {
    forall w: Word
      ensures w in Repeated(a, 0, AtMost(0)) <==> w in EPSILON
    {
      if w in EPSILON {
        RepeatedIntro(a, 0, AtMost(0), 0, w);
      }
    }
  }

  lemma {:induction false} RepeatedOne(a: Lang)
    ensures Repeated(a, 1, AtMost(1)) == a
  {
    PowerOne(a);
    forall w: Word
      ensures w in Repeated(a, 1, AtMost(1)) <==> w in a
    {
      if w in a {
        RepeatedIntro(a, 1, AtMost(1), 1, w);
      }
    }
  }

  /** x{n,n} is n words of x in a row. */
  lemma {:induction false} RepeatedExact(a: Lang, n: nat)
    ensures Repeated(a, n, AtMost(n)) == Power(a, n)
  {
    forall w: Word
      ensures w in Repeated(a, n, AtMost(n)) <==> w in Power(a, n)
    {
      if w in Power(a, n) {
        RepeatedIntro(a, n, AtMost(n), n, w);
      }
    }
  }

  /** x{0,n} is x{1,n} or nothing. */
  lemma {:induction false} RepeatedOptional(a: Lang, to: Bound)
    requires Within(1, 1, to)
    ensures Repeated(a, 0, to) == Repeated(a, 1, to) + EPSILON
  {
    forall w: Word
      ensures w in Repeated(a, 0, to) <==> w in Repeated(a, 1, to) + EPSILON
    {
      if w in EPSILON {
        RepeatedIntro(a, 0, to, 0, w);
      }
      if w in Repeated(a, 1, to) {
        var k: nat :| Within(1, k, to) && w in Power(a, k);
        RepeatedIntro(a, 0, to, k, w);
      }
      if w in Repeated(a, 0, to) {
        var k: nat :| Within(0, k, to) && w in Power(a, k);
        if k > 0 {
          RepeatedIntro(a, 1, to, k, w);
        }
      }
    }
  }

  function Less(to: Bound): Bound
    requires Within(1, 1, to)
  {
    if to.AtMost? then AtMost(to.n - 1) else Unbounded
  }

  lemma {:induction false} PeelOff(a: Lang, from: nat, to: Bound, w: Word)
    requires Within(1, from, to) && w in Repeated(a, from, to)
    ensures w in Concat(a, Repeated(a, from - 1, Less(to)))
  {
    var k: nat :| Within(from, k, to) && w in Power(a, k);
    var u, v := ConcatElim(a, Power(a, k - 1), w);
    RepeatedIntro(a, from - 1, Less(to), k - 1, v);
    ConcatIntro(a, Repeated(a, from - 1, Less(to)), u, v);
  }

  lemma {:induction false} PutBack(a: Lang, from: nat, to: Bound, w: Word)
    requires Within(1, from, to) && w in Concat(a, Repeated(a, from - 1, Less(to)))
    ensures w in Repeated(a, from, to)
  {
    var u, v := ConcatElim(a, Repeated(a, from - 1, Less(to)), w);
    var k: nat :| Within(from - 1, k, Less(to)) && v in Power(a, k);
    ConcatIntro(a, Power(a, k), u, v);
    RepeatedIntro(a, from, to, k + 1, w);
  }

  /** x{m,n} is one x, then x{m-1,n-1}. */
  lemma {:induction false} RepeatedPeel(a: Lang, from: nat, to: Bound)
    requires Within(1, from, to)
    ensures Repeated(a, from, to) == Concat(a, Repeated(a, from - 1, Less(to)))
  {
    forall w: Word
      ensures w in Repeated(a, from, to) <==> w in Concat(a, Repeated(a, from - 1, Less(to)))
    {
      if w in Repeated(a, from, to) {
        PeelOff(a, from, to, w);
      }
      if w in Concat(a, Repeated(a, from - 1, Less(to))) {
        PutBack(a, from, to, w);
      }
    }
  }

  lemma {:induction false} StaggerUp(a: Lang, n: nat, w: Word)
    requires 2 <= n && w in Repeated(a, 1, AtMost(n))
    ensures w in Concat(a + EPSILON, Repeated(a, 1, AtMost(n - 1)))
  {
    var shorter := Repeated(a, 1, AtMost(n - 1));
    var k: nat :| Within(1, k, AtMost(n)) && w in Power(a, k);
    if k == 1 {
      RepeatedIntro(a, 1, AtMost(n - 1), 1, w);
      ConcatIntro(a + EPSILON, shorter, [], w);
      assert [] + w == w;
    } else {
      var u, v := ConcatElim(a, Power(a, k - 1), w);
      RepeatedIntro(a, 1, AtMost(n - 1), k - 1, v);
      ConcatIntro(a + EPSILON, shorter, u, v);
    }
  }

  lemma {:induction false} StaggerDown(a: Lang, n: nat, w: Word)
    requires 2 <= n && w in Concat(a + EPSILON, Repeated(a, 1, AtMost(n - 1)))
    ensures w in Repeated(a, 1, AtMost(n))
  {
    var u, v := ConcatElim(a + EPSILON, Repeated(a, 1, AtMost(n - 1)), w);
    var k: nat :| Within(1, k, AtMost(n - 1)) && v in Power(a, k);
    if u in a {
      ConcatIntro(a, Power(a, k), u, v);
      RepeatedIntro(a, 1, AtMost(n), k + 1, w);
    } else {
      assert w == v;
      RepeatedIntro(a, 1, AtMost(n), k, v);
    }
  }

  /** x{1,n} with n at least 2 is an optional x, then x{1,n-1}. */
  lemma {:induction false} RepeatedStagger(a: Lang, n: nat)
    requires 2 <= n
    ensures Repeated(a, 1, AtMost(n)) == Concat(a + EPSILON, Repeated(a, 1, AtMost(n - 1)))
  {
    forall w: Word
      ensures w in Repeated(a, 1, AtMost(n)) <==> w in Concat(a + EPSILON, Repeated(a, 1, AtMost(n - 1)))
    {
      if w in Repeated(a, 1, AtMost(n)) {
        StaggerUp(a, n, w);
      }
      if w in Concat(a + EPSILON, Repeated(a, 1, AtMost(n - 1))) {
        StaggerDown(a, n, w);
      }
    }
  }
}
