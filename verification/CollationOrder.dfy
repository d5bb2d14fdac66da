/** The order of strings by the weights of their characters, with zero weights at the end ignored. */
module CollationOrder {

  predicate AllZero(u: seq<nat>) {
    forall i | 0 <= i < |u| :: u[i] == 0
  }

  /** The weight at a place, zero past the end. */
  function Padded(u: seq<nat>, i: nat): nat {
    if i < |u| then u[i] else 0
  }

  /** -1, 0 or 1: the first place where the weights differ decides, then what is left over. */
  function Order(u: seq<nat>, v: seq<nat>): int {
    if u == [] || v == [] then
      if !AllZero(v) then -1 else if !AllZero(u) then 1 else 0
    else if u[0] != v[0] then
      if u[0] < v[0] then -1 else 1
    else Order(u[1..], v[1..])
  }

  /** The first place where `u` is smaller than `v`. */
  ghost predicate LessAt(u: seq<nat>, v: seq<nat>, i: nat) {
    Padded(u, i) < Padded(v, i) && forall j: nat | j < i :: Padded(u, j) == Padded(v, j)
  }

  ghost predicate Less(u: seq<nat>, v: seq<nat>) {
    exists i :: LessAt(u, v, i)
  }

  lemma {:induction false} LessTail(u: seq<nat>, v: seq<nat>, i: nat)
    requires u != [] && v != [] && u[0] == v[0] && LessAt(u[1..], v[1..], i)
    ensures LessAt(u, v, i + 1)
  {
    forall j: nat | j < i + 1
      ensures Padded(u, j) == Padded(v, j)
    {
      if j > 0 {
        assert Padded(u, j) == Padded(u[1..], j - 1) && Padded(v, j) == Padded(v[1..], j - 1);
      }
    }
  }

  lemma {:induction false} LessHead(u: seq<nat>, v: seq<nat>, i: nat)
    requires u != [] && v != [] && u[0] == v[0] && LessAt(u, v, i)
    ensures i > 0 && LessAt(u[1..], v[1..], i - 1)
  {
    if i == 0 {
      assert false;
    } else {
      forall j: nat | j < i - 1
        ensures Padded(u[1..], j) == Padded(v[1..], j)
      {
        assert Padded(u, j + 1) == Padded(v, j + 1);
      }
    }
  }

  /** A string that is not all zeros has a first weight that is not. */
  lemma {:induction false} FirstWeight(u: seq<nat>) returns (i: nat)
    requires !AllZero(u)
    ensures i < |u| && u[i] > 0 && AllZero(u[..i])
  {
    if u[0] > 0 {
      i := 0;
    } else {
      i := FirstWeight(u[1..]);
      assert u[1..][..i] == u[1..i + 1];
      assert u[..i + 1] == [u[0]] + u[1..i + 1];
      i := i + 1;
    }
  }

  lemma {:induction false} EndedIsLess(u: seq<nat>, v: seq<nat>)
    requires (u == [] || v == []) && !AllZero(v)
    ensures Less(u, v)
  {
    var i := FirstWeight(v);
    assert forall j: nat | j < i :: v[j] == v[..i][j];
    assert LessAt(u, v, i);
  }

  /** The order is that of the padded weights. */
  lemma {:induction false} OrderIsLess(u: seq<nat>, v: seq<nat>)
    ensures Order(u, v) < 0 <==> Less(u, v)
    ensures Order(u, v) > 0 <==> Less(v, u)
    decreases |u|
  {
    if u == [] || v == [] {
      if !AllZero(v) {
        EndedIsLess(u, v);
        NotBoth(u, v);
      } else if !AllZero(u) {
        EndedIsLess(v, u);
        NotBoth(v, u);
      }
    } else if u[0] == v[0] {
      SameHead(u, v);
    } else if u[0] < v[0] {
      assert LessAt(u, v, 0);
      NotBoth(u, v);
    } else {
      assert LessAt(v, u, 0);
      NotBoth(v, u);
    }
  }

  lemma {:induction false} SameHead(u: seq<nat>, v: seq<nat>)
    requires u != [] && v != [] && u[0] == v[0]
    ensures Order(u, v) < 0 <==> Less(u, v)
    ensures Order(u, v) > 0 <==> Less(v, u)
    decreases |u|, 0
  {
    hide Padded;
    OrderIsLess(u[1..], v[1..]);
    HeadMatters(u, v);
    HeadMatters(v, u);
  }

  lemma {:induction false} HeadMatters(u: seq<nat>, v: seq<nat>)
    requires u != [] && v != [] && u[0] == v[0]
    ensures Less(u, v) <==> Less(u[1..], v[1..])
  {
    hide LessAt;
    if Less(u, v) {
      var i :| LessAt(u, v, i);
      LessHead(u, v, i);
    }
    if Less(u[1..], v[1..]) {
      var i :| LessAt(u[1..], v[1..], i);
      LessTail(u, v, i);
    }
  }

  lemma {:induction false} NotBoth(u: seq<nat>, v: seq<nat>)
    requires Less(u, v)
    ensures !Less(v, u)
  {
    hide Padded;
  }

  // ----- A total preorder -----

  lemma {:induction false} OrderSelf(u: seq<nat>)
    ensures Order(u, u) == 0
  {
    hide LessAt;
    OrderIsLess(u, u);
    if Less(u, u) {
      NotBoth(u, u);
    }
  }

  /** Exchanging the strings turns the order around. */
  lemma {:induction false} OrderTurned(u: seq<nat>, v: seq<nat>)
    ensures Order(u, v) == -Order(v, u)
  {
    if u != [] && v != [] && u[0] == v[0] {
      OrderTurned(u[1..], v[1..]);
    }
  }

  lemma {:induction false} LessChain(u: seq<nat>, v: seq<nat>, w: seq<nat>)
    requires !Less(v, u) && !Less(w, v)
    ensures !Less(w, u)
  {
    hide Padded;
    if Less(w, u) {
      var i :| LessAt(w, u, i);
      FirstDecides(u, v, w, i);
    }
  }

  /** Where w falls below u, a string between them must break with one of them no later. */
  lemma {:induction false} FirstDecides(u: seq<nat>, v: seq<nat>, w: seq<nat>, i: nat)
    requires LessAt(w, u, i)
    ensures Less(w, v) || Less(v, u)
  {
    hide Padded;
    if k: nat :| k < i && Padded(v, k) != Padded(u, k) {
      var m := FirstBreak(u, v, k);
      assert forall j: nat | j < m :: Padded(w, j) == Padded(v, j);
      if Padded(v, m) < Padded(u, m) {
        assert LessAt(v, u, m);
      } else {
        assert LessAt(w, v, m);
      }
    } else if Padded(v, i) < Padded(u, i) {
      assert LessAt(v, u, i);
    } else {
      assert LessAt(w, v, i);
    }
  }

  lemma {:induction false} FirstBreak(u: seq<nat>, v: seq<nat>, k: nat) returns (m: nat)
    requires Padded(v, k) != Padded(u, k)
    ensures m <= k && Padded(v, m) != Padded(u, m) && forall j: nat | j < m :: Padded(u, j) == Padded(v, j)
  {
    hide Padded;
    if j: nat :| j < k && Padded(v, j) != Padded(u, j) {
      m := FirstBreak(u, v, j);
    } else {
      m := k;
    }
  }

  lemma {:induction false} OrderChain(u: seq<nat>, v: seq<nat>, w: seq<nat>)
    requires Order(u, v) <= 0 && Order(v, w) <= 0
    ensures Order(u, w) <= 0
  {
    hide Order, Less;
    OrderIsLess(u, v);
    OrderIsLess(v, w);
    OrderIsLess(u, w);
    LessChain(u, v, w);
  }

  /** Zero weights at the end make no difference. */
  lemma {:induction false} ZerosIgnored(u: seq<nat>, z: seq<nat>, v: seq<nat>)
    requires AllZero(z)
    ensures Order(u + z, v) == Order(u, v) && Order(v, u + z) == Order(v, u)
  {
    hide Order;
    SameOrder(u, u + z, v);
    OrderTurned(u, v);
    OrderTurned(u + z, v);
  }

  lemma {:induction false} SameOrder(u: seq<nat>, t: seq<nat>, v: seq<nat>)
    requires forall i: nat :: Padded(u, i) == Padded(t, i)
    ensures Order(u, v) == Order(t, v)
  {
    hide Padded;
    OrderIsLess(u, v);
    OrderIsLess(t, v);
    SameLess(u, t, v);
    SameLess(t, u, v);
    OrderSign(u, v);
    OrderSign(t, v);
  }

  lemma {:induction false} SameLess(u: seq<nat>, t: seq<nat>, v: seq<nat>)
    requires forall i: nat :: Padded(u, i) == Padded(t, i)
    ensures (Less(u, v) ==> Less(t, v)) && (Less(v, u) ==> Less(v, t))
  {
    hide Padded;
    if Less(u, v) {
      var i :| LessAt(u, v, i);
      assert LessAt(t, v, i);
    }
    if Less(v, u) {
      var i :| LessAt(v, u, i);
      assert LessAt(v, t, i);
    }
  }

  lemma {:induction false} OrderSign(u: seq<nat>, v: seq<nat>)
    ensures -1 <= Order(u, v) <= 1
  {
    if u != [] && v != [] && u[0] == v[0] {
      OrderSign(u[1..], v[1..]);
    }
  }

  /** A part from the start is never greater. */
  lemma {:induction false} PrefixOrder(u: seq<nat>, k: nat)
    requires k <= |u|
    ensures Order(u[..k], u) <= 0 && (Order(u[..k], u) == 0 <==> AllZero(u[k..]))
  {
    if k > 0 {
      PrefixOrder(u[1..], k - 1);
      assert u[1..][..k - 1] == u[..k][1..];
      assert u[1..][k - 1..] == u[k..];
    } else {
      assert u[..0] == [] && u[0..] == u;
    }
  }

  /** The same beginning on both sides makes no difference. */
  lemma {:induction false} CommonFront(c: seq<nat>, u: seq<nat>, v: seq<nat>)
    ensures Order(c + u, c + v) == Order(u, v)
  {
    if c == [] {
      assert c + u == u && c + v == v;
    } else {
      CommonFront(c[1..], u, v);
      assert (c + u)[1..] == c[1..] + u && (c + v)[1..] == c[1..] + v;
    }
  }
}
