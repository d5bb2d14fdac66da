/** Comparing UTF-8 strings, and separating them, under a collation without contractions. */
module Collation {
  import opened Basics
  import opened Utf8
  import opened CollationChars
  import opened CollationOrder

  /** A weight for each of the first code points; the others weigh what they are. */
  datatype Coll = Coll(weights: seq<nat>) {
    ghost predicate Valid() {
      0 < |weights| < BAD_CODEPOINT && forall i | 0 <= i < |weights| :: weights[i] < BAD_CODEPOINT
    }

    function Weight(cp: nat): nat {
      if cp < |weights| then weights[cp] else cp
    }

    function Weights(cps: seq<nat>): (w: seq<nat>)
      ensures |w| == |cps|
    {
      seq(|cps|, i requires 0 <= i < |cps| => Weight(cps[i]))
    }

    /** The weights of the characters of any bytes. */
    ghost function Keys(s: seq<Byte>): (w: seq<nat>)
      ensures |w| == |Chars(s)|
    {
      Weights(Chars(s))
    }

    /** The order of two strings, by their characters. */
    ghost function Compare(s: seq<Byte>, t: seq<Byte>): int {
      Order(Keys(s), Keys(t))
    }
  }

  /** The weight of the first character, and its length. */
  function FirstElement(coll: Coll, s: seq<Byte>): (nat, nat)
    requires s != []
  {
    var (cp, n) := Decode(s);
    (coll.Weight(cp), n)
  }

  lemma {:induction false} ElementAt(coll: Coll, s: seq<Byte>, i: nat)
    requires i < |coll.Keys(s)|
    ensures Offset(s, i) < |s|
    ensures FirstElement(coll, s[Offset(s, i)..]).0 == coll.Keys(s)[i]
    ensures Offset(s, i + 1) == Offset(s, i) + FirstElement(coll, s[Offset(s, i)..]).1 <= |s|
  {
    hide Decode, Offset, Chars;
    OffsetNext(s, i);
  }

  lemma {:induction false} AtEnd(coll: Coll, s: seq<Byte>, i: nat)
    requires i <= |coll.Keys(s)|
    ensures i <= Offset(s, i) <= |s| && (Offset(s, i) == |s| <==> i == |coll.Keys(s)|)
  {
    hide Decode, Offset, Chars;
    OffsetBound(s, i);
  }

  lemma {:induction false} KeysCut(coll: Coll, s: seq<Byte>, i: nat)
    requires i <= |coll.Keys(s)|
    ensures Offset(s, i) <= |s| && coll.Keys(s[..Offset(s, i)]) == coll.Keys(s)[..i]
    ensures coll.Keys(s[Offset(s, i)..]) == coll.Keys(s)[i..]
  {
    hide Decode, Offset, Chars;
    CharsBefore(s, i);
    CharsAfter(s, i);
  }

  // ----- Comparing -----

  lemma {:induction false} ZeroTail(u: seq<nat>, i: nat)
    requires i < |u|
    ensures AllZero(u[i..]) <==> u[i] == 0 && AllZero(u[i + 1..])
  {
    assert u[i..] == [u[i]] + u[i + 1..];
  }

  /** Zero when no character has a weight. */
  method TrailZeroWeights(coll: Coll, str: seq<Byte>) returns (r: int)
    requires coll.Valid()
    ensures r == if AllZero(coll.Keys(str)) then 0 else 1
  {
    hide Decode, Offset, Chars, AllZero, Coll.Keys;
    ghost var u, i := coll.Keys(str), 0;
    var p := 0;
    assert u[0..] == u;
    StartOf(str);
    while p < |str|
      invariant 0 <= i <= |u| && p == Offset(str, i) <= |str|
      invariant AllZero(u) <==> AllZero(u[i..])
      decreases |str| - p
    {
      AtEnd(coll, str, i);
      ElementAt(coll, str, i);
      ZeroTail(u, i);
      var (cp, n) := Decode(str[p..]);
      DecodeLength(str[p..]);
      if cp >= |coll.weights| || coll.weights[cp] != 0 {
        return 1;
      }
      p := p + n;
      i := i + 1;
    }
    AtEnd(coll, str, i);
    NoWeights(u);
    return 0;
  }

  lemma {:induction false} StartOf(s: seq<Byte>)
    ensures Offset(s, 0) == 0
  {
  }

  lemma {:induction false} NoWeights(u: seq<nat>)
    ensures AllZero(u[|u|..])
  {
  }

  /** Equal weights at a place leave the order to the places after it; others decide it. */
  lemma {:induction false} OrderAt(u: seq<nat>, v: seq<nat>, i: nat)
    requires i < |u| && i < |v|
    ensures u[i] == v[i] ==> Order(u[i..], v[i..]) == Order(u[i + 1..], v[i + 1..])
    ensures u[i] < v[i] ==> Order(u[i..], v[i..]) == -1
    ensures u[i] > v[i] ==> Order(u[i..], v[i..]) == 1
  {
    assert u[i..][1..] == u[i + 1..] && v[i..][1..] == v[i + 1..];
  }

  lemma {:induction false} OrderEnded(u: seq<nat>, v: seq<nat>, i: nat)
    requires i <= |u| && i <= |v|
    ensures i == |u| ==> Order(u[i..], v[i..]) == if AllZero(v[i..]) then 0 else -1
    ensures i == |v| ==> Order(u[i..], v[i..]) == if AllZero(u[i..]) then 0 else 1
  {
  }

  /** Compares by the weights of the characters, and what is left over by whether it has any. */
  method StrCmp(coll: Coll, str1: seq<Byte>, str2: seq<Byte>) returns (r: int)
    requires coll.Valid()
    ensures r == coll.Compare(str1, str2)
  {
    hide Decode, Offset, Chars, AllZero, Order, Coll.Keys;
    ghost var u, v, i := coll.Keys(str1), coll.Keys(str2), 0;
    var p1, p2 := 0, 0;
    assert u[0..] == u && v[0..] == v;
    StartOf(str1);
    StartOf(str2);
    while p1 < |str1| && p2 < |str2|
      invariant 0 <= i <= |u| && i <= |v| && Order(u, v) == Order(u[i..], v[i..])
      invariant p1 == Offset(str1, i) <= |str1| && p2 == Offset(str2, i) <= |str2|
      decreases |str1| - p1
    {
      AtEnd(coll, str1, i);
      AtEnd(coll, str2, i);
      ElementAt(coll, str1, i);
      ElementAt(coll, str2, i);
      OrderAt(u, v, i);
      var (cp1, n1) := Decode(str1[p1..]);
      var (cp2, n2) := Decode(str2[p2..]);
      DecodeLength(str1[p1..]);
      var w1 := if cp1 < |coll.weights| then coll.weights[cp1] else cp1;
      var w2 := if cp2 < |coll.weights| then coll.weights[cp2] else cp2;
      if w1 != w2 {
        return if w1 < w2 then -1 else 1;
      }
      p1, p2 := p1 + n1, p2 + n2;
      i := i + 1;
    }
    AtEnd(coll, str1, i);
    AtEnd(coll, str2, i);
    KeysCut(coll, str1, i);
    KeysCut(coll, str2, i);
    OrderEnded(u, v, i);
    NoWeights(u);
    if |str1| - p1 == |str2| - p2 {
      return 0;
    } else if |str2| - p2 > 0 {
      var t := TrailZeroWeights(coll, str2[p2..]);
      return if t != 0 then -1 else 0;
    }
    var t := TrailZeroWeights(coll, str1[p1..]);
    return if t != 0 then 1 else 0;
  }

  // ----- Separating -----

  /** How many weights two strings have in common at the start. */
  ghost function Common(u: seq<nat>, v: seq<nat>): (d: nat)
    ensures d <= |u| && d <= |v| && u[..d] == v[..d]
    ensures d < |u| && d < |v| ==> u[d] != v[d]
  {
    if u == [] || v == [] || u[0] != v[0] then 0
    else
      var d := 1 + Common(u[1..], v[1..]);
      assert u[..d] == [u[0]] + u[1..][..d - 1] && v[..d] == [v[0]] + v[1..][..d - 1];
      d
  }

  lemma {:induction false} CommonIs(u: seq<nat>, v: seq<nat>, d: nat)
    requires d <= |u| && d <= |v| && u[..d] == v[..d]
    requires d == |u| || d == |v| || u[d] != v[d]
    ensures Common(u, v) == d
  {
    if d > 0 {
      assert u[0] == u[..d][0] && v[0] == v[..d][0];
      assert u[1..][..d - 1] == u[..d][1..] && v[1..][..d - 1] == v[..d][1..];
      CommonIs(u[1..], v[1..], d - 1);
    }
  }

  /**
   * The separator is then the common part and one more character of the second string, and
   * what is left of that string weighs nothing: the separator is not below it.
   */
  ghost predicate Lost(u: seq<nat>, v: seq<nat>) {
    var d := Common(u, v);
    d < |u| && d + 1 < |v| && AllZero(v[d + 1..])
  }

  /** The first string ends with the common part, or the second with the character after it. */
  ghost predicate FirstWillDo(u: seq<nat>, v: seq<nat>) {
    Common(u, v) == |u| || Common(u, v) + 1 == |v|
  }

  /** A byte that starts no character stands in the part that the separation looks at. */
  ghost predicate Malformed(u: seq<nat>, v: seq<nat>) {
    exists i :: 0 <= i <= Common(u, v) && i < |u| && i < |v| && (u[i] == BAD_CODEPOINT || v[i] == BAD_CODEPOINT)
  }

  /** With a weight at its end the second string is never lost. */
  lemma {:induction false} NotLost(u: seq<nat>, v: seq<nat>)
    requires v == [] || v[|v| - 1] > 0
    ensures !Lost(u, v)
  {
    var d := Common(u, v);
    if d + 1 < |v| {
      assert v[d + 1..][|v| - d - 2] > 0;
    }
  }

  /** The order is decided at the first difference. */
  lemma {:induction false} OrderByCommon(u: seq<nat>, v: seq<nat>)
    ensures Order(u, v) == Order(u[Common(u, v)..], v[Common(u, v)..])
  {
    var d := Common(u, v);
    CommonFront(u[..d], u[d..], v[d..]);
    assert u == u[..d] + u[d..] && v == u[..d] + v[d..];
  }

  /** Ascending: up to one more character of the second string. */
  lemma {:induction false} CutSecond(u: seq<nat>, v: seq<nat>)
    requires Common(u, v) < |u| && Common(u, v) < |v| && u[Common(u, v)] < v[Common(u, v)]
    ensures var k := v[..Common(u, v) + 1];
            Order(u, k) < 0 && Order(k, v) <= 0 && (Order(k, v) == 0 <==> AllZero(v[Common(u, v) + 1..]))
  {
    var d := Common(u, v);
    PrefixOrder(v, d + 1);
    CommonFront(u[..d], u[d..], [v[d]]);
    assert u == u[..d] + u[d..] && v[..d + 1] == u[..d] + [v[d]];
  }

  /** `k` is a part from the start of `u`, and no shorter one is above `v`. */
  ghost predicate ShortestAbove(k: seq<nat>, u: seq<nat>, v: seq<nat>) {
    k <= u && forall i | 0 <= i < |k| :: Order(u[..i], v) <= 0
  }

  /** No proper part from the start of `v` is above `u`. */
  ghost predicate NoneAbove(u: seq<nat>, v: seq<nat>) {
    forall i | 0 <= i < |v| :: Order(v[..i], u) <= 0
  }

  lemma {:induction false} CommonNotAbove(u: seq<nat>, v: seq<nat>, i: nat)
    requires i <= Common(u, v)
    ensures Order(v[..i], u) <= 0
  {
    hide Order;
    var d := Common(u, v);
    assert v[..i] == v[..d][..i] == u[..d][..i] == u[..i];
    PrefixOrder(u, i);
  }

  /** The first string will do if the second goes on from it, or if no part of the second is above it. */
  lemma {:induction false} WhenFirstWillDo(u: seq<nat>, v: seq<nat>)
    requires Order(u, v) < 0
    ensures FirstWillDo(u, v) <==> u <= v || NoneAbove(u, v)
  {
    hide Order;
    var d := Common(u, v);
    OrderByCommon(u, v);
    OrderEnded(u, v, d);
    if FirstWillDo(u, v) {
      if d == |u| {
        assert u[..d] == u;
      } else {
        forall i | 0 <= i < |v|
          ensures Order(v[..i], u) <= 0
        {
          CommonNotAbove(u, v, i);
        }
      }
    } else {
      OrderAt(u, v, d);
      CutSecond(u, v);
      OrderTurned(u, v[..d + 1]);
    }
  }

  lemma {:induction false} NotYetAbove(u: seq<nat>, v: seq<nat>, m: nat, i: nat)
    requires Common(u, v) <= m < |u| && AllZero(u[Common(u, v)..m]) && i <= m
    ensures Order(u[..i], v) <= 0
  {
    hide Order, Common;
    var d := Common(u, v);
    if i <= d {
      assert u[..i] == u[..d][..i] == v[..d][..i] == v[..i];
      PrefixOrder(v, i);
    } else {
      PrefixOrder(v, d);
      assert u[..i] == v[..d] + u[d..m][..i - d];
      ZerosIgnored(v[..d], u[d..m][..i - d], v);
    }
  }

  /** Descending: up to one more character of the first string that has a weight. */
  lemma {:induction false} CutFirst(u: seq<nat>, v: seq<nat>, m: nat)
    requires Order(u, v) > 0 && Common(u, v) <= m < |u| && AllZero(u[Common(u, v)..m])
    requires u[m] > 0 || m + 1 == |u|
    ensures Order(u, u[..m + 1]) >= 0 && Order(u[..m + 1], v) > 0
  {
    hide Order;
    PrefixOrder(u, m + 1);
    OrderTurned(u, u[..m + 1]);
    if m + 1 == |u| {
      assert u[..m + 1] == u;
    } else {
      CutFirstAbove(u, v, m);
    }
  }

  lemma {:induction false} ZeroAt(u: seq<nat>, d: nat, m: nat)
    requires d < m <= |u| && AllZero(u[d..m])
    ensures u[d] == 0
  {
    assert u[d] == u[d..m][0];
  }

  lemma {:induction false} CutFirstAbove(u: seq<nat>, v: seq<nat>, m: nat)
    requires Order(u, v) > 0 && Common(u, v) <= m < |u| && AllZero(u[Common(u, v)..m]) && u[m] > 0
    ensures Order(u[..m + 1], v) > 0
  {
    hide Order, Common, AllZero;
    var d := Common(u, v);
    OrderByCommon(u, v);
    CommonFront(u[..d], u[d..m + 1], v[d..]);
    assert u[..m + 1] == u[..d] + u[d..m + 1] && v == u[..d] + v[d..];
    if d < |v| {
      OrderAt(u, v, d);
      if m > d {
        ZeroAt(u, d, m);
      }
      OrderAt(u[..m + 1], v, d);
      assert u[..m + 1][d..] == u[d..m + 1];
    } else {
      WeightIn(u, d, m);
      OrderEnded(u[..m + 1], v, d);
      assert u[..m + 1][d..] == u[d..m + 1];
    }
  }

  lemma {:induction false} WeightIn(u: seq<nat>, d: nat, m: nat)
    requires d <= m < |u| && u[m] > 0
    ensures !AllZero(u[d..m + 1])
  {
    assert u[d..m + 1][m - d] == u[m];
  }

  /** The common part: how far both strings have the same weights, unless a bad byte comes first. */
  method CommonPart(coll: Coll, str1: seq<Byte>, str2: seq<Byte>) returns (ok: bool, p1: nat, p2: nat, ghost d: nat)
    ensures ok <==> !Malformed(coll.Keys(str1), coll.Keys(str2))
    ensures d == Common(coll.Keys(str1), coll.Keys(str2))
    ensures ok ==> p1 == Offset(str1, d) <= |str1| && p2 == Offset(str2, d) <= |str2|
  {
    hide Decode, Offset, Chars, Coll.Keys, Common;
    ghost var u, v, i := coll.Keys(str1), coll.Keys(str2), 0;
    p1, p2, d := 0, 0, Common(u, v);
    StartOf(str1);
    StartOf(str2);
    while p1 < |str1| && p2 < |str2|
      invariant 0 <= i <= |u| && i <= |v| && u[..i] == v[..i]
      invariant i <= d && forall k | 0 <= k < i :: u[k] != BAD_CODEPOINT && v[k] != BAD_CODEPOINT
      invariant p1 == Offset(str1, i) <= |str1| && p2 == Offset(str2, i) <= |str2|
      decreases |str1| - p1
    {
      AtEnd(coll, str1, i);
      AtEnd(coll, str2, i);
      ElementAt(coll, str1, i);
      ElementAt(coll, str2, i);
      var (w1, n1) := FirstElement(coll, str1[p1..]);
      var (w2, n2) := FirstElement(coll, str2[p2..]);
      DecodeLength(str1[p1..]);
      if w1 == BAD_CODEPOINT || w2 == BAD_CODEPOINT {
        return false, p1, p2, d;
      }
      if w1 != w2 {
        CommonIs(u, v, i);
        return true, p1, p2, d;
      }
      SharedNext(u, v, i);
      p1, p2 := p1 + n1, p2 + n2;
      i := i + 1;
    }
    AtEnd(coll, str1, i);
    AtEnd(coll, str2, i);
    CommonIs(u, v, i);
    ok := true;
  }

  lemma {:induction false} SharedNext(u: seq<nat>, v: seq<nat>, i: nat)
    requires i < |u| && i < |v| && u[..i] == v[..i] && u[i] == v[i]
    ensures u[..i + 1] == v[..i + 1] && i + 1 <= Common(u, v)
  {
    assert u[..i + 1] == u[..i] + [u[i]] && v[..i + 1] == v[..i] + [v[i]];
    if i > 0 {
      assert u[0] == u[..i][0] && v[0] == v[..i][0];
      assert u[1..][..i - 1] == u[..i][1..] && v[1..][..i - 1] == v[..i][1..];
      SharedNext(u[1..], v[1..], i - 1);
    }
  }

  /** Ascending: the first string itself, or the common part and one more character of the second. */
  method SplitAscending(coll: Coll, str1: seq<Byte>, str2: seq<Byte>, p1: nat, p2: nat, ghost d: nat) returns (key: seq<Byte>)
    requires coll.Compare(str1, str2) < 0 && d == Common(coll.Keys(str1), coll.Keys(str2))
    requires p1 == Offset(str1, d) <= |str1| && p2 == Offset(str2, d) <= |str2|
    ensures key == str1 <==> coll.Keys(str1) <= coll.Keys(str2) || NoneAbove(coll.Keys(str1), coll.Keys(str2))
    ensures key != str1 ==>
              key <= str2 && coll.Compare(str1, key) < 0 && ShortestAbove(coll.Keys(key), coll.Keys(str2), coll.Keys(str1))
    ensures coll.Compare(str1, key) <= 0 && coll.Compare(key, str2) <= 0
    ensures coll.Compare(key, str2) < 0 <==> !Lost(coll.Keys(str1), coll.Keys(str2))
  {
    hide Decode, Offset, Chars, Coll.Keys, Common, Order, NoneAbove;
    ghost var u, v := coll.Keys(str1), coll.Keys(str2);
    OrderByCommon(u, v);
    OrderEnded(u, v, d);
    OrderSelf(u);
    WhenFirstWillDo(u, v);
    AtEnd(coll, str1, d);
    AtEnd(coll, str2, d);
    var more, next2 := false, 0;
    if p1 < |str1| {
      if p2 < |str2| {
        ElementAt(coll, str2, d);
        AtEnd(coll, str2, d + 1);
        var (w2, n2) := FirstElement(coll, str2[p2..]);
        next2 := p2 + n2;
        more := next2 == |str2|;
      }
    }
    if p1 == |str1| || more {
      key := str1;
    } else {
      key := str2[..next2];
      OrderAt(u, v, d);
      CutSecond(u, v);
      KeysCut(coll, str2, d + 1);
      assert coll.Keys(key)[d] != coll.Keys(str1)[d];
      forall i | 0 <= i < d + 1
        ensures Order(v[..i], u) <= 0
      {
        CommonNotAbove(u, v, i);
      }
    }
  }

  /** Descending: the common part and the first string's characters up to one that has a weight. */
  method SplitDescending(coll: Coll, str1: seq<Byte>, str2: seq<Byte>, p1: nat, ghost d: nat) returns (key: seq<Byte>)
    requires coll.Compare(str1, str2) > 0 && d == Common(coll.Keys(str1), coll.Keys(str2))
    requires p1 == Offset(str1, d) <= |str1|
    ensures key <= str1 && ShortestAbove(coll.Keys(key), coll.Keys(str1), coll.Keys(str2))
    ensures coll.Compare(str1, key) >= 0 && coll.Compare(key, str2) > 0
  {
    hide Decode, Offset, Chars, Coll.Keys, Common, Order, AllZero;
    ghost var u, v, m := coll.Keys(str1), coll.Keys(str2), d;
    OrderByCommon(u, v);
    OrderEnded(u, v, d);
    OrderSelf(u);
    AtEnd(coll, str1, d);
    if p1 == |str1| {
      return str1;
    }
    var p := p1;
    NoneSkipped(u, d);
    while true
      invariant d <= m < |u| && p == Offset(str1, m) < |str1| && AllZero(u[d..m])
      decreases |u| - m
    {
      ElementAt(coll, str1, m);
      AtEnd(coll, str1, m + 1);
      var (w1, n1) := FirstElement(coll, str1[p..]);
      p := p + n1;
      if !(w1 == 0 && p < |str1|) {
        break;
      }
      OneSkipped(u, d, m);
      m := m + 1;
    }
    key := str1[..p];
    CutFirst(u, v, m);
    KeysCut(coll, str1, m + 1);
    forall i | 0 <= i < m + 1
      ensures Order(u[..i], v) <= 0
    {
      NotYetAbove(u, v, m, i);
    }
  }

  lemma {:induction false} NoneSkipped(u: seq<nat>, d: nat)
    requires d <= |u|
    ensures AllZero(u[d..d])
  {
  }

  lemma {:induction false} OneSkipped(u: seq<nat>, d: nat, m: nat)
    requires d <= m < |u| && AllZero(u[d..m]) && u[m] == 0
    ensures AllZero(u[d..m + 1])
  {
    assert u[d..m + 1] == u[d..m] + [u[m]];
  }

  /** A key that separates two neighbours in an index: not past the first, and before the second. */
  method SplitKey(coll: Coll, desc: bool, str1: seq<Byte>, str2: seq<Byte>) returns (r: Option<seq<Byte>>)
    requires if desc then coll.Compare(str1, str2) > 0 else coll.Compare(str1, str2) < 0
    ensures r.None? <==> Malformed(coll.Keys(str1), coll.Keys(str2))
    ensures r.Some? && !desc ==>
              && (r.value == str1 <==> coll.Keys(str1) <= coll.Keys(str2) || NoneAbove(coll.Keys(str1), coll.Keys(str2)))
              && (r.value != str1 ==>
                    && r.value <= str2 && coll.Compare(str1, r.value) < 0
                    && ShortestAbove(coll.Keys(r.value), coll.Keys(str2), coll.Keys(str1)))
              && coll.Compare(str1, r.value) <= 0 && coll.Compare(r.value, str2) <= 0
              && (coll.Compare(r.value, str2) < 0 <==> !Lost(coll.Keys(str1), coll.Keys(str2)))
    ensures r.Some? && desc ==>
              && r.value <= str1 && ShortestAbove(coll.Keys(r.value), coll.Keys(str1), coll.Keys(str2))
              && coll.Compare(str1, r.value) >= 0 && coll.Compare(r.value, str2) > 0
  {
    hide Coll.Compare, Coll.Keys, Lost, Malformed, NoneAbove, ShortestAbove, Common;
    var ok, p1, p2, d := CommonPart(coll, str1, str2);
    if !ok {
      return None;
    }
    var key;
    if !desc {
      key := SplitAscending(coll, str1, str2, p1, p2, d);
    } else {
      key := SplitDescending(coll, str1, str2, p1, d);
    }
    r := Some(key);
  }
}
