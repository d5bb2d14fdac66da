/** The built-in English weights, and the comparison byte by byte that they allow. */
module CollationEnglish {
  import opened Basics
  import opened Utf8
  import opened Utf8Text
  import opened CollationChars
  import opened CollationOrder
  import opened Collation

  const CHAR_COUNT := 256

  // ----- The weights -----

  /** Every code point weighs what it is, a space nothing. */
  ghost predicate CaseSensitive(weights: seq<nat>) {
    && |weights| == 256
    && weights[32] == 0
    && forall c | 0 <= c < 256 && c != 32 :: weights[c] == c
  }

  /** Small letters weigh what the capital ones do, all else as above. */
  ghost predicate CaseInsensitive(weights: seq<nat>) {
    && |weights| == 256
    && weights[32] == 0
    && (forall c | 97 <= c <= 122 :: weights[c] == c - 32)
    && forall c | 0 <= c < 256 && c != 32 && !(97 <= c <= 122) :: weights[c] == c
  }

  method InitCaseSensitive(weights: array<nat>)
    requires weights.Length == CHAR_COUNT
    modifies weights
    ensures weights[32] == 0
    ensures forall c | 0 <= c < 256 && c != 32 :: weights[c] == c
    ensures CaseSensitive(weights[..])
  {
    var i := 0;
    while i < CHAR_COUNT
      invariant 0 <= i <= CHAR_COUNT
      invariant forall k | 0 <= k < i :: weights[k] == k
    {
      weights[i] := i;
      i := i + 1;
    }
    weights[32] := 0;
  }

  method InitCaseInsensitive(weights: array<nat>)
    requires weights.Length == CHAR_COUNT
    modifies weights
    ensures weights[32] == 0
    ensures forall c | 97 <= c <= 122 :: weights[c] == c - 32
    ensures forall c | 0 <= c < 256 && c != 32 && !(97 <= c <= 122) :: weights[c] == c
    ensures CaseInsensitive(weights[..])
  {
    var i := 0;
    while i < CHAR_COUNT
      invariant 0 <= i <= CHAR_COUNT
      invariant forall k | 0 <= k < i :: weights[k] == k
    {
      weights[i] := i;
      i := i + 1;
    }
    i := 'a' as int;
    while i <= 'z' as int
      invariant 'a' as int <= i <= 'z' as int + 1
      invariant forall k | 0 <= k < CHAR_COUNT ::
                  weights[k] == if 'a' as int <= k < i then k - 32 else k
    {
      weights[i] := i - ('a' as int - 'A' as int);
      i := i + 1;
    }
    weights[32] := 0;
  }

  /** What the two have in common: ASCII stays below 128, and from there all weigh what they are. */
  ghost predicate English(coll: Coll) {
    && |coll.weights| == CHAR_COUNT
    && (forall i | 0 <= i < 128 :: coll.weights[i] < 128)
    && (forall i | 128 <= i < CHAR_COUNT :: coll.weights[i] == i)
  }

  ghost predicate BuiltIn(coll: Coll) {
    CaseSensitive(coll.weights) || CaseInsensitive(coll.weights)
  }

  lemma {:induction false} BuiltInIsEnglish(coll: Coll)
    requires BuiltIn(coll)
    ensures English(coll) && coll.Valid()
  {
  }

  // ----- What the weights are for -----

  /** The same letter in the other case. */
  function OtherCase(c: nat): nat {
    if 65 <= c <= 90 then c + 32 else if 97 <= c <= 122 then c - 32 else c
  }

  function Swapped(cps: seq<nat>): seq<nat> {
    seq(|cps|, i requires 0 <= i < |cps| => OtherCase(cps[i]))
  }

  /** With the insensitive weights, writing every letter in the other case changes nothing. */
  lemma {:induction false} CaseIgnored(coll: Coll, cps: seq<nat>)
    requires CaseInsensitive(coll.weights) && Scalars(cps)
    ensures Scalars(Swapped(cps)) && coll.Compare(Text(cps), Text(Swapped(cps))) == 0
  {
    hide Order, Text, Chars;
    CharsOfText(cps);
    CharsOfText(Swapped(cps));
    assert coll.Weights(Swapped(cps)) == coll.Weights(cps);
    OrderSelf(coll.Weights(cps));
  }

  lemma {:induction false} OneByte(coll: Coll, c: Byte)
    requires c < 0x80
    ensures coll.Keys([c]) == [coll.Weight(c)]
  {
    CharsOfText([c]);
    assert Text([c]) == [c];
  }

  lemma {:induction false} OneWeight(x: nat, y: nat)
    ensures Order([x], [y]) == 0 <==> x == y
  {
    assert Order([x][1..], [y][1..]) == 0;
  }

  /** With the sensitive weights, ASCII characters compare equal only to themselves, but a space does to a NUL. */
  lemma {:induction false} CaseMatters(coll: Coll, c: Byte, d: Byte)
    requires CaseSensitive(coll.weights) && c < 0x80 && d < 0x80
    ensures coll.Compare([c], [d]) == 0 <==> c == d || (c in {0, 32} && d in {0, 32})
  {
    hide Order;
    OneByte(coll, c);
    OneByte(coll, d);
    OneWeight(coll.Weight(c), coll.Weight(d));
  }

  /** With the insensitive weights they do so too to the same letter in the other case, and to nothing else. */
  lemma {:induction false} OnlyCaseIgnored(coll: Coll, c: Byte, d: Byte)
    requires CaseInsensitive(coll.weights) && c < 0x80 && d < 0x80
    ensures coll.Compare([c], [d]) == 0 <==> c == d || c == OtherCase(d) || (c in {0, 32} && d in {0, 32})
  {
    hide Order;
    OneByte(coll, c);
    OneByte(coll, d);
    OneWeight(coll.Weight(c), coll.Weight(d));
  }

  // ----- The comparison byte by byte -----

  function ByteKeys(coll: Coll, s: seq<Byte>): (w: seq<nat>)
    ensures |w| == |s|
  {
    seq(|s|, i requires 0 <= i < |s| => coll.Weight(s[i]))
  }

  /** Whether any byte from `p` on has a weight. */
  method HasWeight(coll: Coll, str: seq<Byte>, p: nat) returns (some: bool)
    requires |coll.weights| == CHAR_COUNT && p <= |str|
    ensures some <==> !AllZero(ByteKeys(coll, str)[p..])
  {
    var i := p;
    while i < |str|
      invariant p <= i <= |str|
      invariant forall k | p <= k < i :: ByteKeys(coll, str)[k] == 0
    {
      if coll.weights[str[i]] != 0 {
        assert ByteKeys(coll, str)[p..][i - p] != 0;
        return true;
      }
      i := i + 1;
    }
    return false;
  }

  method FastCmp(coll: Coll, str1: seq<Byte>, str2: seq<Byte>) returns (cmp: int)
    requires |coll.weights| == CHAR_COUNT
    ensures cmp < 0 <==> Order(ByteKeys(coll, str1), ByteKeys(coll, str2)) < 0
    ensures cmp > 0 <==> Order(ByteKeys(coll, str1), ByteKeys(coll, str2)) > 0
  {
    hide Order;
    ghost var u, v := ByteKeys(coll, str1), ByteKeys(coll, str2);
    var size := if |str1| < |str2| then |str1| else |str2|;
    var i := 0;
    cmp := 0;
    assert u[0..] == u && v[0..] == v;
    while cmp == 0 && i < size
      invariant 0 <= i <= size
      invariant cmp == 0 ==> Order(u, v) == Order(u[i..], v[i..])
      invariant cmp < 0 ==> Order(u, v) < 0
      invariant cmp > 0 ==> Order(u, v) > 0
      decreases size - i
    {
      OrderAt(u, v, i);
      var w1: int, w2: int := coll.weights[str1[i]], coll.weights[str2[i]];
      cmp := w1 - w2;
      i := i + 1;
    }
    OrderEnded(u, v, i);
    if cmp != 0 || |str1| == |str2| {
      return;
    }
    if |str1| < |str2| {
      var some := HasWeight(coll, str2, i);
      return if some then -1 else cmp;
    }
    var some := HasWeight(coll, str1, i);
    return if some then 1 else cmp;
  }

  // ----- The two comparisons agree -----

  lemma {:induction false} ByteKeysAppend(coll: Coll, s: seq<Byte>, t: seq<Byte>)
    ensures ByteKeys(coll, s + t) == ByteKeys(coll, s) + ByteKeys(coll, t)
  {
  }

  /** The bytes of a character past ASCII all weigh what they are. */
  lemma {:induction false} HighBytes(coll: Coll, cp: nat)
    requires English(coll) && 0x80 <= cp <= 0x10ffff
    ensures ByteKeys(coll, Encode(cp)) == Encode(cp)
    ensures forall i | 0 <= i < |Encode(cp)| :: Encode(cp)[i] >= 0x80
  {
  }

  /** Encodings compare like the code points: the first byte that differs is in both of them. */
  lemma {:induction false} EncodeOrder(c: nat, d: nat) returns (k: nat)
    requires 0x80 <= c < d <= 0x10ffff
    ensures k < |Encode(c)| && k < |Encode(d)| && Encode(c)[..k] == Encode(d)[..k] && Encode(c)[k] < Encode(d)[k]
  {
    if |Encode(c)| != |Encode(d)| {
      k := 0;
    } else if |Encode(c)| == 2 {
      k := if c / 0x40 < d / 0x40 then 0 else 1;
    } else if |Encode(c)| == 3 {
      k := ThreeOrder(c, d);
    } else {
      k := FourOrder(c, d);
    }
  }

  lemma {:induction false} ThreeOrder(c: nat, d: nat) returns (k: nat)
    requires 0x7ff < c < d <= 0xffff
    ensures k < 3 && Encode(c)[..k] == Encode(d)[..k] && Encode(c)[k] < Encode(d)[k]
  {
    Sextets(c);
    Sextets(d);
    k := if c / 0x1000 < d / 0x1000 then 0 else if c / 0x40 < d / 0x40 then 1 else 2;
  }

  lemma {:induction false} FourOrder(c: nat, d: nat) returns (k: nat)
    requires 0xffff < c < d <= 0x10ffff
    ensures k < 4 && Encode(c)[..k] == Encode(d)[..k] && Encode(c)[k] < Encode(d)[k]
  {
    Sextets(c);
    Sextets(d);
    k := if c / 0x4_0000 < d / 0x4_0000 then 0 else if c / 0x1000 < d / 0x1000 then 1
         else if c / 0x40 < d / 0x40 then 2 else 3;
  }

  lemma {:induction false} Decided(u: seq<nat>, v: seq<nat>, k: nat, x: seq<nat>, y: seq<nat>)
    requires k < |u| && k < |v| && u[..k] == v[..k] && u[k] < v[k]
    ensures Order(u + x, v + y) == -1 && Order(v + y, u + x) == 1
  {
    CommonFront(u[..k], u[k..] + x, v[k..] + y);
    assert u + x == u[..k] + (u[k..] + x) && v + y == u[..k] + (v[k..] + y);
    OrderTurned(u + x, v + y);
  }

  /** Characters of different weight decide the comparison of their bytes. */
  lemma {:induction false} LighterFirst(coll: Coll, c: nat, d: nat, x: seq<nat>, y: seq<nat>)
    requires English(coll) && Scalar(c) && Scalar(d) && coll.Weight(c) < coll.Weight(d)
    ensures Order(ByteKeys(coll, Encode(c)) + x, ByteKeys(coll, Encode(d)) + y) == -1
    ensures Order(ByteKeys(coll, Encode(d)) + y, ByteKeys(coll, Encode(c)) + x) == 1
  {
    hide Order, Encode;
    var u, v := ByteKeys(coll, Encode(c)), ByteKeys(coll, Encode(d));
    if d < 0x80 {
      AsciiBytes(coll, c);
      AsciiBytes(coll, d);
      Decided(u, v, 0, x, y);
    } else if c < 0x80 {
      AsciiBytes(coll, c);
      HighBytes(coll, d);
      Decided(u, v, 0, x, y);
    } else {
      HighBytes(coll, c);
      HighBytes(coll, d);
      var k := EncodeOrder(c, d);
      Decided(u, v, k, x, y);
    }
  }

  lemma {:induction false} AsciiBytes(coll: Coll, c: nat)
    requires |coll.weights| == CHAR_COUNT && c < 0x80
    ensures ByteKeys(coll, Encode(c)) == [coll.Weight(c)]
  {
  }

  /** Characters of the same weight are the same, or both ASCII. */
  lemma {:induction false} SameWeight(coll: Coll, c: nat, d: nat)
    requires English(coll) && Scalar(c) && Scalar(d) && coll.Weight(c) == coll.Weight(d)
    ensures ByteKeys(coll, Encode(c)) == ByteKeys(coll, Encode(d))
  {
    hide Encode;
    if c < 0x80 && d < 0x80 {
      AsciiBytes(coll, c);
      AsciiBytes(coll, d);
    }
  }

  lemma {:induction false} WeightlessText(coll: Coll, cps: seq<nat>)
    requires English(coll) && Scalars(cps)
    ensures AllZero(ByteKeys(coll, Text(cps))) <==> AllZero(coll.Weights(cps))
  {
    hide Encode;
    if cps != [] {
      var c, t := cps[0], Text(cps[1..]);
      WeightlessText(coll, cps[1..]);
      ByteKeysAppend(coll, Encode(c), t);
      assert coll.Weights(cps) == [coll.Weight(c)] + coll.Weights(cps[1..]);
      ZeroParts([coll.Weight(c)], coll.Weights(cps[1..]));
      ZeroParts(ByteKeys(coll, Encode(c)), ByteKeys(coll, t));
      if c < 0x80 {
        AsciiBytes(coll, c);
      } else {
        HighBytes(coll, c);
        assert coll.Weight(c) == c && [coll.Weight(c)][0] > 0;
        assert ByteKeys(coll, Encode(c))[0] > 0;
      }
    }
  }

  lemma {:induction false} ZeroParts(u: seq<nat>, v: seq<nat>)
    ensures AllZero(u + v) <==> AllZero(u) && AllZero(v)
  {
    if AllZero(u + v) {
      assert u == (u + v)[..|u|] && v == (u + v)[|u|..];
    }
  }

  /** By bytes or by characters, the order of valid texts is the same. */
  lemma {:induction false} SameOrderByBytes(coll: Coll, a: seq<nat>, b: seq<nat>)
    requires English(coll) && Scalars(a) && Scalars(b)
    ensures Order(ByteKeys(coll, Text(a)), ByteKeys(coll, Text(b))) == Order(coll.Weights(a), coll.Weights(b))
  {
    hide Encode, Order, English;
    if a == [] || b == [] {
      WeightlessText(coll, a);
      WeightlessText(coll, b);
      OneEmpty(coll.Weights(a), coll.Weights(b));
      OneEmpty(ByteKeys(coll, Text(a)), ByteKeys(coll, Text(b)));
    } else {
      var c, d, x, y := a[0], b[0], Text(a[1..]), Text(b[1..]);
      ByteKeysAppend(coll, Encode(c), x);
      ByteKeysAppend(coll, Encode(d), y);
      HeadAndTail(coll, a, b);
      if coll.Weight(c) < coll.Weight(d) {
        LighterFirst(coll, c, d, ByteKeys(coll, x), ByteKeys(coll, y));
      } else if coll.Weight(c) > coll.Weight(d) {
        LighterFirst(coll, d, c, ByteKeys(coll, y), ByteKeys(coll, x));
      } else {
        SameWeight(coll, c, d);
        CommonFront(ByteKeys(coll, Encode(c)), ByteKeys(coll, x), ByteKeys(coll, y));
        SameOrderByBytes(coll, a[1..], b[1..]);
      }
    }
  }

  lemma {:induction false} OneEmpty(u: seq<nat>, v: seq<nat>)
    requires u == [] || v == []
    ensures Order(u, v) == if !AllZero(v) then -1 else if !AllZero(u) then 1 else 0
  {
  }

  lemma {:induction false} HeadAndTail(coll: Coll, a: seq<nat>, b: seq<nat>)
    requires a != [] && b != []
    ensures coll.Weight(a[0]) == coll.Weight(b[0]) ==>
              Order(coll.Weights(a), coll.Weights(b)) == Order(coll.Weights(a[1..]), coll.Weights(b[1..]))
    ensures coll.Weight(a[0]) < coll.Weight(b[0]) ==> Order(coll.Weights(a), coll.Weights(b)) == -1
    ensures coll.Weight(a[0]) > coll.Weight(b[0]) ==> Order(coll.Weights(a), coll.Weights(b)) == 1
  {
    assert coll.Weights(a)[1..] == coll.Weights(a[1..]);
    assert coll.Weights(b)[1..] == coll.Weights(b[1..]);
  }

  /** The cheap comparison has the sign of the careful one, on all valid texts. */
  lemma {:induction false} FastAgrees(coll: Coll, s: seq<Byte>, t: seq<Byte>)
    requires English(coll) && ValidText(s) && ValidText(t)
    ensures Order(ByteKeys(coll, s), ByteKeys(coll, t)) == coll.Compare(s, t)
  {
    hide Order, English, Text, Chars;
    var a :| Scalars(a) && Text(a) == s;
    var b :| Scalars(b) && Text(b) == t;
    CharsOfText(a);
    CharsOfText(b);
    SameOrderByBytes(coll, a, b);
  }

  /** Both comparisons of two valid texts: the signs are the same. */
  method CompareBoth(coll: Coll, str1: seq<Byte>, str2: seq<Byte>) returns (fast: int, slow: int)
    requires BuiltIn(coll) && ValidText(str1) && ValidText(str2)
    ensures (fast < 0 <==> slow < 0) && (fast > 0 <==> slow > 0)
    ensures slow == coll.Compare(str1, str2)
  {
    hide English, BuiltIn, ValidText, Order, ByteKeys, Coll.Compare;
    BuiltInIsEnglish(coll);
    EnglishSize(coll);
    FastAgrees(coll, str1, str2);
    fast := FastCmp(coll, str1, str2);
    slow := StrCmp(coll, str1, str2);
  }

  lemma {:induction false} EnglishSize(coll: Coll)
    requires English(coll)
    ensures |coll.weights| == CHAR_COUNT
  {
  }

  // ----- Separators -----

  /** Valid texts never make a separation fail. */
  lemma {:induction false} ValidNotMalformed(coll: Coll, s: seq<Byte>, t: seq<Byte>)
    requires coll.Valid() && ValidText(s) && ValidText(t)
    ensures !Malformed(coll.Keys(s), coll.Keys(t))
  {
    hide Text, Chars, Common;
    var a :| Scalars(a) && Text(a) == s;
    var b :| Scalars(b) && Text(b) == t;
    CharsOfText(a);
    CharsOfText(b);
  }

  /** A space after the character that differs: the separator "b" is not below "b ". */
  lemma {:induction false} LostExample(coll: Coll)
    requires BuiltIn(coll)
    ensures var s, t := [97, 97], [98, 32];
            coll.Compare(s, t) < 0 && Lost(coll.Keys(s), coll.Keys(t)) && coll.Compare([98], t) == 0
  {
    CharsOfText([97, 97]);
    CharsOfText([98, 32]);
    CharsOfText([98]);
    assert Text([32]) == [32] && Text([97]) == [97] && Text([98]) == [98];
    assert Text([97, 97]) == [97, 97] && Text([98, 32]) == [98, 32];
    assert coll.Keys([98, 32])[..1] == coll.Keys([98]);
    PrefixOrder(coll.Keys([98, 32]), 1);
  }
}
