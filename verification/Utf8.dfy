/** UTF-8: one character encoded, decoded and checked. */
module Utf8 {
  import opened Basics

  /** The code points that have an encoding: no surrogates, nothing past U+10FFFF. */
  predicate Scalar(cp: nat) {
    cp <= 0x10ffff && !(0xd800 <= cp <= 0xdfff)
  }

  // ----- Encoding and decoding one character -----

  /** The bytes that stand for a code point; '?' for what is out of range. */
  function Encode(cp: nat): (bytes: seq<Byte>)
    ensures 1 <= |bytes| <= 4
  {
    if cp <= 0x7f then [cp]
    else if cp <= 0x7ff then [0xc0 + cp / 0x40, 0x80 + cp % 0x40]
    else if cp <= 0xffff then [0xe0 + cp / 0x1000, 0x80 + cp / 0x40 % 0x40, 0x80 + cp % 0x40]
    else if cp <= 0x10ffff then
      [0xf0 + cp / 0x4_0000, 0x80 + cp / 0x1000 % 0x40, 0x80 + cp / 0x40 % 0x40, 0x80 + cp % 0x40]
    else ['?' as int]
  }

  /** The shortest form, with six bits of the code point in each byte but the first (section 3 of RFC 3629). */
  lemma {:induction false} EncodingIs(cp: nat)
    requires cp <= 0x10ffff
    ensures var e: seq<int> := Encode(cp);
      match |e|
      case 1 => cp < 0x80 && cp == e[0]
      case 2 => 0x80 <= cp < 0x800 && 0 <= e[1] - 0x80 < 64 && cp == (e[0] - 0xc0) * 64 + (e[1] - 0x80)
      case 3 =>
        && 0x800 <= cp < 0x1_0000 && 0 <= e[1] - 0x80 < 64 && 0 <= e[2] - 0x80 < 64
        && cp == ((e[0] - 0xe0) * 64 + (e[1] - 0x80)) * 64 + (e[2] - 0x80)
      case 4 =>
        && 0x1_0000 <= cp && 0 <= e[1] - 0x80 < 64 && 0 <= e[2] - 0x80 < 64 && 0 <= e[3] - 0x80 < 64
        && cp == (((e[0] - 0xf0) * 64 + (e[1] - 0x80)) * 64 + (e[2] - 0x80)) * 64 + (e[3] - 0x80)
      case _ => false
  {
    Sextets(cp);
  }

  const BAD_CODEPOINT := 0xffff_ffff

  /** The part of a byte below `m`, a power of two. */
  function Low(b: int, m: int): nat
    requires m > 0
  {
    b % m
  }

  /** The code point at the start of the bytes and how many of them it takes. */
  function Decode(utf8: seq<Byte>): (r: (nat, nat))
    requires utf8 != []
  {
    if utf8[0] < 0x80 then (utf8[0], 1)
    else if |utf8| >= 2 && 0xc0 <= utf8[0] < 0xe0 then (Low(utf8[0], 0x20) * 0x40 + Low(utf8[1], 0x40), 2)
    else if |utf8| >= 3 && 0xe0 <= utf8[0] < 0xf0 then
      (Low(utf8[0], 0x10) * 0x1000 + Low(utf8[1], 0x40) * 0x40 + Low(utf8[2], 0x40), 3)
    else if |utf8| >= 4 && 0xf0 <= utf8[0] < 0xf8 then
      (Low(utf8[0], 8) * 0x4_0000 + Low(utf8[1], 0x40) * 0x1000 + Low(utf8[2], 0x40) * 0x40 + Low(utf8[3], 0x40), 4)
    else (BAD_CODEPOINT, 1)
  }

  /** Decoding undoes encoding, whatever follows. */
  lemma {:induction false} DecodeEncode(cp: nat, rest: seq<Byte>)
    requires cp <= 0x10ffff
    ensures Decode(Encode(cp) + rest) == (cp, |Encode(cp)|)
  {
    var e := Encode(cp);
    var s := e + rest;
    assert forall i | 0 <= i < |e| :: s[i] == e[i];
    if |e| == 2 {
      TwoBack(cp);
    } else if |e| == 3 {
      ThreeBack(cp);
    } else if |e| == 4 {
      FourBack(cp);
    }
  }

  lemma {:induction false} TwoBack(cp: nat)
    requires 0x7f < cp <= 0x7ff
    ensures Decode(Encode(cp)) == (cp, 2)
  {
  }

  lemma {:induction false} ThreeBack(cp: nat)
    requires 0x7ff < cp <= 0xffff
    ensures Decode(Encode(cp)) == (cp, 3)
  {
    Sextets(cp);
    var e := Encode(cp);
    ThreeLowBits(e[0], e[1], e[2]);
  }

  lemma {:induction false} FourBack(cp: nat)
    requires 0xffff < cp <= 0x10ffff
    ensures Decode(Encode(cp)) == (cp, 4)
  {
    Sextets(cp);
    var e := Encode(cp);
    LowBits(e[0], e[1], e[2], e[3]);
  }

  lemma {:induction false} Sextets(cp: nat)
    ensures cp == cp / 0x40 * 0x40 + cp % 0x40
    ensures cp / 0x40 == cp / 0x1000 * 0x40 + cp / 0x40 % 0x40
    ensures cp / 0x1000 == cp / 0x4_0000 * 0x40 + cp / 0x1000 % 0x40
  {
  }

  // ----- Checking one character -----

  datatype Check = Good(len: nat) | Invalid | Truncated

  /** Byte `i` must lie in the given range, and the rest up to `n` must be continuation bytes. */
  function Trailing(s: seq<Byte>, i: nat, n: nat, lo: Byte, hi: Byte): Check
    requires 1 <= i < n
    decreases n - i
  {
    if i >= |s| then Truncated
    else if lo <= s[i] <= hi then
      if i + 1 == n then Good(n) else Trailing(s, i + 1, n, 0x80, 0xbf)
    else Invalid
  }

  /** What the validator says of the character that starts the bytes. */
  function CheckOne(s: seq<Byte>): Check
    requires s != []
  {
    var b := s[0];
    if b < 0x80 then Good(1)
    else if b < 0xc2 then Invalid
    else if b <= 0xdf then Trailing(s, 1, 2, 0x80, 0xbf)
    else if b == 0xe0 then Trailing(s, 1, 3, 0xa0, 0xbf)
    else if b <= 0xec || 0xee <= b <= 0xef then Trailing(s, 1, 3, 0x80, 0xbf)
    else if b == 0xed then Trailing(s, 1, 3, 0x80, 0x9f)
    else if b == 0xf0 then Trailing(s, 1, 4, 0x90, 0xbf)
    else if b <= 0xf3 then Trailing(s, 1, 4, 0x80, 0xbf)
    else if b == 0xf4 then Trailing(s, 1, 4, 0x80, 0x8f)
    else Invalid
  }

  predicate Continuation(b: Byte) {
    0x80 <= b <= 0xbf
  }

  lemma {:induction false} TrailingGood(s: seq<Byte>, i: nat, n: nat, lo: Byte, hi: Byte)
    requires 1 <= i < n <= 4 && 0x80 <= lo && hi <= 0xbf
    ensures Trailing(s, i, n, lo, hi).Good? <==>
              n <= |s| && lo <= s[i] <= hi && forall k | i < k < n :: Continuation(s[k])
    ensures Trailing(s, i, n, lo, hi).Good? ==> Trailing(s, i, n, lo, hi).len == n
    decreases n - i
  {
    if i + 1 < n {
      TrailingGood(s, i + 1, n, 0x80, 0xbf);
    }
  }

  /** Every encoding of a scalar passes, at its own length and whatever follows. */
  lemma {:induction false} EncodingIsGood(cp: nat, rest: seq<Byte>)
    requires Scalar(cp)
    ensures CheckOne(Encode(cp) + rest) == Good(|Encode(cp)|)
  {
    hide Trailing;
    var s := Encode(cp) + rest;
    var n := |Encode(cp)|;
    assert s[..n] == Encode(cp);
    Sextets(cp);
    if n == 2 {
      TrailingGood(s, 1, 2, 0x80, 0xbf);
    } else if n == 3 {
      ThreeBytes(cp, s);
    } else if n == 4 {
      FourBytes(cp, s);
    }
  }

  lemma {:induction false} ThreeBytes(cp: nat, s: seq<Byte>)
    requires 0x7ff < cp <= 0xffff && Scalar(cp) && |s| >= 3 && s[..3] == Encode(cp)
    ensures CheckOne(s) == Good(3)
  {
    hide Trailing;
    assert s[0] == s[..3][0] && s[1] == s[..3][1] && s[2] == s[..3][2];
    TrailingGood(s, 1, 3, 0xa0, 0xbf);
    TrailingGood(s, 1, 3, 0x80, 0xbf);
    TrailingGood(s, 1, 3, 0x80, 0x9f);
  }

  lemma {:induction false} FourBytes(cp: nat, s: seq<Byte>)
    requires 0xffff < cp <= 0x10ffff && |s| >= 4 && s[..4] == Encode(cp)
    ensures CheckOne(s) == Good(4)
  {
    hide Trailing;
    assert s[0] == s[..4][0] && s[1] == s[..4][1] && s[2] == s[..4][2] && s[3] == s[..4][3];
    TrailingGood(s, 1, 4, 0x90, 0xbf);
    TrailingGood(s, 1, 4, 0x80, 0xbf);
    TrailingGood(s, 1, 4, 0x80, 0x8f);
  }

  /** What passes is the encoding of the scalar that it decodes to. */
  lemma {:induction false} GoodIsEncoding(s: seq<Byte>)
    requires s != [] && CheckOne(s).Good?
    ensures Decode(s).1 == CheckOne(s).len <= |s| && Scalar(Decode(s).0)
    ensures Encode(Decode(s).0) == s[..CheckOne(s).len]
  {
    hide Trailing;
    if s[0] < 0x80 {
    } else if s[0] <= 0xdf {
      TrailingGood(s, 1, 2, 0x80, 0xbf);
    } else if s[0] <= 0xef {
      GoodThree(s);
    } else {
      GoodFour(s);
    }
  }

  lemma {:induction false} GoodThree(s: seq<Byte>)
    requires s != [] && 0xe0 <= s[0] <= 0xef && CheckOne(s).Good?
    ensures Decode(s).1 == CheckOne(s).len == 3 <= |s| && Scalar(Decode(s).0) && Encode(Decode(s).0) == s[..3]
  {
    hide Trailing;
    TrailingGood(s, 1, 3, 0xa0, 0xbf);
    TrailingGood(s, 1, 3, 0x80, 0xbf);
    TrailingGood(s, 1, 3, 0x80, 0x9f);
    assert |s| >= 3;
    ThreeParts(s[0], s[1], s[2]);
    assert s[..3] == [s[0], s[1], s[2]];
  }

  lemma {:induction false} ThreeParts(s0: Byte, s1: Byte, s2: Byte)
    requires 0xe0 <= s0 <= 0xef && Continuation(s1) && Continuation(s2)
    requires (s0 == 0xe0 ==> s1 >= 0xa0) && (s0 == 0xed ==> s1 <= 0x9f)
    ensures var cp := Low(s0, 0x10) * 0x1000 + Low(s1, 0x40) * 0x40 + Low(s2, 0x40);
            0x7ff < cp <= 0xffff && Scalar(cp) && Encode(cp) == [s0, s1, s2]
  {
    Assembled(0, s0 - 0xe0, s1 - 0x80, s2 - 0x80);
    ThreeLowBits(s0, s1, s2);
  }

  lemma {:induction false} ThreeLowBits(s0: Byte, s1: Byte, s2: Byte)
    requires 0xe0 <= s0 <= 0xef && Continuation(s1) && Continuation(s2)
    ensures Low(s0, 0x10) == s0 - 0xe0 && Low(s1, 0x40) == s1 - 0x80 && Low(s2, 0x40) == s2 - 0x80
  {
  }

  lemma {:induction false} GoodFour(s: seq<Byte>)
    requires s != [] && 0xf0 <= s[0] && CheckOne(s).Good?
    ensures Decode(s).1 == CheckOne(s).len == 4 <= |s| && Scalar(Decode(s).0) && Encode(Decode(s).0) == s[..4]
  {
    hide Trailing;
    TrailingGood(s, 1, 4, 0x90, 0xbf);
    TrailingGood(s, 1, 4, 0x80, 0xbf);
    TrailingGood(s, 1, 4, 0x80, 0x8f);
    assert s[0] <= 0xf4 && |s| >= 4;
    FourParts(s[0], s[1], s[2], s[3]);
    assert s[..4] == [s[0], s[1], s[2], s[3]];
  }

  lemma {:induction false} FourParts(s0: Byte, s1: Byte, s2: Byte, s3: Byte)
    requires 0xf0 <= s0 <= 0xf4 && Continuation(s1) && Continuation(s2) && Continuation(s3)
    requires (s0 == 0xf0 ==> s1 >= 0x90) && (s0 == 0xf4 ==> s1 <= 0x8f)
    ensures var cp := Low(s0, 8) * 0x4_0000 + Low(s1, 0x40) * 0x1000 + Low(s2, 0x40) * 0x40 + Low(s3, 0x40);
            0xffff < cp <= 0x10ffff && Encode(cp) == [s0, s1, s2, s3]
  {
    Assembled(s0 - 0xf0, s1 - 0x80, s2 - 0x80, s3 - 0x80);
    LowBits(s0, s1, s2, s3);
  }

  lemma {:induction false} LowBits(s0: Byte, s1: Byte, s2: Byte, s3: Byte)
    requires 0xf0 <= s0 <= 0xf4 && Continuation(s1) && Continuation(s2) && Continuation(s3)
    ensures Low(s0, 8) == s0 - 0xf0 && Low(s1, 0x40) == s1 - 0x80
    ensures Low(s2, 0x40) == s2 - 0x80 && Low(s3, 0x40) == s3 - 0x80
  {
  }

  lemma {:induction false} Assembled(a: nat, b: nat, c: nat, d: nat)
    requires b < 0x40 && c < 0x40 && d < 0x40
    ensures var cp := a * 0x4_0000 + b * 0x1000 + c * 0x40 + d;
            && cp / 0x4_0000 == a && cp / 0x1000 == a * 0x40 + b && cp / 0x1000 % 0x40 == b
            && cp / 0x40 % 0x40 == c && cp % 0x40 == d
  {
  }
}
