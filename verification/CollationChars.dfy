/** The characters of any bytes, as the decoder takes them one after another. */
module CollationChars {
  import opened Basics
  import opened Utf8
  import opened Utf8Text

  lemma {:induction false} DecodeLength(s: seq<Byte>)
    requires s != []
    ensures 1 <= Decode(s).1 <= |s| && Decode(s).1 <= 4
    ensures Decode(s).0 <= BAD_CODEPOINT
  {
  }

  /** A byte that starts no character, or one that is cut short, is bad by itself; else the first byte gives the length. */
  lemma {:induction false} DecodeShape(s: seq<Byte>)
    requires s != []
    ensures var bad := Continuation(s[0]) || s[0] >= 0xf8 || CharLength(s[0]) > |s|;
      if bad then Decode(s) == (0xffff_ffff, 1) else Decode(s).0 < 0x20_0000 && Decode(s).1 == CharLength(s[0])
  {
  }

  /** Code points, with BAD_CODEPOINT for each byte that starts none. */
  ghost function Chars(s: seq<Byte>): seq<nat> {
    if s == [] then []
    else
      DecodeLength(s);
      [Decode(s).0] + Chars(s[Decode(s).1..])
  }

  /** How many bytes the first `i` characters take. */
  ghost function Offset(s: seq<Byte>, i: nat): nat
    requires i <= |Chars(s)|
  {
    if i == 0 then 0
    else
      DecodeLength(s);
      Decode(s).1 + Offset(s[Decode(s).1..], i - 1)
  }

  /** The characters of encoded scalars are those scalars. */
  lemma {:induction false} CharsOfText(cps: seq<nat>)
    requires Scalars(cps)
    ensures Chars(Text(cps)) == cps
  {
    hide Encode, Decode;
    if cps != [] {
      var s, n := Text(cps), |Encode(cps[0])|;
      DecodeEncode(cps[0], Text(cps[1..]));
      assert s[n..] == Text(cps[1..]);
      CharsOfText(cps[1..]);
    }
  }

  lemma {:induction false} OffsetBound(s: seq<Byte>, i: nat)
    requires i <= |Chars(s)|
    ensures i <= Offset(s, i) <= |s|
    ensures Offset(s, i) == |s| <==> i == |Chars(s)|
  {
    hide Decode;
    if s != [] {
      DecodeLength(s);
      if i > 0 {
        OffsetBound(s[Decode(s).1..], i - 1);
      }
    }
  }

  /** The first character and the rest. */
  lemma {:induction false} FirstChar(s: seq<Byte>, i: nat)
    requires i <= |Chars(s)|
    ensures i == 0 ==> Offset(s, i) == 0
    ensures i > 0 ==> s != [] && 1 <= Decode(s).1 <= |s|
    ensures i > 0 ==> Chars(s) == [Decode(s).0] + Chars(s[Decode(s).1..])
    ensures i > 0 ==> Offset(s, i) == Decode(s).1 + Offset(s[Decode(s).1..], i - 1)
  {
    hide Decode;
    if s != [] {
      DecodeLength(s);
    }
  }

  /** What follows the first `i` characters. */
  lemma {:induction false} CharsAfter(s: seq<Byte>, i: nat)
    requires i <= |Chars(s)|
    ensures Offset(s, i) <= |s| && Chars(s[Offset(s, i)..]) == Chars(s)[i..]
  {
    hide Decode, Chars, Offset;
    if i == 0 {
      FirstChar(s, 0);
      assert s[0..] == s;
    } else {
      FirstChar(s, i);
      var n := Decode(s).1;
      var t := s[n..];
      CharsAfter(t, i - 1);
      assert s[Offset(s, i)..] == t[Offset(t, i - 1)..];
      assert Chars(s)[i..] == Chars(t)[i - 1..];
    }
  }

  /** A whole character is decoded alike when more bytes follow. */
  lemma {:induction false} DecodeShort(s: seq<Byte>, n: nat)
    requires s != [] && Decode(s).1 <= n <= |s|
    ensures Decode(s[..n]) == Decode(s)
  {
  }

  /** The first `i` characters, cut off, are those characters. */
  lemma {:induction false} CharsBefore(s: seq<Byte>, i: nat)
    requires i <= |Chars(s)|
    ensures Offset(s, i) <= |s| && Chars(s[..Offset(s, i)]) == Chars(s)[..i]
  {
    hide Decode;
    OffsetBound(s, i);
    if i > 0 {
      DecodeLength(s);
      var n, p := Decode(s).1, Offset(s, i);
      CharsBefore(s[n..], i - 1);
      DecodeShort(s, p);
      assert s[..p][n..] == s[n..][..p - n];
      assert Chars(s)[..i] == [Decode(s).0] + Chars(s[n..])[..i - 1];
    }
  }

  /** One character on. */
  lemma {:induction false} OffsetNext(s: seq<Byte>, i: nat)
    requires i < |Chars(s)|
    ensures Offset(s, i) < |s|
    ensures Offset(s, i + 1) == Offset(s, i) + Decode(s[Offset(s, i)..]).1 <= |s|
    ensures Decode(s[Offset(s, i)..]).0 == Chars(s)[i]
  {
    hide Decode;
    OffsetBound(s, i);
    OffsetBound(s, i + 1);
    if i == 0 {
      assert s[0..] == s;
    } else {
      var n := Decode(s).1;
      OffsetNext(s[n..], i - 1);
      assert s[n..][Offset(s[n..], i - 1)..] == s[Offset(s, i)..];
    }
  }
}
