/** UTF-8 text: validating it, stepping through it both ways, and reversing it. */
module Utf8Text {
  import opened Basics
  import opened Utf8

  ghost predicate Scalars(cps: seq<nat>) {
    forall i | 0 <= i < |cps| :: Scalar(cps[i])
  }

  /** The characters encoded one after another. */
  ghost function Text(cps: seq<nat>): seq<Byte> {
    if cps == [] then [] else Encode(cps[0]) + Text(cps[1..])
  }

  ghost predicate ValidText(s: seq<Byte>) {
    exists cps :: Scalars(cps) && Text(cps) == s
  }

  lemma {:induction false} TextAppend(a: seq<nat>, b: seq<nat>)
    ensures Text(a + b) == Text(a) + Text(b)
  {
    hide Encode;
    if a == [] {
      assert a + b == b;
    } else {
      TextAppend(a[1..], b);
      assert (a + b)[1..] == a[1..] + b;
      assert Text(a + b) == Encode(a[0]) + (Text(a[1..]) + Text(b));
    }
  }

  lemma {:induction false} TextOne(cp: nat)
    ensures Text([cp]) == Encode(cp)
  {
    assert [cp][1..] == [];
  }

  lemma {:induction false} TextLast(cps: seq<nat>, cp: nat)
    ensures Text(cps + [cp]) == Text(cps) + Encode(cp)
  {
    TextAppend(cps, [cp]);
    TextOne(cp);
  }

  /** What starts with the same bytes starts with the same character. */
  lemma {:induction false} SameFirst(c: nat, d: nat, r: seq<Byte>, q: seq<Byte>)
    requires Scalar(c) && Scalar(d) && Encode(c) + r == Encode(d) + q
    ensures c == d && r == q
  {
    hide Encode, Decode;
    DecodeEncode(c, r);
    DecodeEncode(d, q);
    assert r == (Encode(c) + r)[|Encode(c)|..];
    assert q == (Encode(d) + q)[|Encode(d)|..];
  }

  /** Text that starts with the encoding of `front` is the encoding of `front` and more characters. */
  lemma {:induction false} FrontOf(front: seq<nat>, cps: seq<nat>, rest: seq<Byte>)
    requires Scalars(front) && Scalars(cps) && Text(cps) == Text(front) + rest
    ensures front <= cps && rest == Text(cps[|front|..])
  {
    hide Encode;
    if front == [] {
      assert Text(front) + rest == rest;
    } else {
      assert Text(front) + rest == Encode(front[0]) + (Text(front[1..]) + rest);
      SameFirst(cps[0], front[0], Text(cps[1..]), Text(front[1..]) + rest);
      FrontOf(front[1..], cps[1..], rest);
      assert cps[1..][|front| - 1..] == cps[|front|..];
    }
  }

  /** The characters of a text are determined by its bytes. */
  lemma {:induction false} UniqueCharacters(a: seq<nat>, b: seq<nat>)
    requires Scalars(a) && Scalars(b) && Text(a) == Text(b)
    ensures a == b
  {
    assert Text(a) == Text(b) + [];
    FrontOf(b, a, []);
    assert Text(a[|b|..]) == [];
  }

  // ----- Validating -----

  lemma {:induction false} GoodExtends(s: seq<Byte>, p: nat, cps: seq<nat>)
    requires p < |s| && Scalars(cps) && s[..p] == Text(cps) && CheckOne(s[p..]).Good?
    ensures p + CheckOne(s[p..]).len <= |s|
    ensures Scalars(cps + [Decode(s[p..]).0])
    ensures s[..p + CheckOne(s[p..]).len] == Text(cps + [Decode(s[p..]).0])
  {
    hide CheckOne, Decode, Encode;
    GoodIsEncoding(s[p..]);
    TextLast(cps, Decode(s[p..]).0);
    var n := CheckOne(s[p..]).len;
    assert s[..p + n] == s[..p] + s[p..][..n];
  }

  /** A character that does not pass ends the longest valid prefix. */
  lemma {:induction false} NothingLonger(s: seq<Byte>, p: nat, q: nat, cps: seq<nat>)
    requires p < q <= |s| && Scalars(cps) && s[..p] == Text(cps) && !CheckOne(s[p..]).Good?
    ensures !ValidText(s[..q])
  {
    hide CheckOne, Text;
    if ValidText(s[..q]) {
      var all :| Scalars(all) && Text(all) == s[..q];
      assert s[..q] == s[..p] + s[p..q];
      FrontOf(cps, all, s[p..q]);
      assert s[p..] == s[p..q] + s[q..];
      FirstIsGood(all[|cps|..], s[q..]);
    }
  }

  /** Text begins with a character that passes, whatever follows it. */
  lemma {:induction false} FirstIsGood(cps: seq<nat>, more: seq<Byte>)
    requires Scalars(cps) && Text(cps) != []
    ensures CheckOne(Text(cps) + more).Good?
  {
    hide CheckOne, Encode;
    var rest := Text(cps[1..]);
    assert Text(cps) + more == Encode(cps[0]) + (rest + more);
    EncodingIsGood(cps[0], rest + more);
  }

  /** Where the first NUL is. */
  method Strlen(buf: seq<Byte>) returns (n: nat)
    requires 0 in buf
    ensures n < |buf| && buf[n] == 0 && 0 !in buf[..n]
  {
    n := 0;
    while buf[n] != 0
      invariant n < |buf| && 0 !in buf[..n] && 0 in buf[n..]
      decreases |buf| - n
    {
      assert buf[n..] == [buf[n]] + buf[n + 1..];
      n := n + 1;
    }
  }

  /**
   * Accepts exactly the encodings of scalars; otherwise `pos` is where the longest valid prefix
   * ends. A negative size stands for a text that ends at the first NUL.
   */
  method CheckUtf8(buf: seq<Byte>, size: int) returns (bad: bool, pos: Option<nat>, ghost end: nat)
    requires size <= |buf| && (size < 0 ==> 0 in buf)
    ensures end <= |buf| && (size >= 0 ==> end == size)
    ensures size < 0 ==> end < |buf| && buf[end] == 0 && 0 !in buf[..end]
    ensures !bad <==> ValidText(buf[..end])
    ensures bad <==> pos.Some?
    ensures bad ==> pos.value < end && ValidText(buf[..pos.value])
    ensures bad ==> forall q | pos.value < q <= end :: !ValidText(buf[..q])
  {
    hide CheckOne, Decode, Encode, Text;
    var n := size;
    if size < 0 {
      n := Strlen(buf);
    }
    end := n;
    var s := buf[..n];
    var p := 0;
    ghost var cps: seq<nat> := [];
    EmptyText();
    while p < n
      invariant 0 <= p <= n && Scalars(cps) && s[..p] == Text(cps)
      decreases n - p
    {
      var c := CheckOne(s[p..]);
      if !c.Good? {
        NoneLonger(s, p, cps);
        assert forall q | 0 <= q <= n :: buf[..q] == s[..q];
        return true, Some(p), n;
      }
      GoodExtends(s, p, cps);
      GoodLength(s[p..]);
      cps := cps + [Decode(s[p..]).0];
      p := p + c.len;
    }
    assert s[..p] == s;
    return false, None, n;
  }

  lemma {:induction false} EmptyText()
    ensures Text([]) == []
  {
  }

  lemma {:induction false} GoodLength(s: seq<Byte>)
    requires s != [] && CheckOne(s).Good?
    ensures CheckOne(s).len >= 1
  {
    hide Trailing;
    GoodIsEncoding(s);
  }

  lemma {:induction false} NoneLonger(s: seq<Byte>, p: nat, cps: seq<nat>)
    requires p < |s| && Scalars(cps) && s[..p] == Text(cps) && !CheckOne(s[p..]).Good?
    ensures ValidText(s[..p]) && !ValidText(s) && forall q | p < q <= |s| :: !ValidText(s[..q])
  {
    hide CheckOne, Text;
    forall q | p < q <= |s|
      ensures !ValidText(s[..q])
    {
      NothingLonger(s, p, q, cps);
    }
    assert s[..|s|] == s;
  }

  // ----- Stepping -----

  /** How many bytes a character takes, by its first byte. */
  function CharLength(b: Byte): nat {
    if b < 0xc0 then 1 else if b < 0xe0 then 2 else if b < 0xf0 then 3
    else if b < 0xf8 then 4 else if b < 0xfc then 5 else if b < 0xfe then 6 else 1
  }

  /** The bits from the one that weighs `w` down that are ones, up to the first that is zero. */
  function LeadingOnes(b: nat, w: nat): nat {
    if w == 0 || b < w then 0 else 1 + LeadingOnes(b - w, w / 2)
  }

  /** The table counts the ones that a byte begins with; one of them alone marks a continuation byte. */
  lemma {:induction false} ByteClasses(b: Byte)
    ensures Continuation(b) <==> LeadingOnes(b, 128) == 1
    ensures var ones := LeadingOnes(b, 128); CharLength(b) == if 2 <= ones <= 6 then ones else 1
  {
    if b >= 0xfc {
      assert LeadingOnes(b - 0xf8, 4) == 1 + LeadingOnes(b - 0xfc, 2);
    }
    if b >= 0xf0 {
      assert LeadingOnes(b - 0xe0, 16) == 1 + LeadingOnes(b - 0xf0, 8);
    }
    if b >= 0xc0 {
      assert LeadingOnes(b, 128) == 2 + LeadingOnes(b - 0xc0, 32);
    }
  }

  /** An encoding has its length in its first byte and continuation bytes after it. */
  lemma {:induction false} EncodingShape(cp: nat)
    requires Scalar(cp)
    ensures CharLength(Encode(cp)[0]) == |Encode(cp)|
    ensures !Continuation(Encode(cp)[0])
    ensures forall i | 1 <= i < |Encode(cp)| :: Continuation(Encode(cp)[i])
  {
  }

  /** The byte before a position is the last of some character. */
  ghost predicate EndsWith(s: seq<Byte>, p: nat, cp: nat)
    requires p <= |s|
  {
    Scalar(cp) && |Encode(cp)| <= p && s[p - |Encode(cp)|..p] == Encode(cp)
  }

  /** How far back from `p` the search goes that has passed `l - 1` continuation bytes. */
  function SearchBack(s: seq<Byte>, p: nat, l: nat): (r: nat)
    requires p <= |s| && 1 <= l <= 6 && l - 1 <= p
    ensures l <= r <= 6 && r - 1 <= p
    ensures forall i | p - r < i <= p - l :: Continuation(s[i])
    ensures r == 6 || r > p || !Continuation(s[p - r])
    decreases 6 - l
  {
    if l < 6 && p >= l && Continuation(s[p - l]) then SearchBack(s, p, l + 1) else l
  }

  /** The search looks in front of the buffer exactly if it begins with fewer than six bytes, all of them continuation bytes. */
  lemma {:induction false} SearchStaysInside(s: seq<Byte>, p: nat)
    requires p <= |s|
    ensures SearchBack(s, p, 1) <= p <==> p >= 6 || exists i | 0 <= i < p :: !Continuation(s[i])
  {
    hide Continuation;
    var r := SearchBack(s, p, 1);
    if p < r {
      assert forall i | 0 <= i < p :: Continuation(s[i]);
    }
  }

  /** How long the character before `p` is taken to be. */
  function PrevLength(s: seq<Byte>, p: nat): nat
    requires p <= |s| && SearchBack(s, p, 1) <= p
  {
    var l := SearchBack(s, p, 1);
    if Continuation(s[p - l]) then 1 else l
  }

  /**
   * The start of the character before `p`: the nearest byte among the last six that is no
   * continuation byte, or else the byte before.
   */
  method PrevChar(s: seq<Byte>, p: nat) returns (q: nat, len: nat)
    requires p <= |s| && (p >= 6 || exists i | 0 <= i < p :: !Continuation(s[i]))
    ensures q == p - len && 1 <= len <= 6
    ensures forall i | q < i < p :: Continuation(s[i])
    ensures Continuation(s[q]) ==> len == 1 && p >= 6 && forall i | p - 6 <= i < p :: Continuation(s[i])
    ensures SearchBack(s, p, 1) <= p && len == PrevLength(s, p)
  {
    hide Continuation;
    SearchStaysInside(s, p);
    var l := 1;
    while l < 6 && p - l >= 0 && Continuation(s[p - l])
      invariant 1 <= l <= 6 && l - 1 <= p && SearchBack(s, p, l) == SearchBack(s, p, 1)
    {
      l := l + 1;
    }
    len := if Continuation(s[p - l]) then 1 else l;
    q := p - len;
  }

  /** After a whole character, its length is found. */
  lemma {:induction false} LastCharacter(s: seq<Byte>, p: nat, cp: nat)
    requires p <= |s| && EndsWith(s, p, cp)
    ensures SearchBack(s, p, 1) <= p && PrevLength(s, p) == |Encode(cp)|
  {
    hide Encode, SearchBack;
    EncodingShape(cp);
    var e := Encode(cp);
    var n := |e|;
    assert s[p - n] == s[p - n..p][0];
    forall i | p - n < i < p
      ensures Continuation(s[i])
    {
      assert s[i] == s[p - n..p][i - (p - n)];
    }
  }

  lemma {:induction false} StepForward(cps: seq<nat>, cp: nat, rest: seq<Byte>)
    requires Scalars(cps) && Scalar(cp)
    ensures var s, p := Text(cps) + Encode(cp) + rest, |Text(cps)|;
            && p + CharLength(s[p]) == p + |Encode(cp)| <= |s|
            && EndsWith(s, p + CharLength(s[p]), cp)
  {
    hide Encode, Text;
    EncodingShape(cp);
    var s, p := Text(cps) + Encode(cp) + rest, |Text(cps)|;
    assert s[p] == Encode(cp)[0];
    assert s[p..p + |Encode(cp)|] == Encode(cp);
  }

  /** Stepping forward over a character and back again returns to its start. */
  lemma {:induction false} ForwardAndBack(cps: seq<nat>, cp: nat, rest: seq<Byte>)
    requires Scalars(cps) && Scalar(cp)
    ensures var s, p := Text(cps) + Encode(cp) + rest, |Text(cps)|;
            var next := p + CharLength(s[p]);
            next <= |s| && SearchBack(s, next, 1) <= next && next - PrevLength(s, next) == p
  {
    hide Encode, Text, CharLength, SearchBack, PrevLength;
    StepForward(cps, cp, rest);
    var s, p := Text(cps) + Encode(cp) + rest, |Text(cps)|;
    LastCharacter(s, p + CharLength(s[p]), cp);
  }

  // ----- Reversing -----

  function Rev(cps: seq<nat>): (r: seq<nat>)
    ensures |r| == |cps|
  {
    if cps == [] then [] else Rev(cps[1..]) + [cps[0]]
  }

  lemma {:induction false} RevAppend(a: seq<nat>, b: seq<nat>)
    ensures Rev(a + b) == Rev(b) + Rev(a)
  {
    if a == [] {
      assert a + b == b;
    } else {
      RevAppend(a[1..], b);
      assert (a + b)[1..] == a[1..] + b;
    }
  }

  lemma {:induction false} RevLast(a: seq<nat>, c: nat)
    ensures Rev(a + [c]) == [c] + Rev(a)
  {
    RevAppend(a, [c]);
    assert Rev([c]) == [c] by {
      assert [c][1..] == [];
    }
  }

  lemma {:induction false} RevTwice(cps: seq<nat>)
    ensures Rev(Rev(cps)) == cps
  {
    if cps != [] {
      RevLast(Rev(cps[1..]), cps[0]);
      RevTwice(cps[1..]);
    }
  }

  lemma {:induction false} RevScalars(cps: seq<nat>)
    requires Scalars(cps)
    ensures Scalars(Rev(cps))
  {
    if cps != [] {
      RevScalars(cps[1..]);
    }
  }

  /** The characters of a valid text. */
  ghost function Characters(s: seq<Byte>): (cps: seq<nat>)
    requires ValidText(s)
    ensures Scalars(cps) && Text(cps) == s
  {
    var cps :| Scalars(cps) && Text(cps) == s;
    cps
  }

  /** The text with its characters in the opposite order. */
  ghost function Reversed(s: seq<Byte>): (r: seq<Byte>)
    requires ValidText(s)
    ensures ValidText(r)
  {
    RevScalars(Characters(s));
    Text(Rev(Characters(s)))
  }

  lemma {:induction false} ReversedIs(cps: seq<nat>)
    requires Scalars(cps)
    ensures ValidText(Text(cps)) && Reversed(Text(cps)) == Text(Rev(cps))
  {
    hide Text, Rev;
    UniqueCharacters(Characters(Text(cps)), cps);
  }

  /** Reversing twice gives the text back. */
  lemma {:induction false} ReversedTwice(s: seq<Byte>)
    requires ValidText(s)
    ensures Reversed(Reversed(s)) == s
  {
    hide Text, Rev;
    var cps := Characters(s);
    RevScalars(cps);
    UniqueCharacters(Characters(Reversed(s)), Rev(cps));
    RevTwice(cps);
  }

  lemma {:induction false} NextCharacter(s: seq<Byte>, cps: seq<nat>, i: nat)
    requires Scalars(cps) && s == Text(cps) && i < |cps|
    ensures |Text(cps[..i])| + |Encode(cps[i])| == |Text(cps[..i + 1])| <= |s|
    ensures CharLength(s[|Text(cps[..i])|]) == |Encode(cps[i])|
    ensures s[|Text(cps[..i])|..|Text(cps[..i + 1])|] == Encode(cps[i])
  {
    hide Encode, Text;
    assert cps[..i + 1] == cps[..i] + [cps[i]];
    TextLast(cps[..i], cps[i]);
    assert cps == cps[..i + 1] + cps[i + 1..];
    TextAppend(cps[..i + 1], cps[i + 1..]);
    EncodingShape(cps[i]);
  }

  /** Copies the bytes of one character so that they end at index `d`. */
  method CopyChar(src: array<Byte>, s: nat, dst: array<Byte>, d: int, size: nat)
    requires src != dst && s + size <= src.Length && size - 1 <= d < dst.Length
    modifies dst
    ensures dst[..] == Overwritten(old(dst[..]), d + 1 - size, src[s..s + size])
  {
    ghost var was := dst[..];
    var i := size;
    while i > 0
      invariant 0 <= i <= size
      invariant forall k | 0 <= k < dst.Length ::
                  dst[k] == if d + 1 - size <= k < d + 1 - i then src[s + k - (d + 1 - size)] else was[k]
    {
      i := i - 1;
      dst[d - i] := src[s + size - 1 - i];
    }
  }

  /** The first `count` characters, `s` bytes in all, stand in the opposite order before `size`. */
  ghost predicate Reversing(was: seq<Byte>, now: seq<Byte>, cps: seq<nat>, count: nat, s: nat, size: nat) {
    && count <= |cps| && s <= size <= |now| == |was| && s == |Text(cps[..count])|
    && now[size - s..size] == Text(Rev(cps[..count]))
    && now[..size - s] == was[..size - s] && now[size..] == was[size..]
  }

  /**
   * Writes the first characters of a valid text in the opposite order into the end of the
   * destination, at most `length` of them, and says how many there were.
   */
  method ReverseString(src: array<Byte>, dst: array<Byte>, length: int, size: nat, ghost cps: seq<nat>) returns (count: nat)
    requires src != dst && size <= src.Length && size <= dst.Length
    requires Scalars(cps) && src[..size] == Text(cps)
    modifies dst
    ensures count == if length < 0 then 0 else if length < |cps| then length else |cps|
    ensures var done := Text(Rev(cps[..count]));
            && |done| <= size && dst[size - |done|..size] == done
            && dst[..size - |done|] == old(dst[..size - |done|])
    ensures dst[size..] == old(dst[size..])
    ensures length >= |cps| ==> ValidText(src[..size]) && dst[..size] == Reversed(src[..size])
  {
    hide Encode, Text, Rev, Reversing, Overwritten, Reversed;
    ghost var was, text := dst[..], src[..size];
    var s := 0;
    var d := size - 1;
    count := 0;
    NothingReversed(was, cps, size);
    while s < size && count < length
      invariant 0 <= s <= size <= |was| == dst.Length && d == size - 1 - s && src[..size] == text
      invariant count == 0 || count <= length
      invariant Reversing(was, dst[..], cps, count, s, size)
      decreases size - s
    {
      NextReversed(text, was, dst[..], cps, count, s, size);
      assert src[s] == text[s];
      var charSize := CharLength(src[s]);
      SliceOfSlice(src[..], 0, size, s, s + charSize);
      assert src[..][0..size] == text && src[..][s..s + charSize] == src[s..s + charSize];
      CopyChar(src, s, dst, d, charSize);
      s := s + charSize;
      d := d - charSize;
      count := count + 1;
    }
    ReversedSoFar(text, was, dst[..], cps, count, s, size);
  }

  lemma {:induction false} ReversedSoFar(text: seq<Byte>, was: seq<Byte>, now: seq<Byte>, cps: seq<nat>, count: nat, s: nat, size: nat)
    requires Scalars(cps) && text == Text(cps) && |text| == size && Reversing(was, now, cps, count, s, size)
    ensures count <= |cps| && (s == size <==> count == |cps|)
    ensures var done := Text(Rev(cps[..count]));
            |done| <= size && now[size - |done|..size] == done && now[..size - |done|] == was[..size - |done|]
    ensures now[size..] == was[size..]
    ensures count == |cps| ==> ValidText(text) && now[..size] == Reversed(text)
  {
    hide Text, Rev, Reversed;
    AllUsed(text, cps, count);
    if count == |cps| {
      assert cps[..count] == cps;
      ReversedIs(cps);
      assert now[0..size] == now[..size];
    }
  }

  /** One more character moves to the front of those already there. */
  lemma {:induction false} NextReversed(text: seq<Byte>, was: seq<Byte>, now: seq<Byte>, cps: seq<nat>, count: nat, s: nat, size: nat)
    requires Scalars(cps) && text == Text(cps) && |text| == size && s < size && Reversing(was, now, cps, count, s, size)
    ensures s + CharLength(text[s]) <= size
    ensures var n := CharLength(text[s]);
            Reversing(was, Overwritten(now, size - s - n, text[s..s + n]), cps, count + 1, s + n, size)
  {
    hide Encode, Text, Rev, Overwritten;
    AllUsed(text, cps, count);
    NextCharacter(text, cps, count);
    OneMoreReversed(cps, count);
    var e := Encode(cps[count]);
    OverwrittenParts(now, size - s - |e|, e, size - s - |e|, size);
    ShorterSame(now, was, size - s, size - s - |e|);
  }

  lemma {:induction false} ShorterSame(a: seq<Byte>, b: seq<Byte>, n: nat, m: nat)
    requires m <= n <= |a| == |b| && a[..n] == b[..n]
    ensures a[..m] == b[..m]
  {
    assert a[..m] == a[..n][..m] && b[..m] == b[..n][..m];
  }

  lemma {:induction false} NothingReversed(was: seq<Byte>, cps: seq<nat>, size: nat)
    requires size <= |was|
    ensures Reversing(was, was, cps, 0, 0, size)
  {
    assert cps[..0] == [];
  }

  /** All bytes are used up exactly when all characters are. */
  lemma {:induction false} AllUsed(s: seq<Byte>, cps: seq<nat>, i: nat)
    requires Scalars(cps) && s == Text(cps) && i <= |cps|
    ensures |Text(cps[..i])| == |s| <==> i == |cps|
    ensures |Text(cps[..i])| <= |s|
  {
    hide Text, Encode;
    if i == |cps| {
      assert cps[..i] == cps;
    } else {
      NextCharacter(s, cps, i);
    }
  }

  lemma {:induction false} OneMoreReversed(cps: seq<nat>, i: nat)
    requires i < |cps|
    ensures Text(Rev(cps[..i + 1])) == Encode(cps[i]) + Text(Rev(cps[..i]))
  {
    hide Encode, Rev, Text;
    assert cps[..i + 1] == cps[..i] + [cps[i]];
    RevLast(cps[..i], cps[i]);
    TextAppend([cps[i]], Rev(cps[..i]));
    TextOne(cps[i]);
  }
}
