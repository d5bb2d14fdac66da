/** Base64 with line breaks: what encoding and decoding mean, and that they are inverse. */
module Base64 {
  import opened Basics

  const MAX_LINE := 76
  const NEWLINE: Byte := 10
  const PAD: Byte := 61

  // ----- The alphabet -----

  /** The character for a six-bit number. */
  function Symbol(i: nat): Byte
    requires i < 64
  {
    if i < 26 then 65 + i
    else if i < 52 then 97 + (i - 26)
    else if i < 62 then 48 + (i - 52)
    else if i == 62 then 43
    else 47
  }

  predicate IsSymbol(ch: Byte) {
    65 <= ch <= 90 || 97 <= ch <= 122 || 48 <= ch <= 57 || ch == 43 || ch == 47
  }

  /** The place of a character in the alphabet. */
  function Find(ch: Byte): (i: nat)
    requires IsSymbol(ch)
    ensures i < 64 && Symbol(i) == ch
  {
    if 65 <= ch <= 90 then ch - 65
    else if 97 <= ch <= 122 then ch - 71
    else if 48 <= ch <= 57 then ch + 4
    else if ch == 43 then 62
    else 63
  }

  lemma {:induction false} FindSymbol(i: nat)
    requires i < 64
    ensures IsSymbol(Symbol(i)) && Find(Symbol(i)) == i && !IsSpace(Symbol(i)) && Symbol(i) != PAD
  {
  }

  predicate IsSpace(ch: Byte) {
    9 <= ch <= 13 || ch == 32 || ch == 160
  }

  /** The decoding table: -2 for a space, -1 for what does not belong, else the number. */
  function TableEntry(ch: Byte): int {
    if IsSpace(ch) then -2 else if IsSymbol(ch) then Find(ch) else -1
  }

  predicate CharIsInvalid(ch: Byte) {
    ch != PAD && TableEntry(ch) == -1
  }

  // ----- Encoding -----

  /** The part of the source that the next group encodes. */
  function Take(src: seq<Byte>): (n: nat)
    ensures n <= |src| && (src != [] ==> n > 0)
  {
    if |src| < 3 then |src| else 3
  }

  /** The first three bytes as one number, absent ones as zero. */
  function Bits(src: seq<Byte>): (d: nat)
    ensures d < 0x100_0000
  {
    var b0: int := if |src| > 0 then src[0] else 0;
    var b1: int := if |src| > 1 then src[1] else 0;
    var b2: int := if |src| > 2 then src[2] else 0;
    b0 * 0x1_0000 + b1 * 0x100 + b2
  }

  /** Four characters for up to three bytes. */
  function Group(src: seq<Byte>): (g: seq<Byte>)
    requires src != []
    ensures |g| == 4
  {
    var d := Bits(src);
    [Symbol(d / 0x4_0000), Symbol(d / 0x1000 % 64),
     if |src| < 2 then PAD else Symbol(d / 64 % 64),
     if |src| < 3 then PAD else Symbol(d % 64)]
  }

  /** The groups one after another. */
  function Flat(src: seq<Byte>): seq<Byte> {
    if src == [] then [] else Group(src) + Flat(src[Take(src)..])
  }

  /** The groups with a line break wherever a line is full; `col` is the length of the line so far. */
  function Lines(src: seq<Byte>, col: nat): seq<Byte> {
    if src == [] then []
    else if col == MAX_LINE then [NEWLINE] + Group(src) + Lines(src[Take(src)..], 4)
    else Group(src) + Lines(src[Take(src)..], col + 4)
  }

  /** The length that is set aside for the encoding. */
  function EncodeLength(n: nat): int {
    var bytes := (n + 2) / 3 * 4;
    var breaks := bytes / MAX_LINE;
    bytes + if bytes % MAX_LINE == 0 then breaks - 1 else breaks
  }

  lemma {:induction false} LinesStep(src: seq<Byte>, col: nat)
    requires src != []
    ensures |Lines(src, col)| == 4 + (if col == MAX_LINE then 1 + |Lines(src[Take(src)..], 4)| else |Lines(src[Take(src)..], col + 4)|)
    ensures |src[Take(src)..]| == if |src| < 3 then 0 else |src| - 3
  {
  }

  /** With `col` on the line already, the total including it has a break for every full line but the last. */
  lemma {:induction false} LinesLength(src: seq<Byte>, col: nat)
    requires src != [] && col % 4 == 0 && col <= MAX_LINE
    ensures |Lines(src, col)| == (|src| + 2) / 3 * 4 + (col + (|src| + 2) / 3 * 4 - 1) / MAX_LINE
  {
    hide Lines;
    LinesStep(src, col);
    var rest, next := src[Take(src)..], if col == MAX_LINE then 4 else col + 4;
    OneGroupLess(|src|);
    if rest == [] {
      NoLines(next);
      OneGroupMore(0, col);
    } else {
      LinesLength(rest, next);
      OneGroupMore((|rest| + 2) / 3, col);
    }
  }

  lemma {:induction false} OneGroupLess(n: nat)
    requires n > 0
    ensures n <= 3 ==> (n + 2) / 3 == 1
    ensures n > 3 ==> (n - 3 + 2) / 3 == (n + 2) / 3 - 1 > 0
  {
  }

  /** A group fills the line by four, or comes after a break. */
  lemma {:induction false} OneGroupMore(g: nat, col: nat)
    requires col % 4 == 0 && col <= MAX_LINE
    ensures col == MAX_LINE ==> (col + (g + 1) * 4 - 1) / MAX_LINE == 1 + (4 + g * 4 - 1) / MAX_LINE
    ensures col != MAX_LINE && g > 0 ==> (col + (g + 1) * 4 - 1) / MAX_LINE == (col + 4 + g * 4 - 1) / MAX_LINE
    ensures col != MAX_LINE && g == 0 ==> (col + (g + 1) * 4 - 1) / MAX_LINE == 0
  {
  }

  lemma {:induction false} NoLines(col: nat)
    ensures Lines([], col) == []
  {
  }

  /** The length set aside is exact for every source but the empty one, for which it is below zero. */
  lemma {:induction false} LengthIsExact(src: seq<Byte>)
    ensures |Lines(src, 0)| == EncodeLength(|src|) <==> src != []
    ensures EncodeLength(0) == -1
  {
    if src != [] {
      LinesLength(src, 0);
      BreakCount((|src| + 2) / 3 * 4);
    }
  }

  lemma {:induction false} BreakCount(n: nat)
    requires n > 0
    ensures (n - 1) / MAX_LINE == if n % MAX_LINE == 0 then n / MAX_LINE - 1 else n / MAX_LINE
  {
  }

  // ----- No line is too long -----

  lemma {:induction false} GroupCharacters(src: seq<Byte>)
    requires src != []
    ensures forall i | 0 <= i < 4 :: Group(src)[i] != NEWLINE && !IsSpace(Group(src)[i])
  {
    var d := Bits(src);
    FindSymbol(d / 0x4_0000);
    FindSymbol(d / 0x1000 % 64);
    FindSymbol(d / 64 % 64);
    FindSymbol(d % 64);
  }

  /** A stretch of the text without a line break. */
  ghost predicate Stretch(s: seq<Byte>, i: nat, j: nat) {
    i <= j <= |s| && NEWLINE !in s[i..j]
  }

  lemma {:induction false} StretchInside(s: seq<Byte>, i: nat, j: nat)
    requires Stretch(s, i, j)
    ensures i <= j <= |s|
  {
  }

  lemma {:induction false} NoBreakAt(s: seq<Byte>, i: nat, j: nat)
    requires Stretch(s, i, j) && i < j
    ensures s[i] != NEWLINE
  {
    assert s[i] == s[i..j][0];
  }

  lemma {:induction false} StretchFrom(s: seq<Byte>, i: nat, k: nat, j: nat)
    requires Stretch(s, i, j) && i <= k <= j
    ensures Stretch(s, k, j)
  {
    SliceOfSlice(s, i, j, k - i, j - i);
  }

  lemma {:induction false} StretchRest(s: seq<Byte>, k: nat, i: nat, j: nat)
    requires Stretch(s, i, j) && k <= i
    ensures Stretch(s[k..], i - k, j - k)
  {
    assert s[k..] == s[k..|s|];
    SliceOfSlice(s, k, |s|, i - k, j - k);
  }

  /** The rest of the lines, after one group and the break that may come before it. */
  lemma {:induction false} LinesAfter(src: seq<Byte>, col: nat)
    requires src != []
    ensures var k, next := if col == MAX_LINE then 5 else 4, if col == MAX_LINE then 4 else col + 4;
            k <= |Lines(src, col)| && Lines(src, col)[k..] == Lines(src[Take(src)..], next)
    ensures col == MAX_LINE ==> Lines(src, col)[0] == NEWLINE
  {
    hide Group;
  }

  /** A stretch at the start fits on what is left of the line. */
  lemma {:induction false} FirstLine(src: seq<Byte>, col: nat, j: nat)
    requires col <= MAX_LINE && col % 4 == 0 && Stretch(Lines(src, col), 0, j)
    ensures j <= MAX_LINE - col
  {
    hide Group, Symbol, Stretch;
    StretchInside(Lines(src, col), 0, j);
    if src != [] && j > 0 {
      var s, rest := Lines(src, col), src[Take(src)..];
      NoBreakAt(s, 0, j);
      if j > 4 {
        LinesAfter(src, col);
        StretchFrom(s, 0, 4, j);
        StretchRest(s, 4, 4, j);
        FirstLine(rest, col + 4, j - 4);
      }
    }
  }

  /** No line of the encoding is longer than the limit. */
  lemma {:induction false} NoLongLine(src: seq<Byte>, col: nat, i: nat, j: nat)
    requires col <= MAX_LINE && col % 4 == 0 && Stretch(Lines(src, col), i, j)
    ensures j - i <= MAX_LINE
  {
    hide Group, Symbol, Stretch;
    StretchInside(Lines(src, col), i, j);
    if src != [] && j - i > 4 {
      var s, rest := Lines(src, col), src[Take(src)..];
      var k, next := if col == MAX_LINE then 5 else 4, if col == MAX_LINE then 4 else col + 4;
      LinesAfter(src, col);
      if i >= k {
        StretchRest(s, k, i, j);
        NoLongLine(rest, next, i - k, j - k);
      } else {
        NoBreakAt(s, i, j);
        StretchFrom(s, i, k, j);
        StretchRest(s, k, k, j);
        FirstLine(rest, next, j - k);
      }
    }
  }

  // ----- Decoding -----

  /** What is left of one character. */
  function Kept(ch: Byte): seq<Byte> {
    if IsSpace(ch) then [] else [ch]
  }

  function Strip(s: seq<Byte>): seq<Byte> {
    if s == [] then [] else Kept(s[0]) + Strip(s[1..])
  }

  lemma {:induction false} Associate(a: seq<Byte>, b: seq<Byte>, c: seq<Byte>)
    ensures a + (b + c) == (a + b) + c
  {
  }

  lemma {:induction false} StripAppend(s: seq<Byte>, t: seq<Byte>)
    ensures Strip(s + t) == Strip(s) + Strip(t)
  {
    hide Kept;
    if s == [] {
      assert s + t == t;
    } else {
      StripAppend(s[1..], t);
      assert (s + t)[0] == s[0] && (s + t)[1..] == s[1..] + t;
      Associate(Kept(s[0]), Strip(s[1..]), Strip(t));
    }
  }

  lemma {:induction false} StripNothing(s: seq<Byte>)
    requires forall i | 0 <= i < |s| :: !IsSpace(s[i])
    ensures Strip(s) == s
  {
    if s != [] {
      StripNothing(s[1..]);
    }
  }

  lemma {:induction false} StripHasNone(s: seq<Byte>)
    ensures forall i | 0 <= i < |Strip(s)| :: !IsSpace(Strip(s)[i])
  {
    if s != [] {
      StripHasNone(s[1..]);
    }
  }

  /** A group of four: the last one may end in one or two padding characters. */
  predicate GroupValid(g: seq<Byte>, last: bool)
    requires |g| >= 4
  {
    && IsSymbol(g[0]) && IsSymbol(g[1])
    && (IsSymbol(g[2]) || g[2] == PAD) && (IsSymbol(g[3]) || g[3] == PAD)
    && (g[2] == PAD ==> g[3] == PAD) && (g[3] == PAD ==> last)
  }

  predicate WellFormed(t: seq<Byte>) {
    t == [] || (|t| >= 4 && GroupValid(t, |t| == 4) && WellFormed(t[4..]))
  }

  function Padding(g: seq<Byte>): (n: nat)
    requires |g| >= 4
    ensures n <= 2
  {
    (if g[3] == PAD then 1 else 0) + (if g[2] == PAD then 1 else 0)
  }

  function Number(ch: Byte): (n: nat)
    ensures n < 64
  {
    if IsSymbol(ch) then Find(ch) else 0
  }

  /** Three bytes from four six-bit numbers. */
  function ThreeBytes(a: nat, b: nat, c: nat, e: nat): (r: seq<Byte>)
    ensures |r| == 3
  {
    var d := a * 0x4_0000 + b * 0x1000 + c * 0x40 + e;
    [d / 0x1_0000 % 0x100, d / 0x100 % 0x100, d % 0x100]
  }

  function DecodedGroup(g: seq<Byte>): seq<Byte>
    requires |g| >= 4
  {
    ThreeBytes(Number(g[0]), Number(g[1]), Number(g[2]), Number(g[3]))[..3 - Padding(g)]
  }

  function Decoded(t: seq<Byte>): seq<Byte> {
    if |t| < 4 then [] else DecodedGroup(t) + Decoded(t[4..])
  }

  datatype Decoding = Empty | Invalid | Bytes(bytes: seq<Byte>)

  /** What decoding a string gives: spaces do not count. */
  function Decode(s: seq<Byte>): Decoding {
    var t := Strip(s);
    if t == [] then Empty else if WellFormed(t) then Bytes(Decoded(t)) else Invalid
  }

  // ----- Decoding undoes encoding -----

  lemma {:induction false} StripLines(src: seq<Byte>, col: nat)
    ensures Strip(Lines(src, col)) == Flat(src)
  {
    hide Group, Strip;
    if src == [] {
      StripNothing([]);
    } else {
      var next := if col == MAX_LINE then 4 else col + 4;
      var rest := src[Take(src)..];
      StripLines(rest, next);
      GroupCharacters(src);
      StripNothing(Group(src));
      StripAppend(Group(src), Lines(rest, next));
      if col == MAX_LINE {
        StripBreak(Group(src) + Lines(rest, next));
        assert Lines(src, col) == [NEWLINE] + (Group(src) + Lines(rest, next));
      }
    }
  }

  lemma {:induction false} StripBreak(s: seq<Byte>)
    ensures Strip([NEWLINE] + s) == Strip(s)
  {
    assert ([NEWLINE] + s)[1..] == s;
  }

  lemma {:induction false} GroupIsValid(src: seq<Byte>)
    requires src != []
    ensures GroupValid(Group(src), |src| <= 3)
    ensures Padding(Group(src)) == if |src| < 3 then 3 - |src| else 0
  {
    var d := Bits(src);
    FindSymbol(d / 0x4_0000);
    FindSymbol(d / 0x1000 % 64);
    FindSymbol(d / 64 % 64);
    FindSymbol(d % 64);
  }

  lemma {:induction false} Sextets(d: nat)
    requires d < 0x100_0000
    ensures d / 0x4_0000 * 0x4_0000 + d / 0x1000 % 64 * 0x1000 + d / 64 % 64 * 64 + d % 64 == d
  {
    assert d / 64 / 64 == d / 0x1000 && d / 0x1000 / 64 == d / 0x4_0000;
  }

  lemma {:induction false} NumbersOf(src: seq<Byte>)
    requires src != []
    ensures var g, d := Group(src), Bits(src);
            && Number(g[0]) == d / 0x4_0000 && Number(g[1]) == d / 0x1000 % 64
            && Number(g[2]) == (if |src| < 2 then 0 else d / 64 % 64)
            && Number(g[3]) == (if |src| < 3 then 0 else d % 64)
  {
    var d := Bits(src);
    FindSymbol(d / 0x4_0000);
    FindSymbol(d / 0x1000 % 64);
    FindSymbol(d / 64 % 64);
    FindSymbol(d % 64);
  }

  /** The low six-bit numbers that padding replaces are zero. */
  lemma {:induction false} PaddedBits(src: seq<Byte>)
    requires src != []
    ensures |src| < 2 ==> Bits(src) / 64 % 64 == 0
    ensures |src| < 3 ==> Bits(src) % 64 == 0
  {
  }

  lemma {:induction false} BytesOf(src: seq<Byte>)
    requires src != []
    ensures var d := Bits(src);
            [d / 0x1_0000 % 0x100, d / 0x100 % 0x100, d % 0x100][..Take(src)] == src[..Take(src)]
  {
    var b0: int, b1: int, b2: int := src[0], if |src| > 1 then src[1] else 0, if |src| > 2 then src[2] else 0;
    OfThree(b0, b1, b2);
    var d := Bits(src);
    var r := [d / 0x1_0000 % 0x100, d / 0x100 % 0x100, d % 0x100];
    forall i | 0 <= i < Take(src)
      ensures r[i] == src[i]
    {
      assert i == 0 || i == 1 || i == 2;
    }
  }

  lemma {:induction false} OfThree(b0: nat, b1: nat, b2: nat)
    requires b0 < 0x100 && b1 < 0x100 && b2 < 0x100
    ensures var d := b0 * 0x1_0000 + b1 * 0x100 + b2;
            d / 0x1_0000 % 0x100 == b0 && d / 0x100 % 0x100 == b1 && d % 0x100 == b2
  {
    LowByte(b0 * 0x100 + b1, b2);
    LowByte(b0, b1);
  }

  lemma {:induction false} LowByte(h: nat, b: nat)
    requires b < 0x100
    ensures (h * 0x100 + b) / 0x100 == h && (h * 0x100 + b) % 0x100 == b && (h * 0x100 + b) / 0x1_0000 == h / 0x100
  {
  }

  lemma {:induction false} GroupDecoded(src: seq<Byte>)
    requires src != []
    ensures DecodedGroup(Group(src)) == src[..Take(src)]
  {
    hide Group, Symbol, Find, Number, Bits, Padding;
    GroupIsValid(src);
    NumbersOf(src);
    PaddedBits(src);
    Sextets(Bits(src));
    BytesOf(src);
  }

  lemma {:induction false} FirstFour(g: seq<Byte>, rest: seq<Byte>, last: bool)
    requires |g| == 4
    ensures (g + rest)[4..] == rest && DecodedGroup(g + rest) == DecodedGroup(g)
    ensures GroupValid(g + rest, last) <==> GroupValid(g, last)
  {
    hide Find, Number, ThreeBytes;
  }

  lemma {:induction false} FlatDecoded(src: seq<Byte>)
    ensures WellFormed(Flat(src)) && Decoded(Flat(src)) == src && (src != [] ==> Flat(src) != [])
  {
    hide Group, DecodedGroup, GroupValid;
    if src != [] {
      var rest := src[Take(src)..];
      FlatDecoded(rest);
      FirstFour(Group(src), Flat(rest), rest == []);
      GroupIsValid(src);
      GroupDecoded(src);
      assert rest == [] <==> |src| <= 3;
      assert |Flat(src)| == 4 <==> rest == [];
      assert src == src[..Take(src)] + rest;
    }
  }

  /** Decoding the encoding of any bytes but none gives them back. */
  lemma {:induction false} RoundTrip(src: seq<Byte>)
    ensures Decode(Lines(src, 0)) == if src == [] then Empty else Bytes(src)
  {
    hide Strip, WellFormed, Decoded, Lines, Flat;
    StripLines(src, 0);
    FlatDecoded(src);
    NoGroups();
  }

  lemma {:induction false} NoGroups()
    ensures Flat([]) == []
  {
  }
}
