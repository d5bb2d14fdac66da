/** The loops that encode and decode base64, over buffers. */
module Base64Codec {
  import opened Basics
  import opened Base64

  // ----- Encoding -----

  lemma {:induction false} LinesHere(src: seq<Byte>, col: nat)
    requires src != []
    ensures Lines(src, col) == (if col == MAX_LINE then [NEWLINE] else []) + Group(src)
                               + Lines(src[Take(src)..], if col == MAX_LINE then 4 else col + 4)
  {
    hide Group;
    if col != MAX_LINE {
      assert [] + Group(src) == Group(src);
    }
  }

  /** Writes the encoding, breaking lines at the limit. */
  method EncodeLocal(src: seq<Byte>, dest: array<Byte>) returns (n: nat)
    requires |Lines(src, 0)| <= dest.Length
    modifies dest
    ensures n == |Lines(src, 0)| && dest[..n] == Lines(src, 0) && dest[n..] == old(dest[n..])
    ensures src != [] ==> n == EncodeLength(|src|)
  {
    hide Lines, Group, EncodeLength, Overwritten, Writing;
    n := 0;
    var lineBreakCount := 0;
    var i := 0;
    ghost var was := dest[..];
    NothingWritten(src, was);
    while i < |src|
      invariant 0 <= i <= |src| && 0 <= lineBreakCount && 0 <= n <= |was| == dest.Length
      invariant Writing(src, was, dest[..], i, n, lineBreakCount)
      decreases |src| - i
    {
      RoomLeft(src, was, dest[..], i, n, lineBreakCount);
      if lineBreakCount == MAX_LINE {
        BreakWritten(src, was, dest[..], i, n);
        dest[n] := NEWLINE;
        n := n + 1;
        lineBreakCount := 0;
      }
      var g, taken := EncodeGroup(src, i);
      GroupWritten(src, was, dest[..], i, n, lineBreakCount);
      PutGroup(dest, n, g);
      i := i + taken;
      n := n + 4;
      lineBreakCount := lineBreakCount + 4;
    }
    AllWritten(src, was, dest[..], n, lineBreakCount);
    LengthIsExact(src);
  }

  /** Writes four characters. */
  method PutGroup(dest: array<Byte>, n: nat, g: seq<Byte>)
    requires |g| == 4 && n + 4 <= dest.Length
    modifies dest
    ensures dest[..] == Overwritten(old(dest[..]), n, g)
  {
    dest[n], dest[n + 1], dest[n + 2], dest[n + 3] := g[0], g[1], g[2], g[3];
  }

  /** The first `n` bytes are written; what `src` has from `i` on is still to come, from column `col`. */
  ghost predicate Writing(src: seq<Byte>, was: seq<Byte>, now: seq<Byte>, i: nat, n: nat, col: nat)
    requires i <= |src| && n <= |now| == |was|
  {
    now[..n] + Lines(src[i..], col) == Lines(src, 0) && now[n..] == was[n..]
  }

  lemma {:induction false} NothingWritten(src: seq<Byte>, was: seq<Byte>)
    ensures Writing(src, was, was, 0, 0, 0)
  {
    hide Lines;
    assert src[0..] == src && was[..0] + Lines(src, 0) == Lines(src, 0);
  }

  lemma {:induction false} RoomLeft(src: seq<Byte>, was: seq<Byte>, now: seq<Byte>, i: nat, n: nat, col: nat)
    requires i < |src| && n <= |now| == |was| && Writing(src, was, now, i, n, col) && |Lines(src, 0)| <= |now|
    ensures n + 4 + (if col == MAX_LINE then 1 else 0) <= |now|
  {
    LinesSize(now[..n], src[i..], col, |Lines(src, 0)|);
  }

  /** A line break, and then a new line. */
  lemma {:induction false} BreakWritten(src: seq<Byte>, was: seq<Byte>, now: seq<Byte>, i: nat, n: nat)
    requires i < |src| && n < |now| == |was| && Writing(src, was, now, i, n, MAX_LINE)
    ensures Writing(src, was, now[n := NEWLINE], i, n + 1, 0)
  {
    hide Group, Lines;
    var next := now[n := NEWLINE];
    LinesHere(src[i..], MAX_LINE);
    LinesHere(src[i..], 0);
    assert next[..n + 1] == now[..n] + [NEWLINE];
    assert next[n + 1..] == now[n..][1..] == was[n + 1..];
    Regrouped(now[..n], [NEWLINE], Group(src[i..]), Lines(src[i..][Take(src[i..])..], 4));
    assert [] + Group(src[i..]) == Group(src[i..]);
  }

  lemma {:induction false} GroupWritten(src: seq<Byte>, was: seq<Byte>, now: seq<Byte>, i: nat, n: nat, col: nat)
    requires i < |src| && n + 4 <= |now| == |was| && col != MAX_LINE && Writing(src, was, now, i, n, col)
    ensures var taken := Take(src[i..]);
            Writing(src, was, Overwritten(now, n, Group(src[i..])), i + taken, n + 4, col + 4)
  {
    hide Group, Lines, Overwritten;
    var g, left := Group(src[i..]), src[i..];
    var next := Overwritten(now, n, g);
    OverwrittenParts(now, n, g, n, n + 4);
    LinesHere(left, col);
    assert left[Take(left)..] == src[i + Take(left)..];
    assert now[n..][4..] == now[n + 4..] && was[n..][4..] == was[n + 4..];
    Regrouped(now[..n], [], g, Lines(left[Take(left)..], col + 4));
    assert now[..n] + [] == now[..n];
  }

  lemma {:induction false} AllWritten(src: seq<Byte>, was: seq<Byte>, now: seq<Byte>, n: nat, col: nat)
    requires n <= |now| == |was| && Writing(src, was, now, |src|, n, col)
    ensures n == |Lines(src, 0)| && now[..n] == Lines(src, 0) && now[n..] == was[n..]
  {
    LinesDone(src, col);
    assert now[..n] + [] == now[..n];
  }

  lemma {:induction false} LinesDone(src: seq<Byte>, col: nat)
    ensures Lines(src[|src|..], col) == []
  {
  }

  lemma {:induction false} Regrouped(w: seq<Byte>, f: seq<Byte>, g: seq<Byte>, r: seq<Byte>)
    ensures w + (f + g + r) == w + f + g + r
    ensures w + f + (g + r) == w + f + g + r
  {
  }

  lemma {:induction false} LinesSize(written: seq<Byte>, left: seq<Byte>, col: nat, total: nat)
    requires left != [] && |written| + |Lines(left, col)| == total
    ensures |written| + 4 + (if col == MAX_LINE then 1 else 0) <= total
  {
    hide Group;
  }

  lemma {:induction false} FewBits(src: seq<Byte>)
    requires src != []
    ensures var b0: int := src[0];
            |src| == 1 ==> Bits(src) == b0 * 0x1_0000
    ensures |src| == 2 ==> var b0: int, b1: int := src[0], src[1]; Bits(src) == b0 * 0x1_0000 + b1 * 0x100
    ensures |src| >= 3 ==> var b0: int, b1: int, b2: int := src[0], src[1], src[2];
                           Bits(src) == b0 * 0x1_0000 + b1 * 0x100 + b2
  {
  }

  lemma {:induction false} TopSextet(d: nat)
    requires d < 0x100_0000
    ensures d / 0x4_0000 % 64 == d / 0x4_0000
  {
  }

  /** The next three bytes, or what is left of them, as four characters. */
  method EncodeGroup(src: seq<Byte>, start: nat) returns (g: seq<Byte>, taken: nat)
    requires start < |src|
    ensures taken == Take(src[start..]) && g == Group(src[start..])
  {
    hide Symbol, Bits;
    FewBits(src[start..]);
    var i := start;
    var b0: int := src[i];
    var d := b0 * 0x1_0000;
    i := i + 1;
    var fill := 2;
    if |src| >= i + 1 {
      var b1: int := src[i];
      d := d + b1 * 0x100;
      i := i + 1;
      fill := 1;
    }
    if |src| >= i + 1 {
      d := d + src[i];
      i := i + 1;
      fill := 0;
    }
    TopSextet(d);
    g := [Symbol(d / 0x4_0000 % 64), Symbol(d / 0x1000 % 64),
          if fill > 1 then PAD else Symbol(d / 0x40 % 64),
          if fill > 0 then PAD else Symbol(d % 64)];
    taken := i - start;
  }

  // ----- Decoding -----

  /** How many bytes of its buffer the removal of spaces looks at. */
  function ReadsTo(buf: seq<Byte>, size: nat): nat
    requires size <= |buf|
  {
    if size > 0 && IsSpace(buf[size - 1]) then size + 1 else size
  }

  /** It stays inside the buffer unless that ends with the string and the string with a space. */
  lemma {:induction false} StaysInside(buf: seq<Byte>, size: nat)
    requires size <= |buf|
    ensures ReadsTo(buf, size) <= |buf| <==> !(size == |buf| && size > 0 && IsSpace(buf[size - 1]))
  {
  }

  /** A single space with nothing after it is too short. */
  lemma {:induction false} SpaceAlone()
    ensures var space: seq<Byte> := [32]; ReadsTo(space, 1) > |space|
  {
  }

  /** An encoding does not end in a space, so it needs no byte after it. */
  lemma {:induction false} EncodingStaysInside(src: seq<Byte>, col: nat)
    ensures ReadsTo(Lines(src, col), |Lines(src, col)|) == |Lines(src, col)|
  {
    hide Group, IsSpace;
    if src != [] {
      var rest, next := src[Take(src)..], if col == MAX_LINE then 4 else col + 4;
      LinesHere(src, col);
      GroupCharacters(src);
      EncodingStaysInside(rest, next);
    }
  }

  /** Copies what is not a space; every byte is looked at before the index is tested. */
  method RemoveSpace(buf: seq<Byte>, size: nat, dest: array<Byte>) returns (len: nat, ghost seen: nat)
    requires size <= |buf| && ReadsTo(buf, size) <= |buf| && size <= dest.Length
    modifies dest
    ensures len == |Strip(buf[..size])| <= dest.Length && dest[..len] == Strip(buf[..size])
    ensures seen == ReadsTo(buf, size)
  {
    hide Strip, IsSpace;
    len, seen := 0, 0;
    var i := 0;
    StripStart(buf);
    while i < size
      invariant 0 <= i <= size && len <= i && dest[..len] == Strip(buf[..i])
      invariant seen == if i == size then ReadsTo(buf, size) else i
    {
      i, seen := SkipSpace(buf, size, i, dest, len);
      if i >= size {
        break;
      }
      StripNext(buf, i);
      dest[len] := buf[i];
      i := i + 1;
      len := len + 1;
    }
  }

  /** The next byte that is not a space. */
  method SkipSpace(buf: seq<Byte>, size: nat, start: nat, dest: array<Byte>, len: nat) returns (i: nat, ghost seen: nat)
    requires start < size <= |buf| && ReadsTo(buf, size) <= |buf|
    requires len <= dest.Length && dest[..len] == Strip(buf[..start])
    ensures start <= i <= size && dest[..len] == Strip(buf[..i])
    ensures i < size ==> !IsSpace(buf[i]) && seen == i + 1
    ensures i == size ==> IsSpace(buf[size - 1]) && seen == size + 1
  {
    hide Strip, IsSpace;
    i, seen := start, start;
    while true
      invariant start <= i <= size && dest[..len] == Strip(buf[..i])
      invariant start < i ==> IsSpace(buf[i - 1])
      decreases size - i
    {
      SpaceEntry(buf[i]);
      seen := i + 1;
      if !(TableEntry(buf[i]) == -2 && i < size) {
        break;
      }
      StripNext(buf, i);
      i := i + 1;
    }
  }

  lemma {:induction false} StripStart(src: seq<Byte>)
    ensures Strip(src[..0]) == []
  {
  }

  lemma {:induction false} SpaceEntry(ch: Byte)
    ensures TableEntry(ch) == -2 <==> IsSpace(ch)
  {
  }

  lemma {:induction false} StripNext(src: seq<Byte>, i: nat)
    requires i < |src|
    ensures Strip(src[..i + 1]) == Strip(src[..i]) + if IsSpace(src[i]) then [] else [src[i]]
  {
    hide IsSpace;
    assert src[..i + 1] == src[..i] + [src[i]];
    StripAppend(src[..i], [src[i]]);
    assert [src[i]][1..] == [];
  }

  /** Four six-bit numbers, of which the last `padding` are absent. */
  datatype Chunk = Chunk(numbers: seq<nat>, padding: nat) {
    predicate Valid() {
      |numbers| == 4 && padding <= 2
    }
  }

  function ChunkBytes(c: Chunk): seq<Byte>
    requires c.Valid()
  {
    ThreeBytes(c.numbers[0], c.numbers[1], c.numbers[2], c.numbers[3])[..3 - c.padding]
  }

  ghost predicate ChunksValid(cs: seq<Chunk>) {
    forall i | 0 <= i < |cs| :: cs[i].Valid()
  }

  ghost function ChunksBytes(cs: seq<Chunk>): seq<Byte>
    requires ChunksValid(cs)
  {
    if cs == [] then [] else ChunksBytes(cs[..|cs| - 1]) + ChunkBytes(cs[|cs| - 1])
  }

  lemma {:induction false} OneMoreChunk(cs: seq<Chunk>, c: Chunk)
    requires ChunksValid(cs) && c.Valid()
    ensures ChunksValid(cs + [c]) && ChunksBytes(cs + [c]) == ChunksBytes(cs) + ChunkBytes(c)
  {
    hide ChunkBytes;
    assert (cs + [c])[..|cs|] == cs;
  }

  datatype Partition = BadInput | Chunks(chunks: seq<Chunk>, len: nat)

  /** The group of four at the start of `src` as a chunk. */
  method MakeChunk(src: seq<Byte>) returns (c: Chunk)
    requires |src| >= 4 && GroupValid(src, true)
    ensures c.Valid() && ChunkBytes(c) == DecodedGroup(src) && c.padding == Padding(src)
  {
    hide Find, ThreeBytes;
    var padding := if src[3] == PAD then 1 else 0;
    padding := padding + if src[2] == PAD then 1 else 0;
    var numbers := [0, 0, 0, 0];
    var j := 0;
    while j <= 3 - padding
      invariant 0 <= j <= 4 - padding && |numbers| == 4
      invariant forall k | 0 <= k < j :: numbers[k] == Number(src[k])
      invariant forall k | j <= k < 4 :: numbers[k] == 0
    {
      numbers := numbers[j := Find(src[j])];
      j := j + 1;
    }
    c := Chunk(numbers, padding);
  }

  lemma {:induction false} NotInvalid(ch: Byte)
    requires !IsSpace(ch)
    ensures !CharIsInvalid(ch) <==> IsSymbol(ch) || ch == PAD
  {
  }

  ghost predicate NoSpace(s: seq<Byte>) {
    forall i | 0 <= i < |s| :: !IsSpace(s[i])
  }

  /** Whether the next four characters, not the end, may be decoded. */
  method CheckGroup(src: seq<Byte>, last: bool) returns (ok: bool)
    requires |src| >= 4 && NoSpace(src)
    ensures ok <==> GroupValid(src, last)
  {
    hide IsSpace, IsSymbol, CharIsInvalid;
    NotInvalid(src[0]);
    NotInvalid(src[1]);
    NotInvalid(src[2]);
    NotInvalid(src[3]);
    PadIsNoSymbol();
    if || CharIsInvalid(src[0]) || CharIsInvalid(src[1]) || CharIsInvalid(src[2])
       || CharIsInvalid(src[3]) || src[0] == PAD || src[1] == PAD {
      return false;
    }
    if src[2] == PAD && src[3] != PAD {
      return false;
    }
    return !(src[3] == PAD && !last);
  }

  lemma {:induction false} PadIsNoSymbol()
    ensures !IsSymbol(PAD)
  {
  }

  /** Splits the characters into chunks and adds up the bytes that these will give. */
  method PartitionIntoChunks(src: seq<Byte>) returns (r: Partition)
    requires src != [] && NoSpace(src)
    ensures r.Chunks? <==> WellFormed(src)
    ensures r.Chunks? ==> && ChunksValid(r.chunks) && ChunksBytes(r.chunks) == Decoded(src)
                          && r.len == |Decoded(src)|
  {
    hide GroupValid, DecodedGroup, ChunkBytes, WellFormed, Decoded;
    if |src| % 4 != 0 {
      NotWhole(src);
      return BadInput;
    }
    var chunkNum := |src| / 4;
    var chunks, len, i := [], 0, 0;
    assert src[0..] == src;
    while |chunks| < chunkNum
      invariant 0 <= i == 4 * |chunks| <= |src| && ChunksValid(chunks)
      invariant WellFormed(src) <==> WellFormed(src[i..])
      invariant ChunksBytes(chunks) + Decoded(src[i..]) == Decoded(src)
      invariant len == |ChunksBytes(chunks)|
      decreases |src| - i
    {
      ghost var left := src[i..];
      GroupFirst(left);
      var ok := CheckGroup(src[i..], |chunks| + 1 == chunkNum);
      if !ok {
        return BadInput;
      }
      LastAllowed(left, |chunks| + 1 == chunkNum);
      var c := MakeChunk(src[i..]);
      OneMoreChunk(chunks, c);
      chunks := chunks + [c];
      DecodedSize(left);
      assert left[4..] == src[i + 4..];
      if src[i + 3] == PAD {
        len := len + if src[i + 2] == PAD then 1 else 2;
        WholeUsed(left);
        return Chunks(chunks, len);
      }
      len := len + 3;
      i := i + 4;
    }
    NothingLeft(src);
    r := Chunks(chunks, len);
  }

  lemma {:induction false} NotWhole(t: seq<Byte>)
    ensures WellFormed(t) ==> |t| % 4 == 0
  {
    hide GroupValid;
    if |t| >= 4 {
      NotWhole(t[4..]);
    }
  }

  lemma {:induction false} GroupFirst(t: seq<Byte>)
    requires |t| >= 4
    ensures WellFormed(t) <==> GroupValid(t, |t| == 4) && WellFormed(t[4..])
    ensures Decoded(t) == DecodedGroup(t) + Decoded(t[4..])
  {
    hide GroupValid, DecodedGroup;
  }

  lemma {:induction false} LastAllowed(t: seq<Byte>, last: bool)
    requires |t| >= 4 && GroupValid(t, last)
    ensures GroupValid(t, true) && (t[3] == PAD ==> last) && (t[2] == PAD ==> t[3] == PAD)
  {
  }

  lemma {:induction false} DecodedSize(t: seq<Byte>)
    requires |t| >= 4
    ensures |DecodedGroup(t)| == 3 - Padding(t)
  {
    hide ThreeBytes, Number;
  }

  lemma {:induction false} WholeUsed(t: seq<Byte>)
    requires |t| == 4
    ensures WellFormed(t[4..]) && Decoded(t[4..]) == []
  {
  }

  lemma {:induction false} NothingLeft(t: seq<Byte>)
    ensures WellFormed(t[|t|..]) && Decoded(t[|t|..]) == []
  {
  }

  /** Writes the bytes of the chunks. */
  method DecodeChunks(dest: array<Byte>, chunks: seq<Chunk>) returns (n: nat)
    requires ChunksValid(chunks) && |ChunksBytes(chunks)| <= dest.Length
    modifies dest
    ensures n == |ChunksBytes(chunks)| && dest[..n] == ChunksBytes(chunks) && dest[n..] == old(dest[n..])
  {
    hide ChunksBytes;
    var i := 0;
    n := 0;
    NoChunks(chunks);
    while i < |chunks|
      invariant 0 <= i <= |chunks| && 0 <= n == |ChunksBytes(chunks[..i])| <= dest.Length
      invariant dest[..n] == ChunksBytes(chunks[..i]) && dest[n..] == old(dest[n..])
    {
      var c := chunks[i];
      NextChunk(chunks, i);
      var bytes := ThreeBytes(c.numbers[0], c.numbers[1], c.numbers[2], c.numbers[3]);
      var copyNum := 3 - c.padding;
      forall k | 0 <= k < copyNum {
        dest[n + k] := bytes[k];
      }
      n := n + copyNum;
      i := i + 1;
    }
    assert chunks[..i] == chunks;
  }

  lemma {:induction false} NoChunks(chunks: seq<Chunk>)
    requires ChunksValid(chunks)
    ensures ChunksBytes(chunks[..0]) == []
  {
  }

  lemma {:induction false} NextChunk(chunks: seq<Chunk>, i: nat)
    requires i < |chunks| && ChunksValid(chunks)
    ensures ChunksBytes(chunks[..i + 1]) == ChunksBytes(chunks[..i]) + ChunkBytes(chunks[i])
    ensures |ChunksBytes(chunks[..i])| + |ChunkBytes(chunks[i])| <= |ChunksBytes(chunks)|
    decreases |chunks|
  {
    hide ChunkBytes;
    assert chunks[..i + 1][..i] == chunks[..i];
    if i + 1 < |chunks| {
      var front := chunks[..|chunks| - 1];
      assert front[..i] == chunks[..i];
      NextChunk(front, i);
    } else {
      assert chunks[..i + 1] == chunks;
    }
  }

  /** Decodes a whole string: its spaces go first, then it must be groups of four. */
  method DecodeString(buf: seq<Byte>, size: nat) returns (r: Decoding)
    requires size <= |buf| && ReadsTo(buf, size) <= |buf|
    ensures r == Decode(buf[..size])
  {
    hide Strip, WellFormed, Decoded, ChunksBytes;
    var noSpace := new Byte[size + 1];
    var len, _ := RemoveSpace(buf, size, noSpace);
    if len == 0 {
      return Empty;
    }
    StripHasNone(buf[..size]);
    var parts := PartitionIntoChunks(noSpace[..len]);
    if parts.BadInput? {
      return Invalid;
    }
    var dest := new Byte[parts.len + 1];
    dest[parts.len] := 0;
    var n := DecodeChunks(dest, parts.chunks);
    assert n == parts.len;
    r := Bytes(dest[..parts.len]);
  }
}
