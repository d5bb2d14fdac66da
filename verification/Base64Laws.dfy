/** Base64 text in terms of its characters: the alphabet, the spaces, the line breaks and the padding. */
module Base64Laws {
  import opened Basics
  import opened Base64

  // ----- The alphabet -----

  const CAPITALS := "ABCDEFGHIJKLMNOPQRSTUVWXYZ"
  const SMALL := "abcdefghijklmnopqrstuvwxyz"
  const DIGITS := "0123456789"
  const ALPHABET := CAPITALS + SMALL + DIGITS + "+/"

  lemma {:induction false} Letters(i: nat)
    requires i < 26
    ensures CAPITALS[i] as int == 65 + i && SMALL[i] as int == 97 + i
  {
  }

  lemma {:induction false} Numerals(i: nat)
    requires i < 10
    ensures DIGITS[i] as int == 48 + i
  {
  }

  /** The symbol for a number is the character at that place of the alphabet. */
  lemma {:induction false} SymbolIs(i: nat)
    requires i < 64
    ensures |ALPHABET| == 64 && Symbol(i) == ALPHABET[i] as int
  {
    if i < 26 {
      Letters(i);
    } else if i < 52 {
      Letters(i - 26);
    } else if i < 62 {
      Numerals(i - 52);
    }
  }

  /** A byte is a symbol exactly if it is a character of the alphabet, and its number is that place. */
  lemma {:induction false} FindIs(ch: Byte)
    ensures IsSymbol(ch) <==> exists i | 0 <= i < |ALPHABET| :: ALPHABET[i] as int == ch
    ensures IsSymbol(ch) ==> Find(ch) < |ALPHABET| && ALPHABET[Find(ch)] as int == ch
  {
    hide Symbol;
    if IsSymbol(ch) {
      SymbolIs(Find(ch));
    }
    SymbolIs(0);
    if i :| 0 <= i < |ALPHABET| && ALPHABET[i] as int == ch {
      SymbolIs(i);
      FindSymbol(i);
    }
  }

  // ----- Spaces -----

  /** Tab, line feed, vertical tab, form feed, carriage return, space and no-break space. */
  const SPACES: set<Byte> := {9, 10, 11, 12, 13, 32, 160}

  lemma {:induction false} SpaceIgnored(s: seq<Byte>, ch: Byte, t: seq<Byte>)
    requires ch in SPACES
    ensures Decode(s + [ch] + t) == Decode(s + t)
  {
    hide WellFormed, Decoded;
    StripAppend(s + [ch], t);
    StripAppend(s, [ch]);
    StripAppend(s, t);
    assert Strip([ch]) == [] && Strip(s) + [] == Strip(s);
  }

  /** The bytes that decoding ignores wherever they stand are those seven and no others. */
  lemma {:induction false} IgnoredExactly(ch: Byte)
    ensures ch in SPACES <==> forall s, t :: Decode(s + [ch] + t) == Decode(s + t)
  {
    hide Decode;
    if ch in SPACES {
      forall s, t
        ensures Decode(s + [ch] + t) == Decode(s + t)
      {
        SpaceIgnored(s, ch, t);
      }
    } else {
      NotEmpty(ch);
      var none: seq<Byte> := [];
      assert none + [ch] + none == [ch] && none + none == none;
      assert Decode(none + [ch] + none) != Decode(none + none);
    }
  }

  lemma {:induction false} NotEmpty(ch: Byte)
    requires ch !in SPACES
    ensures Decode([ch]) != Empty && Decode([]) == Empty
  {
    assert Strip([ch]) == [ch];
  }

  // ----- Line breaks -----

  /** With `col` characters on the line already, a break stands wherever 76 have gone before it. */
  lemma {:induction false} BreaksFrom(src: seq<Byte>, col: nat, k: nat)
    requires col <= 76 && col % 4 == 0 && k < |Lines(src, col)|
    ensures Lines(src, col)[k] == 10 <==> (col + k) % 77 == 76
    decreases k
  {
    hide Group, Lines;
    LinesFrom(src, col);
    var rest, t := src[Take(src)..], Lines(src, col);
    if col == 76 {
      if k >= 5 {
        BreaksFrom(rest, 4, k - 5);
        assert t[k] == t[5..][k - 5];
      }
      NextLine(k);
    } else if k >= 4 {
      BreaksFrom(rest, col + 4, k - 4);
      assert t[k] == t[4..][k - 4];
    }
  }

  lemma {:induction false} NextLine(k: nat)
    ensures k > 0 ==> (76 + k) % 77 == (k - 1) % 77
  {
    if k > 0 {
      assert 76 + k == 77 + (k - 1);
    }
  }

  /** One group, with a break before it if the line is full, and the rest. */
  lemma {:induction false} LinesFrom(src: seq<Byte>, col: nat)
    requires Lines(src, col) != []
    ensures var t, rest := Lines(src, col), src[Take(src)..];
      if col == 76 then |t| >= 5 && t[0] == 10 && (forall i | 1 <= i < 5 :: t[i] != 10) && t[5..] == Lines(rest, 4)
      else |t| >= 4 && (forall i | 0 <= i < 4 :: t[i] != 10) && t[4..] == Lines(rest, col + 4)
  {
    hide Group;
    GroupCharacters(src);
  }

  /** Every line but the last has 76 characters. */
  lemma {:induction false} BreaksExactly(src: seq<Byte>, k: nat)
    requires k < |Lines(src, 0)|
    ensures Lines(src, 0)[k] == 10 <==> k % 77 == 76
  {
    BreaksFrom(src, 0, k);
  }

  // ----- Padding -----

  /** Whole groups of symbols, of which the last one or two may be equals signs. */
  ghost predicate Padded(t: seq<Byte>)
    requires |t| >= 2
  {
    var n := |t|;
    && n % 4 == 0
    && (forall i | 0 <= i < n - 2 :: IsSymbol(t[i]))
    && (IsSymbol(t[n - 2]) || (t[n - 2] == 61 && t[n - 1] == 61))
    && (IsSymbol(t[n - 1]) || t[n - 1] == 61)
  }

  /** What is accepted, once the spaces are gone. */
  lemma {:induction false} WellFormedExactly(t: seq<Byte>)
    requires |t| >= 2
    ensures WellFormed(t) <==> Padded(t)
  {
    hide IsSymbol;
    if |t| == 4 {
      NoSymbolIsPad();
    } else if |t| >= 6 {
      NoSymbolIsPad();
      var r := t[4..];
      WellFormedExactly(r);
      assert forall i | 0 <= i < |r| :: r[i] == t[i + 4];
      assert forall i | 4 <= i < |t| :: t[i] == r[i - 4];
    }
  }

  lemma {:induction false} NoSymbolIsPad()
    ensures !IsSymbol(61)
  {
  }

  /** Three bytes for every group, less one for every equals sign. */
  lemma {:induction false} DecodedLength(t: seq<Byte>)
    requires WellFormed(t) && t != []
    ensures |Decoded(t)| == |t| / 4 * 3 - (if t[|t| - 1] == 61 then 1 else 0) - (if t[|t| - 2] == 61 then 1 else 0)
  {
    hide IsSymbol, Number, ThreeBytes;
    NoSymbolIsPad();
    if |t| > 4 {
      DecodedLength(t[4..]);
    }
  }
}
