/** What it takes to read a pattern byte by byte. */
module RegexScan {
  import opened Basics
  import opened RegexLanguage

  /** Why a pattern is refused.  OUTSIDE stands for the constructs that are not modelled. */
  datatype Error = EMPTY | EPAREN | BADRPT | EESCAPE | BADBR | EBRACE | EBRACK | ERANGE | OUTSIDE

  /** A result with the place where reading goes on, or the first error. */
  datatype Parsed<+T> = Ok(value: T, next: nat) | Err(e: Error)

  function Chr(c: char): (b: Byte)
    requires c < 256 as char
  {
    c as int
  }

  predicate See(s: Word, i: nat, c: char)
    requires c < 256 as char
  {
    i < |s| && s[i] == Chr(c)
  }

  predicate SeeTwo(s: Word, i: nat, c: char, d: char)
    requires c < 256 as char && d < 256 as char
  {
    See(s, i, c) && See(s, i + 1, d)
  }

  /** Cutting a text that is the concatenation of two. */
  lemma {:induction false} Cut(s: Word, i: nat, n: nat, u: Word, v: Word)
    requires i <= n <= |s| && s[i..n] == u + v
    ensures n == i + |u| + |v| && s[i..i + |u|] == u && s[i + |u|..n] == v
  {
    SliceOfSlice(s, i, n, 0, |u|);
    SliceOfSlice(s, i, n, |u|, n - i);
  }

  lemma {:induction false} FirstOf(s: Word, i: nat, n: nat, c: Byte, v: Word)
    requires i <= n <= |s| && s[i..n] == [c] + v
    ensures i < n && s[i] == c && s[i + 1..n] == v
  {
    Cut(s, i, n, [c], v);
    assert s[i] == s[i..i + 1][0];
  }

  lemma {:induction false} LastOf(s: Word, i: nat, n: nat, v: Word, c: Byte)
    requires i <= n <= |s| && s[i..n] == v + [c]
    ensures i < n && s[n - 1] == c && s[i..n - 1] == v
  {
    Cut(s, i, n, v, [c]);
    assert s[n - 1] == s[n - 1..n][0];
  }
}
