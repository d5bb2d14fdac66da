/** Bytes, optional values and slices. */
module Basics {

  type Byte = b: int | 0 <= b < 256

  datatype Option<+T> = None | Some(value: T)

  lemma {:induction false} SliceOfSlice<T>(s: seq<T>, a: int, b: int, i: int, j: int)
    requires 0 <= a <= b <= |s| && 0 <= i <= j <= b - a
    ensures s[a..b][i..j] == s[a + i..a + j]
  {
    var t := s[a..b];
    forall k | 0 <= k < j - i
      ensures t[i..j][k] == s[a + i..a + j][k]
    {
      assert t[i..j][k] == t[i + k] == s[a + (i + k)];
    }
  }

  /** `e` written over the part of `s` that begins at `at`. */
  function Overwritten<T>(s: seq<T>, at: nat, e: seq<T>): (r: seq<T>)
    requires at + |e| <= |s|
    ensures |r| == |s|
  {
    s[..at] + e + s[at + |e|..]
  }

  /** What lies before, in and after the part written over. */
  lemma {:induction false} OverwrittenParts<T>(s: seq<T>, at: nat, e: seq<T>, a: nat, b: nat)
    requires a <= at && at + |e| <= b <= |s|
    ensures Overwritten(s, at, e)[..a] == s[..a]
    ensures Overwritten(s, at, e)[at..at + |e|] == e
    ensures Overwritten(s, at, e)[at..b] == e + s[at + |e|..b]
    ensures Overwritten(s, at, e)[..at + |e|] == s[..at] + e
    ensures Overwritten(s, at, e)[b..] == s[b..]
  {
    var r := Overwritten(s, at, e);
    assert forall k | 0 <= k < at :: r[k] == s[k];
    assert forall k | 0 <= k < |e| :: r[at + k] == e[k];
    assert forall k | at + |e| <= k < |s| :: r[k] == s[k];
  }
}
