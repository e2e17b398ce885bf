/** Bytes, C strings and the few C library helpers that the modelled components share. */
module Bytes {

  type Byte = b: int | 0 <= b < 256

  const NUL: Byte := 0
  const BEL: Byte := 0x07
  const ESC: Byte := 0x1b
  const SEMICOLON: Byte := 0x3b
  const BRACKET: Byte := 0x5d
  const BACKSLASH: Byte := 0x5c

  datatype Option<+T> = None | Some(value: T)

  /** `isspace` in the C locale. */
  predicate IsSpace(c: Byte) {
    c == 0x20 || 0x09 <= c <= 0x0d
  }

  /** What `strlen` and `strdup` see of a buffer: everything before its first NUL. */
  function CString(s: seq<Byte>): (r: seq<Byte>)
    ensures r <= s
    ensures NUL !in r
    ensures |r| < |s| ==> s[|r|] == NUL
  {
    if s == [] || s[0] == NUL then [] else [s[0]] + CString(s[1..])
  }

  lemma {:induction false} CStringOfNulFree(s: seq<Byte>)
    requires NUL !in s
    ensures CString(s) == s
  {
  }

  lemma {:induction false} CStringTwice(s: seq<Byte>)
    ensures CString(CString(s)) == CString(s)
  {
    CStringOfNulFree(CString(s));
  }

  /** `memchr`: the first position of `c`, if there is one. */
  function FindByte(s: seq<Byte>, c: Byte): (r: Option<nat>)
    ensures r.None? ==> c !in s
    ensures r.Some? ==> r.value < |s| && s[r.value] == c && c !in s[..r.value]
  {
    if s == [] then None
    else if s[0] == c then Some(0)
    else
      match FindByte(s[1..], c)
      case None => None
      case Some(i) =>
        assert s[..i + 1] == [s[0]] + s[1..][..i];
        Some(i + 1)
  }

  lemma TakeSnoc<T>(s: seq<T>, i: nat)
    requires i < |s|
    ensures s[..i + 1] == s[..i] + [s[i]]
    ensures s[..i + 1][..|s[..i + 1]| - 1] == s[..i]
  {
  }

  lemma TakeOfSlice<T>(s: seq<T>, at: nat, n: nat, m: nat)
    requires m <= n && at + n <= |s|
    ensures s[at..at + n][..m] == s[at..at + m]
  {
  }

  lemma JoinAt<T>(a: seq<T>, b: seq<T>, i: nat)
    requires i <= |a|
    ensures a[..i] + (a[i..] + b) == a + b
  {
  }

  lemma Associative<T>(a: seq<T>, b: seq<T>, c: seq<T>)
    ensures a + (b + c) == a + b + c
  {
  }
}
