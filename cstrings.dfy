/**
 * The C-library pieces the engine relies on: NUL-terminated strings, the
 * C-locale <ctype.h> classes, the strndup fallback and strcpy/strcat into a
 * caller-sized buffer.
 */
module CStrings {

  const NUL: char := '\0'

  /** A C string: no NUL before its terminator. */
  predicate IsCString(s: string) {
    forall i | 0 <= i < |s| :: s[i] != NUL
  }

  /** The character `*(s + i)`: index |s| is the terminator. */
  function At(s: string, i: nat): (c: char)
    requires i <= |s|
    ensures IsCString(s) ==> (c == NUL <==> i == |s|)
  {
    if i < |s| then s[i] else NUL
  }

  // isalpha, isdigit and isalnum in the "C" locale

  predicate IsAlpha(c: char) {
    ('a' <= c <= 'z') || ('A' <= c <= 'Z')
  }

  predicate IsDigit(c: char) {
    '0' <= c <= '9'
  }

  predicate IsAlnum(c: char) {
    IsAlpha(c) || IsDigit(c)
  }

  predicate AllAlnum(s: string) {
    forall i | 0 <= i < |s| :: IsAlnum(s[i])
  }

  /**
   * The strndup fallback: a fresh buffer of n + 1 characters holding the n
   * characters that start at `from`, then the terminator.
   */
  method StrNDup(s: string, from: nat, n: nat) returns (r: string)
    requires from + n <= |s|
    ensures r == s[from..from + n]
  {
    var buffer := new char[n + 1];
    var i := 0;
    while i < n
      invariant 0 <= i <= n
      invariant buffer[..i] == s[from..from + i]
    {
      buffer[i] := s[from + i];
      i := i + 1;
    }
    buffer[n] := NUL;
    r := buffer[..n];
  }

  /**
   * strcat(buffer, piece) on a buffer whose current string has length `end`
   * (strcpy when `end` is 0): the piece and its terminator must fit.
   */
  method StrCat(buffer: array<char>, end: nat, piece: string) returns (end': nat)
    requires end + |piece| < buffer.Length
    modifies buffer
    ensures end' == end + |piece|
    ensures buffer[..end'] == old(buffer[..end]) + piece
    ensures buffer[end'] == NUL
  {
    var i := 0;
    while i < |piece|
      invariant 0 <= i <= |piece|
      invariant buffer[..end + i] == old(buffer[..end]) + piece[..i]
    {
      buffer[end + i] := piece[i];
      i := i + 1;
    }
    end' := end + |piece|;
    buffer[end'] := NUL;
  }
}
