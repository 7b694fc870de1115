/**
 * The C string functions queue.c relies on: `strlen` and `strncpy`.
 * A C string lives in a character buffer and ends at the buffer's first NUL.
 */
module CString {

  const NUL: char := '\0'

  /** A buffer that holds a terminating NUL somewhere. */
  predicate Terminated(buf: seq<char>)
  {
    NUL in buf
  }

  /** `strlen`: the index of the first NUL of the buffer. */
  function StrLen(buf: seq<char>): (n: nat)
    requires Terminated(buf)
    ensures n < |buf| && buf[n] == NUL
    ensures forall i :: 0 <= i < n ==> buf[i] != NUL
  {
    if buf[0] == NUL then 0
    else
      assert NUL in buf[1..] by {
        var k :| 0 <= k < |buf| && buf[k] == NUL;
        assert buf[1..][k - 1] == NUL;
      }
      StrLen(buf[1..]) + 1
  }

  /** The text a terminated buffer holds: the characters before its first NUL. */
  function Text(buf: seq<char>): (s: string)
    requires Terminated(buf)
    ensures NUL !in s && |s| < |buf| && buf[|s|] == NUL
    ensures s == buf[..|s|]
  {
    buf[..StrLen(buf)]
  }

  /**
   * What `strncpy(dst, src, n)` leaves in `dst[0 .. n)` when `src` holds the
   * text `s`: the first `n` characters of `s`, padded with NUL up to `n`.
   */
  function Padded(s: string, n: nat): seq<char>
  {
    seq(n, i requires 0 <= i < n => if i < |s| then s[i] else NUL)
  }

  /** A buffer whose only NUL is its last character holds exactly the text before it. */
  lemma TextOfTerminated(s: string)
    requires NUL !in s
    ensures Terminated(s + [NUL]) && Text(s + [NUL]) == s
  {
    var buf := s + [NUL];
    assert buf[|s|] == NUL;
  }

  /** Copying the whole text and its terminator is the identity on the buffer. */
  lemma PaddedWhole(s: string)
    requires NUL !in s
    ensures Padded(s, |s| + 1) == s + [NUL]
  {
  }

  /**
   * Reading back a buffer that `strncpy` filled with `n` characters and that
   * is then NUL-terminated gives the text cut to at most `n` characters.
   */
  lemma {:induction false} PaddedText(s: string, n: nat)
    requires NUL !in s
    ensures Terminated(Padded(s, n) + [NUL])
    ensures Text(Padded(s, n) + [NUL]) == if n <= |s| then s[..n] else s
  {
    var buf := Padded(s, n) + [NUL];
    var m := if n <= |s| then n else |s|;
    assert buf[m] == NUL;
    assert buf[..m] == s[..m];
  }

  /**
   * `strncpy(dst, src, n)`: copies the text of `src` into `dst[0 .. n)`,
   * stops reading `src` at its NUL and pads the rest of the `n` characters
   * with NUL; nothing past `dst[n - 1]` is written.
   */
  method Strncpy(dst: array<char>, src: seq<char>, n: nat)
    requires Terminated(src) && n <= dst.Length
    modifies dst
    ensures dst[..n] == Padded(Text(src), n)
    ensures dst[n..] == old(dst[n..])
  {
    var len := StrLen(src);
    var i := 0;
    while i < n && src[i] != NUL
      invariant 0 <= i <= n && i <= len
      invariant forall k :: 0 <= k < i ==> dst[k] == src[k]
      invariant forall k :: n <= k < dst.Length ==> dst[k] == old(dst[k])
    {
      dst[i] := src[i];
      i := i + 1;
    }
    ghost var copied := i;
    assert copied == n || copied == len;
    while i < n
      invariant copied <= i <= n
      invariant forall k :: 0 <= k < copied ==> dst[k] == src[k]
      invariant forall k :: copied <= k < i ==> dst[k] == NUL
      invariant forall k :: n <= k < dst.Length ==> dst[k] == old(dst[k])
    {
      dst[i] := NUL;
      i := i + 1;
    }
    assert dst[..n] == Padded(Text(src), n);
  }

  /**
   * `strncpy(str, s, strlen(s) + 1)` into a buffer of exactly
   * `strlen(s) + 1` characters: the buffer becomes a copy of `s` and its
   * terminator.
   */
  method CopyString(dst: array<char>, s: string)
    requires NUL !in s && dst.Length == |s| + 1
    modifies dst
    ensures dst[..] == s + [NUL]
  {
    Strncpy(dst, s + [NUL], |s| + 1);
    TextOfTerminated(s);
    PaddedWhole(s);
  }

  /**
   * `malloc(strlen(s) + 1)` followed by `strncpy(str, s, strlen(s) + 1)`:
   * a fresh buffer holding `s` and its terminator, or null when `ok` says
   * that `malloc` fails.
   */
  method NewString(s: string, ok: bool) returns (str: array?<char>)
    requires NUL !in s
    ensures str == null <==> !ok
    ensures str != null ==> fresh(str) && str[..] == s + [NUL]
  {
    if !ok {
      return null;
    }
    str := new char[|s| + 1];
    CopyString(str, s);
  }

  /**
   * `strncpy(sp, src, bufsize - 1)` followed by `sp[bufsize - 1] = '\0'`:
   * the text of `src`, cut to `bufsize - 1` characters and NUL-padded, then a
   * terminator; nothing past `sp[bufsize - 1]` is written.
   */
  method CopyOut(sp: array<char>, src: seq<char>, bufsize: nat)
    requires Terminated(src) && 1 <= bufsize <= sp.Length
    modifies sp
    ensures sp[..bufsize] == Padded(Text(src), bufsize - 1) + [NUL]
    ensures sp[bufsize..] == old(sp[bufsize..])
  {
    Strncpy(sp, src, bufsize - 1);
    sp[bufsize - 1] := NUL;
    assert sp[..bufsize] == sp[..bufsize - 1] + [NUL];
  }
}
