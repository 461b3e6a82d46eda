/** C strings held in fixed `char` buffers: what `strlen` and `strncpy` do to them. */
module CString {
  import opened Types

  const NUL: char := '\0'

  /** A character a C string can hold before its terminator. */
  type CChar = c: char | c != NUL witness 'a'

  /** A string as a `const char *` points to it: the characters before its terminator. */
  predicate IsCString(s: seq<char>) {
    forall i :: 0 <= i < |s| ==> s[i] != NUL
  }

  /** `strlen` over a buffer: the index of the first NUL (the whole buffer if there is none,
      where C would read past the end). */
  function StrLen(buf: seq<char>): (n: nat)
    ensures n <= |buf|
    ensures forall i :: 0 <= i < n ==> buf[i] != NUL
    ensures n < |buf| ==> buf[n] == NUL
  {
    if buf == [] || buf[0] == NUL then 0 else 1 + StrLen(buf[1..])
  }

  /** The string a buffer currently holds. */
  function Contents(buf: seq<char>): (s: seq<char>)
    ensures IsCString(s) && |s| <= |buf| && s == buf[..|s|]
    ensures |s| < |buf| ==> buf[|s|] == NUL
  {
    buf[..StrLen(buf)]
  }

  function Nuls(n: nat): (z: seq<char>)
    ensures |z| == n && forall i :: 0 <= i < n ==> z[i] == NUL
  {
    seq(n, _ => NUL)
  }

  /** `strncpy(dest, src, n)`: copies `src` up to its terminator or `n` characters, whichever comes
      first, and pads with NULs up to `n`; the rest of `dest` is untouched. */
  function StrNCpy(dest: seq<char>, src: seq<char>, n: nat): (r: seq<char>)
    requires IsCString(src) && n <= |dest|
  {
    var m := Min(|src|, n);
    src[..m] + Nuls(n - m) + dest[n..]
  }

  /** When the source is shorter than the count, `strncpy` leaves a terminated copy. */
  lemma StrNCpyTerminates(dest: seq<char>, src: seq<char>, n: nat)
    requires IsCString(src) && n <= |dest| && |src| < n
    ensures Contents(StrNCpy(dest, src, n)) == src
    ensures |StrNCpy(dest, src, n)| == |dest|
  {
    var r := StrNCpy(dest, src, n);
    assert r[..|src|] == src;
    StrLenIs(r, |src|);
  }

  /** When the source is at least as long as the count, `strncpy` copies exactly `n` characters
      and writes no terminator: the buffer's string runs on into what was there before. */
  lemma StrNCpyNoTerminator(dest: seq<char>, src: seq<char>, n: nat)
    requires IsCString(src) && n <= |dest| && n <= |src|
    ensures StrNCpy(dest, src, n) == src[..n] + dest[n..]
    ensures Contents(StrNCpy(dest, src, n)) == src[..n] + Contents(dest[n..])
  {
    var r := StrNCpy(dest, src, n);
    assert r == src[..n] + dest[n..];
    StrLenAppend(src[..n], dest[n..]);
  }

  /** `StrLen` is determined by the first NUL. */
  lemma StrLenIs(buf: seq<char>, n: nat)
    requires n <= |buf| && (forall i :: 0 <= i < n ==> buf[i] != NUL) && (n < |buf| ==> buf[n] == NUL)
    ensures StrLen(buf) == n
  {
  }

  lemma StrLenAppend(s: seq<char>, t: seq<char>)
    requires IsCString(s)
    ensures StrLen(s + t) == |s| + StrLen(t)
    ensures Contents(s + t) == s + Contents(t)
  {
    var u := s + t;
    var k := StrLen(t);
    forall i | 0 <= i < |s| + k ensures u[i] != NUL {
      if i >= |s| { assert u[i] == t[i - |s|]; }
    }
    if |s| + k < |u| { assert u[|s| + k] == t[k]; }
    StrLenIs(u, |s| + k);
    assert u[..|s| + k] == s + t[..k];
  }

  /** `strncpy(dest, src, n)` on a buffer: the characters of `src`, then NULs, into the first `n`
      places of `dest`. */
  method StrNCpyInto(dest: array<char>, src: seq<char>, n: nat)
    requires IsCString(src) && n <= dest.Length
    modifies dest
    ensures dest[..] == StrNCpy(old(dest[..]), src, n)
  {
    ghost var before := dest[..];
    var m := Min(|src|, n);
    forall i | 0 <= i < n {
      dest[i] := if i < m then src[i] else NUL;
    }
    assert dest[..] == src[..m] + Nuls(n - m) + before[n..];
  }
}
