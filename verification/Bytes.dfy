/** Byte strings as the programs see them: C `char` buffers, C strings and the
    upper-casing that every echo server applies to what it received. */
module Bytes {
  type byte = x: int | 0 <= x < 256

  const NUL: byte := 0
  const LF: byte := 10
  const CR: byte := 13

  /** `ch_char`: lower-case ASCII letters are raised, everything else is kept. */
  function Upper(c: byte): byte {
    if 97 <= c <= 122 then c - 32 else c
  }

  function UpperAll(s: seq<byte>): (r: seq<byte>)
    ensures |r| == |s|
    ensures forall i :: 0 <= i < |s| ==> r[i] == Upper(s[i])
  {
    if s == [] then [] else [Upper(s[0])] + UpperAll(s[1..])
  }

  /** `r` is `s` with its lower-case letters, codes 97 to 122, raised by 32. */
  ghost predicate Raised(r: seq<byte>, s: seq<byte>) {
    && |r| == |s|
    && forall i :: 0 <= i < |s| ==>
         !(97 <= r[i] <= 122) && (r[i] != s[i] ==> 97 <= s[i] <= 122 && r[i] == s[i] - 32)
  }

  lemma UpperRaises(s: seq<byte>)
    ensures Raised(UpperAll(s), s)
  {
  }

  lemma UpperConcat(a: seq<byte>, b: seq<byte>)
    ensures UpperAll(a + b) == UpperAll(a) + UpperAll(b)
  {
  }

  lemma UpperSnoc(s: seq<byte>, c: byte)
    ensures UpperAll(s + [c]) == UpperAll(s) + [Upper(c)]
  {
    UpperConcat(s, [c]);
  }

  lemma UpperIdempotent(s: seq<byte>)
    ensures UpperAll(UpperAll(s)) == UpperAll(s)
  {
  }

  /** The C string that starts at `s[0]`: everything before the first NUL. */
  function CString(s: seq<byte>): (r: seq<byte>)
    ensures r <= s && NUL !in r
    ensures |r| < |s| ==> s[|r|] == NUL
  {
    if s == [] || s[0] == NUL then [] else [s[0]] + CString(s[1..])
  }

  lemma WholeCString(s: seq<byte>)
    requires NUL !in s
    ensures CString(s) == s
  {
  }

  lemma {:induction false} CStringReaches(s: seq<byte>, n: nat)
    requires n <= |s| && NUL !in s[..n]
    ensures n <= |CString(s)|
  {
    if n > 0 {
      assert s[..n][0] == s[0] && s[1..][..n - 1] == s[..n][1..];
      CStringReaches(s[1..], n - 1);
    }
  }

  lemma {:induction false} CStringOf(name: seq<byte>, rest: seq<byte>)
    requires NUL !in name
    ensures CString(name + [NUL] + rest) == name
  {
    if name != [] {
      CStringOf(name[1..], rest);
      assert (name + [NUL] + rest)[1..] == name[1..] + [NUL] + rest;
    }
  }

  /** Position of the first newline; the length if there is none. */
  function LineEnd(s: seq<byte>): (k: nat)
    ensures k <= |s| && LF !in s[..k]
    ensures k < |s| ==> s[k] == LF
  {
    if s == [] || s[0] == LF then 0 else 1 + LineEnd(s[1..])
  }

  lemma {:induction false} LineEndIs(s: seq<byte>, k: nat)
    requires k <= |s| && LF !in s[..k] && (k < |s| ==> s[k] == LF)
    ensures LineEnd(s) == k
  {
    if k > 0 {
      assert s[0] in s[..k];
      assert s[1..][..k - 1] == s[..k][1..];
      LineEndIs(s[1..], k - 1);
    }
  }

  /** What `memset(p, 0, n)` leaves behind. */
  function Zeros(n: nat): (z: seq<byte>)
    ensures |z| == n && forall i :: 0 <= i < n ==> z[i] == NUL
  {
    seq(n, i => NUL)
  }

  /** All the pieces, one after the other. */
  function Concat(pieces: seq<seq<byte>>): seq<byte> {
    if pieces == [] then [] else pieces[0] + Concat(pieces[1..])
  }

  lemma {:induction false} ConcatAppend(pieces: seq<seq<byte>>, last: seq<byte>)
    ensures Concat(pieces + [last]) == Concat(pieces) + last
  {
    if pieces == [] {
    } else {
      assert (pieces + [last])[1..] == pieces[1..] + [last];
      ConcatAppend(pieces[1..], last);
    }
  }

  lemma ConcatFrom(pieces: seq<seq<byte>>, i: nat)
    requires i <= |pieces|
    ensures Concat(pieces[i..]) == if i == |pieces| then [] else pieces[i] + Concat(pieces[i + 1..])
  {
    if i < |pieces| {
      assert pieces[i..][1..] == pieces[i + 1..];
    }
  }

  lemma SliceOfPrefix(s: seq<byte>, m: nat, a: nat, b: nat)
    requires a <= b <= m <= |s|
    ensures s[..m][a..b] == s[a..b]
  {
  }

  lemma SliceOfTail(s: seq<byte>, m: nat, a: nat, b: nat)
    requires a <= b && m + b <= |s|
    ensures s[m..][a..b] == s[m + a..m + b]
  {
  }

  lemma TailOfTail(s: seq<byte>, m: nat, n: nat)
    requires m + n <= |s|
    ensures s[m..][n..] == s[m + n..]
  {
  }

  lemma Joined(a: seq<byte>, b: seq<byte>, c: seq<byte>)
    ensures a + (b + c) == a + b + c
  {
  }

  lemma ConcatTwo(a: seq<byte>, b: seq<byte>)
    ensures Concat([a, b]) == a + b
  {
    assert Concat([b]) == b + [] == b;
  }
}
