/**
 NUL-terminated byte strings, and the four routines of the C string library that the
 chat server relies on, each as the loop it is over a fixed-size buffer.
 */
module CStrings {

  type byte = b: int | 0 <= b < 256

  function Min(a: nat, b: nat): nat {
    if a < b then a else b
  }

  /** The characters of a C string, without its terminator. */
  type CString = s: seq<byte> | 0 !in s

  /** The string a buffer holds: everything before its first NUL. */
  function TextOf(s: seq<byte>): (t: CString)
    ensures t <= s
    ensures |t| < |s| ==> s[|t|] == 0
    ensures forall i :: 0 <= i < |t| ==> s[i] != 0
  {
    if s == [] || s[0] == 0 then [] else [s[0]] + TextOf(s[1..])
  }

  /** The bytes are the characters of the text as it is written in the source. */
  predicate Spells(b: seq<byte>, text: string) {
    |b| == |text| && forall i :: 0 <= i < |b| ==> b[i] == text[i] as int
  }

  function Zeros(n: nat): (z: seq<byte>)
    ensures |z| == n
    ensures forall i :: 0 <= i < n ==> z[i] == 0
  {
    seq(n, _ => 0)
  }

  predicate Terminated(s: seq<byte>) {
    |TextOf(s)| < |s|
  }

  /** What strncpy leaves in a field: the text up to its NUL, then NULs to the full width. */
  function Padded(s: seq<byte>): (p: seq<byte>)
    ensures |p| == |s|
    ensures TextOf(s) <= p
    ensures forall i :: 0 <= i < |s| ==> p[i] == if i < |TextOf(s)| then s[i] else 0
  {
    TextOf(s) + Zeros(|s| - |TextOf(s)|)
  }

  lemma {:induction false} TextOfPrefix(s: seq<byte>, t: CString)
    requires t <= s
    requires |t| < |s| ==> s[|t|] == 0
    ensures TextOf(s) == t
  {
    if t != [] {
      assert t[0] in t;
      assert forall x :: x in t[1..] ==> x in t;
      TextOfPrefix(s[1..], t[1..]);
    }
  }

  lemma TextOfCString(t: CString)
    ensures TextOf(t) == t
    ensures Padded(t) == t
  {
    TextOfPrefix(t, t);
  }

  /** Copying into a zeroed field with strncpy stores the same string, terminated. */
  lemma PaddedField(s: seq<byte>, n: nat)
    requires 0 < n
    ensures TextOf(Padded(s) + Zeros(n)) == TextOf(s)
    ensures Terminated(Padded(s) + Zeros(n))
  {
    TextOfPrefix(Padded(s) + Zeros(n), TextOf(s));
  }

  lemma Reassociate(a: seq<byte>, b: seq<byte>, c: seq<byte>, d: seq<byte>)
    ensures a + b + c + d == a + (b + c + d)
  {
  }

  method Strlen(a: array<byte>) returns (n: nat)
    requires Terminated(a[..])
    ensures n == |TextOf(a[..])|
    ensures n < a.Length
  {
    ghost var t := TextOf(a[..]);
    n := 0;
    while a[n] != 0
      invariant n <= |t|
      decreases |t| - n
    {
      assert a[..][n] != 0;
      n := n + 1;
    }
    assert a[..][n] == 0;
  }

  /** `now` is `was` with the bytes of `piece` laid over it from position `at`. */
  ghost predicate Overlaid(now: seq<byte>, was: seq<byte>, at: nat, piece: seq<byte>) {
    && |now| == |was|
    && at + |piece| <= |was|
    && (forall i :: 0 <= i < |now| ==>
          now[i] == if at <= i < at + |piece| then piece[i - at] else was[i])
  }

  lemma OverlaidIs(now: seq<byte>, was: seq<byte>, at: nat, piece: seq<byte>)
    requires Overlaid(now, was, at, piece)
    ensures now == was[..at] + piece + was[at + |piece|..]
  {
  }

  /** The second loop of strncpy: NULs for the rest of the width. */
  method Pad(dst: array<byte>, at: nat, n: nat)
    requires at + n <= dst.Length
    modifies dst
    ensures forall j :: 0 <= j < dst.Length ==>
              dst[j] == if at <= j < at + n then 0 else old(dst[j])
  {
    var i := 0;
    while i < n
      invariant 0 <= i <= n
      invariant forall j :: 0 <= j < dst.Length ==>
          dst[j] == if at <= j < at + i then 0 else old(dst[j])
    {
      dst[at + i] := 0;
      i := i + 1;
    }
  }

  /** The first loop of strncpy: the text, up to its NUL or the full width. */
  method CopyText(dst: array<byte>, at: nat, src: array<byte>, from: nat, n: nat) returns (i: nat)
    requires dst != src
    requires at + n <= dst.Length
    requires from + n <= src.Length
    modifies dst
    ensures i == |TextOf(src[from..from + n])|
    ensures forall j :: 0 <= j < dst.Length ==>
              dst[j] == if at <= j < at + i then src[from + j - at] else old(dst[j])
  {
    ghost var s := src[from..from + n];
    ghost var t := TextOf(s);
    hide TextOf;
    i := 0;
    while i < n && src[from + i] != 0
      invariant 0 <= i <= |t|
      invariant forall j :: 0 <= j < dst.Length ==>
          dst[j] == if at <= j < at + i then src[from + j - at] else old(dst[j])
    {
      assert s[i] == src[from + i];
      dst[at + i] := src[from + i];
      i := i + 1;
    }
    assert i == n || s[i] == 0;
  }

  /** strncpy(&dst[at], &src[from], n) */
  method Strncpy(dst: array<byte>, at: nat, src: array<byte>, from: nat, n: nat)
    requires dst != src
    requires at + n <= dst.Length
    requires from + n <= src.Length
    modifies dst
    ensures dst[..] == old(dst[..])[..at] + Padded(src[from..from + n]) + old(dst[..])[at + n..]
  {
    ghost var was := dst[..];
    ghost var s := src[from..from + n];
    ghost var p := Padded(s);
    hide Padded, TextOf;
    var i := CopyText(dst, at, src, from, n);
    Pad(dst, at + i, n - i);
    assert forall j :: 0 <= j < n ==> p[j] == if j < i then s[j] else 0;
    OverlaidIs(dst[..], was, at, p);
  }

  method Strcpy(dst: array<byte>, src: CString)
    requires |src| < dst.Length
    modifies dst
    ensures dst[..] == src + [0] + old(dst[..])[|src| + 1..]
    ensures TextOf(dst[..]) == src && Terminated(dst[..])
  {
    ghost var was := dst[..];
    Write(dst, 0, src);
    TextOfPrefix(dst[..], src);
  }

  method Strcat(dst: array<byte>, src: CString)
    requires Terminated(dst[..])
    requires |TextOf(dst[..])| + |src| < dst.Length
    modifies dst
    ensures TextOf(dst[..]) == old(TextOf(dst[..])) + src && Terminated(dst[..])
  {
    ghost var t := TextOf(dst[..]);
    var n := Strlen(dst);
    Write(dst, n, src);
    TextOfPrefix(dst[..], t + src);
  }

  /** The copying loop of strcpy and strcat: `src` and its terminator, from position `at`. */
  method Write(dst: array<byte>, at: nat, src: CString)
    requires at + |src| < dst.Length
    modifies dst
    ensures dst[..] == old(dst[..])[..at] + (src + [0]) + old(dst[..])[at + |src| + 1..]
  {
    ghost var was := dst[..];
    var i := 0;
    while i < |src|
      invariant 0 <= i <= |src|
      invariant forall j :: 0 <= j < dst.Length ==>
          dst[j] == if at <= j < at + i then src[j - at] else was[j]
    {
      dst[at + i] := src[i];
      i := i + 1;
    }
    dst[at + i] := 0;
    OverlaidIs(dst[..], was, at, src + [0]);
  }
}
