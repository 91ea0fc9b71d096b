/** C strings: NUL-terminated character blocks, and the small library routines
    (length, search, copy, join, slice, compare) the rest of the program is built on.
    A `char *` is a block (`array<char>`, nullable where the source tests for NULL),
    with an explicit offset where the source points into the middle of a block. */
module CStrings {

  const NUL: char := '\0'

  /** The part of `s` before the first `stop`; all of `s` when there is none. */
  function Until(s: string, stop: char): (r: string)
    ensures |r| <= |s|
  {
    if s == [] || s[0] == stop then [] else [s[0]] + Until(s[1..], stop)
  }

  lemma {:induction false} UntilSplits(s: string, stop: char)
    ensures var r := Until(s, stop);
            && r == s[..|r|] && stop !in r
            && (|r| < |s| ==> s[|r|] == stop)
            && (|r| == |s| <==> stop !in s)
  {
    if s != [] {
      assert s == [s[0]] + s[1..];
      if s[0] != stop { UntilSplits(s[1..], stop); }
    }
  }

  /** `Until` is pinned down by its two properties. */
  lemma {:induction false} UntilUnique(s: string, stop: char, n: nat)
    requires n <= |s| && stop !in s[..n]
    requires n == |s| || s[n] == stop
    ensures Until(s, stop) == s[..n]
  {
    var r := Until(s, stop);
    UntilSplits(s, stop);
    assert forall k :: 0 <= k < n ==> s[..n][k] == s[k] != stop;
    assert forall k :: 0 <= k < |r| ==> r[k] == s[k] != stop;
  }

  /** A prefix free of `stop` can be stripped. */
  lemma {:induction false} UntilAppend(p: string, s: string, stop: char)
    requires stop !in p
    ensures Until(p + s, stop) == p + Until(s, stop)
  {
    var n := |p| + |Until(s, stop)|;
    UntilSplits(s, stop);
    assert (p + s)[..n] == p + Until(s, stop);
    UntilUnique(p + s, stop, n);
  }

  ghost predicate Terminated(a: array<char>)
    reads a
  {
    NUL in a[..]
  }

  /** The string a block holds. */
  ghost function Text(a: array<char>): (t: string)
    reads a
    requires Terminated(a)
    ensures |t| < a.Length && a[|t|] == NUL && t == a[..|t|] && NUL !in t
  {
    UntilSplits(a[..], NUL);
    assert a[..] == a[..a.Length];
    Until(a[..], NUL)
  }

  /** A block holding `t` and then a NUL has text `t`, whatever comes after. */
  lemma TextIs(a: array<char>, t: string)
    requires NUL !in t && |t| < a.Length && a[..|t|] == t && a[|t|] == NUL
    ensures Terminated(a) && Text(a) == t
  {
    assert a[..][|t|] == NUL;
    assert a[..][..|t|] == t;
    UntilUnique(a[..], NUL, |t|);
  }

  /** A block holding the given string: a literal, or a buffer the operating system has filled. */
  method Block(s: string) returns (r: array<char>)
    requires NUL !in s
    ensures fresh(r) && Terminated(r) && Text(r) == s
  {
    r := new char[|s| + 1](i requires 0 <= i <= |s| => if i < |s| then s[i] else NUL);
    assert r[..|s|] == s;
    TextIs(r, s);
  }

  lemma TextFrom(a: array<char>, off: nat)
    requires Terminated(a) && off <= |Text(a)|
    ensures NUL in a[off..] && Until(a[off..], NUL) == Text(a)[off..]
  {
    var n := |Text(a)|;
    assert a[off..][n - off] == NUL;
    assert a[off..][..n - off] == Text(a)[off..];
    UntilUnique(a[off..], NUL, n - off);
  }

  /** ft_strlen, applied `off` characters into the block. */
  method StrLen(s: array?<char>, off: nat) returns (n: nat)
    requires s != null ==> Terminated(s) && off <= |Text(s)|
    ensures n == if s == null then 0 else |Text(s)| - off
  {
    n := 0;
    if s == null { return; }
    while s[off + n] != NUL
      invariant off + n <= |Text(s)|
      decreases |Text(s)| - n
    {
      n := n + 1;
    }
  }

  /** ft_strchr: the index of the first `c`, or -1. Searching for NUL finds the terminator. */
  method StrChr(s: array<char>, c: char) returns (i: int)
    requires Terminated(s)
    ensures c == NUL ==> i == |Text(s)|
    ensures c != NUL && c in Text(s) ==> i == |Until(Text(s), c)|
    ensures c != NUL && c !in Text(s) ==> i == -1
  {
    i := 0;
    if c == NUL {
      while s[i] != NUL
        invariant 0 <= i <= |Text(s)|
        decreases |Text(s)| - i
      {
        i := i + 1;
      }
      return;
    }
    while s[i] != NUL
      invariant 0 <= i <= |Text(s)|
      invariant c !in Text(s)[..i]
      decreases |Text(s)| - i
    {
      if s[i] == c {
        UntilUnique(Text(s), c, i);
        return;
      }
      i := i + 1;
    }
    assert Text(s)[..i] == Text(s);
    i := -1;
  }

  /** ft_strnew: `size + 1` zero bytes. The counter is unsigned in C and the loop
      ends when it has wrapped below zero. */
  method StrNew(size: nat) returns (r: array<char>)
    ensures fresh(r) && r.Length == size + 1
    ensures forall k :: 0 <= k < r.Length ==> r[k] == NUL
    ensures Terminated(r) && Text(r) == ""
  {
    r := new char[size + 1];
    var left: int := size;
    var at := 0;
    while left + 1 != 0
      invariant -1 <= left && at == size - left
      invariant forall k :: 0 <= k < at ==> r[k] == NUL
      decreases left + 1
    {
      r[at] := NUL;
      at := at + 1;
      left := left - 1;
    }
    TextIs(r, "");
  }

  /** ft_strdup of `s + off`; duplicating NULL gives an empty string. */
  method StrDup(s: array?<char>, off: nat) returns (r: array<char>)
    requires s != null ==> Terminated(s) && off <= |Text(s)|
    ensures fresh(r) && Terminated(r)
    ensures Text(r) == if s == null then "" else Text(s)[off..]
  {
    var len := StrLen(s, off);
    if s == null {
      r := StrNew(1);
      return;
    }
    r := new char[len + 1];
    var i := 0;
    while s[off + i] != NUL
      invariant 0 <= i <= len
      invariant r[..i] == Text(s)[off..off + i]
      decreases len - i
    {
      r[i] := s[off + i];
      i := i + 1;
    }
    r[i] := NUL;
    assert r[..i] == Text(s)[off..];
    TextIs(r, Text(s)[off..]);
  }

  /** ft_strndup: the first `len` characters, NULL when asked for none. */
  method StrNDup(s: array?<char>, len: nat) returns (r: array?<char>)
    requires s != null ==> Terminated(s)
    ensures r == null <==> s == null || len == 0
    ensures r != null ==> fresh(r) && Terminated(r) && Text(r) == Take(Text(s), len)
  {
    if s == null || len == 0 { return null; }
    var b := StrNew(len);
    var i, left := 0, len;
    while left != 0 && s[i] != NUL
      invariant i + left == len && i <= |Text(s)|
      invariant i < b.Length
      invariant b[..i] == Text(s)[..i]
      invariant forall k :: i <= k < b.Length ==> b[k] == NUL
      decreases left
    {
      b[i] := s[i];
      i := i + 1;
      left := left - 1;
    }
    TextIs(b, Text(s)[..i]);
    r := b;
  }

  /** The inner loops of ft_strjoin: copy `s` behind the first `from` characters of `b`. */
  method Append(b: array<char>, from: nat, s: array<char>) returns (at: nat)
    requires Terminated(s) && b != s && from + |Text(s)| < b.Length
    modifies b
    ensures at == from + |Text(s)|
    ensures b[..at] == old(b[..from]) + Text(s)
  {
    var i := 0;
    at := from;
    while s[i] != NUL
      invariant i <= |Text(s)| && at == from + i
      invariant b[..at] == old(b[..from]) + Text(s)[..i]
      decreases |Text(s)| - i
    {
      b[at] := s[i];
      at, i := at + 1, i + 1;
    }
  }

  /** ft_strjoin: NULL if either side is, otherwise the concatenation. The outer loop
      counts the characters still to copy and is done after one round. */
  method StrJoin(s1: array?<char>, s2: array?<char>) returns (r: array?<char>)
    requires s1 != null ==> Terminated(s1)
    requires s2 != null ==> Terminated(s2)
    ensures r == null <==> s1 == null || s2 == null
    ensures r != null ==> fresh(r) && Terminated(r) && Text(r) == Text(s1) + Text(s2)
  {
    if s1 == null || s2 == null { return null; }
    var l1 := StrLen(s1, 0);
    var l2 := StrLen(s2, 0);
    var len := l1 + l2;
    var b := new char[len + 1];
    var at := 0;
    while len != 0
      invariant at + len == l1 + l2 && (at == 0 || len == 0)
      invariant at != 0 ==> b[..at] == Text(s1) + Text(s2)
      decreases len
    {
      var from := at;
      at := Append(b, at, s1);
      at := Append(b, at, s2);
      len := len - (at - from);
    }
    b[at] := NUL;
    assert b[..at] == Text(s1) + Text(s2);
    TextIs(b, Text(s1) + Text(s2));
    r := b;
  }

  function Take(s: string, n: nat): string {
    if n <= |s| then s[..n] else s
  }

  /** ft_strncpy from `src + off` into a block of its own: at most `len` characters, then padding. */
  method StrNCpy(dest: array<char>, src: array<char>, off: nat, len: nat)
    requires dest != src && len <= dest.Length && off < src.Length
    requires NUL in src[off..] || off + len < src.Length
    modifies dest
    ensures var t := Take(Until(src[off..], NUL), len);
            dest[..|t|] == t && forall k :: |t| <= k < len ==> dest[k] == NUL
    ensures forall k :: len <= k < dest.Length ==> dest[k] == old(dest[k])
  {
    ghost var t := Until(src[off..], NUL);
    UntilSplits(src[off..], NUL);
    assert forall k :: 0 <= k < |t| ==> t[k] == src[off + k] != NUL;
    var i := 0;
    while src[off + i] != NUL && i < len
      invariant i <= len && i <= |t| && off + i < src.Length
      invariant dest[..i] == t[..i]
      invariant forall k :: len <= k < dest.Length ==> dest[k] == old(dest[k])
      decreases len - i
    {
      dest[i] := src[off + i];
      i := i + 1;
      assert i < |src[off..]|;
    }
    ghost var n := i;
    assert n == |Take(t, len)| by { if n < |t| { assert t[n] != NUL; } }
    while i < len
      invariant n <= i <= len
      invariant dest[..n] == t[..n]
      invariant forall k :: n <= k < i ==> dest[k] == NUL
      invariant forall k :: len <= k < dest.Length ==> dest[k] == old(dest[k])
    {
      dest[i] := NUL;
      i := i + 1;
    }
  }

  /** ft_strsub: the slice of at most `len` characters that begins `start` into the block. */
  method StrSub(s: array?<char>, start: nat, len: nat) returns (r: array?<char>)
    requires s != null ==> start < s.Length && (NUL in s[start..] || start + len < s.Length)
    ensures r == null <==> s == null
    ensures r != null ==> fresh(r) && Terminated(r) && Text(r) == Take(Until(s[start..], NUL), len)
  {
    if s == null { return null; }
    var at, left := 0, start;
    while left != 0
      invariant at + left == start
    {
      at := at + 1;
      left := left - 1;
    }
    var b := new char[len + 1];
    StrNCpy(b, s, at, len);
    b[len] := NUL;
    ghost var t := Take(Until(s[start..], NUL), len);
    UntilSplits(s[start..], NUL);
    assert b[..|t|] == t;
    TextIs(b, t);
    r := b;
  }

  /** ft_strcmp: the signed distance at the first difference, where a terminator counts as zero; zero exactly
      for equal strings. */
  method StrCmp(s1: array<char>, s2: array<char>) returns (d: int)
    requires Terminated(s1) && Terminated(s2)
    ensures d == 0 <==> Text(s1) == Text(s2)
    ensures exists i :: 0 <= i <= |Text(s1)| && i <= |Text(s2)| && s1[..i] == s2[..i] &&
                        d == s1[i] as int - s2[i] as int && (d == 0 ==> i == |Text(s1)| == |Text(s2)|)
  {
    var i := 0;
    while s1[i] == s2[i] && (s1[i] != NUL || s2[i] != NUL)
      invariant i <= |Text(s1)| && i <= |Text(s2)|
      invariant Text(s1)[..i] == Text(s2)[..i]
      decreases |Text(s1)| - i
    {
      i := i + 1;
    }
    d := s1[i] as int - s2[i] as int;
    ghost var t1, t2 := Text(s1), Text(s2);
    assert t1[..i] == s1[..i] && t2[..i] == s2[..i];
    if d == 0 {
      assert t1 == t1[..i] && t2 == t2[..i];
    } else {
      assert i < |t1| && i < |t2| ==> t1[i] != t2[i];
    }
  }
}
