/** Substring search: ft_strstr, and ft_strnstr which also stops after `len` characters. */
module Search {
  import opened CStrings

  /** The needle `nd` occurs in `hs` at `i`, and ends by position `len`. */
  predicate OccursAt(hs: string, nd: string, i: int, len: nat) {
    0 <= i && i + |nd| <= |hs| && i + |nd| <= len && hs[i..i + |nd|] == nd
  }

  /** The result every search below is to have: the least occurrence, or -1 for none. */
  ghost predicate IsFirst(hs: string, nd: string, len: nat, r: int) {
    && (r == -1 || OccursAt(hs, nd, r, len))
    && forall i :: OccursAt(hs, nd, i, len) ==> 0 <= r <= i
  }

  lemma Mismatch(hs: string, nd: string, i: nat, j: nat, len: nat)
    requires j < |nd| && i + j <= |hs|
    requires i + j == |hs| || hs[i + j] != nd[j] || i + j >= len
    ensures !OccursAt(hs, nd, i, len)
  {
    assert i + |nd| <= |hs| ==> hs[i..i + |nd|][j] == hs[i + j];
  }

  /** does_it_work of ft_strnstr: compare from `i`, never reading the haystack at or past `len`. */
  method DoesItWork(hs: array<char>, nd: array<char>, len: nat, i: nat) returns (b: bool)
    requires Terminated(hs) && Terminated(nd) && Text(nd) != "" && i <= |Text(hs)|
    ensures b <==> OccursAt(Text(hs), Text(nd), i, len)
  {
    ghost var h, n := Text(hs), Text(nd);
    var j, k := 0, i;
    while hs[k] == nd[j] && k < len
      invariant j < |n| && k == i + j && k <= |h|
      invariant forall x :: 0 <= x < j ==> h[i + x] == n[x]
      decreases |h| - k
    {
      assert k < |h| && h[k] == n[j];
      if nd[j + 1] == NUL {
        assert h[i..i + |n|] == n;
        return true;
      }
      k := k + 1;
      j := j + 1;
    }
    Mismatch(h, n, i, j, len);
    return false;
  }

  /** ft_strnstr. The empty needle is found at once, without regard to `len`. */
  method StrNStr(hs: array<char>, nd: array<char>, len: nat) returns (r: int)
    requires Terminated(hs) && Terminated(nd)
    ensures IsFirst(Text(hs), Text(nd), len, r)
  {
    if nd[0] == NUL {
      assert OccursAt(Text(hs), "", 0, len);
      return 0;
    }
    assert nd[0] == Text(nd)[0];
    var i := 0;
    while hs[i] != NUL && i <= len
      invariant i <= |Text(hs)|
      invariant forall k :: 0 <= k < i ==> !OccursAt(Text(hs), Text(nd), k, len)
      decreases |Text(hs)| - i
    {
      if hs[i] == nd[0] {
        var b := DoesItWork(hs, nd, len, i);
        if b { return i; }
      } else {
        Mismatch(Text(hs), Text(nd), i, 0, len);
      }
      i := i + 1;
    }
    r := -1;
  }

  /** it_works of ft_strstr. */
  method ItWorks(i: nat, hs: array<char>, nd: array<char>) returns (b: bool)
    requires Terminated(hs) && Terminated(nd) && Text(nd) != "" && i <= |Text(hs)|
    ensures b <==> OccursAt(Text(hs), Text(nd), i, |Text(hs)|)
  {
    ghost var h, n := Text(hs), Text(nd);
    var j, k := 0, i;
    while hs[k] == nd[j]
      invariant j < |n| && k == i + j && k <= |h|
      invariant forall x :: 0 <= x < j ==> h[i + x] == n[x]
      decreases |h| - k
    {
      assert k < |h| && h[k] == n[j];
      if nd[j + 1] == NUL {
        assert h[i..i + |n|] == n;
        return true;
      }
      k := k + 1;
      j := j + 1;
    }
    Mismatch(h, n, i, j, |h|);
    return false;
  }

  /** ft_strstr. */
  method StrStr(hs: array<char>, nd: array<char>) returns (r: int)
    requires Terminated(hs) && Terminated(nd)
    ensures IsFirst(Text(hs), Text(nd), |Text(hs)|, r)
  {
    if nd[0] == NUL {
      assert OccursAt(Text(hs), "", 0, |Text(hs)|);
      return 0;
    }
    assert nd[0] == Text(nd)[0];
    var i := 0;
    while hs[i] != NUL
      invariant i <= |Text(hs)|
      invariant forall k :: 0 <= k < i ==> !OccursAt(Text(hs), Text(nd), k, |Text(hs)|)
      decreases |Text(hs)| - i
    {
      if hs[i] == nd[0] {
        var b := ItWorks(i, hs, nd);
        if b { return i; }
      } else {
        Mismatch(Text(hs), Text(nd), i, 0, |Text(hs)|);
      }
      i := i + 1;
    }
    r := -1;
  }

  /** The bounded search is the unbounded one restricted to what ends in time: the two agree
      exactly when the first occurrence, if any, ends by `len`. */
  lemma BoundedAgrees(hs: string, nd: string, len: nat, bounded: int, free: int)
    requires IsFirst(hs, nd, len, bounded) && IsFirst(hs, nd, |hs|, free)
    ensures bounded == free <==> free == -1 || free + |nd| <= len
    ensures len >= |hs| ==> bounded == free
  {
    if free != -1 {
      assert OccursAt(hs, nd, free, |hs|);
      assert free + |nd| <= len ==> OccursAt(hs, nd, free, len);
    }
    if bounded != -1 {
      assert OccursAt(hs, nd, bounded, len);
      assert OccursAt(hs, nd, bounded, |hs|);
    }
  }
}
