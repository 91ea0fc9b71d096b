/** ft_strtrim: removing blanks from both ends of a string. */
module Trim {
  import opened CStrings

  predicate IsBlank(c: char) {
    c == '\t' || c == '\n' || c == ' '
  }

  /** The characters from `a` up to `b` are blank. */
  ghost predicate Blank(s: string, a: int, b: int)
    requires 0 <= a && b <= |s|
  {
    forall i :: a <= i < b ==> IsBlank(s[i])
  }

  ghost predicate AllBlank(s: string) {
    Blank(s, 0, |s|)
  }

  /** s[lo..hi] is `s` without its outer blanks. */
  ghost predicate TrimsTo(s: string, lo: int, hi: int) {
    && 0 <= lo <= hi <= |s|
    && Blank(s, 0, lo) && Blank(s, hi, |s|)
    && (lo < hi ==> !IsBlank(s[lo]) && !IsBlank(s[hi - 1]))
    && (lo == hi ==> AllBlank(s))
  }

  function DropFront(s: string): string {
    if s != "" && IsBlank(s[0]) then DropFront(s[1..]) else s
  }

  function DropBack(s: string): string {
    if s != "" && IsBlank(s[|s| - 1]) then DropBack(s[..|s| - 1]) else s
  }

  /** The string without its outer blanks; empty when there is nothing else. */
  function Trimmed(s: string): string {
    DropBack(DropFront(s))
  }

  lemma {:induction false} DropFrontAt(s: string, lo: nat)
    requires lo <= |s| && Blank(s, 0, lo) && (lo == |s| || !IsBlank(s[lo]))
    ensures DropFront(s) == s[lo..]
  {
    if lo > 0 {
      DropFrontAt(s[1..], lo - 1);
      assert s[1..][lo - 1..] == s[lo..];
    }
  }

  lemma {:induction false} DropBackAt(s: string, hi: nat)
    requires hi <= |s| && Blank(s, hi, |s|) && (hi == 0 || !IsBlank(s[hi - 1]))
    ensures DropBack(s) == s[..hi]
  {
    if hi < |s| {
      DropBackAt(s[..|s| - 1], hi);
      assert s[..|s| - 1][..hi] == s[..hi];
    } else {
      assert s[..hi] == s;
    }
  }

  /** `Trimmed` is the one slice with blanks all around and none at its ends. */
  lemma TrimIsUnique(s: string, lo: nat, hi: nat)
    requires TrimsTo(s, lo, hi)
    ensures Trimmed(s) == s[lo..hi]
  {
    if lo < hi {
      DropFrontAt(s, lo);
      var t := s[lo..];
      DropBackAt(t, hi - lo);
      assert t[..hi - lo] == s[lo..hi];
    } else {
      DropFrontAt(s, |s|);
    }
  }

  /** The same with the three blanks written out: a tab, a newline, a space. */
  ghost predicate CutFrom(s: string, lo: int, hi: int) {
    && 0 <= lo <= hi <= |s|
    && (forall i :: 0 <= i < |s| && !(lo <= i < hi) ==> s[i] in "\t\n ")
    && (lo < hi ==> s[lo] !in "\t\n " && s[hi - 1] !in "\t\n ")
  }

  lemma TrimCuts(s: string, lo: int, hi: int)
    requires CutFrom(s, lo, hi)
    ensures Trimmed(s) == s[lo..hi]
  {
    if lo < hi { TrimIsUnique(s, lo, hi); } else { TrimIsUnique(s, 0, 0); }
  }

  /** Every string has such a slice. */
  lemma {:induction false} TrimExists(s: string) returns (lo: nat, hi: nat)
    ensures TrimsTo(s, lo, hi)
  {
    lo := 0;
    while lo < |s| && IsBlank(s[lo])
      invariant lo <= |s| && Blank(s, 0, lo)
    {
      lo := lo + 1;
    }
    hi := |s|;
    if lo == |s| { return; }
    while IsBlank(s[hi - 1])
      invariant lo < hi <= |s| && Blank(s, hi, |s|)
      decreases hi
    {
      hi := hi - 1;
    }
  }

  lemma TrimIsIdempotent(s: string)
    ensures Trimmed(Trimmed(s)) == Trimmed(s)
  {
    var lo, hi := TrimExists(s);
    TrimIsUnique(s, lo, hi);
    var t := s[lo..hi];
    assert TrimsTo(t, 0, |t|);
    TrimIsUnique(t, 0, |t|);
  }

  /** Where the trailing blanks of `t` begin. */
  ghost predicate BackEnd(t: string, hi: int) {
    0 <= hi <= |t| && Blank(t, hi, |t|) && (hi == 0 || !IsBlank(t[hi - 1]))
  }

  /** ft_check_trim_back: for every blank, look whether only blanks follow up to the end; the
      first one that does so begins the blanks to cut off. `len` is returned less their number. */
  method CheckTrimBack(s: array<char>, len: int) returns (r: int)
    requires Terminated(s)
    ensures BackEnd(Text(s), r - len + |Text(s)|)
  {
    ghost var t := Text(s);
    var i := 0;
    while s[i] != NUL
      invariant i <= |t| && (i > 0 ==> !Blank(t, i - 1, |t|))
      decreases |t| - i
    {
      if IsBlank(s[i]) {
        var j := i;
        while IsBlank(s[j])
          invariant i <= j < |t| && Blank(t, i, j)
          decreases |t| - j
        {
          if s[j + 1] == NUL {
            return len - (j - i + 1);
          }
          j := j + 1;
        }
        assert !IsBlank(t[j]);
      }
      i := i + 1;
    }
    return len;
  }

  /** ft_check_trim_front: the length of the trimmed string. */
  method CheckTrimFront(s: array<char>) returns (len: int)
    requires Terminated(s)
    ensures len == |Trimmed(Text(s))|
  {
    ghost var t := Text(s);
    len := StrLen(s, 0);
    var i := 0;
    while IsBlank(s[i]) || s[i] == NUL
      invariant i <= |t| && len == |t| - i && Blank(t, 0, i)
      decreases |t| - i
    {
      if s[i] == NUL {
        assert TrimsTo(t, 0, 0);
        TrimIsUnique(t, 0, 0);
        return 0;
      }
      i := i + 1;
      len := len - 1;
    }
    len := CheckTrimBack(s, len);
    TrimIsUnique(t, i, len + i);
  }

  datatype Trimming = Null | Copy(block: array<char>) | PastTheBlock

  /** Something that stops the skipping of blanks, which in the source also skips NUL. */
  ghost predicate StopsSkipping(s: array<char>)
    reads s
  {
    exists k :: 0 <= k < s.Length && s[k] !in "\t\n \0"
  }

  /** The loop of ft_strtrim that finds the first character to keep; it skips NUL as well as blanks, and may
      run to the end of the block. */
  method SkipToText(s: array<char>) returns (cpt: nat)
    ensures cpt <= s.Length && (cpt == s.Length <==> !StopsSkipping(s))
    ensures forall k :: 0 <= k < cpt ==> IsBlank(s[k]) || s[k] == NUL
    ensures cpt < s.Length ==> !IsBlank(s[cpt]) && s[cpt] != NUL
  {
    cpt := 0;
    while cpt < s.Length && (IsBlank(s[cpt]) || s[cpt] == NUL)
      invariant cpt <= s.Length && (forall k :: 0 <= k < cpt ==> IsBlank(s[k]) || s[k] == NUL)
    {
      cpt := cpt + 1;
    }
  }

  /** Where it stops. */
  lemma StopsAtText(s: array<char>, cpt: nat, lo: nat, hi: nat)
    requires Terminated(s) && TrimsTo(Text(s), lo, hi) && lo < hi && cpt < s.Length
    requires forall k :: 0 <= k < cpt ==> IsBlank(s[k]) || s[k] == NUL
    requires !IsBlank(s[cpt]) && s[cpt] != NUL
    ensures cpt == lo && NUL in s[lo..] && Take(Until(s[lo..], NUL), hi - lo) == Text(s)[lo..hi]
  {
    ghost var t := Text(s);
    assert s[lo] == t[lo] && s[lo] != NUL;
    assert forall k :: 0 <= k < |t| ==> s[k] == t[k];
    TextFrom(s, lo);
    assert t[lo..][..hi - lo] == t[lo..hi];
  }

  lemma TrimmedIsCut(s: string)
    ensures exists lo, hi :: CutFrom(s, lo, hi) && Trimmed(s) == s[lo..hi]
  {
    var lo, hi := TrimExists(s);
    TrimIsUnique(s, lo, hi);
    assert CutFrom(s, lo, hi);
  }

  /** ft_strtrim. The skipping stays inside the block exactly when the block holds something else, which a
      string that is not all blank guarantees; then the result is the trimmed string, always. */
  method StrTrim(s: array?<char>) returns (r: Trimming)
    requires s != null ==> Terminated(s)
    ensures r == Null <==> s == null
    ensures s != null ==> (r == PastTheBlock <==> !StopsSkipping(s))
    ensures r.Copy? ==> fresh(r.block) && Terminated(r.block) && Text(r.block) == Trimmed(Text(s))
    ensures r.Copy? ==> exists lo, hi :: CutFrom(Text(s), lo, hi) && Text(r.block) == Text(s)[lo..hi]
  {
    if s == null { return Null; }
    ghost var lo, hi := TrimExists(Text(s));
    TrimIsUnique(Text(s), lo, hi);
    TrimmedIsCut(Text(s));
    var len := CheckTrimFront(s);
    var cpt := SkipToText(s);
    if cpt == s.Length { return PastTheBlock; }
    if lo < hi { StopsAtText(s, cpt, lo, hi); }
    var b := StrSub(s, cpt, len);
    r := Copy(b);
  }

  /** A string with something besides blanks never leads the scan astray. */
  lemma NonBlankStops(s: array<char>)
    requires Terminated(s) && !AllBlank(Text(s))
    ensures StopsSkipping(s)
  {
    var k :| 0 <= k < |Text(s)| && !IsBlank(Text(s)[k]);
    assert s[k] == Text(s)[k] && s[k] != NUL;
  }
}
