/** ft_strsplit: cutting a string at a separator. The reference is the set of maximal
    separator-free runs, in order; a counting pass and an extraction pass must agree on it. */
module Words {
  import opened CStrings

  /** [lo, hi) is a maximal run of characters other than `c`. */
  predicate IsRun(s: string, c: char, lo: int, hi: int) {
    && 0 <= lo < hi <= |s| && c !in s[lo..hi]
    && (lo == 0 || s[lo - 1] == c) && (hi == |s| || s[hi] == c)
  }

  /** Where the run that begins at `k` ends. */
  function RunEnd(s: string, c: char, k: nat): (hi: nat)
    requires k <= |s|
    ensures k <= hi <= |s| && (k < |s| && s[k] != c ==> k < hi)
    decreases |s| - k
  {
    if k == |s| || s[k] == c then k else RunEnd(s, c, k + 1)
  }

  /** The runs from position `k` on, left to right. */
  function Runs(s: string, c: char, k: nat): seq<(nat, nat)>
    requires k <= |s|
    decreases |s| - k
  {
    if k == |s| then []
    else if s[k] == c then Runs(s, c, k + 1)
    else [(k, RunEnd(s, c, k))] + Runs(s, c, RunEnd(s, c, k))
  }

  /** The words of `s`: its maximal `c`-free runs. */
  function Split(s: string, c: char): seq<string> {
    WordsOf(s, c, 0)
  }

  function WordsOf(s: string, c: char, k: nat): seq<string>
    requires k <= |s|
    decreases |s| - k
  {
    if k == |s| then []
    else if s[k] == c then WordsOf(s, c, k + 1)
    else [s[k..RunEnd(s, c, k)]] + WordsOf(s, c, RunEnd(s, c, k))
  }

  lemma {:induction false} RunEndStops(s: string, c: char, k: nat)
    requires k <= |s|
    ensures var hi := RunEnd(s, c, k);
            (forall i :: k <= i < hi ==> s[i] != c) && (hi == |s| || s[hi] == c)
    decreases |s| - k
  {
    if k < |s| && s[k] != c { RunEndStops(s, c, k + 1); }
  }

  lemma {:induction false} RunEndUnique(s: string, c: char, k: nat, hi: nat)
    requires k <= hi <= |s| && (forall i :: k <= i < hi ==> s[i] != c)
    requires hi == |s| || s[hi] == c
    ensures RunEnd(s, c, k) == hi
    decreases |s| - k
  {
    if k < hi { RunEndUnique(s, c, k + 1, hi); }
  }

  /** Words are the slices of the string at its runs. */
  lemma {:induction false} WordsAreRuns(s: string, c: char, k: nat)
    requires k <= |s|
    ensures |WordsOf(s, c, k)| == |Runs(s, c, k)|
    ensures forall i :: 0 <= i < |Runs(s, c, k)| ==>
              var (lo, hi) := Runs(s, c, k)[i];
              lo <= hi <= |s| && WordsOf(s, c, k)[i] == s[lo..hi]
    decreases |s| - k
  {
    if k < |s| {
      WordsAreRuns(s, c, if s[k] == c then k + 1 else RunEnd(s, c, k));
    }
  }

  /** Every listed run is maximal and begins at `k` or later, and the runs come left to right,
      with a separator between any two. */
  lemma {:induction false} RunsAreOrdered(s: string, c: char, k: nat)
    requires k <= |s| && (k == 0 || k == |s| || s[k - 1] == c || s[k] == c)
    ensures forall i :: 0 <= i < |Runs(s, c, k)| ==> k <= Runs(s, c, k)[i].0 && IsRun(s, c, Runs(s, c, k)[i].0, Runs(s, c, k)[i].1)
    ensures forall i, j :: 0 <= i < j < |Runs(s, c, k)| ==> Runs(s, c, k)[i].1 < Runs(s, c, k)[j].0
    decreases |s| - k
  {
    if k < |s| && s[k] == c {
      RunsAreOrdered(s, c, k + 1);
    } else if k < |s| {
      var e := RunEnd(s, c, k);
      RunEndStops(s, c, k);
      RunsAreOrdered(s, c, e);
      var rs := Runs(s, c, e);
      forall i | 0 <= i < |rs|
        ensures e < rs[i].0
      {
        RunsDoNotTouch(s, c, e, rs[i].0, rs[i].1);
      }
    }
  }

  /** Every maximal run is listed. */
  lemma {:induction false} EveryRunIsListed(s: string, c: char, k: nat, lo: nat, hi: nat)
    requires k <= lo && IsRun(s, c, lo, hi) && (k == 0 || s[k - 1] == c || s[k] == c)
    ensures (lo, hi) in Runs(s, c, k)
    decreases |s| - k
  {
    if s[k] == c {
      RunsDoNotTouch(s, c, k, lo, hi);
      EveryRunIsListed(s, c, k + 1, lo, hi);
    } else {
      var e := RunEnd(s, c, k);
      RunEndStops(s, c, k);
      if lo < e {
        OneRun(s, c, k, e, lo, hi);
      } else {
        EveryRunIsListed(s, c, e, lo, hi);
      }
    }
  }

  /** `Runs` lists exactly the maximal runs. */
  lemma RunsAreTheMaximalRuns(s: string, c: char, lo: nat, hi: nat)
    ensures (lo, hi) in Runs(s, c, 0) <==> IsRun(s, c, lo, hi)
  {
    RunsAreOrdered(s, c, 0);
    if IsRun(s, c, lo, hi) { EveryRunIsListed(s, c, 0, lo, hi); }
  }

  lemma RunsDoNotTouch(s: string, c: char, e: nat, lo: nat, hi: nat)
    requires e <= lo && IsRun(s, c, lo, hi) && (e == |s| || s[e] == c)
    ensures e < lo
  {
    assert s[lo..hi][0] == s[lo];
  }

  /** Two maximal runs that meet are one. */
  lemma OneRun(s: string, c: char, k: nat, e: nat, lo: nat, hi: nat)
    requires IsRun(s, c, k, e) && IsRun(s, c, lo, hi) && k <= lo < e
    ensures lo == k && hi == e
  {
    assert forall i :: k <= i < e ==> s[i] == s[k..e][i - k];
    assert forall i :: lo <= i < hi ==> s[i] == s[lo..hi][i - lo];
  }

  // ---------------------------------------------------------------- splitting undoes joining

  function Join(ws: seq<string>, c: char): string {
    if ws == [] then "" else if |ws| == 1 then ws[0] else ws[0] + [c] + Join(ws[1..], c)
  }

  /** Dropping a prefix from the string shifts the scan. */
  lemma {:induction false} WordsShift(p: string, s: string, c: char, k: nat)
    requires k <= |s|
    ensures WordsOf(p + s, c, |p| + k) == WordsOf(s, c, k)
    decreases |s| - k
  {
    if k < |s| {
      assert (p + s)[|p| + k] == s[k];
      if s[k] == c {
        WordsShift(p, s, c, k + 1);
      } else {
        var e := RunEnd(s, c, k);
        RunEndStops(s, c, k);
        RunEndUnique(p + s, c, |p| + k, |p| + e);
        assert (p + s)[|p| + k..|p| + e] == s[k..e];
        WordsShift(p, s, c, e);
      }
    }
  }

  /** Splitting the join of non-empty separator-free words gives the words back. */
  lemma {:induction false} SplitJoin(ws: seq<string>, c: char)
    requires forall i :: 0 <= i < |ws| ==> ws[i] != "" && c !in ws[i]
    ensures Split(Join(ws, c), c) == ws
  {
    if ws != [] {
      var w := ws[0];
      var s := Join(ws, c);
      if |ws| == 1 {
        RunEndUnique(s, c, 0, |w|);
        assert s[0..|w|] == w;
        assert WordsOf(s, c, |w|) == [];
      } else {
        var rest := Join(ws[1..], c);
        assert s[|w|] == c;
        RunEndUnique(s, c, 0, |w|);
        assert s[0..|w|] == w;
        assert s == (w + [c]) + rest;
        WordsShift(w + [c], rest, c, 0);
        SplitJoin(ws[1..], c);
        assert WordsOf(s, c, |w|) == WordsOf(s, c, |w| + 1);
      }
      assert ws == [w] + ws[1..];
    }
  }

  // ---------------------------------------------------------------- the two passes

  /** The runs that begin after position `i`: the separators at `i` or later with a word behind them. */
  function LaterStarts(s: string, c: char, i: nat): nat
    decreases |s| - i
  {
    if i + 1 >= |s| then 0
    else (if s[i] == c && s[i + 1] != c then 1 else 0) + LaterStarts(s, c, i + 1)
  }

  lemma {:induction false} LaterStartsInRun(s: string, c: char, k: nat, e: nat)
    requires k <= e <= |s| && forall i :: k <= i < e ==> s[i] != c
    ensures LaterStarts(s, c, k) == LaterStarts(s, c, e)
    decreases e - k
  {
    if k < e { LaterStartsInRun(s, c, k + 1, e); }
  }

  /** Counting the starts of runs counts the runs. */
  lemma {:induction false} RunsCountedByStarts(s: string, c: char, k: nat)
    requires k <= |s|
    ensures |WordsOf(s, c, k)| == (if k < |s| && s[k] != c then 1 else 0) + LaterStarts(s, c, k)
    decreases |s| - k
  {
    if k < |s| {
      if s[k] == c {
        RunsCountedByStarts(s, c, k + 1);
      } else {
        var e := RunEnd(s, c, k);
        RunEndStops(s, c, k);
        RunsCountedByStarts(s, c, e);
        LaterStartsInRun(s, c, k, e);
      }
    }
  }

  /** ft_countword: the number of words, found by looking one character ahead. */
  method CountWord(str: array<char>, c: char) returns (cpt: nat)
    requires Terminated(str)
    ensures cpt == |Split(Text(str), c)|
  {
    ghost var s := Text(str);
    var i := 0;
    cpt := 0;
    RunsCountedByStarts(s, c, 0);
    while str[i] != NUL
      invariant i <= |s|
      invariant cpt + LaterStarts(s, c, i) + (if i == 0 && s != "" && s[0] != c then 1 else 0) == |Split(s, c)|
      decreases |s| - i
    {
      if (i == 0 && str[i] != c) || (str[i] == c && (str[i + 1] != c && str[i + 1] != NUL)) {
        cpt := cpt + 1;
      }
      i := i + 1;
    }
  }

  /** ft_lenword: how far the word at `i` reaches. */
  method LenWord(str: array<char>, i: nat, c: char) returns (j: nat)
    requires Terminated(str) && i <= |Text(str)|
    ensures i + j == RunEnd(Text(str), c, i)
  {
    ghost var s := Text(str);
    j := 0;
    while str[i + j] != NUL
      invariant i + j <= |s| && RunEnd(s, c, i + j) == RunEnd(s, c, i)
      decreases |s| - j
    {
      if str[i + j] == c || str[i + j] == NUL { return; }
      j := j + 1;
    }
  }

  /** The array holds the strings `ws`, each in a block of its own. */
  ghost predicate Holds(ret: array<array?<char>>, ws: seq<string>)
    reads ret, ret[..]
  {
    && |ws| <= ret.Length
    && forall i :: 0 <= i < |ws| ==> ret[i] != null && Terminated(ret[i]) && Text(ret[i]) == ws[i]
  }

  /** What ft_strsplit returns for the words `ws`: them in order and then a NULL pointer. With no
      words there is a spare slot, and both are NULL. */
  ghost predicate IsSplit(ret: array<array?<char>>, ws: seq<string>)
    reads ret, ret[..]
  {
    && ret.Length == (if ws == [] then 2 else |ws| + 1)
    && Holds(ret, ws)
    && forall i :: |ws| <= i < ret.Length ==> ret[i] == null
  }

  /** ft_strsplit. */
  method StrSplit(s: array?<char>, c: char) returns (ret: array?<array?<char>>)
    requires s != null ==> Terminated(s)
    ensures ret == null <==> s == null
    ensures ret != null ==> fresh(ret) && IsSplit(ret, Split(Text(s), c))
  {
    if s == null { return null; }
    var nw := CountWord(s, c);
    var tst := if nw == 0 then 1 else 0;
    var r := new array?<char>[nw + tst + 1](_ => null);
    r[nw + tst] := null;
    Extract(s, c, r, nw);
    if tst == 1 {
      r[0] := null;
      r[1] := null;
    }
    ret := r;
  }

  /** The extraction loop. */
  method Extract(s: array<char>, c: char, r: array<array?<char>>, nw: nat)
    requires Terminated(s) && nw == |Split(Text(s), c)| < r.Length
    requires forall i :: 0 <= i < r.Length ==> r[i] == null
    modifies r
    ensures Holds(r, Split(Text(s), c)) && forall i :: nw <= i < r.Length ==> r[i] == null
  {
    var i, k: nat := 0, 0;
    ghost var ws := Split(Text(s), c);
    while i < nw
      invariant i <= nw && k <= |Text(s)|
      invariant ws[i..] == WordsOf(Text(s), c, k)
      invariant Holds(r, ws[..i])
      invariant forall j :: i <= j < r.Length ==> r[j] == null
    {
      var w;
      w, k := NextWord(s, c, k);
      assert ws[i] == ws[i..][0] && ws[i + 1..] == ws[i..][1..];
      r[i] := w;
      i := i + 1;
    }
    assert ws[..i] == ws;
  }

  /** One round of the extraction loop: skip separators, copy out the word, step past it. */
  method NextWord(s: array<char>, c: char, from: nat) returns (w: array<char>, k: nat)
    requires Terminated(s) && from <= |Text(s)| && WordsOf(Text(s), c, from) != []
    ensures fresh(w) && Terminated(w) && from < k <= |Text(s)|
    ensures WordsOf(Text(s), c, from) == [Text(w)] + WordsOf(Text(s), c, k)
  {
    k := SkipSeparators(s, c, from);
    var n := LenWord(s, k, c);
    TextFrom(s, k);
    w := StrSub(s, k, n);
    assert Text(s)[k..][..n] == Text(s)[k..k + n];
    n := LenWord(s, k, c);
    k := k + n;
  }

  /** The inner loop of ft_strsplit. */
  method SkipSeparators(s: array<char>, c: char, from: nat) returns (k: nat)
    requires Terminated(s) && from <= |Text(s)| && WordsOf(Text(s), c, from) != []
    ensures from <= k < |Text(s)| && s[k] != c
    ensures WordsOf(Text(s), c, k) == WordsOf(Text(s), c, from)
  {
    k := from;
    while s[k] == c
      invariant from <= k <= |Text(s)| && WordsOf(Text(s), c, k) == WordsOf(Text(s), c, from)
      decreases |Text(s)| - k
    {
      k := k + 1;
    }
  }
}
