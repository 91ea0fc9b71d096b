/** What reading line by line means. `Lines` is the reference reading of a whole text;
    `NextLine` is one call on one descriptor whose input arrives in chunks of any sizes.
    The theorems say that calling again and again delivers exactly the reference lines,
    however the input was chunked and however calls on other descriptors are interleaved. */
module LineSpec {
  import opened CStrings
  import opened Options

  const NL: char := '\n'

  // ---------------------------------------------------------------- texts and their lines

  /** Is there a newline? (See `HasLineMeans`.) */
  predicate HasLine(t: string) {
    |Until(t, NL)| < |t|
  }

  lemma HasLineMeans(t: string)
    ensures HasLine(t) <==> '\n' in t
  {
    UntilSplits(t, NL);
  }

  /** The text behind the first newline, empty when there is none. */
  function AfterNewline(t: string): (r: string)
    ensures t != "" ==> |r| < |t|
  {
    if HasLine(t) then t[|Until(t, NL)| + 1..] else ""
  }

  /** The lines of a text: newline-terminated pieces, then a non-empty unterminated tail. */
  function Lines(t: string): seq<string>
    decreases |t|
  {
    if t == "" then [] else [Until(t, NL)] + Lines(AfterNewline(t))
  }

  /** Every line followed by its newline. */
  function Unlines(ls: seq<string>): string {
    if ls == [] then "" else ls[0] + [NL] + Unlines(ls[1..])
  }

  /** A text cut at a newline known to be its first. */
  lemma CutAt(line: string, rest: string)
    requires NL !in line
    ensures var t := line + [NL] + rest;
            Until(t, NL) == line && AfterNewline(t) == rest && Lines(t) == [line] + Lines(rest)
  {
    var t := line + [NL] + rest;
    assert t == line + ([NL] + rest);
    UntilAppend(line, [NL] + rest, NL);
    assert t[|line|] == NL;
    assert t[|line| + 1..] == rest;
  }

  lemma CutUp(t: string)
    requires HasLine(t)
    ensures NL !in Until(t, NL) && t == Until(t, NL) + [NL] + AfterNewline(t)
  {
    UntilSplits(t, NL);
  }

  lemma NoLine(t: string)
    requires !HasLine(t)
    ensures Until(t, NL) == t && AfterNewline(t) == "" && NL !in t
  {
    UntilSplits(t, NL);
  }

  /** The first line of a text whose first newline lies in its front part. */
  lemma FirstLine(front: string, back: string)
    requires HasLine(front)
    ensures Lines(front + back) == [Until(front, NL)] + Lines(AfterNewline(front) + back)
    ensures front + back == Until(front, NL) + [NL] + (AfterNewline(front) + back)
    ensures NL !in Until(front, NL)
  {
    CutUp(front);
    var l := Until(front, NL);
    assert front + back == l + [NL] + (AfterNewline(front) + back);
    CutAt(l, AfterNewline(front) + back);
  }

  lemma UnlinesCons(l: string, ls: seq<string>, tail: string)
    ensures Unlines([l] + ls) + tail == l + [NL] + (Unlines(ls) + tail)
  {
    assert ([l] + ls)[1..] == ls;
    var u := Unlines(ls);
    assert (l + [NL] + u) + tail == l + [NL] + (u + tail);
  }

  lemma OnlyLine(t: string)
    requires NL !in t && t != ""
    ensures Lines(t) == [t]
  {
    UntilUnique(t, NL, |t|);
    assert AfterNewline(t) == "" && t[..|t|] == t;
    assert Lines(t) == [t] + Lines("");
  }

  /** `Lines` inverts `Unlines`, with or without an unterminated tail. */
  lemma {:induction false} LinesOfUnlines(ls: seq<string>, tail: string)
    requires forall i :: 0 <= i < |ls| ==> NL !in ls[i]
    requires NL !in tail
    ensures Lines(Unlines(ls) + tail) == ls + (if tail == "" then [] else [tail])
  {
    if ls == [] {
      assert Unlines(ls) + tail == tail;
      if tail != "" { OnlyLine(tail); }
    } else {
      assert ls == [ls[0]] + ls[1..];
      LinesOfUnlines(ls[1..], tail);
      UnlinesCons(ls[0], ls[1..], tail);
      CutAt(ls[0], Unlines(ls[1..]) + tail);
    }
  }

  /** Nothing is lost or added: a text is its terminated lines, joined back, and its tail. */
  lemma {:induction false} LinesConserve(t: string) returns (whole: seq<string>, tail: string)
    ensures t == Unlines(whole) + tail && NL !in tail
    ensures Lines(t) == whole + (if tail == "" then [] else [tail])
    decreases |t|
  {
    if HasLine(t) {
      var l := Until(t, NL);
      CutUp(t);
      var whole', tail' := LinesConserve(AfterNewline(t));
      whole, tail := [l] + whole', tail';
      UnlinesCons(l, whole', tail');
    } else {
      NoLine(t);
      whole, tail := [], t;
      if t != "" { OnlyLine(t); }
    }
  }

  // ---------------------------------------------------------------- one descriptor

  /** One descriptor: the text held back from earlier reads (None before the first read)
      and the chunks its future reads will deliver. A chunk holding a NUL byte reaches
      the string routines only up to that byte. */
  datatype Chan = Chan(held: Option<string>, feed: seq<string>)

  datatype Reply =
    | Line(text: string)  // a line was read
    | End                 // end of input
    | Refused             // bad descriptor, no place for the line, or unreadable
    | NullRead            // the held text is read through a NULL pointer

  function Held(c: Chan): string {
    if c.held.Some? then c.held.value else ""
  }

  /** What the string routines get to see of a series of reads. */
  function Arrived(feed: seq<string>): string {
    if feed == [] then "" else Until(feed[0], NUL) + Arrived(feed[1..])
  }

  /** The raw bytes of a series of reads. */
  function Stream(feed: seq<string>): string {
    if feed == [] then "" else feed[0] + Stream(feed[1..])
  }

  /** The whole undelivered text of a descriptor. */
  function Pending(c: Chan): string {
    Held(c) + Arrived(c.feed)
  }

  /** What the descriptor looks like after one read. */
  function AfterRead(c: Chan): Chan
    requires c.feed != []
  {
    Chan(Some(Held(c) + Until(c.feed[0], NUL)), c.feed[1..])
  }

  /** One call: deliver a held line, or else read until a newline shows up or input ends. */
  function NextLine(c: Chan): (Reply, Chan)
    decreases |c.feed|
  {
    var h := Held(c);
    if HasLine(h) then
      (Line(Until(h, NL)), Chan(Some(AfterNewline(h)), c.feed))
    else if c.feed != [] then
      NextLine(AfterRead(c))
    else if c.held.None? then (NullRead, c)
    else if h == "" then (End, c)
    else (Line(h), Chan(Some(""), []))
  }

  ghost predicate TookFirstLine(c: Chan, r: Reply, c': Chan) {
    && (r == NullRead <==> c.held.None? && c.feed == [])
    && (r == End <==> Pending(c) == "" && r != NullRead)
    && (r.Line? <==> Pending(c) != "")
    && r != Refused
    && (r.Line? ==> Lines(Pending(c)) == [r.text] + Lines(Pending(c')))
    && (r.Line? ==> NL !in r.text && (Pending(c) == r.text + [NL] + Pending(c') ||
                                      (Pending(c) == r.text && Pending(c') == "")))
    && (r != NullRead ==> c'.held.Some?)
    && (!r.Line? ==> Pending(c') == Pending(c))
  }

  lemma TakesFromHeld(c: Chan)
    requires HasLine(Held(c))
    ensures TookFirstLine(c, NextLine(c).0, NextLine(c).1)
  {
    var h, more := Held(c), Arrived(c.feed);
    FirstLine(h, more);
    var c' := Chan(Some(AfterNewline(h)), c.feed);
    assert NextLine(c) == (Line(Until(h, NL)), c');
    assert Pending(c) == h + more && Pending(c') == AfterNewline(h) + more;
  }

  lemma ReadKeepsPending(c: Chan)
    requires c.feed != []
    ensures Pending(AfterRead(c)) == Pending(c)
  {
    assert (Held(c) + Until(c.feed[0], NUL)) + Arrived(c.feed[1..]) ==
           Held(c) + (Until(c.feed[0], NUL) + Arrived(c.feed[1..]));
  }

  lemma TakesAtTheEnd(c: Chan)
    requires !HasLine(Held(c)) && c.feed == []
    ensures TookFirstLine(c, NextLine(c).0, NextLine(c).1)
  {
    var h := Held(c);
    assert Pending(c) == h;
    HasLineMeans(h);
    if h != "" {
      OnlyLine(h);
      assert Pending(Chan(Some(""), [])) == "";
    }
  }

  /** A call removes exactly the first line from the pending text and returns it, and no
      character is lost: line, newline and what is then pending make up what was pending. It reports
      the end exactly when nothing is pending, and goes through the NULL pointer exactly on
      a descriptor that never read anything and has nothing to read. */
  lemma {:induction false} NextLineTakesFirstLine(c: Chan)
    ensures TookFirstLine(c, NextLine(c).0, NextLine(c).1)
    decreases |c.feed|
  {
    if HasLine(Held(c)) {
      TakesFromHeld(c);
    } else if c.feed == [] {
      TakesAtTheEnd(c);
    } else {
      NextLineTakesFirstLine(AfterRead(c));
      ReadKeepsPending(c);
    }
  }

  lemma ReadAhead(c: Chan, j: nat)
    requires 0 < j <= |c.feed|
    ensures Held(c) + Arrived(c.feed[..j]) == Held(AfterRead(c)) + Arrived(AfterRead(c).feed[..j - 1])
  {
    var first, more := Until(c.feed[0], NUL), Arrived(c.feed[1..][..j - 1]);
    assert c.feed[..j][1..] == c.feed[1..][..j - 1];
    assert Held(c) + (first + more) == (Held(c) + first) + more;
  }

  /** Reads nothing beyond the first newline: what is left of the feed is a suffix of it, and
      dropping one chunk less would not have shown a newline. */
  lemma {:induction false} NextLineReadsNoFurther(c: Chan)
    ensures var k := |c.feed| - |NextLine(c).1.feed|;
            && 0 <= k && NextLine(c).1.feed == c.feed[k..]
            && forall j :: 0 <= j < k ==> !HasLine(Held(c) + Arrived(c.feed[..j]))
    decreases |c.feed|
  {
    var h := Held(c);
    if HasLine(h) || c.feed == [] {
      assert c.feed[0..] == c.feed;
    } else {
      var d := AfterRead(c);
      NextLineReadsNoFurther(d);
      assert NextLine(c) == NextLine(d);
      var k := |c.feed| - |NextLine(c).1.feed|;
      assert c.feed[1..][k - 1..] == c.feed[k..];
      forall j | 0 <= j < k
        ensures !HasLine(h + Arrived(c.feed[..j]))
      {
        if j == 0 {
          assert h + Arrived(c.feed[..j]) == h;
        } else {
          ReadAhead(c, j);
        }
      }
    }
  }

  // ---------------------------------------------------------------- runs on one descriptor

  /** The replies to `n` successive calls. */
  function Calls(c: Chan, n: nat): seq<Reply>
    decreases n
  {
    if n == 0 then [] else
      var (r, c') := NextLine(c);
      [r] + Calls(c', n - 1)
  }

  /** The first `n` replies a reader of the lines `ls` expects: the lines, then the end, for ever. */
  function Script(ls: seq<string>, n: nat): seq<Reply>
    decreases n
  {
    if n == 0 then []
    else if ls == [] then [End] + Script([], n - 1)
    else [Line(ls[0])] + Script(ls[1..], n - 1)
  }

  lemma {:induction false} ScriptAt(ls: seq<string>, n: nat)
    ensures |Script(ls, n)| == n
    ensures forall i :: 0 <= i < n ==> Script(ls, n)[i] == if i < |ls| then Line(ls[i]) else End
    decreases n
  {
    if n > 0 {
      ScriptAt(if ls == [] then [] else ls[1..], n - 1);
    }
  }

  lemma ScriptStep(c: Chan, r: Reply, c': Chan, n: nat)
    requires n > 0 && TookFirstLine(c, r, c') && r != NullRead
    ensures Script(Lines(Pending(c)), n) == [r] + Script(Lines(Pending(c')), n - 1)
  {
    if r.Line? {
      assert Lines(Pending(c))[1..] == Lines(Pending(c'));
    }
  }

  lemma CallsStep(c: Chan, n: nat) returns (r: Reply, c': Chan)
    requires n > 0 && (c.held.Some? || c.feed != [])
    ensures c'.held.Some?
    ensures Calls(c, n) == [r] + Calls(c', n - 1)
    ensures Script(Lines(Pending(c)), n) == [r] + Script(Lines(Pending(c')), n - 1)
  {
    r, c' := NextLine(c).0, NextLine(c).1;
    NextLineTakesFirstLine(c);
    ScriptStep(c, r, c', n);
  }

  /** Main theorem for one descriptor: any number of calls, over any chunking, returns the
      lines of the pending text in order and then the end, for ever. */
  lemma {:induction false} CallsReturnTheLines(c: Chan, n: nat)
    requires c.held.Some? || c.feed != []
    ensures Calls(c, n) == Script(Lines(Pending(c)), n)
    decreases n
  {
    if n > 0 {
      var r, c' := CallsStep(c, n);
      CallsReturnTheLines(c', n - 1);
    }
  }

  /** What a descriptor looks like after `n` calls. */
  function After(c: Chan, n: nat): Chan
    decreases n
  {
    if n == 0 then c else After(NextLine(c).1, n - 1)
  }

  /** What a reply adds to the text delivered. */
  function Piece(r: Reply): string {
    if r.Line? then r.text + [NL] else ""
  }

  /** The lines a series of calls has delivered, each with its newline. */
  function Delivered(replies: seq<Reply>): string {
    if replies == [] then ""
    else Piece(replies[0]) + Delivered(replies[1..])
  }

  predicate Unterminated(t: string) {
    t != "" && t[|t| - 1] != NL
  }

  /** No character is lost or added: what was delivered and what is still pending make up the text, save
      for the newline that an unterminated last line lacks. */
  predicate Conserved(t: string, delivered: string, pending: string) {
    t == delivered + pending || (Unterminated(t) && t + [NL] == delivered && pending == "")
  }

  lemma ConservedStep(t: string, text: string, t': string, delivered: string, pending: string)
    requires NL !in text && t != ""
    requires t == text + [NL] + t' || (t == text && t' == "")
    requires Conserved(t', delivered, pending)
    ensures Conserved(t, text + [NL] + delivered, pending)
  {
    if t == text + [NL] + t' {
      assert text + [NL] + (delivered + pending) == text + [NL] + delivered + pending;
      if t' != delivered + pending {
        assert t + [NL] == text + [NL] + (t' + [NL]);
        assert t[|t| - 1] == t'[|t'| - 1];
      }
    } else {
      assert t[|t| - 1] in text;
      assert delivered == pending == "";
      assert text + [NL] + delivered == t + [NL];
    }
  }

  lemma DeliveredCons(r: Reply, later: seq<Reply>)
    ensures Delivered([r] + later) == Piece(r) + Delivered(later)
  {
    assert ([r] + later)[1..] == later;
  }

  lemma ReplyConserves(c: Chan, delivered: string, pending: string)
    requires Conserved(Pending(NextLine(c).1), delivered, pending)
    ensures Conserved(Pending(c), Piece(NextLine(c).0) + delivered, pending)
  {
    var r, c' := NextLine(c).0, NextLine(c).1;
    NextLineTakesFirstLine(c);
    if r.Line? {
      ConservedStep(Pending(c), r.text, Pending(c'), delivered, pending);
    } else {
      assert "" + delivered == delivered;
    }
  }

  /** Over any number of calls. */
  lemma {:induction false} CallsConserve(c: Chan, n: nat)
    ensures Conserved(Pending(c), Delivered(Calls(c, n)), Pending(After(c, n)))
    decreases n
  {
    if n == 0 {
      assert "" + Pending(c) == Pending(c);
    } else {
      var c' := NextLine(c).1;
      CallsConserve(c', n - 1);
      DeliveredCons(NextLine(c).0, Calls(c', n - 1));
      ReplyConserves(c, Delivered(Calls(c', n - 1)), Pending(After(c', n - 1)));
    }
  }

  /** On a descriptor that never read and has nothing to read, every call goes through NULL. */
  lemma {:induction false} EmptyStreamReadsNull(c: Chan, n: nat)
    requires c.held.None? && c.feed == []
    ensures |Calls(c, n)| == n && forall i :: 0 <= i < n ==> Calls(c, n)[i] == NullRead
  {
    if n > 0 {
      EmptyStreamReadsNull(c, n - 1);
    }
  }

  lemma NotInBoth(s: string, t: string, c: char)
    ensures c !in s + t <==> c !in s && c !in t
  {
  }

  lemma {:induction false} ArrivedWithoutNul(feed: seq<string>)
    ensures NUL !in Arrived(feed)
    ensures NUL !in Stream(feed) ==> Arrived(feed) == Stream(feed)
  {
    if feed != [] {
      UntilSplits(feed[0], NUL);
      ArrivedWithoutNul(feed[1..]);
      NotInBoth(feed[0], Stream(feed[1..]), NUL);
      NotInBoth(Until(feed[0], NUL), Arrived(feed[1..]), NUL);
    }
  }

  /** A character other than newline occurs in a text exactly when it occurs in a line. */
  lemma {:induction false} CharsOfLines(t: string, ch: char)
    requires ch != NL
    ensures ch in t <==> exists i :: 0 <= i < |Lines(t)| && ch in Lines(t)[i]
    decreases |t|
  {
    if t != "" {
      var l, rest := Until(t, NL), AfterNewline(t);
      CharsOfLines(rest, ch);
      UntilSplits(t, NL);
      if HasLine(t) { CutUp(t); }
      assert ch in t <==> ch in l || ch in rest;
      assert Lines(t)[0] == l && Lines(t)[1..] == Lines(rest);
      assert forall i :: 0 <= i < |Lines(rest)| ==> Lines(rest)[i] == Lines(t)[i + 1];
      assert forall i :: 0 < i < |Lines(t)| ==> Lines(t)[i] == Lines(rest)[i - 1];
    }
  }

  lemma {:induction false} SameLinesIffNoNul(feed: seq<string>)
    ensures Lines(Arrived(feed)) == Lines(Stream(feed)) <==> NUL !in Stream(feed)
  {
    ArrivedWithoutNul(feed);
    CharsOfLines(Arrived(feed), NUL);
    CharsOfLines(Stream(feed), NUL);
  }

  /** Enough calls tell different lines apart. */
  lemma ScriptsTellApart(ls: seq<string>, ks: seq<string>, n: nat)
    requires n > |ls| && n > |ks|
    ensures Script(ls, n) == Script(ks, n) <==> ls == ks
  {
    ScriptAt(ls, n);
    ScriptAt(ks, n);
    if Script(ls, n) == Script(ks, n) {
      assert Script(ls, n)[|ls|] == End && Script(ks, n)[|ks|] == End;
      assert forall i :: 0 <= i < |ls| && i < |ks| ==>
               Script(ls, n)[i] == Line(ls[i]) && Script(ks, n)[i] == Line(ks[i]);
    }
  }

  /** What the calls return is the script of the lines that arrive, and of no other lines. */
  lemma OnlyTheseLines(feed: seq<string>, ls: seq<string>)
    requires feed != []
    ensures (forall n: nat :: Calls(Chan(None, feed), n) == Script(ls, n)) <==> ls == Lines(Arrived(feed))
  {
    var c := Chan(None, feed);
    assert Pending(c) == Arrived(feed);
    var m := |Lines(Arrived(feed))| + |ls| + 1;
    CallsReturnTheLines(c, m);
    ScriptsTellApart(ls, Lines(Arrived(feed)), m);
    if ls == Lines(Arrived(feed)) {
      forall n: nat
        ensures Calls(c, n) == Script(ls, n)
      {
        CallsReturnTheLines(c, n);
      }
    }
  }

  /** The calls deliver the lines of the raw stream exactly when the stream has no NUL byte. */
  lemma FaithfulIffNoNul(feed: seq<string>)
    requires feed != []
    ensures (forall n: nat :: Calls(Chan(None, feed), n) == Script(Lines(Stream(feed)), n)) <==> NUL !in Stream(feed)
  {
    OnlyTheseLines(feed, Lines(Stream(feed)));
    SameLinesIffNoNul(feed);
  }

  /** Two chunkings of one NUL-free stream are told apart by no series of calls. */
  lemma {:induction false} ChunkingIsInvisible(a: seq<string>, b: seq<string>, n: nat)
    requires a != [] && b != []
    requires Stream(a) == Stream(b) && NUL !in Stream(a)
    ensures Calls(Chan(None, a), n) == Calls(Chan(None, b), n)
  {
    ArrivedWithoutNul(a);
    ArrivedWithoutNul(b);
    assert Pending(Chan(None, a)) == Pending(Chan(None, b)) == Stream(a);
    CallsReturnTheLines(Chan(None, a), n);
    CallsReturnTheLines(Chan(None, b), n);
  }

  // ---------------------------------------------------------------- when the chunking shows

  /** Reads of one to `most` bytes. */
  ghost predicate Sized(feed: seq<string>, most: nat) {
    forall i :: 0 <= i < |feed| ==> 0 < |feed[i]| <= most
  }

  /** Such reads that deliver `s`. */
  ghost predicate Chunking(feed: seq<string>, s: string, most: nat) {
    Stream(feed) == s && Sized(feed, most)
  }

  /** No series of calls tells two chunkings of `s` apart. */
  ghost predicate Invisible(s: string, most: nat) {
    forall a, b, n: nat :: Chunking(a, s, most) && Chunking(b, s, most) ==>
      Calls(Chan(None, a), n) == Calls(Chan(None, b), n)
  }

  /** The characters other than NUL. */
  function Visible(s: string): string {
    if s == "" then "" else (if s[0] == NUL then "" else [s[0]]) + Visible(s[1..])
  }

  /** Behind the first NUL there is nothing visible, or only the newline the last line before it lacks. */
  predicate NothingBehindNul(s: string) {
    var p := Until(s, NUL);
    var q := Visible(s[|p|..]);
    q == "" || (q == [NL] && Unterminated(p))
  }

  lemma {:induction false} VisibleAppend(s: string, t: string)
    ensures Visible(s + t) == Visible(s) + Visible(t)
  {
    if s == "" {
      assert s + t == t;
    } else {
      assert (s + t)[1..] == s[1..] + t;
      VisibleAppend(s[1..], t);
    }
  }

  lemma {:induction false} VisibleWithoutNul(s: string)
    requires NUL !in s
    ensures Visible(s) == s
  {
    if s != "" { VisibleWithoutNul(s[1..]); }
  }

  lemma VisibleSplits(s: string)
    ensures Visible(s) == Until(s, NUL) + Visible(s[|Until(s, NUL)|..])
  {
    var p := Until(s, NUL);
    UntilSplits(s, NUL);
    assert s == p + s[|p|..];
    VisibleAppend(p, s[|p|..]);
    VisibleWithoutNul(p);
  }

  lemma UntilInFront(s: string, t: string)
    requires NUL in s
    ensures Until(s + t, NUL) == Until(s, NUL)
  {
    var n := |Until(s, NUL)|;
    UntilSplits(s, NUL);
    assert (s + t)[..n] == s[..n];
    UntilUnique(s + t, NUL, n);
  }

  /** What is seen begins with the text before the first NUL, is no longer than all the visible
      characters, and is all of them if it is as long. */
  ghost predicate Between(first: string, seen: string, all: string) {
    first <= seen && |seen| <= |all| && (|seen| == |all| ==> seen == all)
  }

  lemma BetweenGrows(u: string, v: string, first: string, seen: string, all: string)
    requires u <= v && Between(first, seen, all)
    ensures Between(u, u + seen, v + all) && Between(u + first, u + seen, v + all)
  {
    assert |u| == |v| ==> u == v;
  }

  lemma UntilOfTwo(s: string, t: string)
    ensures Until(s + t, NUL) == if NUL in s then Until(s, NUL) else Until(s, NUL) + Until(t, NUL)
  {
    UntilSplits(s, NUL);
    if NUL in s { UntilInFront(s, t); } else { UntilAppend(s, t, NUL); }
  }

  lemma {:induction false} ArrivedBetween(feed: seq<string>)
    ensures Between(Until(Stream(feed), NUL), Arrived(feed), Visible(Stream(feed)))
  {
    if feed != [] {
      var rest := Stream(feed[1..]);
      ArrivedBetween(feed[1..]);
      VisibleAppend(feed[0], rest);
      VisibleSplits(feed[0]);
      UntilOfTwo(feed[0], rest);
      BetweenGrows(Until(feed[0], NUL), Visible(feed[0]), Until(rest, NUL), Arrived(feed[1..]), Visible(rest));
    }
  }

  lemma {:induction false} NewlineAtTheEnd(t: string)
    requires Unterminated(t)
    ensures Lines(t + [NL]) == Lines(t)
    decreases |t|
  {
    HasLineMeans(t);
    if HasLine(t) {
      FirstLine(t, [NL]);
      CutUp(t);
      var rest := AfterNewline(t);
      assert t[|t| - 1] == (Until(t, NL) + [NL] + rest)[|t| - 1];
      NewlineAtTheEnd(rest);
    } else {
      CutAt(t, "");
      assert t + [NL] + "" == t + [NL];
      OnlyLine(t);
    }
  }

  lemma SameHeads<T>(a: T, x: seq<T>, b: T, y: seq<T>)
    requires [a] + x == [b] + y
    ensures a == b && x == y
  {
    assert x == ([a] + x)[1..] && y == ([b] + y)[1..];
    assert a == ([a] + x)[0] && b == ([b] + y)[0];
  }

  lemma LongerBehind(line: string, t: string)
    requires Unterminated(t)
    ensures Unterminated(line + [NL] + t) && line + [NL] + (t + [NL]) == line + [NL] + t + [NL]
  {
    assert (line + [NL] + t)[|line| + |t|] == t[|t| - 1];
  }

  /** One character more with the same lines: it is the newline the last line lacked. */
  lemma {:induction false} SameLinesOneLonger(t: string, u: string)
    requires |u| == |t| + 1 && Lines(u) == Lines(t)
    ensures Unterminated(t) && u == t + [NL]
    decreases |t|
  {
    assert t != "";
    SameHeads(Until(u, NL), Lines(AfterNewline(u)), Until(t, NL), Lines(AfterNewline(t)));
    if !HasLine(u) { NoLine(u); }
    CutUp(u);
    if HasLine(t) {
      CutUp(t);
      SameLinesOneLonger(AfterNewline(t), AfterNewline(u));
      LongerBehind(Until(t, NL), AfterNewline(t));
    } else {
      NoLine(t);
      assert AfterNewline(u) == "" && t + [NL] + "" == t + [NL];
      assert t[|t| - 1] in t;
    }
  }

  /** Chunks of one byte each. */
  function Singles(s: string): (feed: seq<string>)
    ensures Sized(feed, 1)
  {
    if s == "" then [] else [[s[0]]] + Singles(s[1..])
  }

  lemma {:induction false} SinglesLoseNothing(s: string)
    ensures Stream(Singles(s)) == s && Arrived(Singles(s)) == Visible(s)
  {
    if s != "" {
      assert Singles(s)[0] == [s[0]] && Singles(s)[1..] == Singles(s[1..]);
      SinglesLoseNothing(s[1..]);
      assert Until([s[0]], NUL) == if s[0] == NUL then "" else [s[0]];
    }
  }

  lemma {:induction false} StreamAppend(a: seq<string>, b: seq<string>)
    ensures Stream(a + b) == Stream(a) + Stream(b)
  {
    if a == [] {
      assert a + b == b;
    } else {
      assert (a + b)[1..] == a[1..] + b;
      StreamAppend(a[1..], b);
    }
  }

  lemma {:induction false} ArrivedAppend(a: seq<string>, b: seq<string>)
    ensures Arrived(a + b) == Arrived(a) + Arrived(b)
  {
    if a == [] {
      assert a + b == b;
    } else {
      assert (a + b)[1..] == a[1..] + b;
      ArrivedAppend(a[1..], b);
    }
  }

  lemma Regroup(p: string, a: string, m: string, b: string)
    ensures p + (a + m + b) == (p + a) + m + b
  {
  }

  /** The first visible character of a string that begins with NUL stands right behind a NUL. */
  lemma {:induction false} FirstHidden(s: string) returns (a: string, c: char, back: string)
    requires s != "" && s[0] == NUL && Visible(s) != ""
    ensures s == a + [NUL, c] + back && Visible(a) == "" && Visible(s) == [c] + Visible(back)
  {
    var t := s[1..];
    assert Visible(s) == Visible(t) && s == [NUL] + t;
    if t[0] != NUL {
      a, c, back := "", t[0], t[1..];
      assert s == "" + [NUL, c] + back;
    } else {
      var a';
      a', c, back := FirstHidden(t);
      a := [NUL] + a';
      VisibleAppend([NUL], a');
      Regroup([NUL], a', [NUL, c], back);
    }
  }

  lemma PairLost(front: seq<string>, c: char, back: seq<string>)
    ensures Stream(front + [[NUL, c]] + back) == Stream(front) + [NUL, c] + Stream(back)
    ensures Arrived(front + [[NUL, c]] + back) == Arrived(front) + Arrived(back)
  {
    var pair := [NUL, c];
    UntilUnique(pair, NUL, 0);
    assert Arrived([pair]) == "" && Stream([pair]) == pair;
    ArrivedAppend(front, [pair]);
    ArrivedAppend(front + [pair], back);
    StreamAppend(front, [pair]);
    StreamAppend(front + [pair], back);
  }

  lemma PairSized(front: seq<string>, pair: string, back: seq<string>, most: nat)
    requires Sized(front, 1) && |pair| == 2 <= most && Sized(back, 1)
    ensures Sized(front + [pair] + back, most)
  {
  }

  /** A chunking that loses a visible character right behind a NUL, and that one only. */
  lemma OneLost(p: string, a: string, c: char, rest: string, most: nat) returns (feed: seq<string>)
    requires most >= 2 && NUL !in p && Visible(a) == ""
    ensures Chunking(feed, p + (a + [NUL, c] + rest), most) && Arrived(feed) == p + Visible(rest)
  {
    var front, back := Singles(p + a), Singles(rest);
    feed := front + [[NUL, c]] + back;
    PairSized(front, [NUL, c], back, most);
    PairLost(front, c, back);
    SinglesLoseNothing(p + a);
    SinglesLoseNothing(rest);
    Regroup(p, a, [NUL, c], rest);
    VisibleAppend(p, a);
    VisibleWithoutNul(p);
    assert p + "" == p;
  }

  lemma SeenLines(feed: seq<string>, n: nat)
    requires feed != []
    ensures Calls(Chan(None, feed), n) == Script(Lines(Arrived(feed)), n)
  {
    assert Pending(Chan(None, feed)) == Arrived(feed);
    CallsReturnTheLines(Chan(None, feed), n);
  }

  lemma SameLinesIfNothingBehindNul(s: string, seen: string)
    requires NothingBehindNul(s) && Between(Until(s, NUL), seen, Visible(s))
    ensures Lines(seen) == Lines(Until(s, NUL))
  {
    var p := Until(s, NUL);
    VisibleSplits(s);
    if |seen| == |p| {
      assert seen == p;
    } else {
      assert seen == p + [NL];
      NewlineAtTheEnd(p);
    }
  }

  lemma EmptyOrNot(feed: seq<string>, s: string, most: nat)
    requires Chunking(feed, s, most)
    ensures feed == [] <==> s == ""
  {
  }

  lemma InvisibleIf(s: string, most: nat)
    requires NothingBehindNul(s)
    ensures Invisible(s, most)
  {
    forall a, b, n: nat | Chunking(a, s, most) && Chunking(b, s, most)
      ensures Calls(Chan(None, a), n) == Calls(Chan(None, b), n)
    {
      EmptyOrNot(a, s, most);
      EmptyOrNot(b, s, most);
      if s != "" {
        SeenLines(a, n);
        SeenLines(b, n);
        ArrivedBetween(a);
        ArrivedBetween(b);
        SameLinesIfNothingBehindNul(s, Arrived(a));
        SameLinesIfNothingBehindNul(s, Arrived(b));
      }
    }
  }

  /** Two chunkings of one stream: with one of them a visible character behind the first NUL is lost. */
  lemma TwoChunkings(s: string, most: nat) returns (a: seq<string>, b: seq<string>)
    requires most >= 2 && Visible(s[|Until(s, NUL)|..]) != ""
    ensures Chunking(a, s, most) && Chunking(b, s, most)
    ensures var p := Until(s, NUL); var q := Visible(s[|p|..]); Arrived(a) == p + q && Arrived(b) == p + q[1..]
  {
    var p := Until(s, NUL);
    UntilSplits(s, NUL);
    assert p + s[|p|..] == s;
    a := Singles(s);
    SinglesLoseNothing(s);
    VisibleSplits(s);
    var x, c, rest := FirstHidden(s[|p|..]);
    b := OneLost(p, x, c, rest, most);
    assert ([c] + Visible(rest))[1..] == Visible(rest);
  }

  lemma SameLinesIfInvisible(s: string, most: nat, a: seq<string>, b: seq<string>)
    requires Invisible(s, most) && Chunking(a, s, most) && Chunking(b, s, most) && s != ""
    ensures Lines(Arrived(a)) == Lines(Arrived(b))
  {
    EmptyOrNot(a, s, most);
    EmptyOrNot(b, s, most);
    var n := |Lines(Arrived(a))| + |Lines(Arrived(b))| + 1;
    SeenLines(a, n);
    SeenLines(b, n);
    assert Calls(Chan(None, a), n) == Calls(Chan(None, b), n);
    ScriptsTellApart(Lines(Arrived(a)), Lines(Arrived(b)), n);
  }

  lemma OnlyIfInvisible(s: string, most: nat)
    requires most >= 2 && Invisible(s, most)
    ensures NothingBehindNul(s)
  {
    var p := Until(s, NUL);
    var q := Visible(s[|p|..]);
    if q != "" {
      var a, b := TwoChunkings(s, most);
      SameLinesIfInvisible(s, most, a, b);
      SameLinesOneLonger(p + q[1..], p + q);
      OnlyNewline(p, q);
    }
  }

  lemma OnlyNewline(p: string, q: string)
    requires q != "" && p + q == p + q[1..] + [NL]
    ensures |q| == 1 ==> q == [NL] && p + q[1..] == p
    ensures |q| > 1 ==> !Unterminated(p + q[1..])
  {
    assert q[|q| - 1] == (p + q)[|p + q| - 1] == NL;
    if |q| > 1 {
      assert (p + q[1..])[|p + q[1..]| - 1] == q[|q| - 1];
    } else {
      assert q[1..] == "" && p + q[1..] == p;
    }
  }

  /** Exactly which streams hide how they were cut into reads, whatever reads of at least two bytes may
      bring: those with nothing visible behind the first NUL, or nothing but the newline that ends
      the last line before it. */
  lemma ChunkingInvisibleIff(s: string, most: nat)
    requires most >= 2
    ensures Invisible(s, most) <==> NothingBehindNul(s)
  {
    if NothingBehindNul(s) { InvisibleIf(s, most); }
    if Invisible(s, most) { OnlyIfInvisible(s, most); }
  }

  /** So with text behind a NUL byte the chunking can show; with nothing behind it, it does not. */
  lemma NulShowsTheChunking(most: nat)
    requires most >= 2
    ensures !Invisible("x\0y", most) && Invisible("x\0", most)
  {
    UntilUnique("x\0y", NUL, 1);
    UntilUnique("x\0", NUL, 1);
    assert "x\0y"[1..][1..] == "y" && "y"[1..] == "";
    assert Visible("x\0y"[1..]) == Visible("y") == "y";
    assert "x\0"[1..][1..] == "";
    ChunkingInvisibleIff("x\0y", most);
    ChunkingInvisibleIff("x\0", most);
  }

  // ---------------------------------------------------------------- many descriptors

  type Table = map<int, Chan>

  /** One call on descriptor `fd`; descriptors outside the table, and negative ones, are refused. */
  function Step(s: Table, fd: int): (Reply, Table) {
    if fd < 0 || fd !in s then (Refused, s) else
      var (r, c') := NextLine(s[fd]);
      (r, s[fd := c'])
  }

  /** The replies to a series of calls on the listed descriptors. */
  function Interleaved(s: Table, calls: seq<int>): seq<Reply> {
    if calls == [] then [] else
      var (r, s') := Step(s, calls[0]);
      [r] + Interleaved(s', calls[1..])
  }

  /** The descriptors after a series of calls. */
  function Ran(s: Table, calls: seq<int>): Table {
    if calls == [] then s else Ran(Step(s, calls[0]).1, calls[1..])
  }

  /** The replies that went to the calls on `fd`. */
  function RepliesTo(fd: int, calls: seq<int>, replies: seq<Reply>): seq<Reply>
    requires |calls| == |replies|
  {
    if calls == [] then []
    else (if calls[0] == fd then [replies[0]] else []) + RepliesTo(fd, calls[1..], replies[1..])
  }

  lemma {:induction false} InterleavedLength(s: Table, calls: seq<int>)
    ensures |Interleaved(s, calls)| == |calls|
  {
    if calls != [] {
      InterleavedLength(Step(s, calls[0]).1, calls[1..]);
    }
  }

  /** Refused are exactly the calls on a descriptor that is negative or not open. */
  lemma {:induction false} RefusedIff(s: Table, calls: seq<int>, k: nat)
    requires k < |calls|
    ensures |Interleaved(s, calls)| == |calls|
    ensures Interleaved(s, calls)[k] == Refused <==> calls[k] < 0 || calls[k] !in s
  {
    InterleavedLength(s, calls);
    var (r, s') := Step(s, calls[0]);
    if k > 0 {
      RefusedIff(s', calls[1..], k - 1);
      assert s'.Keys == s.Keys;
    } else if calls[0] >= 0 && calls[0] in s {
      NextLineTakesFirstLine(s[calls[0]]);
    }
  }

  /** The replies `fd` gets in the course of a series of calls. */
  function Mine(s: Table, calls: seq<int>, fd: int): seq<Reply> {
    InterleavedLength(s, calls);
    RepliesTo(fd, calls, Interleaved(s, calls))
  }

  lemma MineSteps(s: Table, calls: seq<int>, fd: int)
    requires calls != []
    ensures var (r, s') := Step(s, calls[0]);
            Mine(s, calls, fd) == (if calls[0] == fd then [r] else []) + Mine(s', calls[1..], fd)
  {
    var (r, s') := Step(s, calls[0]);
    assert Interleaved(s, calls)[1..] == Interleaved(s', calls[1..]);
    InterleavedLength(s', calls[1..]);
  }

  lemma OwnStep(s: Table, calls: seq<int>, fd: int)
    requires fd in s && fd >= 0 && calls != [] && calls[0] == fd
    ensures var (r, c') := NextLine(s[fd]);
            && Step(s, fd) == (r, s[fd := c'])
            && Mine(s, calls, fd) == [r] + Mine(s[fd := c'], calls[1..], fd)
            && Ran(s, calls) == Ran(s[fd := c'], calls[1..])
  {
    MineSteps(s, calls, fd);
  }

  lemma OtherStep(s: Table, calls: seq<int>, fd: int)
    requires fd in s && fd >= 0 && calls != [] && calls[0] != fd
    ensures var s' := Step(s, calls[0]).1;
            && fd in s' && s'[fd] == s[fd]
            && Mine(s, calls, fd) == Mine(s', calls[1..], fd)
            && Ran(s, calls) == Ran(s', calls[1..])
  {
    MineSteps(s, calls, fd);
  }

  /** Under any interleaving a descriptor is answered as if it were read alone, and left as if it were. */
  lemma {:induction false} InterleavingIsInvisible(s: Table, calls: seq<int>, fd: int)
    requires fd in s && fd >= 0
    ensures Mine(s, calls, fd) == Calls(s[fd], |Mine(s, calls, fd)|)
    ensures fd in Ran(s, calls) && Ran(s, calls)[fd] == After(s[fd], |Mine(s, calls, fd)|)
  {
    if calls == [] {
    } else if calls[0] == fd {
      OwnStep(s, calls, fd);
      InterleavingIsInvisible(s[fd := NextLine(s[fd]).1], calls[1..], fd);
    } else {
      OtherStep(s, calls, fd);
      InterleavingIsInvisible(Step(s, calls[0]).1, calls[1..], fd);
    }
  }

  /** The theorems together: whatever else is read in between, and however the input is
      chunked, the calls on `fd` return the lines of its stream in order and then the end, and the stream is
      what they delivered and what is then still held or unread. */
  lemma EveryScheduleReadsTheLines(s: Table, calls: seq<int>, fd: int)
    requires fd in s && fd >= 0
    requires s[fd].held.None? && s[fd].feed != [] && NUL !in Stream(s[fd].feed)
    ensures Mine(s, calls, fd) == Script(Lines(Stream(s[fd].feed)), |Mine(s, calls, fd)|)
    ensures fd in Ran(s, calls)
    ensures Conserved(Stream(s[fd].feed), Delivered(Mine(s, calls, fd)), Pending(Ran(s, calls)[fd]))
  {
    InterleavingIsInvisible(s, calls, fd);
    ArrivedWithoutNul(s[fd].feed);
    assert Pending(s[fd]) == Stream(s[fd].feed);
    CallsReturnTheLines(s[fd], |Mine(s, calls, fd)|);
    CallsConserve(s[fd], |Mine(s, calls, fd)|);
  }
}
