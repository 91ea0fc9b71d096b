/** The line reader as the program runs it: a linked list with one node per descriptor, each
    owning the text held back for that descriptor, and reads of unpredictable size. Every
    call is proved to be one `LineSpec.Step`. */
module GetNextLine {
  import opened CStrings
  import opened LineSpec
  import opened Options

  const BUFF_SIZE: nat := 1000

  /** What a call reports: 1, 0, -1, or a read through a NULL pointer. */
  datatype Status = GotLine | AtEnd | BadCall | NullPointer

  /** What one read delivers: never more than was asked for, and nothing only at the end. */
  type Chunk = c: string | 0 < |c| <= BUFF_SIZE witness "x"

  /** The operating system's side: for each open descriptor the chunks its reads will deliver. */
  class Kernel {
    var feeds: map<int, seq<Chunk>>

    constructor (feeds: map<int, seq<Chunk>>)
      ensures this.feeds == feeds
    {
      this.feeds := feeds;
    }

    /** read(2) into a buffer of BUFF_SIZE bytes and one spare: the next chunk, or 0 at the end. */
    method Read(fd: int, buf: array<char>) returns (n: nat)
      requires fd in feeds && buf.Length == BUFF_SIZE + 1
      modifies this, buf
      ensures n <= BUFF_SIZE
      ensures n == 0 <==> old(feeds)[fd] == []
      ensures n == 0 ==> feeds == old(feeds)
      ensures n > 0 ==> feeds == old(feeds)[fd := old(feeds)[fd][1..]] && buf[..n] == old(feeds)[fd][0]
    {
      if feeds[fd] == [] { return 0; }
      var chunk: string := feeds[fd][0];
      n := |chunk|;
      for i := 0 to n
        invariant buf[..i] == chunk[..i]
        invariant feeds == old(feeds)
      {
        buf[i] := chunk[i];
      }
      assert chunk[..n] == chunk;
      feeds := feeds[fd := feeds[fd][1..]];
    }
  }

  /** A chunk put into the read buffer is seen up to its first NUL. */
  lemma BufferText(buf: array<char>, n: nat)
    requires n < buf.Length && buf[n] == NUL
    ensures Terminated(buf) && Text(buf) == Until(buf[..n], NUL)
  {
    var t := Until(buf[..n], NUL);
    UntilSplits(buf[..n], NUL);
    assert buf[..|t|] == t;
    TextIs(buf, t);
  }

  /** t_file: a descriptor and the text held back for it, NULL before the first read. */
  class File {
    const fd: int
    var str: array?<char>

    constructor (fd: int)
      ensures this.fd == fd && str == null
    {
      this.fd := fd;
      str := null;
    }

    ghost predicate Valid()
      reads this, str
    {
      str != null ==> Terminated(str)
    }

    ghost function Value(): Option<string>
      reads this, str
      requires Valid()
    {
      if str == null then None else Some(Text(str))
    }

    /** The channel this file stands for, given what its reads will deliver. */
    ghost function View(feed: seq<string>): Chan
      reads this, str
      requires Valid()
    {
      Chan(Value(), feed)
    }

    /** trim_and_del: cut the held text at its first newline and return the part before it.
        Without a newline everything is returned; on an empty text nothing is. */
    method TrimAndDel() returns (line: array?<char>)
      requires Valid() && str != null
      modifies this
      ensures Valid() && str != null
      ensures line == null <==> old(Text(str)) == ""
      ensures line == null ==> str == old(str)
      ensures line != null ==> fresh(line) && Terminated(line) && Text(line) == Until(old(Text(str)), NL)
      ensures line != null ==> Text(str) == AfterNewline(old(Text(str)))
    {
      ghost var t := Text(str);
      if str[0] == NUL { return null; }
      assert t[0] == str[0];
      var lenLine := LineLength();
      var ret := StrNDup(str, lenLine);
      str := AfterCut(lenLine);
      if lenLine == 0 {
        line := StrNew(1);
      } else {
        line := ret;
      }
    }

    /** The length of the first line, from where the newline is. */
    method LineLength() returns (n: nat)
      requires Valid() && str != null
      ensures n == |Until(Text(str), NL)| && Take(Text(str), n) == Until(Text(str), NL)
    {
      UntilSplits(Text(str), NL);
      var nl := StrChr(str, NL);
      var len := StrLen(str, 0);
      var tail := 0;
      if nl != -1 { tail := StrLen(str, nl); }
      n := len - tail;
    }

    /** The text trim_and_del keeps: a copy of what follows the newline, or of NULL when there is none. */
    method AfterCut(lenLine: nat) returns (r: array<char>)
      requires Valid() && str != null && lenLine == |Until(Text(str), NL)|
      ensures fresh(r) && Terminated(r) && Text(r) == AfterNewline(Text(str))
    {
      var tmp: array?<char> := null;
      UntilSplits(Text(str), NL);
      if str[lenLine] == NL {
        tmp := StrDup(str, lenLine + 1);
      }
      r := StrDup(tmp, 0);
    }

    /** checks_eof: at the end of input, deliver a non-empty held text as the last line. */
    method ChecksEof() returns (st: Status, line: array?<char>)
      requires Valid()
      modifies this
      ensures Valid()
      ensures st == NullPointer <==> old(Value()) == None
      ensures st == AtEnd <==> old(Value()) == Some("")
      ensures st != BadCall
      ensures st != GotLine ==> line == null && Value() == old(Value())
      ensures st == GotLine && !HasLine(old(Text(str))) ==>
        line != null && fresh(line) && Terminated(line) && Text(line) == old(Text(str)) && Value() == Some("")
      ensures st == GotLine && HasLine(old(Text(str))) ==> line == null && Value() == old(Value())
    {
      line := null;
      if str == null { return NullPointer, null; }
      if str[0] == NUL { return AtEnd, null; }
      assert Text(str)[0] == str[0];
      var nl := StrChr(str, NL);
      HasLineMeans(Text(str));
      if nl == -1 {
        line := StrDup(str, 0);
        str := StrNew(1);
      }
      st := GotLine;
    }

    /** Does the held text contain a newline? (A NULL text has length zero.) */
    method HoldsLine() returns (b: bool)
      requires Valid()
      ensures b <==> HasLine(Held(View([])))
    {
      var len := StrLen(str, 0);
      HasLineMeans(Held(View([])));
      if len == 0 { return false; }
      var nl := StrChr(str, NL);
      b := nl != -1;
    }

    /** One round of the read loop: close the buffer behind the `n` bytes just read and append
        it to the held text, which the string routines do up to the first NUL. */
    method AppendChunk(buf: array<char>, n: nat, ghost rest: seq<string>)
      requires Valid() && str != buf && n < buf.Length
      modifies this, buf
      ensures Valid() && fresh(str)
      ensures Value() == Some(old(Held(View([]))) + Until(old(buf[..n]), NUL))
      ensures old(!HasLine(Held(View([])))) ==>
                NextLine(View(rest)) == NextLine(old(View([buf[..n]] + rest)))
    {
      ghost var c := View([buf[..n]] + rest);
      assert c.feed[0] == buf[..n] && c.feed[1..] == rest;
      buf[n] := NUL;
      BufferText(buf, n);
      var tmp := StrDup(str, 0);
      str := StrJoin(tmp, buf);
      if !HasLine(Held(c)) {
        NextLineReads(c);
        assert View(rest) == AfterRead(c);
      }
    }
  }

  /** The reply a status and a line buffer stand for. */
  ghost predicate Reports(st: Status, line: array?<char>, r: Reply)
    reads line
  {
    match st
    case GotLine => line != null && Terminated(line) && r == Line(Text(line))
    case AtEnd => line == null && r == End
    case BadCall => line == null && r == Refused
    case NullPointer => line == null && r == NullRead
  }

  /** What a call reports on an open descriptor, by what its channel holds and has yet to read. */
  ghost predicate Tells(st: Status, line: array?<char>, c: Chan)
    reads line
  {
    && (st == NullPointer <==> c == Chan(None, []))
    && (st == AtEnd <==> c != Chan(None, []) && Pending(c) == "")
    && (st == GotLine <==> Pending(c) != "")
    && (if Pending(c) == "" then line == null
        else line != null && Terminated(line) && Text(line) == Lines(Pending(c))[0])
  }

  lemma ReportsTell(st: Status, line: array?<char>, c: Chan)
    requires Reports(st, line, NextLine(c).0)
    ensures Tells(st, line, c)
  {
    NextLineTakesFirstLine(c);
  }

  /** Only the input of `fd` may have moved on. */
  twostate predicate OnlyReads(kernel: Kernel, fd: int)
    reads kernel
  {
    && fd in kernel.feeds && kernel.feeds.Keys == old(kernel.feeds).Keys
    && forall f :: f in kernel.feeds && f != fd ==> kernel.feeds[f] == old(kernel.feeds)[f]
  }

  /** One read of the loop in read_line, appended to the held text when it brings anything. What
      the next line is does not change while text moves from the feed to the file. */
  method ReadOnce(file: File, kernel: Kernel, buf: array<char>) returns (n: nat)
    requires file.Valid() && file.fd in kernel.feeds
    requires !HasLine(Held(file.View([])))
    requires buf.Length == BUFF_SIZE + 1 && buf != file.str
    modifies file, kernel, buf
    ensures file.Valid() && OnlyReads(kernel, file.fd) && buf != file.str
    ensures NextLine(file.View(kernel.feeds[file.fd])) == NextLine(old(file.View(kernel.feeds[file.fd])))
    ensures n == 0 ==> kernel.feeds[file.fd] == [] && file.Value() == old(file.Value())
    ensures n != 0 ==> |kernel.feeds[file.fd]| < |old(kernel.feeds)[file.fd]|
  {
    ghost var feed := kernel.feeds[file.fd];
    n := kernel.Read(file.fd, buf);
    if n != 0 {
      assert feed == [buf[..n]] + kernel.feeds[file.fd];
      file.AppendChunk(buf, n, kernel.feeds[file.fd]);
    }
  }

  /** The read loop of read_line: until a newline arrives or a read returns 0. */
  method ReadMore(file: File, kernel: Kernel) returns (n: nat)
    requires file.Valid() && file.fd in kernel.feeds
    requires !HasLine(Held(file.View([])))
    modifies file, kernel
    ensures file.Valid() && OnlyReads(kernel, file.fd)
    ensures NextLine(file.View(kernel.feeds[file.fd])) == NextLine(old(file.View(kernel.feeds[file.fd])))
    ensures n != 0 <==> HasLine(Held(file.View([])))
    ensures n == 0 ==> kernel.feeds[file.fd] == []
  {
    ghost var next := NextLine(file.View(kernel.feeds[file.fd]));
    var buf := new char[BUFF_SIZE + 1];
    n := ReadOnce(file, kernel, buf);
    while n != 0
      invariant file.Valid() && OnlyReads(kernel, file.fd) && buf != file.str
      invariant NextLine(file.View(kernel.feeds[file.fd])) == next
      invariant n == 0 ==> kernel.feeds[file.fd] == [] && !HasLine(Held(file.View([])))
      decreases |kernel.feeds[file.fd]|, n
    {
      var found := file.HoldsLine();
      if found { break; }
      n := ReadOnce(file, kernel, buf);
    }
  }

  /** The end of read_line when a newline is held. */
  method DeliverHeld(file: File, ghost feed: seq<string>) returns (st: Status, line: array?<char>)
    requires file.Valid() && HasLine(Held(file.View([])))
    modifies file
    ensures file.Valid()
    ensures line != null ==> fresh(line)
    ensures Reports(st, line, NextLine(old(file.View(feed))).0)
    ensures file.View(feed) == NextLine(old(file.View(feed))).1
  {
    NextLineHeld(file.View(feed));
    line := file.TrimAndDel();
    st := GotLine;
  }

  /** The end of read_line when the input is exhausted and no newline is held. */
  method DeliverLast(file: File) returns (st: Status, line: array?<char>)
    requires file.Valid() && !HasLine(Held(file.View([])))
    modifies file
    ensures file.Valid()
    ensures line != null ==> fresh(line)
    ensures Reports(st, line, NextLine(old(file.View([]))).0)
    ensures file.View([]) == NextLine(old(file.View([]))).1
  {
    NextLineAtEnd(file.View([]));
    st, line := file.ChecksEof();
  }

  /** read_line: deliver a held line, or read until a newline arrives or the input ends. Of the
      two helpers, trim_and_del is called with a newline held only and checks_eof without one
      only, so the branches for the other cases are never taken. */
  method ReadLine(file: File, kernel: Kernel) returns (st: Status, line: array?<char>)
    requires file.Valid() && file.fd in kernel.feeds
    modifies file, kernel
    ensures file.Valid() && OnlyReads(kernel, file.fd)
    ensures line != null ==> fresh(line)
    ensures Reports(st, line, NextLine(old(file.View(kernel.feeds[file.fd]))).0)
    ensures file.View(kernel.feeds[file.fd]) == NextLine(old(file.View(kernel.feeds[file.fd]))).1
  {
    var held := file.HoldsLine();
    if !held {
      var n := ReadMore(file, kernel);
      if n == 0 {
        st, line := DeliverLast(file);
        return;
      }
    }
    st, line := DeliverHeld(file, kernel.feeds[file.fd]);
  }

  lemma NextLineReads(c: Chan)
    requires !HasLine(Held(c)) && c.feed != []
    ensures NextLine(c) == NextLine(AfterRead(c))
  {
  }

  lemma NextLineHeld(c: Chan)
    requires HasLine(Held(c))
    ensures NextLine(c) == (Line(Until(Held(c), NL)), Chan(Some(AfterNewline(Held(c))), c.feed))
  {
  }

  lemma NextLineAtEnd(c: Chan)
    requires !HasLine(Held(c)) && c.feed == []
    ensures NextLine(c) ==
            if c.held.None? then (NullRead, c)
            else if Held(c) == "" then (End, c)
            else (Line(Held(c)), Chan(Some(""), []))
  {
  }

  /** t_list: a list node. */
  class Node {
    const content: File
    var next: Node?

    /** ft_lstnew on a fresh (fd, NULL) pair. */
    constructor (fd: int)
      ensures next == null && fresh(content) && content.fd == fd && content.str == null
    {
      content := new File(fd);
      next := null;
    }
  }

  /** There is one node, and no second one, for every descriptor in `files`. */
  ghost predicate Indexed(nodes: seq<Node>, files: map<int, File>) {
    && (forall i :: 0 <= i < |nodes| ==>
          nodes[i].content.fd in files && files[nodes[i].content.fd] == nodes[i].content)
    && (forall fd :: fd in files ==> files[fd].fd == fd && exists i :: 0 <= i < |nodes| && nodes[i].content == files[fd])
    && (forall i, j :: 0 <= i < j < |nodes| ==> nodes[i].content.fd != nodes[j].content.fd)
  }

  lemma IndexedPush(nodes: seq<Node>, files: map<int, File>, n: Node)
    requires Indexed(nodes, files) && n.content.fd !in files
    ensures Indexed(nodes + [n], files[n.content.fd := n.content])
  {
    var nodes', files' := nodes + [n], files[n.content.fd := n.content];
    forall fd | fd in files'
      ensures files'[fd].fd == fd && exists i :: 0 <= i < |nodes'| && nodes'[i].content == files'[fd]
    {
      if fd == n.content.fd {
        assert nodes'[|nodes|] == n;
      } else {
        var i :| 0 <= i < |nodes| && nodes[i].content == files[fd];
        assert nodes'[i] == nodes[i];
      }
    }
  }

  lemma OneStep(v: Table, w: Table, fd: int)
    requires fd >= 0 && fd in v && w.Keys == v.Keys && w[fd] == NextLine(v[fd]).1
    requires forall f :: f in v && f != fd ==> w[f] == v[f]
    ensures w == Step(v, fd).1
  {
  }

  /** The list from `begin` on is exactly `nodes`, given from its tail; in particular it has no cycle. */
  ghost predicate Chain(begin: Node?, nodes: seq<Node>)
    reads nodes
  {
    && begin == (if nodes == [] then null else nodes[|nodes| - 1])
    && forall i :: 0 <= i < |nodes| ==> nodes[i].next == if i == 0 then null else nodes[i - 1]
  }

  /** ft_lstadd. */
  lemma ChainPush(begin: Node?, nodes: seq<Node>, n: Node)
    requires Chain(begin, nodes) && n.next == begin
    ensures Chain(n, nodes + [n])
  {
    forall i | 0 <= i < |nodes + [n]|
      ensures (nodes + [n])[i].next == if i == 0 then null else (nodes + [n])[i - 1]
    {
      if i > 0 { assert (nodes + [n])[i - 1] == nodes[i - 1]; }
      if i < |nodes| { assert (nodes + [n])[i] == nodes[i]; } else { assert (nodes + [n])[i] == n; }
    }
  }

  /** get_next_line with its static list. */
  class Reader {
    var begin: Node?
    ghost var nodes: seq<Node>          // the list from its tail to its head
    ghost var files: map<int, File>     // the file of every listed descriptor

    ghost predicate Valid()
      reads this, nodes, files.Values, set f | f in files.Values && f.str != null :: f.str
    {
      Chain(begin, nodes) && Indexed(nodes, files) && forall fd :: fd in files ==> files[fd].Valid()
    }

    constructor ()
      ensures Valid() && nodes == [] && files == map[]
    {
      begin := null;
      nodes := [];
      files := map[];
    }

    /** The text held back for `fd`; None as well when there is no node for it yet. */
    ghost function HeldFor(fd: int): Option<string>
      requires fd in files ==> files[fd].Valid()
      reads this, files.Values, set f | f in files.Values && f.str != null :: f.str
    {
      if fd in files then files[fd].Value() else None
    }

    /** The state of every open descriptor. */
    ghost function View(kernel: Kernel): Table
      requires Valid()
      reads this, nodes, files.Values, kernel, set f | f in files.Values && f.str != null :: f.str
    {
      map fd | fd in kernel.feeds :: Chan(HeldFor(fd), kernel.feeds[fd])
    }

    /** Allocate a node for `fd` and push it on the list head (ft_lstnew, ft_lstadd). */
    method Push(fd: int) returns (curr: Node)
      requires Valid() && fd !in files
      modifies this
      ensures Valid() && fresh(curr) && fresh(curr.content) && curr.content.str == null
      ensures nodes == old(nodes) + [curr] && files == old(files)[fd := curr.content]
    {
      curr := new Node(fd);
      curr.next := begin;
      assert Chain(begin, nodes);
      ChainPush(begin, nodes, curr);
      IndexedPush(nodes, files, curr);
      begin := curr;
      nodes := nodes + [curr];
      files := files[fd := curr.content];
    }

    /** get_the_node: walk the list to the node of `fd`, or push a fresh one. */
    method GetTheNode(fd: int) returns (curr: Node)
      requires Valid()
      modifies this
      ensures Valid() && fd in files && curr.content == files[fd]
      ensures fd in old(files) ==> nodes == old(nodes) && files == old(files)
      ensures fd !in old(files) ==> fresh(curr) && fresh(curr.content) && curr.content.str == null
      ensures fd !in old(files) ==> nodes == old(nodes) + [curr] && files == old(files)[fd := curr.content]
    {
      var tmp := begin;
      ghost var left: nat := |nodes|;
      while tmp != null
        invariant left <= |nodes| && tmp == if left == 0 then null else nodes[left - 1]
        invariant forall i :: left <= i < |nodes| ==> nodes[i].content.fd != fd
        decreases left
      {
        if tmp.content.fd == fd { return tmp; }
        tmp := tmp.next;
        left := left - 1;
      }
      curr := Push(fd);
    }

    /** Reading a line for a listed descriptor is a step on the table of descriptors. */
    method ReadFor(fd: int, file: File, kernel: Kernel) returns (st: Status, line: array?<char>)
      requires Valid() && fd >= 0 && fd in files && files[fd] == file && fd in kernel.feeds
      modifies file, kernel
      ensures Valid()
      ensures line != null ==> fresh(line)
      ensures Reports(st, line, Step(old(View(kernel)), fd).0)
      ensures View(kernel) == Step(old(View(kernel)), fd).1
    {
      ghost var v := View(kernel);
      assert v[fd] == file.View(kernel.feeds[fd]);
      assert forall f :: f in files && f != fd ==> files[f] != file;
      st, line := ReadLine(file, kernel);
      assert forall f :: f in files && f != fd ==> HeldFor(f) == old(HeldFor(f));
      OneStep(v, View(kernel), fd);
    }

    /** get_next_line behind its checks. */
    method ReadOpen(fd: int, kernel: Kernel) returns (st: Status, line: array?<char>)
      requires Valid() && fd >= 0 && fd in kernel.feeds
      modifies this, files.Values, kernel
      ensures Valid()
      ensures forall f :: f in files.Values && f !in old(files.Values) ==> fresh(f)
      ensures line != null ==> fresh(line)
      ensures Reports(st, line, Step(old(View(kernel)), fd).0)
      ensures View(kernel) == Step(old(View(kernel)), fd).1
    {
      var curr := GetTheNode(fd);
      assert View(kernel) == old(View(kernel));
      st, line := ReadFor(fd, curr.content, kernel);
    }

    /** get_next_line: one call is one step on the table of descriptors. `hasPlace` is false
        when the caller gives no place to store the line. Without one, or on a descriptor that is negative
        or not open, the call is refused and changes nothing. */
    method GetNextLine(fd: int, hasPlace: bool, kernel: Kernel) returns (st: Status, line: array?<char>)
      requires Valid()
      modifies this, files.Values, kernel
      ensures Valid()
      ensures forall f :: f in files.Values && f !in old(files.Values) ==> fresh(f)
      ensures line != null ==> fresh(line)
      ensures !hasPlace || fd < 0 || fd !in old(kernel.feeds) ==>
                st == BadCall && line == null && View(kernel) == old(View(kernel))
      ensures hasPlace && fd >= 0 && fd in old(kernel.feeds) ==> Tells(st, line, old(View(kernel))[fd])
      ensures hasPlace ==> Reports(st, line, Step(old(View(kernel)), fd).0)
      ensures hasPlace ==> View(kernel) == Step(old(View(kernel)), fd).1
    {
      if fd < 0 || !hasPlace || fd !in kernel.feeds {
        return BadCall, null;
      }
      st, line := ReadOpen(fd, kernel);
      ReportsTell(st, line, old(View(kernel))[fd]);
    }
  }

  /** Every call so far was told, and still holds, the reply it should have. */
  ghost predicate Told(sts: seq<Status>, lines: seq<array?<char>>, replies: seq<Reply>)
    reads lines
  {
    && |sts| == |lines| <= |replies|
    && forall i :: 0 <= i < |sts| ==> Reports(sts[i], lines[i], replies[i])
  }

  lemma ToldOneMore(sts: seq<Status>, lines: seq<array?<char>>, replies: seq<Reply>, st: Status, line: array?<char>)
    requires Told(sts, lines, replies) && |sts| < |replies|
    requires Reports(st, line, replies[|sts|])
    ensures Told(sts + [st], lines + [line], replies)
  {
  }

  /** A caller's session: one call after another, in any order of descriptors. What it is told,
      and the lines it holds at the end, are the replies of the interleaved run, and it leaves every descriptor
      as that run does. */
  method Session(reader: Reader, kernel: Kernel, calls: seq<int>)
    returns (sts: seq<Status>, lines: seq<array?<char>>)
    requires reader.Valid()
    modifies reader, reader.files.Values, kernel
    ensures reader.Valid() && |sts| == |calls|
    ensures Told(sts, lines, Interleaved(old(reader.View(kernel)), calls))
    ensures reader.View(kernel) == Ran(old(reader.View(kernel)), calls)
    ensures forall k :: 0 <= k < |calls| ==> (sts[k] == BadCall <==> calls[k] < 0 || calls[k] !in old(kernel.feeds))
  {
    ghost var table := reader.View(kernel);
    ghost var replies, end := Interleaved(reader.View(kernel), calls), Ran(reader.View(kernel), calls);
    InterleavedLength(reader.View(kernel), calls);
    sts, lines := [], [];
    for k := 0 to |calls|
      invariant reader.Valid() && |sts| == k && Told(sts, lines, replies)
      invariant forall f :: f in reader.files.Values && f !in old(reader.files.Values) ==> fresh(f)
      invariant replies[k..] == Interleaved(reader.View(kernel), calls[k..])
      invariant Ran(reader.View(kernel), calls[k..]) == end
    {
      NextReply(reader.View(kernel), calls, k, replies);
      NextRan(reader.View(kernel), calls, k);
      var st, line := reader.GetNextLine(calls[k], true, kernel);
      ToldOneMore(sts, lines, replies, st, line);
      sts, lines := sts + [st], lines + [line];
    }
    ToldRefused(table, calls, sts, lines);
  }

  lemma ToldRefused(v: Table, calls: seq<int>, sts: seq<Status>, lines: seq<array?<char>>)
    requires |sts| == |calls| && Told(sts, lines, Interleaved(v, calls))
    ensures forall k :: 0 <= k < |calls| ==> (sts[k] == BadCall <==> calls[k] < 0 || calls[k] !in v)
  {
    forall k | 0 <= k < |calls|
      ensures sts[k] == BadCall <==> calls[k] < 0 || calls[k] !in v
    {
      RefusedIff(v, calls, k);
      assert Reports(sts[k], lines[k], Interleaved(v, calls)[k]);
    }
  }

  lemma NextRan(v: Table, calls: seq<int>, k: nat)
    requires k < |calls|
    ensures Ran(v, calls[k..]) == Ran(Step(v, calls[k]).1, calls[k + 1..])
  {
    assert calls[k..][0] == calls[k] && calls[k..][1..] == calls[k + 1..];
  }

  lemma NextReply(v: Table, calls: seq<int>, k: nat, replies: seq<Reply>)
    requires k < |calls| == |replies| && replies[k..] == Interleaved(v, calls[k..])
    ensures replies[k] == Step(v, calls[k]).0
    ensures replies[k + 1..] == Interleaved(Step(v, calls[k]).1, calls[k + 1..])
  {
    assert replies[k..][0] == replies[k] && replies[k..][1..] == replies[k + 1..];
    assert calls[k..][0] == calls[k] && calls[k..][1..] == calls[k + 1..];
  }
}
