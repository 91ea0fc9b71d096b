/** The command line: which argument is the destination, which the packet length, and what the
    length makes of the packet geometry. */
module Parsing {
  import opened CStrings
  import opened Checksum
  import opened Packets
  import opened Options
  import Numbers

  /** What becomes of a command line. `place` is the index of an argument. */
  datatype Outcome =
    | Usage
    | UnknownHost(name: string)
    | BadLength(text: string, place: nat)
    | TooBig(length: int)
    | Accepted(setup: Setup, place: nat)

  predicate IsFlag(t: string) {
    t == "-I" || t == "--icmp"
  }

  /** Where the first ICMP flag is, or the number of arguments if there is none. */
  function FlagAt(args: seq<string>): (f: nat)
    ensures f <= |args| && (f < |args| ==> IsFlag(args[f]))
    ensures forall i :: 0 <= i < f ==> !IsFlag(args[i])
  {
    if args == [] || IsFlag(args[0]) then 0 else 1 + FlagAt(args[1..])
  }

  /** The arguments without the first flag. */
  function Remaining(args: seq<string>): seq<string> {
    var f := FlagAt(args);
    if f < |args| then args[..f] + args[f + 1..] else args
  }

  /** Where an argument that remains stood to begin with. */
  function Place(args: seq<string>, i: nat): nat {
    if i < FlagAt(args) then i else i + 1
  }

  lemma RemainingAt(args: seq<string>, i: nat)
    requires i < |Remaining(args)|
    ensures Place(args, i) < |args| && Remaining(args)[i] == args[Place(args, i)]
  {
    var f := FlagAt(args);
    if f < |args| {
      var front, back := args[..f], args[f + 1..];
      assert Remaining(args) == front + back;
      assert i < f ==> (front + back)[i] == front[i];
      assert i >= f ==> (front + back)[i] == back[i - f];
    }
  }

  /** One argument taken out of two, or of three, spelled out. */
  lemma RemainingOfTwo(args: seq<string>)
    requires |args| == 2 && FlagAt(args) < 2
    ensures FlagAt(args) == 0 ==> Remaining(args) == [args[1]]
    ensures FlagAt(args) == 1 ==> Remaining(args) == [args[0]]
  {
  }

  lemma RemainingOfThree(args: seq<string>)
    requires |args| == 3 && FlagAt(args) < 3
    ensures FlagAt(args) == 0 ==> Remaining(args) == [args[1], args[2]]
    ensures FlagAt(args) == 1 ==> Remaining(args) == [args[0], args[2]]
    ensures FlagAt(args) == 2 ==> Remaining(args) == [args[0], args[1]]
  {
  }

  predicate AllDigits(t: string) {
    forall i :: 0 <= i < |t| ==> Numbers.IsDigit(t[i])
  }

  datatype Length = Total(size: nat) | Malformed | Excessive(length: int)

  /** The total packet size a length argument asks for: at least the headers, at most MAX_PACKET_SIZE. */
  function Geometry(t: string): Length {
    if !AllDigits(t) then Malformed
    else
      var v := Numbers.Wrap32(Numbers.Value(t));
      if v < 0 then Malformed
      else if v > MAX_PACKET_SIZE then Excessive(v)
      else Total(if v < HEADERS then HEADERS else v)
  }

  /** Without a length argument the packet has 60 bytes. */
  function SizeFor(length: Option<string>): Length {
    match length
    case None => Total(60)
    case Some(t) => Geometry(t)
  }

  /** How the command line is to be understood. With two or three arguments the first ICMP flag is
      taken out; what is left is the destination and, if there is a second one, the length. */
  function Understood(args: seq<string>, hosts: map<string, Address>, host: Host): Outcome {
    if |args| == 1 then
      if args[0] == "--help" then Usage
      else Decided(args[0], 1, None, 0, false, hosts, host)
    else if |args| == 2 || |args| == 3 then
      var rest := Remaining(args);
      var icmp := |rest| < |args|;
      if |rest| == 3 then Usage
      else if |rest| == 2 then Decided(rest[0], Place(args, 0) + 1, Some(rest[1]), Place(args, 1) + 1, icmp, hosts, host)
      else Decided(rest[0], Place(args, 0) + 1, None, 0, icmp, hosts, host)
    else Usage
  }

  function Decided(name: string, at: nat, length: Option<string>, lengthAt: nat, icmp: bool,
                   hosts: map<string, Address>, host: Host): Outcome {
    if name !in hosts then UnknownHost(name)
    else match SizeFor(length)
         case Malformed => BadLength(length.value, lengthAt)
         case Excessive(v) => TooBig(v)
         case Total(size) => Accepted(Setup(host, icmp, size, hosts[name]), at)
  }

  lemma UnderstoodTwo(args: seq<string>, hosts: map<string, Address>, host: Host)
    requires |args| == 2
    ensures Understood(args, hosts, host) ==
            if FlagAt(args) == 0 then Decided(args[1], 2, None, 0, true, hosts, host)
            else if FlagAt(args) == 1 then Decided(args[0], 1, None, 0, true, hosts, host)
            else Decided(args[0], 1, Some(args[1]), 2, false, hosts, host)
  {
    if FlagAt(args) < 2 { RemainingOfTwo(args); }
  }

  lemma UnderstoodThree(args: seq<string>, hosts: map<string, Address>, host: Host)
    requires |args| == 3
    ensures Understood(args, hosts, host) ==
            if FlagAt(args) == 0 then Decided(args[1], 2, Some(args[2]), 3, true, hosts, host)
            else if FlagAt(args) == 1 then Decided(args[0], 1, Some(args[2]), 3, true, hosts, host)
            else if FlagAt(args) == 2 then Decided(args[0], 1, Some(args[1]), 2, true, hosts, host)
            else Usage
  {
    if FlagAt(args) < 3 { RemainingOfThree(args); }
  }

  // ---------------------------------------------------------------- what a length can be

  /** A number of digits that fits an int is accepted exactly up to MAX_PACKET_SIZE, and then the
      payload is what the headers leave. */
  lemma LengthInRange(t: string)
    requires AllDigits(t) && Numbers.Value(t) <= Numbers.INT_MAX
    ensures Geometry(t).Total? <==> Numbers.Value(t) <= MAX_PACKET_SIZE
    ensures Geometry(t).Total? ==> Geometry(t).size == if Numbers.Value(t) < HEADERS then HEADERS else Numbers.Value(t)
  {
  }

  /** Any length is accepted exactly if it consists of digits and its low 32 bits are in range: the
      conversion to int happens before the test. */
  lemma LengthAcceptedIff(t: string)
    ensures Geometry(t).Total? <==> AllDigits(t) && Numbers.Value(t) % 0x1_0000_0000 <= MAX_PACKET_SIZE
  {
    if AllDigits(t) { WrapOfNat(Numbers.Value(t)); }
  }

  lemma WrapOfNat(v: nat)
    ensures Numbers.Wrap32(v) == var r := v % 0x1_0000_0000; if r < 0x8000_0000 then r else r - 0x1_0000_0000
  {
    var q, r := v / 0x1_0000_0000, v % 0x1_0000_0000;
    Numbers.WrapShift(r, q);
  }

  /** So a length too large by any multiple of 2^32 is accepted like the small one. */
  lemma HugeLengthsAccepted(v: nat, k: nat)
    requires v <= MAX_PACKET_SIZE
    ensures Geometry(Numbers.Decimal(v + k * 0x1_0000_0000)) == Total(if v < HEADERS then HEADERS else v)
  {
    var t := Numbers.Decimal(v + k * 0x1_0000_0000);
    Numbers.DecimalReadsBack(v + k * 0x1_0000_0000);
    assert Numbers.Wrap32(v + k * 0x1_0000_0000) == v by { Numbers.WrapShift(v, k); }
    assert AllDigits(t);
  }

  lemma AllDigitsLead(t: string)
    requires AllDigits(t)
    ensures Numbers.Leading(t) == Numbers.Value(t)
  {
    Numbers.SkipBlanksAt(t, 0);
    Numbers.LeadingAt(t, 0);
    Numbers.AllDigits(t);
    assert t != "" ==> Numbers.IsDigit(t[0]);
  }

  // ---------------------------------------------------------------- the program

  /** isNum. */
  method IsNum(arg: array<char>) returns (b: bool)
    requires Terminated(arg)
    ensures b <==> AllDigits(Text(arg))
  {
    var n := StrLen(arg, 0);
    var i := 0;
    while i < n
      invariant 0 <= i <= n && forall k :: 0 <= k < i ==> Numbers.IsDigit(Text(arg)[k])
    {
      if arg[i] < '0' || arg[i] > '9' { return false; }
      i := i + 1;
    }
    b := true;
  }

  /** test_packetlen. */
  method TestPacketlen(plen: array<char>) returns (r: Length)
    requires Terminated(plen)
    ensures r == Geometry(Text(plen))
  {
    var len := Numbers.AtoI(plen);
    var num := IsNum(plen);
    if num { AllDigitsLead(Text(plen)); }
    if !num || len < 0 {
      return Malformed;
    }
    if len > MAX_PACKET_SIZE {
      return Excessive(len);
    }
    r := Total(if len < 28 then 28 else len);
  }

  ghost predicate AllText(argv: seq<array<char>>)
    reads argv
  {
    forall i :: 0 <= i < |argv| ==> Terminated(argv[i])
  }

  /** The texts of the arguments behind the program's name. */
  ghost function Args(argv: seq<array<char>>): (t: seq<string>)
    requires AllText(argv)
    reads argv
    ensures |t| == if argv == [] then 0 else |argv| - 1
    ensures forall i :: 0 <= i < |t| ==> t[i] == Text(argv[i + 1])
  {
    if argv == [] then [] else seq(|argv| - 1, i requires 0 <= i < |argv| - 1 && AllText(argv) reads argv => Text(argv[i + 1]))
  }

  /** Compare an argument with a literal. */
  method Equals(arg: array<char>, lit: string) returns (b: bool)
    requires Terminated(arg) && NUL !in lit
    ensures b <==> Text(arg) == lit
  {
    var l := Block(lit);
    var d := StrCmp(arg, l);
    b := d == 0;
  }

  /** check_icmp_traceroute: the index of the first flag, 0 for none. */
  method CheckIcmpTraceroute(argv: seq<array<char>>) returns (index: nat)
    requires AllText(argv)
    ensures index == if FlagAt(Args(argv)) < |Args(argv)| then FlagAt(Args(argv)) + 1 else 0
  {
    ghost var args := Args(argv);
    var i := 1;
    while i < |argv|
      invariant 1 <= i && (argv != [] ==> i <= |argv|)
      invariant forall k :: 0 <= k < i - 1 && k < |args| ==> !IsFlag(args[k])
    {
      var short := Equals(argv[i], "-I");
      var long := Equals(argv[i], "--icmp");
      if short || long {
        assert IsFlag(args[i - 1]);
        return i;
      }
      assert args[i - 1] == Text(argv[i]);
      i := i + 1;
    }
    index := 0;
  }

  /** test_dest and then test_packetlen, each of which may end the program. */
  method Decide(argv: seq<array<char>>, destAt: nat, lengthAt: nat, icmp: bool,
                hosts: map<string, Address>, host: Host) returns (r: Outcome)
    requires AllText(argv) && 1 <= destAt < |argv| && lengthAt < |argv|
    ensures r == Decided(Text(argv[destAt]), destAt, if lengthAt == 0 then None else Some(Text(argv[lengthAt])), lengthAt,
                         icmp, hosts, host)
  {
    var n := StrLen(argv[destAt], 0);
    var name := argv[destAt][..n];
    if name !in hosts { return UnknownHost(name); }
    var length := Total(60);
    if lengthAt != 0 {
      length := TestPacketlen(argv[lengthAt]);
    }
    match length {
      case Malformed =>
        var m := StrLen(argv[lengthAt], 0);
        r := BadLength(argv[lengthAt][..m], lengthAt);
      case Excessive(v) => r := TooBig(v);
      case Total(size) => r := Accepted(Setup(host, icmp, size, hosts[name]), destAt);
    }
  }

  /** parse_dest with two arguments. */
  method ParseTwo(argv: seq<array<char>>, hosts: map<string, Address>, host: Host) returns (r: Outcome)
    requires AllText(argv) && |argv| == 3
    ensures r == Understood(Args(argv), hosts, host)
  {
    UnderstoodTwo(Args(argv), hosts, host);
    var flag := CheckIcmpTraceroute(argv);
    if flag != 0 {
      var indexDest := if flag == 1 then 2 else 1;
      r := Decide(argv, indexDest, 0, true, hosts, host);
    } else {
      r := Decide(argv, 1, 2, false, hosts, host);
    }
  }

  /** parse_dest with three arguments. */
  method ParseThree(argv: seq<array<char>>, hosts: map<string, Address>, host: Host) returns (r: Outcome)
    requires AllText(argv) && |argv| == 4
    ensures r == Understood(Args(argv), hosts, host)
  {
    ghost var args := Args(argv);
    UnderstoodThree(args, hosts, host);
    assert args[0] == Text(argv[1]) && args[1] == Text(argv[2]) && args[2] == Text(argv[3]);
    var flag := CheckIcmpTraceroute(argv);
    if flag == 0 { return Usage; }
    var indexDest := if flag >= 2 then 1 else 2;
    var indexPacketlen := if flag <= 2 then 3 else 2;
    r := Decide(argv, indexDest, indexPacketlen, true, hosts, host);
  }

  /** parse_dest. Resolving a name is looking it up in `hosts`. */
  method ParseDest(argv: seq<array<char>>, hosts: map<string, Address>, host: Host) returns (r: Outcome)
    requires AllText(argv)
    ensures r == Understood(Args(argv), hosts, host)
  {
    var argc := |argv|;
    if argc == 2 {
      var help := Equals(argv[1], "--help");
      if help { return Usage; }
      r := Decide(argv, 1, 0, false, hosts, host);
    } else if argc == 3 {
      r := ParseTwo(argv, hosts, host);
    } else if argc == 4 {
      r := ParseThree(argv, hosts, host);
    } else {
      r := Usage;
    }
  }

  // ---------------------------------------------------------------- every outcome, and exactly when

  /** The command lines the program goes on with: one to three arguments, three only with a flag among them,
      and not `--help` alone. */
  predicate WellFormed(args: seq<string>) {
    && 1 <= |args| <= 3 && args != ["--help"]
    && (|args| == 3 ==> exists i :: 0 <= i < 3 && (args[i] == "-I" || args[i] == "--icmp"))
  }

  /** The destination, and the length if one is given: what is left, in order, without the first flag. A lone
      argument is the destination whatever it is. */
  function Wanted(args: seq<string>): (r: (string, Option<string>))
    requires WellFormed(args)
  {
    RemainingCount(args);
    if |args| == 1 then (args[0], None)
    else (Remaining(args)[0], if |Remaining(args)| == 1 then None else Some(Remaining(args)[1]))
  }

  lemma RemainingCount(args: seq<string>)
    requires WellFormed(args)
    ensures |args| > 1 ==> 1 <= |Remaining(args)| <= 2
  {
  }

  predicate OnlyDigits(t: string) {
    forall i :: 0 <= i < |t| ==> '0' <= t[i] <= '9'
  }

  /** The low 32 bits of the number a length stands for. */
  function Low32(t: string): nat
    requires OnlyDigits(t)
  {
    Numbers.Value(t) % 0x1_0000_0000
  }

  lemma GeometryIs(t: string)
    ensures Geometry(t).Malformed? <==> !OnlyDigits(t) || Low32(t) >= 0x8000_0000
    ensures Geometry(t).Excessive? <==> OnlyDigits(t) && 65000 < Low32(t) < 0x8000_0000
    ensures Geometry(t).Excessive? ==> Geometry(t).length == Low32(t)
    ensures Geometry(t).Total? ==> Geometry(t).size == if Low32(t) < 28 then 28 else Low32(t)
  {
    assert AllDigits(t) <==> OnlyDigits(t);
    if AllDigits(t) { WrapOfNat(Numbers.Value(t)); }
  }

  lemma UnderstoodIs(args: seq<string>, hosts: map<string, Address>, host: Host)
    returns (at: nat, lengthAt: nat, icmp: bool)
    ensures !WellFormed(args) ==> Understood(args, hosts, host) == Usage
    ensures WellFormed(args) ==>
              Understood(args, hosts, host) == Decided(Wanted(args).0, at, Wanted(args).1, lengthAt, icmp, hosts, host)
    ensures WellFormed(args) && Wanted(args).1.Some? ==>
              0 < lengthAt <= |args| && args[lengthAt - 1] == Wanted(args).1.value
  {
    var f := FlagAt(args);
    at, lengthAt, icmp := 1, 0, false;
    if |args| == 2 {
      UnderstoodTwo(args, hosts, host);
      if f < 2 { RemainingOfTwo(args); }
      at, lengthAt, icmp := if f == 0 then 2 else 1, if f < 2 then 0 else 2, f < 2;
    } else if |args| == 3 {
      UnderstoodThree(args, hosts, host);
      if f < 3 { RemainingOfThree(args); }
      at, lengthAt, icmp := if f == 0 then 2 else 1, if f < 2 then 3 else 2, true;
    }
  }

  /** Each of the five outcomes of a command line, and exactly when it has it. */
  lemma OutcomeIff(args: seq<string>, hosts: map<string, Address>, host: Host)
    ensures var r := Understood(args, hosts, host);
            if !WellFormed(args) then r == Usage
            else
              var (name, length) := Wanted(args);
              if name !in hosts then r == UnknownHost(name)
              else if length.None? then r.Accepted?
              else
                var t := length.value;
                if !OnlyDigits(t) || Low32(t) >= 0x8000_0000 then
                  r.BadLength? && r.text == t && 0 < r.place <= |args| && args[r.place - 1] == t
                else if Low32(t) > 65000 then r == TooBig(Low32(t))
                else r.Accepted?
  {
    var at, lengthAt, icmp := UnderstoodIs(args, hosts, host);
    if WellFormed(args) && Wanted(args).1.Some? { GeometryIs(Wanted(args).1.value); }
  }

  /** Whatever is accepted has a packet the headers fit into and the checksum's counter can hold: 60 bytes unless
      a length asks for another size. Its destination is the one wanted, at the place named. */
  lemma AcceptedIsValid(args: seq<string>, hosts: map<string, Address>, host: Host)
    requires Understood(args, hosts, host).Accepted?
    ensures var r := Understood(args, hosts, host);
            && r.setup.Valid() && r.setup.totalSize <= 2 * 65537 && r.setup.host == host
            && WellFormed(args) && Wanted(args).0 in hosts && r.setup.dest == hosts[Wanted(args).0]
            && 1 <= r.place <= |args| && args[r.place - 1] == Wanted(args).0
            && (r.setup.icmp <==> |args| > 1 && exists i :: 0 <= i < |args| && (args[i] == "-I" || args[i] == "--icmp"))
            && (Wanted(args).1.None? ==> r.setup.totalSize == 60)
            && (Wanted(args).1.Some? ==>
                  (var t := Wanted(args).1.value;
                   OnlyDigits(t) && r.setup.totalSize == if Low32(t) < 28 then 28 else Low32(t)))
  {
    OutcomeIff(args, hosts, host);
    if |args| > 1 { RemainingAt(args, 0); }
    if Wanted(args).1.Some? { GeometryIs(Wanted(args).1.value); }
  }
}
