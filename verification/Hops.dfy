/** The tracer: global state, one hop at a time, until the destination answers or the hops run
    out. Every pointer in the state is accounted for against the heap. */
module Hops {
  import opened CStrings
  import opened Checksum
  import opened Packets
  import opened Addresses
  import opened HopSpec
  import opened Options

  // ---------------------------------------------------------------- the heap

  /** The places in the program's state that hold a pointer to an allocated block. */
  datatype Slot = PacketAt(i: int) | DatagramAt(i: int) | IpAt(i: int) | DnsAt(i: int) | Network | DestIp | InputDest

  /** What malloc has given out and free has taken back. */
  class Heap {
    ghost var given: set<object>        // every block malloc ever handed out
    ghost var home: map<object, Slot>   // the live blocks, and the place each is kept
    ghost var freed: set<object>        // the blocks that were freed

    /** What was handed out is what is live and what is freed, and no block is both. */
    ghost predicate Valid()
      reads this
    {
      && (forall o :: o in home ==> o in given && o !in freed)
      && (forall o :: o in freed ==> o in given)
      && (forall o :: o in given ==> o in home || o in freed)
    }

    /** A pointer is NULL or to a live block kept in its own place. */
    ghost predicate Has(o: object?, slot: Slot)
      reads this
    {
      o != null ==> o in home && home[o] == slot
    }

    constructor ()
      ensures Valid() && home == map[] && freed == {}
    {
      given, home, freed := {}, map[], {};
    }

    /** malloc, for a block about to be kept in `slot`. */
    ghost method Malloc(o: object, slot: Slot)
      requires Valid() && o !in given
      modifies this
      ensures Valid() && given == old(given) + {o} && home == old(home)[o := slot] && freed == old(freed)
    {
      given, home := given + {o}, home[o := slot];
    }

    /** free. Only a live block may be freed, so none is freed twice. */
    ghost method Free(o: object)
      requires Valid() && o in home
      modifies this
      ensures Valid() && given == old(given) && home == old(home) - {o}
      ensures freed == old(freed) + {o} && |freed| == old(|freed|) + 1
    {
      home, freed := home - {o}, freed + {o};
    }
  }

  /** The given blocks and the one a pointer is to, if any; and the number it counts for. */
  ghost function Plus(blocks: set<object>, p: object?): set<object> {
    if p == null then blocks else blocks + {p}
  }

  ghost function One(p: object?): nat {
    if p == null then 0 else 1
  }

  /** ft_strdup of a buffer the operating system has filled with the given string. */
  method Duplicate(s: string) returns (r: array<char>)
    requires NUL !in s
    ensures fresh(r) && Terminated(r) && Text(r) == s
  {
    var buff := Block(s);
    r := StrDup(buff, 0);
  }

  /** struct sockaddr_in. */
  class SockAddr {
    var addr: Address

    constructor (a: Address)
      ensures addr == a
    {
      addr := a;
    }
  }

  // ---------------------------------------------------------------- the tracer

  class Tracer {
    const setup: Setup
    const heap: Heap
    const destIp: array<char>
    const inputDest: array<char>
    const networkIp: SockAddr

    var ttl: nat
    var alive: bool
    var sendpack: seq<array?<Byte>>
    var retpack: seq<array?<Byte>>
    var recieved: seq<bool>
    var resIps: seq<array?<char>>
    var resDns: seq<array?<char>>
    var sent: seq<Datagram>     // what was handed to sendto
    var out: seq<Item>          // what was printed

    ghost predicate Tables()
      reads this`sendpack, this`retpack, this`resIps, this`resDns, this`recieved
    {
      |sendpack| == PROBES && |retpack| == PROBES && |recieved| == PROBES && |resIps| == PROBES && |resDns| == PROBES
    }

    /** The pointer in the given place. */
    ghost function At(slot: Slot): object?
      reads this`sendpack, this`retpack, this`resIps, this`resDns
    {
      match slot
      case PacketAt(i) => if 0 <= i < |sendpack| then sendpack[i] else null
      case DatagramAt(i) => if 0 <= i < |retpack| then retpack[i] else null
      case IpAt(i) => if 0 <= i < |resIps| then resIps[i] else null
      case DnsAt(i) => if 0 <= i < |resDns| then resDns[i] else null
      case Network => networkIp
      case DestIp => destIp
      case InputDest => inputDest
    }

    /** Every pointer in the state is to a live block, every live block is kept in exactly one
        place, and no two places share one. */
    ghost predicate Accounted()
      reads this`sendpack, this`retpack, this`resIps, this`resDns, heap
    {
      && heap.Valid()
      && (forall o :: o in heap.home ==> At(heap.home[o]) == o)
      && (forall s: Slot :: heap.Has(At(s), s))
    }

    /** What holds at every step. */
    ghost predicate Valid()
      reads this`sendpack, this`retpack, this`resIps, this`resDns, this`recieved, heap
    {
      Tables() && Accounted()
    }

    /** destIp is the printed form of the destination. */
    ghost predicate Named()
      reads destIp
    {
      Terminated(destIp) && Text(destIp) == Dotted(setup.dest)
    }

    /** No per-probe pointer is left over. */
    ghost predicate Cleared()
      reads this`sendpack, this`retpack, this`resIps, this`resDns, this`recieved
    {
      Tables() && forall i :: 0 <= i < PROBES ==> retpack[i] == null && resIps[i] == null && resDns[i] == null
    }

    /** There are three packets. (By `Accounted` they are three different blocks.) */
    ghost predicate Loaded()
      reads this`sendpack, sendpack
    {
      |sendpack| == PROBES && forall i :: 0 <= i < PROBES ==> sendpack[i] != null && sendpack[i].Length >= HEADERS
    }

    /** The bytes of the three packets. */
    ghost function Packets(): PacketRow
      requires Loaded()
      reads this`sendpack, sendpack
    {
      [sendpack[0][..], sendpack[1][..], sendpack[2][..]]
    }

    lemma PacketsDiffer()
      requires Valid() && Loaded()
      ensures forall i, j :: 0 <= i < j < PROBES ==> sendpack[i] != sendpack[j]
    {
      forall i, j | 0 <= i < j < PROBES
        ensures sendpack[i] != sendpack[j]
      {
        assert heap.Has(At(PacketAt(i)), PacketAt(i)) && heap.Has(At(PacketAt(j)), PacketAt(j));
      }
    }

    /** Only the pointer in one place may have changed. */
    twostate predicate OnlyAt(slot: Slot)
      reads this`sendpack, this`retpack, this`resIps, this`resDns, this`recieved
    {
      && old(Tables()) && Tables()
      && (forall i :: 0 <= i < PROBES && slot != PacketAt(i) ==> sendpack[i] == old(sendpack)[i])
      && (forall i :: 0 <= i < PROBES && slot != DatagramAt(i) ==> retpack[i] == old(retpack)[i])
      && (forall i :: 0 <= i < PROBES && slot != IpAt(i) ==> resIps[i] == old(resIps)[i])
      && (forall i :: 0 <= i < PROBES && slot != DnsAt(i) ==> resDns[i] == old(resDns)[i])
    }

    twostate lemma Elsewhere(slot: Slot)
      requires OnlyAt(slot)
      ensures forall s: Slot :: s != slot ==> At(s) == old(At(s))
    {
    }

    /** A place filled with a block just allocated, or emptied and its block freed: everything is
        accounted for as before. */
    twostate lemma Filled(slot: Slot, new p: object)
      requires old(Accounted()) && heap.Valid() && old(At(slot)) == null && At(slot) == p && p !in old(heap.home)
      requires OnlyAt(slot)
      requires heap.home == old(heap.home)[p := slot]
      ensures Accounted()
    {
      Elsewhere(slot);
      forall s: Slot
        ensures heap.Has(At(s), s)
      {
        if s != slot { assert old(heap.Has(At(s), s)); }
      }
    }

    twostate lemma Emptied(slot: Slot)
      requires old(Accounted()) && heap.Valid() && old(At(slot)) != null && At(slot) == null
      requires OnlyAt(slot)
      requires heap.home == old(heap.home) - {old(At(slot))}
      ensures Accounted()
    {
      Elsewhere(slot);
      forall s: Slot
        ensures heap.Has(At(s), s)
      {
        if s != slot { assert old(heap.Has(At(s), s)); }
      }
    }

    /** init_data: the state before the first hop, around the blocks test_dest has allocated. */
    constructor (setup: Setup, mem: Heap, inp: array<char>, dst: array<char>, ip: SockAddr)
      requires mem.Valid() && mem.freed == {} && inp != dst
      requires mem.home.Keys == {inp, dst, ip}
      requires mem.home[inp] == InputDest && mem.home[dst] == DestIp && mem.home[ip] == Network
      requires Terminated(dst) && Text(dst) == Dotted(setup.dest) && ip.addr == setup.dest
      ensures Valid() && Cleared() && Named() && this.setup == setup && ttl == 1
      ensures heap == mem && networkIp == ip && inputDest == inp && destIp == dst
      ensures sendpack == [null, null, null]
      ensures sent == [] && out == []
    {
      this.setup := setup;
      inputDest, destIp, networkIp, heap := inp, dst, ip, mem;
      ttl, alive := 1, false;
      sendpack, retpack, resIps, resDns := [null, null, null], [null, null, null], [null, null, null], [null, null, null];
      recieved := [false, false, false];
      sent, out := [], [];
      new;
      assert forall i :: 0 <= i < PROBES ==> sendpack[i] == null;
      forall s: Slot
        ensures heap.Has(At(s), s)
      {
        if s != DestIp && s != InputDest && s != Network { assert At(s) == null; }
      }
    }

    /** send_packet. */
    method SendPacket(i: nat)
      requires Valid() && i < PROBES && sendpack[i] != null
      modifies this`sent
      ensures sent == old(sent) + [Datagram(sendpack[i][..], networkIp.addr)]
    {
      sent := sent + [Datagram(sendpack[i][..], networkIp.addr)];
    }

    /** The contents of the per-probe tables. */
    ghost function Datagrams(): seq<Option<seq<Byte>>>
      requires |retpack| == PROBES
      reads this`retpack, retpack
    {
      [Bytes(retpack[0]), Bytes(retpack[1]), Bytes(retpack[2])]
    }

    /** Put a block just allocated into the table of datagrams. */
    method FileDatagram(i: nat, r: array<Byte>)
      requires Valid() && i < PROBES && retpack[i] == null && r !in heap.given
      modifies this`retpack, heap
      ensures Valid() && retpack == old(retpack)[i := r] && heap.freed == old(heap.freed)
    {
      heap.Malloc(r, DatagramAt(i));
      retpack := retpack[i := r];
      Filled(DatagramAt(i), r);
    }

    /** Keep a copy of a datagram in the table. */
    method KeepDatagram(i: nat, bytes: seq<Byte>) returns (r: array<Byte>)
      requires Valid() && i < PROBES && retpack[i] == null
      modifies this`retpack, heap
      ensures Valid() && r[..] == bytes && heap.freed == old(heap.freed)
      ensures Datagrams() == old(Datagrams())[i := Some(bytes)]
    {
      r := new Byte[|bytes|](k requires 0 <= k < |bytes| => bytes[k]);
      assert r[..] == bytes;
      FileDatagram(i, r);
    }

    /** recieve_packet: record the datagram, if one comes in time. The socket layer puts the
        sender's address into networkIp. */
    method RecievePacket(i: nat, a: Answer) returns (b: bool)
      requires Valid() && i < PROBES && retpack[i] == null
      modifies this`retpack, this`alive, networkIp, heap
      ensures Valid() && b == a.Reply? && heap.freed == old(heap.freed)
      ensures networkIp.addr == if a.Reply? then a.from else old(networkIp.addr)
      ensures Datagrams() == if a.Reply? then old(Datagrams())[i := Some(a.bytes)] else old(Datagrams())
      ensures alive == (old(alive) && !Echoed(setup, a))
    {
      if a.Timeout? {
        retpack := retpack[i := null];
        assert retpack == old(retpack);
        return false;
      }
      networkIp.addr := a.from;
      var r := KeepDatagram(i, a.bytes);
      assert r[IP_HEADER] == a.bytes[IP_HEADER];
      if setup.icmp && r[IP_HEADER] == 0 {
        alive := false;
      }
      return true;
    }

    /** The part of the state that sending and receiving changes. */
    ghost function Phase(): Phase
      requires |retpack| == PROBES
      reads this, retpack, networkIp
    {
      HopSpec.Phase(networkIp.addr, sent, alive, recieved, Datagrams())
    }

    /** One round of send_recieve: send probe `i`, wait, record. */
    method SendRecieveOne(i: nat, a: Answer)
      requires Valid() && i < PROBES && sendpack[i] != null && retpack[i] == null
      modifies this`sent, this`retpack, this`recieved, this`alive, networkIp, heap
      ensures Valid() && Phase() == ProbeStep(setup, sendpack[i][..], a, i, old(Phase()))
      ensures heap.freed == old(heap.freed)
    {
      SendPacket(i);
      var got := RecievePacket(i, a);
      recieved := recieved[i := got];
    }

    /** The loop of send_recieve. */
    method SendRecieveAll(answers: seq<Answer>)
      requires Valid() && Cleared() && PROBES == |answers|
      requires Loaded()
      requires recieved == Flags(answers, 0) && Datagrams() == Stored(answers, 0)
      modifies this`sent, this`retpack, this`recieved, this`alive, networkIp, heap
      ensures Valid() && Phase() == Probed(setup, Packets(), answers, PROBES, old(Phase()))
      ensures heap.freed == old(heap.freed)
    {
      ghost var packs, start := Packets(), Phase();
      for i := 0 to PROBES
        invariant Valid() && Phase() == Probed(setup, packs, answers, i, start) && heap.freed == old(heap.freed)
      {
        ProbedIs(setup, packs, answers, i, start);
        assert Datagrams()[i] == Stored(answers, i)[i];
        SendRecieveOne(i, answers[i]);
      }
    }

    /** send_recieve: the three probes of a hop. */
    method SendRecieve(answers: seq<Answer>)
      requires Valid() && Cleared() && PROBES == |answers|
      requires Loaded()
      modifies this`sent, this`retpack, this`recieved, this`alive, networkIp, heap
      ensures Valid() && heap.freed == old(heap.freed)
      ensures networkIp.addr == Aim(old(networkIp.addr), answers)
      ensures sent == old(sent) + HopDatagrams(Packets(), old(networkIp.addr), answers, PROBES)
      ensures alive <==> old(alive) && forall i :: 0 <= i < PROBES ==> !Echoed(setup, answers[i])
      ensures recieved == Flags(answers, PROBES) && Datagrams() == Stored(answers, PROBES)
    {
      recieved := [false, false, false];
      assert recieved == Flags(answers, 0) && Datagrams() == Stored(answers, 0);
      ghost var start := Phase();
      SendRecieveAll(answers);
      ProbedIs(setup, Packets(), answers, PROBES, start);
      assert answers[..PROBES] == answers;
    }

    // -------------------------------------------------------------- output

    /** Put a block just allocated into the table of addresses. */
    method FileIp(i: nat, r: array<char>)
      requires Valid() && i < PROBES && resIps[i] == null && r !in heap.given
      modifies this`resIps, heap
      ensures Valid() && resIps == old(resIps)[i := r] && heap.freed == old(heap.freed)
    {
      heap.Malloc(r, IpAt(i));
      resIps := resIps[i := r];
      Filled(IpAt(i), r);
    }

    /** Put a block just allocated into the table of names. */
    method FileDns(i: nat, r: array<char>)
      requires Valid() && i < PROBES && resDns[i] == null && r !in heap.given
      modifies this`resDns, heap
      ensures Valid() && resDns == old(resDns)[i := r] && heap.freed == old(heap.freed)
    {
      heap.Malloc(r, DnsAt(i));
      resDns := resDns[i := r];
      Filled(DnsAt(i), r);
    }

    ghost function IpTexts(): seq<Option<string>>
      requires |resIps| == PROBES
      reads this`resIps, resIps
    {
      [Chars(resIps[0]), Chars(resIps[1]), Chars(resIps[2])]
    }

    ghost function DnsTexts(): seq<Option<string>>
      requires |resDns| == PROBES
      reads this`resDns, resDns
    {
      [Chars(resDns[0]), Chars(resDns[1]), Chars(resDns[2])]
    }

    /** Every address and name in the tables is a proper string. */
    ghost predicate Strings()
      requires Tables()
      reads this`sendpack, this`retpack, this`resIps, this`resDns, this`recieved, resIps, resDns
    {
      forall i :: 0 <= i < PROBES ==>
        (resIps[i] != null ==> Terminated(resIps[i])) && (resDns[i] != null ==> Terminated(resDns[i]))
    }

    /** Keep a copy of a name. */
    method KeepDns(i: nat, name: string)
      requires Valid() && Strings() && i < PROBES && resDns[i] == null && NUL !in name
      modifies this`resDns, heap
      ensures Valid() && Strings() && DnsTexts() == old(DnsTexts())[i := Some(name)] && heap.freed == old(heap.freed)
    {
      var r := Duplicate(name);
      assert Chars(r) == Some(name);
      FileDns(i, r);
    }

    /** Keep a copy of a printed address. */
    method KeepIp(i: nat, text: string)
      requires Valid() && Strings() && i < PROBES && resIps[i] == null && NUL !in text
      modifies this`resIps, heap
      ensures Valid() && Strings() && IpTexts() == old(IpTexts())[i := Some(text)] && heap.freed == old(heap.freed)
    {
      var r := Duplicate(text);
      assert Chars(r) == Some(text);
      FileIp(i, r);
    }

    /** get_address: the name found for the sender, if any, and the printed form of its address. */
    method GetAddress(i: nat, dns: Option<string>)
      requires Valid() && Strings() && i < PROBES && resIps[i] == null && resDns[i] == null
      requires retpack[i] != null && retpack[i].Length >= HEADERS && (dns.Some? ==> NUL !in dns.value)
      modifies this`resIps, this`resDns, heap
      ensures Valid() && Strings() && heap.freed == old(heap.freed)
      ensures IpTexts() == old(IpTexts())[i := Some(Dotted(retpack[i][12..16]))]
      ensures DnsTexts() == old(DnsTexts())[i := dns]
    {
      if dns.Some? {
        KeepDns(i, dns.value);
      } else {
        assert DnsTexts()[i := dns] == DnsTexts();
      }
      DottedIsText(retpack[i][12..16]);
      KeepIp(i, Dotted(retpack[i][12..16]));
    }

    /** The tables hold what the first `n` printed probes put there, and all datagrams. */
    ghost predicate Looked(answers: seq<Answer>, n: nat)
      requires |answers| == PROBES
      reads this`sendpack, this`retpack, this`resIps, this`resDns, this`recieved, retpack, resIps, resDns
    {
      && Tables() && Strings()
      && recieved == Flags(answers, PROBES) && Datagrams() == Stored(answers, PROBES)
      && IpTexts() == Ips(answers, n) && DnsTexts() == Names(answers, n)
    }

    lemma NothingLooked(answers: seq<Answer>)
      requires |answers| == PROBES && Tables()
      requires recieved == Flags(answers, PROBES) && Datagrams() == Stored(answers, PROBES)
      requires forall i :: 0 <= i < PROBES ==> resIps[i] == null && resDns[i] == null
      ensures Looked(answers, 0)
    {
    }

    /** get_address for a recorded answer. */
    method LookUp(i: nat, answers: seq<Answer>)
      requires Valid() && i < PROBES == |answers| && answers[i].Reply? && Looked(answers, i)
      modifies this`resIps, this`resDns, heap
      ensures Valid() && Looked(answers, i + 1) && heap.freed == old(heap.freed)
    {
      assert IpTexts()[i] == None && DnsTexts()[i] == None;
      assert Datagrams()[i] == Some(answers[i].bytes);
      assert retpack[i][..] == answers[i].bytes && retpack[i][12..16] == Source(answers[i]);
      GetAddress(i, answers[i].dns);
      LookedStep(answers, i);
    }

    /** Was the probe before answered too, with the same printed address? The strings compared are
        never NULL: an answered probe has one. */
    method RepeatsAddress(i: nat, answers: seq<Answer>) returns (same: bool)
      requires Valid() && i < PROBES == |answers| && Looked(answers, i + 1) && answers[i].Reply?
      ensures same <==> i > 0 && recieved[i - 1] && IpTexts()[i - 1] == IpTexts()[i]
      ensures same <==> Printed(answers, i) == Again
    {
      if i == 0 || !recieved[i - 1] { return false; }
      assert IpTexts()[i] == Origin(answers[i]) && IpTexts()[i - 1] == Origin(answers[i - 1]);
      var d := StrCmp(resIps[i], resIps[i - 1]);
      DottedInjective(Source(answers[i]), Source(answers[i - 1]));
      return d == 0;
    }

    /** Is a probe's printed address that of the destination? */
    method AtDestination(i: nat, answers: seq<Answer>) returns (same: bool)
      requires Valid() && Named() && i < PROBES == |answers| && Looked(answers, i + 1) && answers[i].Reply?
      ensures same <==> FromDest(setup, answers[i])
    {
      assert IpTexts()[i] == Origin(answers[i]);
      var d := StrCmp(destIp, resIps[i]);
      DottedInjective(setup.dest, Source(answers[i]));
      return d == 0;
    }

    /** The name and address printed for a probe. */
    method Show(i: nat, answers: seq<Answer>) returns (item: Item)
      requires Valid() && i < PROBES == |answers| && Looked(answers, i + 1) && answers[i].Reply?
      ensures item == Shown(if answers[i].dns.Some? then answers[i].dns.value else Dotted(Source(answers[i])),
                            Dotted(Source(answers[i])))
    {
      assert IpTexts()[i] == Origin(answers[i]) && DnsTexts()[i] == answers[i].dns;
      var target := if resDns[i] == null then resIps[i] else resDns[i];
      var n := StrLen(target, 0);
      var m := StrLen(resIps[i], 0);
      item := Shown(target[..n], resIps[i][..m]);
    }

    /** print_route: a time alone if the address is that of the answer just before; otherwise the
        name and address too, and then the destination is looked for. */
    method PrintRoute(i: nat, answers: seq<Answer>)
      requires Valid() && Named() && i < PROBES == |answers| && Looked(answers, i) && answers[i].Reply?
      modifies this`resIps, this`resDns, this`out, this`alive, heap
      ensures Valid() && Looked(answers, i + 1) && out == old(out) + [Printed(answers, i)]
      ensures heap.freed == old(heap.freed)
      ensures alive == (old(alive) && (Printed(answers, i).Again? || !FromDest(setup, answers[i])))
    {
      LookUp(i, answers);
      PrintLooked(i, answers);
    }

    /** print_route after get_address. */
    method PrintLooked(i: nat, answers: seq<Answer>)
      requires Valid() && Named() && i < PROBES == |answers| && Looked(answers, i + 1) && answers[i].Reply?
      modifies this`out, this`alive
      ensures out == old(out) + [Printed(answers, i)]
      ensures alive == (old(alive) && (Printed(answers, i).Again? || !FromDest(setup, answers[i])))
    {
      var same := RepeatsAddress(i, answers);
      if same {
        out := out + [Again];
      } else {
        PrintShown(i, answers);
      }
    }

    /** print_route for an address not printed just before. */
    method PrintShown(i: nat, answers: seq<Answer>)
      requires Valid() && Named() && i < PROBES == |answers| && Looked(answers, i + 1) && answers[i].Reply?
      modifies this`out, this`alive
      ensures out == old(out) + [Shown(if answers[i].dns.Some? then answers[i].dns.value else Dotted(Source(answers[i])),
                                       Dotted(Source(answers[i])))]
      ensures alive == (old(alive) && !FromDest(setup, answers[i]))
    {
      var item := Show(i, answers);
      out := out + [item];
      var arrived := AtDestination(i, answers);
      if arrived {
        alive := false;
      }
    }

    /** print_probe_data. */
    method PrintProbeData(i: nat, answers: seq<Answer>)
      requires Valid() && Named() && i < PROBES == |answers| && Looked(answers, i)
      modifies this`resIps, this`resDns, this`out, this`alive, heap
      ensures Valid() && Looked(answers, i + 1) && out == old(out) + [Printed(answers, i)]
      ensures heap.freed == old(heap.freed)
      ensures alive == (old(alive) && (Printed(answers, i).Again? || !FromDest(setup, answers[i])))
    {
      if !recieved[i] {
        LookedStep(answers, i);
        out := out + [Star];
      } else {
        PrintRoute(i, answers);
      }
    }

    /** print_probes_output: the whole row; the run goes on exactly if no answer came from the
        destination. Leaving out the comparison for a repeated address misses nothing. */
    method PrintProbesOutput(answers: seq<Answer>)
      requires Valid() && Named() && PROBES == |answers| && Looked(answers, 0)
      modifies this`resIps, this`resDns, this`out, this`alive, heap
      ensures Valid() && Looked(answers, PROBES) && out == old(out) + Row(answers, PROBES)
      ensures heap.freed == old(heap.freed)
      ensures alive == (old(alive) && NoneFromDest(setup, answers, PROBES))
    {
      for i := 0 to PROBES
        invariant Valid() && Looked(answers, i) && out == old(out) + Row(answers, i) && heap.freed == old(heap.freed)
        invariant alive == (old(alive) && NoneFromDest(setup, answers, i))
      {
        RepeatsHideNothing(setup, answers, i);
        RowGrows(old(out), answers, i);
        PrintProbeData(i, answers);
      }
    }

    // -------------------------------------------------------------- freeing

    /** Free a datagram and forget the pointer. */
    method FreeDatagram(i: nat)
      requires Valid() && i < PROBES
      modifies this`retpack, heap
      ensures Valid() && retpack == old(retpack)[i := null]
      ensures heap.freed == old(Plus(heap.freed, retpack[i])) && |heap.freed| == old(|heap.freed| + One(retpack[i]))
    {
      if retpack[i] != null {
        assert heap.Has(At(DatagramAt(i)), DatagramAt(i));
        heap.Free(retpack[i]);
        retpack := retpack[i := null];
        Emptied(DatagramAt(i));
      } else {
        assert retpack[i := null] == retpack;
      }
    }

    /** Free an address and forget the pointer. */
    method FreeIp(i: nat)
      requires Valid() && i < PROBES
      modifies this`resIps, heap
      ensures Valid() && resIps == old(resIps)[i := null]
      ensures heap.freed == old(Plus(heap.freed, resIps[i])) && |heap.freed| == old(|heap.freed| + One(resIps[i]))
    {
      if resIps[i] != null {
        assert heap.Has(At(IpAt(i)), IpAt(i));
        heap.Free(resIps[i]);
        resIps := resIps[i := null];
        Emptied(IpAt(i));
      } else {
        assert resIps[i := null] == resIps;
      }
    }

    /** Free a name and forget the pointer. */
    method FreeDns(i: nat)
      requires Valid() && i < PROBES
      modifies this`resDns, heap
      ensures Valid() && resDns == old(resDns)[i := null]
      ensures heap.freed == old(Plus(heap.freed, resDns[i])) && |heap.freed| == old(|heap.freed| + One(resDns[i]))
    {
      if resDns[i] != null {
        assert heap.Has(At(DnsAt(i)), DnsAt(i));
        heap.Free(resDns[i]);
        resDns := resDns[i := null];
        Emptied(DnsAt(i));
      } else {
        assert resDns[i := null] == resDns;
      }
    }

    /** Free a probe packet and forget the pointer. */
    method FreePacket(i: nat)
      requires Valid() && i < PROBES
      modifies this`sendpack, heap
      ensures Valid() && sendpack == old(sendpack)[i := null]
      ensures heap.freed == old(Plus(heap.freed, sendpack[i])) && |heap.freed| == old(|heap.freed| + One(sendpack[i]))
    {
      if sendpack[i] != null {
        assert heap.Has(At(PacketAt(i)), PacketAt(i));
        heap.Free(sendpack[i]);
        sendpack := sendpack[i := null];
        Emptied(PacketAt(i));
      } else {
        assert sendpack[i := null] == sendpack;
      }
    }

    /** The given blocks and those of the first `n` probes, and the number of the latter. */
    ghost function WithProbes(blocks: set<object>, n: nat): set<object>
      requires Tables() && n <= PROBES
      reads this`sendpack, this`retpack, this`resIps, this`resDns, this`recieved
    {
      if n == 0 then blocks
      else Plus(Plus(Plus(WithProbes(blocks, n - 1), retpack[n - 1]), resIps[n - 1]), resDns[n - 1])
    }

    ghost function ProbeCount(n: nat): nat
      requires Tables() && n <= PROBES
      reads this`sendpack, this`retpack, this`resIps, this`resDns, this`recieved
    {
      if n == 0 then 0
      else ProbeCount(n - 1) + One(retpack[n - 1]) + One(resIps[n - 1]) + One(resDns[n - 1])
    }

    /** The three blocks of one probe. */
    method FreeProbe(i: nat)
      requires Valid() && i < PROBES
      modifies this`retpack, this`resIps, this`resDns, heap
      ensures Valid()
      ensures retpack == old(retpack)[i := null] && resIps == old(resIps)[i := null] && resDns == old(resDns)[i := null]
      ensures heap.freed == old(Plus(Plus(Plus(heap.freed, retpack[i]), resIps[i]), resDns[i]))
      ensures |heap.freed| == old(|heap.freed| + One(retpack[i]) + One(resIps[i]) + One(resDns[i]))
    {
      FreeDatagram(i);
      FreeIp(i);
      FreeDns(i);
    }

    /** free_probes_data: every block of the per-probe tables is freed, and nothing else. */
    method FreeProbesData()
      requires Valid()
      modifies this`retpack, this`resIps, this`resDns, heap
      ensures Valid() && Cleared()
      ensures heap.freed == old(WithProbes(heap.freed, PROBES))
      ensures |heap.freed| == old(|heap.freed| + ProbeCount(PROBES))
    {
      for i := 0 to PROBES
        invariant Valid()
        invariant forall k :: 0 <= k < PROBES ==> retpack[k] == if k < i then null else old(retpack)[k]
        invariant forall k :: 0 <= k < PROBES ==> resIps[k] == if k < i then null else old(resIps)[k]
        invariant forall k :: 0 <= k < PROBES ==> resDns[k] == if k < i then null else old(resDns)[k]
        invariant heap.freed == old(WithProbes(heap.freed, i)) && |heap.freed| == old(|heap.freed| + ProbeCount(i))
      {
        FreeProbe(i);
      }
    }

    /** The given blocks, those of the first `n` packets and of any datagrams beside them. */
    ghost function WithPackets(blocks: set<object>, n: nat): set<object>
      requires Tables() && n <= PROBES
      reads this`sendpack, this`retpack, this`resIps, this`resDns, this`recieved
    {
      if n == 0 then blocks else Plus(Plus(WithPackets(blocks, n - 1), sendpack[n - 1]), retpack[n - 1])
    }

    ghost function PacketCount(n: nat): nat
      requires Tables() && n <= PROBES
      reads this`sendpack, this`retpack, this`resIps, this`resDns, this`recieved
    {
      if n == 0 then 0 else PacketCount(n - 1) + One(sendpack[n - 1]) + One(retpack[n - 1])
    }

    /** Which blocks are live once the packets and datagrams are gone. */
    lemma LiveThen()
      requires Valid() && forall i :: 0 <= i < PROBES ==> sendpack[i] == null && retpack[i] == null
      ensures forall o: object :: o in heap.home <==>
                o == networkIp || o == destIp || o == inputDest || o in resIps || o in resDns
    {
      assert heap.Has(At(Network), Network) && heap.Has(At(DestIp), DestIp) && heap.Has(At(InputDest), InputDest);
      forall i | 0 <= i < PROBES
        ensures heap.Has(resIps[i], IpAt(i)) && heap.Has(resDns[i], DnsAt(i))
      {
        assert At(IpAt(i)) == resIps[i] && At(DnsAt(i)) == resDns[i];
      }
      forall o | o in heap.home
        ensures o == networkIp || o == destIp || o == inputDest || o in resIps || o in resDns
      {
        assert At(heap.home[o]) == o;
      }
    }

    /** The loop of free_sendpackets_data. */
    method FreePackets()
      requires Valid()
      modifies this`sendpack, this`retpack, heap
      ensures Valid() && forall i :: 0 <= i < PROBES ==> sendpack[i] == null && retpack[i] == null
      ensures heap.freed == old(WithPackets(heap.freed, PROBES))
      ensures |heap.freed| == old(|heap.freed| + PacketCount(PROBES))
    {
      for i := 0 to PROBES
        invariant Valid()
        invariant forall k :: 0 <= k < PROBES ==> sendpack[k] == if k < i then null else old(sendpack)[k]
        invariant forall k :: 0 <= k < PROBES ==> retpack[k] == if k < i then null else old(retpack)[k]
        invariant heap.freed == old(WithPackets(heap.freed, i)) && |heap.freed| == old(|heap.freed| + PacketCount(i))
      {
        FreePacket(i);
        FreeDatagram(i);
      }
    }

    /** free_sendpackets_data: the packets, any datagrams left over and the address record are freed. What is
        live then is the two strings test_dest made, and the addresses and names still in their tables. */
    method FreeSendpacketsData()
      requires Valid()
      modifies this`sendpack, this`retpack, heap
      ensures heap.Valid() && Tables()
      ensures forall i :: 0 <= i < PROBES ==> sendpack[i] == null && retpack[i] == null
      ensures heap.freed == old(WithPackets(heap.freed, PROBES)) + {networkIp}
      ensures |heap.freed| == old(|heap.freed| + PacketCount(PROBES)) + 1
      ensures forall o: object :: o in heap.home <==> o == destIp || o == inputDest || o in resIps || o in resDns
    {
      FreePackets();
      LiveThen();
      heap.Free(networkIp);
    }

    // -------------------------------------------------------------- packets

    /** Put a packet just allocated into the table. */
    method FilePacket(i: nat, p: array<Byte>)
      requires Valid() && i < PROBES && sendpack[i] == null && p !in heap.given
      modifies this`sendpack, heap
      ensures Valid() && sendpack == old(sendpack)[i := p] && heap.freed == old(heap.freed)
    {
      heap.Malloc(p, PacketAt(i));
      sendpack := sendpack[i := p];
      Filled(PacketAt(i), p);
    }

    lemma PacketsAre(row: PacketRow)
      requires |sendpack| == PROBES
      requires forall i :: 0 <= i < PROBES ==> sendpack[i] != null && sendpack[i][..] == row[i]
      ensures Loaded() && Packets() == row
    {
      assert forall i :: 0 <= i < PROBES ==> |sendpack[i][..]| == sendpack[i].Length;
    }

    /** construct_packets. The header's destination is copied from networkIp. */
    method ConstructPackets(ghost row: PacketRow)
      requires Valid() && setup.Valid() && ttl == 1 && networkIp.addr == setup.dest
      requires sendpack == [null, null, null]
      requires FirstRow(setup, row)
      modifies this`sendpack, heap
      ensures Valid() && Loaded() && Packets() == row && heap.freed == old(heap.freed)
      ensures forall i :: 0 <= i < PROBES ==> fresh(sendpack[i])
    {
      for i := 0 to PROBES
        invariant Valid() && heap.freed == old(heap.freed)
        invariant forall k :: 0 <= k < i ==> sendpack[k] != null && fresh(sendpack[k]) && sendpack[k][..] == row[k]
        invariant forall k :: i <= k < PROBES ==> sendpack[k] == null
      {
        var p := ConstructPacket(setup.(dest := networkIp.addr), ttl, i);
        FilePacket(i, p);
      }
      PacketsAre(row);
    }

    /** update_packets. */
    method UpdatePackets()
      requires Loaded() && 1 < ttl <= MAX_HOPS
      requires forall i, j :: 0 <= i < j < PROBES ==> sendpack[i] != sendpack[j]
      modifies sendpack
      ensures Loaded() && Packets() == UpdatedRow(old(Packets()), setup, ttl)
    {
      ghost var row, row' := Packets(), UpdatedRow(Packets(), setup, ttl);
      for i := 0 to PROBES
        invariant forall k :: 0 <= k < PROBES ==> sendpack[k][..] == if k < i then row'[k] else row[k]
      {
        UpdatedRowAt(row, setup, ttl, i);
        UpdatePacket(sendpack[i], setup, ttl, i);
      }
      assert Packets() == row';
    }

    // -------------------------------------------------------------- the run

    /** What holds at the head of the loop in main. */
    ghost predicate Ready()
      reads this`sendpack, this`retpack, this`resIps, this`resDns, this`recieved, heap, destIp, sendpack
    {
      Valid() && Cleared() && Named() && Loaded()
    }

    /** All a run has come to. */
    ghost function Progress(): Progress
      requires Loaded()
      reads this`sendpack, this`sent, this`out, this`alive, networkIp, heap, sendpack
    {
      HopSpec.Progress(Packets(), networkIp.addr, alive, |heap.freed|, sent, out)
    }

    lemma BlocksOfProbe(answers: seq<Answer>, i: nat)
      requires i < PROBES == |answers| && Looked(answers, PROBES)
      ensures One(retpack[i]) + One(resIps[i]) + One(resDns[i]) == BlocksFor(answers[i])
    {
      assert Datagrams()[i] == Stored(answers, PROBES)[i] == if answers[i].Reply? then Some(answers[i].bytes) else None;
      assert IpTexts()[i] == Ips(answers, PROBES)[i] == Origin(answers[i]);
      assert DnsTexts()[i] == Names(answers, PROBES)[i] == if answers[i].Reply? then answers[i].dns else None;
    }

    /** The tables of a finished hop point to as many blocks as its answers made the program allocate. */
    lemma BlocksInTables(answers: seq<Answer>)
      requires |answers| == PROBES && Looked(answers, PROBES)
      ensures ProbeCount(PROBES) == Blocks(answers)
    {
      BlocksOfHop(answers);
      BlocksOfProbe(answers, 0);
      BlocksOfProbe(answers, 1);
      BlocksOfProbe(answers, 2);
      assert ProbeCount(1) == BlocksFor(answers[0]);
      assert ProbeCount(2) == BlocksFor(answers[0]) + BlocksFor(answers[1]);
    }

    /** print_probes_output and free_probes_data of one hop. */
    method PrintAndFree(answers: seq<Answer>)
      requires Valid() && Named() && |answers| == PROBES && Looked(answers, 0)
      modifies this`alive, this`retpack, this`resIps, this`resDns, this`out, heap
      ensures Valid() && Cleared()
      ensures out == old(out) + Row(answers, PROBES)
      ensures alive <==> old(alive) && forall i :: 0 <= i < PROBES ==> !FromDest(setup, answers[i])
      ensures |heap.freed| == old(|heap.freed|) + Blocks(answers)
    {
      PrintProbesOutput(answers);
      BlocksInTables(answers);
      FreeProbesData();
    }

    /** send_recieve, print_probes_output and free_probes_data of one hop. */
    method ProbeAndPrint(answers: seq<Answer>)
      requires Ready() && |answers| == PROBES
      modifies this`alive, this`retpack, this`recieved, this`resIps, this`resDns, this`sent, this`out
      modifies networkIp, heap
      ensures Ready() && Progress() == Probing(setup, answers, old(Progress()))
    {
      SendRecieve(answers);
      NothingLooked(answers);
      PrintAndFree(answers);
    }

    /** update_packets, unless this is the first hop. */
    method Refresh()
      requires Ready() && 1 <= ttl <= MAX_HOPS
      modifies sendpack
      ensures Ready() && Progress() == old(Progress().(row := RowFor(Packets(), setup, ttl)))
    {
      if ttl != 1 {
        PacketsDiffer();
        UpdatePackets();
      }
    }

    /** All of a round but the signal. */
    method ProbeHop(answers: seq<Answer>)
      requires Ready() && 1 <= ttl <= MAX_HOPS && |answers| == PROBES
      modifies this`alive, this`retpack, this`recieved, this`resIps, this`resDns, this`sent, this`out
      modifies networkIp, heap, sendpack
      ensures Ready() && Progress() == Probing(setup, answers, old(Progress().(row := RowFor(Packets(), setup, ttl))))
    {
      Refresh();
      ProbeAndPrint(answers);
    }

    /** A signal, whenever it comes in during the round, has the effect of one at its end: the flag it
        clears is only ever cleared, and read between rounds. */
    method Signalled(signal: bool)
      requires Ready()
      modifies this`alive
      ensures Ready() && Progress() == old(Progress().(alive := alive && !signal))
    {
      if signal {
        alive := false;
      }
    }

    /** One round of the loop in main. */
    method OneHop(hop: Hop)
      requires Ready() && 1 <= ttl <= MAX_HOPS
      modifies this`ttl, this`alive, this`retpack, this`recieved, this`resIps, this`resDns, this`sent, this`out
      modifies networkIp, heap, sendpack
      ensures Ready() && ttl == old(ttl) + 1 && Progress() == HopStep(setup, old(ttl), hop, old(Progress()))
    {
      ProbeHop(hop.answers);
      Signalled(hop.signal);
      ttl := ttl + 1;
    }

    /** At the head of the loop in main, after `hops` rounds of a run through the given states. */
    ghost predicate AtHead(states: seq<Progress>, hops: nat)
      reads this, heap, networkIp, destIp, sendpack
    {
      hops <= MAX_HOPS && |states| == MAX_HOPS + 1 && ttl == hops + 1 && Ready() && Progress() == states[hops]
    }

    /** One more round. */
    method Round(net: seq<Hop>, ghost states: seq<Progress>, hops: nat)
      requires IsTrace(setup, net, states) && AtHead(states, hops) && hops < MAX_HOPS
      modifies this`ttl, this`alive, this`retpack, this`recieved, this`resIps, this`resDns, this`sent, this`out
      modifies networkIp, heap, sendpack
      ensures AtHead(states, hops + 1)
    {
      assert IsRound(setup, net, states, hops);
      OneHop(net[hops]);
    }

    /** The loop in main. */
    method Loop(net: seq<Hop>, ghost states: seq<Progress>) returns (hops: nat)
      requires IsTrace(setup, net, states) && AtHead(states, 0)
      modifies this`ttl, this`alive, this`retpack, this`recieved, this`resIps, this`resDns, this`sent, this`out
      modifies networkIp, heap, sendpack
      ensures AtHead(states, hops) && Leaves(states, hops)
    {
      hops := 0;
      while ttl <= MAX_HOPS && alive
        invariant AtHead(states, hops)
        invariant forall n :: 0 <= n < hops ==> states[n].alive
        decreases MAX_HOPS - hops
      {
        Round(net, states, hops);
        hops := hops + 1;
      }
    }

    /** main before its loop. */
    method Start(early: bool, ghost base: PacketRow)
      requires Valid() && Cleared() && Named() && setup.Valid() && FirstRow(setup, base)
      requires ttl == 1 && networkIp.addr == setup.dest && sendpack == [null, null, null]
      requires sent == [] && out == [] && heap.freed == {}
      modifies this`alive, this`sendpack, heap
      ensures Ready() && Progress() == HopSpec.Progress(base, setup.dest, !early, 0, [], [])
      ensures forall i :: 0 <= i < PROBES ==> fresh(sendpack[i])
    {
      alive := true;
      ConstructPackets(base);
      alive := alive && !early;
    }

    /** Between two hops the packets are all there is to free. */
    lemma CountsBetweenHops()
      requires Cleared() && Loaded()
      ensures ProbeCount(PROBES) == 0 && PacketCount(PROBES) == PROBES
    {
      assert ProbeCount(1) == 0 && PacketCount(1) == 1;
      assert ProbeCount(2) == 0 && PacketCount(2) == 2;
    }

    /** main after its loop. */
    method Finish()
      requires Ready()
      modifies this`sendpack, this`retpack, this`resIps, this`resDns, heap
      ensures heap.Valid() && heap.home.Keys == {destIp, inputDest}
      ensures |heap.freed| == old(|heap.freed|) + PROBES + 1
    {
      CountsBetweenHops();
      FreeProbesData();
      CountsBetweenHops();
      FreeSendpacketsData();
      assert forall o: object :: o !in resIps && o !in resDns;
    }
    /** main from its loop on. */
    method LoopAndFree(net: seq<Hop>, ghost states: seq<Progress>) returns (hops: nat)
      requires IsTrace(setup, net, states) && AtHead(states, 0)
      modifies this, networkIp, heap, sendpack
      ensures Leaves(states, hops) && sent == states[hops].sent && out == states[hops].out
      ensures heap.Valid() && heap.home.Keys == {destIp, inputDest}
      ensures |heap.freed| == states[hops].freed + PROBES + 1
    {
      hops := Loop(net, states);
      Finish();
    }

    /** main, from construct_packets on. `early` is a signal between setting the flag and the
        first look at it. The answers of every hop the run could make are given. At the end all but two
        of the blocks ever handed out are freed: the packets and the address record, and for each answer the
        datagram, its printed address and its name. */
    method Run(net: seq<Hop>, early: bool) returns (hops: nat)
      requires Valid() && Cleared() && Named() && setup.Valid() && |net| == MAX_HOPS
      requires ttl == 1 && networkIp.addr == setup.dest && sendpack == [null, null, null]
      requires sent == [] && out == [] && heap.freed == {}
      modifies this, networkIp, heap
      ensures HopsTaken(setup, net, early, hops)
      ensures setup.Valid() && Carries(setup, sent, Sends(setup.dest, net, hops)) && out == Rows(net, hops)
      ensures heap.Valid() && heap.home.Keys == {destIp, inputDest}
      ensures |heap.freed| == PROBES + 1 + Blocks(Heard(net, hops))
    {
      ghost var base := FirstPackets(setup);
      Start(early, base);
      TraceBegins(setup, base, net, !early);
      TraceIsTrace(setup, base, net, !early);
      hops := LoopAndFree(net, Trace(setup, base, net, !early));
      TraceEnds(setup, base, net, early, hops);
    }

  }

  lemma LookedStep(answers: seq<Answer>, i: nat)
    requires i < PROBES == |answers|
    ensures Ips(answers, i + 1) == Ips(answers, i)[i := Origin(answers[i])]
    ensures Names(answers, i + 1) == Names(answers, i)[i := if answers[i].Reply? then answers[i].dns else None]
    ensures answers[i].Timeout? ==> Ips(answers, i + 1) == Ips(answers, i) && Names(answers, i + 1) == Names(answers, i)
  {
  }

  ghost function Bytes(p: array?<Byte>): Option<seq<Byte>>
    reads p
  {
    if p == null then None else Some(p[..])
  }

  ghost function Chars(p: array?<char>): Option<string>
    reads p
  {
    if p == null then None else Some(Until(p[..], NUL))
  }

  /** test_dest, once the name has been resolved to an address. */
  method TestDest(setup: Setup, name: array<char>) returns (t: Tracer)
    requires Terminated(name)
    ensures fresh(t) && fresh(t.heap) && fresh(t.networkIp)
    ensures t.Valid() && t.Cleared() && t.Named() && t.setup == setup && t.ttl == 1
    ensures Terminated(t.inputDest) && Text(t.inputDest) == Text(name)
    ensures t.networkIp.addr == setup.dest && t.sendpack == [null, null, null]
    ensures t.sent == [] && t.out == [] && t.heap.freed == {}
  {
    DottedIsText(setup.dest);
    var inp := StrDup(name, 0);
    var dst := Duplicate(Dotted(setup.dest));
    var ip := new SockAddr(setup.dest);
    var mem := new Heap();
    mem.Malloc(inp, InputDest);
    mem.Malloc(dst, DestIp);
    mem.Malloc(ip, Network);
    t := new Tracer(setup, mem, inp, dst, ip);
  }
}
