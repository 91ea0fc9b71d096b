/** What a run of the tracer is meant to do, as a function of what the network answers. */
module HopSpec {
  import opened CStrings
  import opened Checksum
  import opened Packets
  import opened Addresses
  import opened Options

  /** What comes of waiting for the answer to one probe: nothing in time, or a datagram, the
      address the socket layer reports for its sender, and the name found for it, if any. */
  datatype AnswerRaw = Timeout | Reply(bytes: seq<Byte>, from: Address, dns: Option<string>) {
    predicate Sound() {
      Reply? ==> HEADERS <= |bytes| <= MAX_PACKET_SIZE && (dns.Some? ==> NUL !in dns.value)
    }
  }

  type Answer = a: AnswerRaw | a.Sound() witness Timeout

  /** One hop: the answers to its three probes, and whether a signal comes in before it ends. */
  datatype HopRaw = Hop(answers: seq<Answer>, signal: bool)

  type Hop = h: HopRaw | |h.answers| == PROBES witness Hop([Timeout, Timeout, Timeout], false)

  /** The source address in the IP header of an answer. */
  function Source(a: Answer): Address
    requires a.Reply?
  {
    a.bytes[12..16]
  }

  /** An answer that ends the run: an echo reply in ICMP mode, or any datagram from the destination. */
  predicate Arrives(s: Setup, a: Answer) {
    Echoed(s, a) || FromDest(s, a)
  }

  predicate Echoed(s: Setup, a: Answer) {
    a.Reply? && s.icmp && a.bytes[IP_HEADER] == 0
  }

  predicate FromDest(s: Setup, a: Answer) {
    a.Reply? && Source(a) == s.dest
  }

  predicate Stops(s: Setup, hop: Hop) {
    hop.signal || exists i :: 0 <= i < PROBES && Arrives(s, hop.answers[i])
  }

  // ---------------------------------------------------------------- the tables

  /** What the tables of a hop hold once the first `n` probes are dealt with. */
  function Flags(answers: seq<Answer>, n: nat): seq<bool> {
    seq(PROBES, (i: nat) => i < n && i < |answers| && answers[i].Reply?)
  }

  function Stored(answers: seq<Answer>, n: nat): seq<Option<seq<Byte>>> {
    seq(PROBES, (i: nat) => if i < n && i < |answers| && answers[i].Reply? then Some(answers[i].bytes) else None)
  }

  function Ips(answers: seq<Answer>, n: nat): seq<Option<string>> {
    seq(PROBES, (i: nat) => if i < n && i < |answers| then Origin(answers[i]) else None)
  }

  function Names(answers: seq<Answer>, n: nat): seq<Option<string>> {
    seq(PROBES, (i: nat) => if i < n && i < |answers| && answers[i].Reply? then answers[i].dns else None)
  }

  /** The printed form of the address an answer came from. */
  function Origin(a: Answer): Option<string> {
    if a.Reply? then Some(Dotted(Source(a))) else None
  }

  // ---------------------------------------------------------------- the sends

  /** One send: which probe it is, and the address handed to the socket layer with it. */
  datatype Send = Send(ttl: nat, index: nat, to: Address)

  /** One send as the socket layer sees it. */
  datatype Datagram = Datagram(packet: seq<Byte>, to: Address)

  ghost predicate IsSend(s: Setup, d: Datagram, x: Send)
    requires s.Valid()
  {
    1 <= x.ttl <= MAX_HOPS && x.index < PROBES && d == Datagram(Probe(s, x.ttl, x.index), x.to)
  }

  /** The datagrams are the sends: every packet is in the closed form of its ttl and index. */
  ghost predicate Carries(s: Setup, sent: seq<Datagram>, sends: seq<Send>)
    requires s.Valid()
  {
    |sent| == |sends| && forall k :: 0 <= k < |sends| ==> IsSend(s, sent[k], sends[k])
  }

  /** The address field the socket layer overwrites: the sender of the last answer so far, and
      the destination before there is one. */
  function Aim(a: Address, answers: seq<Answer>): Address {
    if answers == [] then a
    else
      var last := answers[|answers| - 1];
      if last.Reply? then last.from else Aim(a, answers[..|answers| - 1])
  }

  /** The answers of the first `n` hops, in order. */
  function Heard(net: seq<Hop>, n: nat): seq<Answer>
    requires n <= |net|
  {
    if n == 0 then [] else Heard(net, n - 1) + net[n - 1].answers
  }

  lemma {:induction false} HeardLength(net: seq<Hop>, n: nat)
    requires n <= |net|
    ensures |Heard(net, n)| == PROBES * n
  {
    if n > 0 { HeardLength(net, n - 1); }
  }

  lemma {:induction false} AimExtends(a: Address, x: seq<Answer>, y: seq<Answer>)
    ensures Aim(Aim(a, x), y) == Aim(a, x + y)
  {
    if y == [] {
      assert x + y == x;
    } else {
      assert (x + y)[..|x + y| - 1] == x + y[..|y| - 1];
      AimExtends(a, x, y[..|y| - 1]);
    }
  }

  /** The sends of one hop, given the address field when it begins. */
  function HopSends(ttl: nat, a: Address, answers: seq<Answer>, n: nat): seq<Send>
    requires n <= |answers|
  {
    if n == 0 then [] else
      HopSends(ttl, a, answers, n - 1) + [Send(ttl, n - 1, Aim(a, answers[..n - 1]))]
  }

  /** The sends of the first `n` hops. */
  function Sends(dest: Address, net: seq<Hop>, n: nat): seq<Send>
    requires n <= |net|
  {
    if n == 0 then [] else
      Sends(dest, net, n - 1) + HopSends(n, Aim(dest, Heard(net, n - 1)), net[n - 1].answers, PROBES)
  }

  lemma {:induction false} HopSendsAt(ttl: nat, a: Address, answers: seq<Answer>, n: nat)
    requires n <= |answers|
    ensures |HopSends(ttl, a, answers, n)| == n
    ensures forall i :: 0 <= i < n ==> HopSends(ttl, a, answers, n)[i] == Send(ttl, i, Aim(a, answers[..i]))
  {
    if n > 0 { HopSendsAt(ttl, a, answers, n - 1); }
  }

  /** The datagrams of one hop, given its packets. */
  function HopDatagrams(packs: seq<seq<Byte>>, a: Address, answers: seq<Answer>, n: nat): seq<Datagram>
    requires n <= |packs| && n <= |answers|
  {
    if n == 0 then [] else
      HopDatagrams(packs, a, answers, n - 1) + [Datagram(packs[n - 1], Aim(a, answers[..n - 1]))]
  }

  lemma {:induction false} HopCarries(s: Setup, ttl: nat, row: seq<seq<Byte>>, a: Address, answers: seq<Answer>, n: nat)
    requires s.Valid() && 1 <= ttl <= MAX_HOPS && n <= PROBES == |row| && n <= |answers|
    requires forall i :: 0 <= i < PROBES ==> row[i] == Probe(s, ttl, i)
    ensures Carries(s, HopDatagrams(row, a, answers, n), HopSends(ttl, a, answers, n))
  {
    if n > 0 { HopCarries(s, ttl, row, a, answers, n - 1); }
  }

  lemma CarriesConcat(s: Setup, d1: seq<Datagram>, s1: seq<Send>, d2: seq<Datagram>, s2: seq<Send>)
    requires s.Valid() && Carries(s, d1, s1) && Carries(s, d2, s2)
    ensures Carries(s, d1 + d2, s1 + s2)
  {
    forall k | 0 <= k < |s1 + s2|
      ensures IsSend(s, (d1 + d2)[k], (s1 + s2)[k])
    {
      if k < |s1| {
        assert IsSend(s, d1[k], s1[k]);
      } else {
        assert IsSend(s, d2[k - |s1|], s2[k - |s1|]);
      }
    }
  }

  /** The k-th send of a run. */
  function SendAt(dest: Address, heard: seq<Answer>, k: nat): Send
    requires k <= |heard|
  {
    Send(k / PROBES + 1, k % PROBES, Aim(dest, heard[..k]))
  }

  lemma {:induction false} SendIs(dest: Address, net: seq<Hop>, n: nat, k: nat)
    requires n <= |net| && k < PROBES * n
    ensures |Sends(dest, net, n)| == PROBES * n == |Heard(net, n)|
    ensures Sends(dest, net, n)[k] == SendAt(dest, Heard(net, n), k)
  {
    SendsLength(dest, net, n);
    HeardLength(net, n);
    SendsLength(dest, net, n - 1);
    HeardLength(net, n - 1);
    var before, now := Heard(net, n - 1), net[n - 1].answers;
    var earlier, last := Sends(dest, net, n - 1), HopSends(n, Aim(dest, before), now, PROBES);
    if k < |earlier| { SendIs(dest, net, n - 1, k); }
    HopSendsAt(n, Aim(dest, before), now, PROBES);
    SendInHop(dest, before, now, earlier, last, n, k);
    assert Heard(net, n) == before + now && Sends(dest, net, n) == earlier + last;
  }

  lemma SendInHop(dest: Address, before: seq<Answer>, now: seq<Answer>, earlier: seq<Send>, last: seq<Send>, n: nat, k: nat)
    requires n > 0 && |before| == |earlier| == PROBES * (n - 1) && |now| == |last| == PROBES && k < PROBES * n
    requires k < |earlier| ==> earlier[k] == SendAt(dest, before, k)
    requires forall i :: 0 <= i < PROBES ==> last[i] == Send(n, i, Aim(Aim(dest, before), now[..i]))
    ensures (earlier + last)[k] == SendAt(dest, before + now, k)
  {
    if k < |earlier| {
      assert (before + now)[..k] == before[..k];
    } else {
      LastHopSend(dest, before, now, n, k - |earlier|);
    }
  }

  lemma {:induction false} SendsLength(dest: Address, net: seq<Hop>, n: nat)
    requires n <= |net|
    ensures |Sends(dest, net, n)| == PROBES * n
  {
    if n > 0 {
      SendsLength(dest, net, n - 1);
      HopSendsAt(n, Aim(dest, Heard(net, n - 1)), net[n - 1].answers, PROBES);
    }
  }

  /** In a run of `n` hops exactly 3n probes are sent; number k is probe k % 3 of hop k / 3 + 1,
      handed to the socket layer with the sender of the last answer as its address. */
  lemma SendsAt(dest: Address, net: seq<Hop>, n: nat)
    requires n <= |net|
    ensures |Sends(dest, net, n)| == PROBES * n == |Heard(net, n)|
    ensures forall k :: 0 <= k < PROBES * n ==> Sends(dest, net, n)[k] == SendAt(dest, Heard(net, n), k)
  {
    SendsLength(dest, net, n);
    HeardLength(net, n);
    forall k | 0 <= k < PROBES * n
      ensures Sends(dest, net, n)[k] == SendAt(dest, Heard(net, n), k)
    {
      SendIs(dest, net, n, k);
    }
  }

  lemma LastHopSend(dest: Address, before: seq<Answer>, now: seq<Answer>, n: nat, i: nat)
    requires 1 <= n && i < PROBES == |now| && |before| == PROBES * (n - 1)
    ensures SendAt(dest, before + now, |before| + i) == Send(n, i, Aim(Aim(dest, before), now[..i]))
  {
    var k := PROBES * (n - 1) + i;
    assert k / PROBES + 1 == n && k % PROBES == i;
    assert (before + now)[..k] == before + now[..i];
    AimExtends(dest, before, now[..i]);
  }

  /** The address handed to the socket layer need not be the one in the packet's header: after an
      answer from a router on the way it is that router's. */
  lemma SendsGoAstray(dest: Address, router: Address, bytes: seq<Byte>)
    requires router != dest && HEADERS <= |bytes| <= MAX_PACKET_SIZE
    ensures var net := [Hop([Reply(bytes, router, None), Timeout, Timeout], false)];
            |Sends(dest, net, 1)| == 3 && Sends(dest, net, 1)[1].to == router != dest
  {
    var hop := Hop([Reply(bytes, router, None), Timeout, Timeout], false);
    var net := [hop];
    SendsAt(dest, net, 1);
    assert Heard(net, 1) == [] + hop.answers;
    assert Heard(net, 1)[..1] == [hop.answers[0]];
  }

  /** The address field is the destination's until an answer comes, and from then on the sender of
      the last answer. */
  lemma {:induction false} AimIsLastSender(a: Address, answers: seq<Answer>) returns (last: int)
    ensures -1 <= last < |answers|
    ensures forall i :: last < i < |answers| ==> answers[i].Timeout?
    ensures last >= 0 ==> answers[last].Reply?
    ensures Aim(a, answers) == if last == -1 then a else answers[last].from
  {
    if answers == [] {
      last := -1;
    } else if answers[|answers| - 1].Reply? {
      last := |answers| - 1;
    } else {
      last := AimIsLastSender(a, answers[..|answers| - 1]);
    }
  }

  /** The address field holds the destination after each of the first `m` answers, and before them. */
  ghost predicate AimsRight(dest: Address, answers: seq<Answer>, m: nat)
    requires m <= |answers|
  {
    forall k :: 0 <= k <= m ==> Aim(dest, answers[..k]) == dest
  }

  lemma {:induction false} AimsRightIff(dest: Address, answers: seq<Answer>, m: nat)
    requires m <= |answers|
    ensures AimsRight(dest, answers, m) <==>
            forall j :: 0 <= j < m ==> answers[j].Timeout? || answers[j].from == dest
  {
    if m > 0 {
      AimsRightIff(dest, answers, m - 1);
      assert answers[..m][..m - 1] == answers[..m - 1];
      assert AimsRight(dest, answers, m) <==> AimsRight(dest, answers, m - 1) && Aim(dest, answers[..m]) == dest;
    }
  }

  /** Exactly when every probe is handed to the socket layer with the destination's address: when
      no answer before the last probe is reported to come from anywhere else. */
  lemma SendsAreRightIff(dest: Address, net: seq<Hop>, n: nat)
    requires 0 < n <= |net|
    ensures |Sends(dest, net, n)| == PROBES * n == |Heard(net, n)|
    ensures (forall k :: 0 <= k < PROBES * n ==> Sends(dest, net, n)[k].to == dest) <==>
            forall j :: 0 <= j < PROBES * n - 1 ==> Heard(net, n)[j].Timeout? || Heard(net, n)[j].from == dest
  {
    SendsAt(dest, net, n);
    SentToAim(dest, Sends(dest, net, n), Heard(net, n));
    AimsRightIff(dest, Heard(net, n), PROBES * n - 1);
  }

  lemma SentToAim(dest: Address, sends: seq<Send>, heard: seq<Answer>)
    requires 0 < |sends| == |heard| && forall k :: 0 <= k < |sends| ==> sends[k] == SendAt(dest, heard, k)
    ensures (forall k :: 0 <= k < |sends| ==> sends[k].to == dest) <==> AimsRight(dest, heard, |sends| - 1)
  {
    assert forall k :: 0 <= k < |sends| ==> sends[k].to == Aim(dest, heard[..k]);
  }

  // ---------------------------------------------------------------- the packets of a run

  /** Three packets long enough to hold the headers. */
  type PacketRow = r: seq<seq<Byte>> | |r| == PROBES && forall i :: 0 <= i < PROBES ==> |r[i]| >= HEADERS
    witness seq(PROBES, (i: nat) => seq(HEADERS, (k: nat) => 0 as Byte))

  function UpdatedRow(row: PacketRow, s: Setup, ttl: nat): PacketRow
    requires 1 <= ttl <= MAX_HOPS
  {
    [Updated(row[0], s, ttl, 0), Updated(row[1], s, ttl, 1), Updated(row[2], s, ttl, 2)]
  }

  /** The packets at hop `t`, edited in place hop after hop. */
  function RowAt(base: PacketRow, s: Setup, t: nat): PacketRow
    requires 1 <= t <= MAX_HOPS
  {
    if t == 1 then base else UpdatedRow(RowAt(base, s, t - 1), s, t)
  }

  lemma UpdatedRowAt(row: PacketRow, s: Setup, ttl: nat, i: nat)
    requires 1 <= ttl <= MAX_HOPS && i < PROBES
    ensures UpdatedRow(row, s, ttl)[i] == Updated(row[i], s, ttl, i)
  {
  }

  lemma {:induction false} RowFollows(base: PacketRow, s: Setup, t: nat, i: nat, ps: seq<seq<Byte>>)
    requires 1 <= t <= MAX_HOPS && i < PROBES && |ps| == MAX_HOPS + 1 && base[i] == ps[1]
    requires forall k :: 0 <= k <= MAX_HOPS ==> |ps[k]| >= HEADERS
    requires forall k :: 1 < k <= MAX_HOPS ==> ps[k] == Updated(ps[k - 1], s, k, i)
    ensures RowAt(base, s, t)[i] == ps[t]
  {
    if t > 1 {
      RowFollows(base, s, t - 1, i, ps);
      UpdatedRowAt(RowAt(base, s, t - 1), s, t, i);
    }
  }

  /** Probe `i` of every hop of a run; position zero is not used. */
  function ProbesOf(s: Setup, i: nat): (ps: seq<seq<Byte>>)
    requires s.Valid() && i < PROBES
    ensures |ps| == MAX_HOPS + 1 && forall k :: 0 <= k <= MAX_HOPS ==> |ps[k]| >= HEADERS
    ensures forall k :: 1 <= k <= MAX_HOPS ==> ps[k] == Probe(s, k, i)
  {
    seq(MAX_HOPS + 1, (k: nat) requires k < MAX_HOPS + 1 => if k == 0 then Probe(s, 1, i) else Probe(s, k, i))
  }

  /** However many updates came before, a packet is in the closed form of its hop. */
  lemma RowIsProbes(base: PacketRow, s: Setup, t: nat, i: nat)
    requires s.Valid() && 1 <= t <= MAX_HOPS && i < PROBES && base[i] == Probe(s, 1, i)
    ensures RowAt(base, s, t)[i] == Probe(s, t, i)
  {
    var ps := ProbesOf(s, i);
    forall k | 1 < k <= MAX_HOPS
      ensures ps[k] == Updated(ps[k - 1], s, k, i)
    {
      UpdatedIsProbe(s, k - 1, k, i);
    }
    RowFollows(base, s, t, i, ps);
  }

  /** The datagrams of the first `n` hops. */
  function RunDatagrams(base: PacketRow, s: Setup, net: seq<Hop>, n: nat): seq<Datagram>
    requires n <= MAX_HOPS && n <= |net|
  {
    if n == 0 then [] else
      RunDatagrams(base, s, net, n - 1) +
      HopDatagrams(RowAt(base, s, n), Aim(s.dest, Heard(net, n - 1)), net[n - 1].answers, PROBES)
  }

  lemma HopOfRunCarries(s: Setup, base: PacketRow, n: nat, a: Address, answers: seq<Answer>)
    requires s.Valid() && 1 <= n <= MAX_HOPS && FirstRow(s, base) && |answers| == PROBES
    ensures Carries(s, HopDatagrams(RowAt(base, s, n), a, answers, PROBES), HopSends(n, a, answers, PROBES))
  {
    forall i | 0 <= i < PROBES
      ensures RowAt(base, s, n)[i] == Probe(s, n, i)
    {
      RowIsProbes(base, s, n, i);
    }
    HopCarries(s, n, RowAt(base, s, n), a, answers, PROBES);
  }

  /** The packets as they are constructed, before the first hop. */
  ghost predicate FirstRow(s: Setup, base: PacketRow)
    requires s.Valid()
  {
    forall i :: 0 <= i < PROBES ==> base[i] == Probe(s, 1, i)
  }

  function FirstPackets(s: Setup): (r: PacketRow)
    requires s.Valid()
    ensures FirstRow(s, r)
  {
    seq(PROBES, (i: nat) requires i < PROBES && s.Valid() => Probe(s, 1, i))
  }

  /** The packets during hop `ttl`, given those left by the hop before it. */
  function RowFor(row: PacketRow, s: Setup, ttl: nat): PacketRow
    requires 1 <= ttl <= MAX_HOPS
  {
    if ttl == 1 then row else UpdatedRow(row, s, ttl)
  }

  /** Every datagram of a run is the probe it should be, in closed form. */
  lemma {:induction false} RunCarries(s: Setup, base: PacketRow, net: seq<Hop>, n: nat)
    requires s.Valid() && n <= MAX_HOPS && n <= |net| && FirstRow(s, base)
    ensures Carries(s, RunDatagrams(base, s, net, n), Sends(s.dest, net, n))
  {
    if n > 0 {
      RunCarries(s, base, net, n - 1);
      var a, now := Aim(s.dest, Heard(net, n - 1)), net[n - 1].answers;
      HopOfRunCarries(s, base, n, a, now);
      CarriesConcat(s, RunDatagrams(base, s, net, n - 1), Sends(s.dest, net, n - 1),
                    HopDatagrams(RowAt(base, s, n), a, now, PROBES), HopSends(n, a, now, PROBES));
    }
  }

  // ---------------------------------------------------------------- sending, probe by probe

  /** What sending and receiving changes. */
  datatype Phase = Phase(to: Address, sent: seq<Datagram>, alive: bool, flags: seq<bool>, stored: seq<Option<seq<Byte>>>)

  /** One probe sent and its answer, or the lack of one, recorded. */
  function ProbeStep(s: Setup, pack: seq<Byte>, a: Answer, i: nat, p: Phase): Phase
    requires i < |p.flags| == |p.stored|
  {
    Phase(
      if a.Reply? then a.from else p.to,
      p.sent + [Datagram(pack, p.to)],
      p.alive && !Echoed(s, a),
      p.flags[i := a.Reply?],
      if a.Reply? then p.stored[i := Some(a.bytes)] else p.stored)
  }

  function Probed(s: Setup, packs: seq<seq<Byte>>, answers: seq<Answer>, n: nat, p: Phase): (r: Phase)
    requires n <= PROBES == |answers| == |packs| == |p.flags| == |p.stored|
    ensures |r.flags| == |r.stored| == PROBES
  {
    if n == 0 then p else ProbeStep(s, packs[n - 1], answers[n - 1], n - 1, Probed(s, packs, answers, n - 1, p))
  }

  /** A hop in closed form: the datagrams sent, the address field left behind, the tables filled,
      and the run kept alive exactly if no echo reply came. */
  lemma {:induction false} ProbedIs(s: Setup, packs: seq<seq<Byte>>, answers: seq<Answer>, n: nat, p: Phase)
    requires n <= PROBES == |answers| == |packs|
    requires p.flags == Flags(answers, 0) && p.stored == Stored(answers, 0)
    ensures Probed(s, packs, answers, n, p) == Phase(
      Aim(p.to, answers[..n]),
      p.sent + HopDatagrams(packs, p.to, answers, n),
      p.alive && forall i :: 0 <= i < n ==> !Echoed(s, answers[i]),
      Flags(answers, n),
      Stored(answers, n))
  {
    if n > 0 {
      ProbedIs(s, packs, answers, n - 1, p);
      assert answers[..n][..n - 1] == answers[..n - 1];
      RecordedStep(answers, n - 1);
    }
  }

  lemma RecordedStep(answers: seq<Answer>, i: nat)
    requires i < PROBES == |answers|
    ensures Flags(answers, i + 1) == Flags(answers, i)[i := answers[i].Reply?]
    ensures Stored(answers, i + 1) ==
            if answers[i].Reply? then Stored(answers, i)[i := Some(answers[i].bytes)] else Stored(answers, i)
  {
  }

  // ---------------------------------------------------------------- the output

  /** What is printed for one probe (round-trip times left aside): a star; a time alone, when the
      address is that of the probe before; or a name and an address. */
  datatype Item = Star | Again | Shown(name: string, ip: string)

  function Printed(answers: seq<Answer>, i: nat): Item
    requires i < |answers|
  {
    var a := answers[i];
    if a.Timeout? then Star
    else if i > 0 && answers[i - 1].Reply? && Source(answers[i - 1]) == Source(a) then Again
    else Shown(if a.dns.Some? then a.dns.value else Dotted(Source(a)), Dotted(Source(a)))
  }

  /** None of the first `n` answers came from the destination. */
  predicate NoneFromDest(s: Setup, answers: seq<Answer>, n: nat)
    requires n <= |answers|
  {
    forall i :: 0 <= i < n ==> !FromDest(s, answers[i])
  }

  /** Looking only at answers whose address is printed misses none. */
  lemma RepeatsHideNothing(s: Setup, answers: seq<Answer>, i: nat)
    requires i < |answers|
    ensures NoneFromDest(s, answers, i + 1) <==>
            NoneFromDest(s, answers, i) && (Printed(answers, i).Again? || !FromDest(s, answers[i]))
  {
    if Printed(answers, i).Again? {
      assert FromDest(s, answers[i]) <==> FromDest(s, answers[i - 1]);
    }
  }

  function Row(answers: seq<Answer>, n: nat): seq<Item>
    requires n <= |answers|
  {
    if n == 0 then [] else Row(answers, n - 1) + [Printed(answers, n - 1)]
  }

  lemma RowGrows(before: seq<Item>, answers: seq<Answer>, i: nat)
    requires i < |answers|
    ensures before + Row(answers, i) + [Printed(answers, i)] == before + Row(answers, i + 1)
  {
  }

  /** The rows of the first `n` hops. */
  function Rows(net: seq<Hop>, n: nat): seq<Item>
    requires n <= |net|
  {
    if n == 0 then [] else Rows(net, n - 1) + Row(net[n - 1].answers, PROBES)
  }

  /** Reading a row back: the address each probe was answered from. */
  function ReadRow(row: seq<Item>): seq<Option<string>> {
    if row == [] then [] else
      var before := ReadRow(row[..|row| - 1]);
      var item := row[|row| - 1];
      before + [match item
                case Star => None
                case Again => if before == [] then None else before[|before| - 1]
                case Shown(_, ip) => Some(ip)]
  }

  /** Leaving out repeated addresses loses nothing: a row can be read back in full. */
  lemma {:induction false} RowReadsBack(answers: seq<Answer>, n: nat)
    requires n <= |answers|
    ensures |Row(answers, n)| == n == |ReadRow(Row(answers, n))|
    ensures forall i :: 0 <= i < n ==> ReadRow(Row(answers, n))[i] == Origin(answers[i])
  {
    if n > 0 {
      RowReadsBack(answers, n - 1);
      assert Row(answers, n)[..n - 1] == Row(answers, n - 1);
    }
  }

  lemma {:induction false} RowAtIs(answers: seq<Answer>, n: nat, i: nat)
    requires i < n <= |answers|
    ensures |Row(answers, n)| == n && Row(answers, n)[i] == Printed(answers, i)
  {
    RowReadsBack(answers, n - 1);
    if i < n - 1 { RowAtIs(answers, n - 1, i); }
  }

  /** No address is printed twice in a row: what is shown is never the address of the answer just before. */
  lemma RowNeverRepeats(answers: seq<Answer>, n: nat, i: nat)
    requires 0 < i < n <= |answers|
    ensures |Row(answers, n)| == n == |ReadRow(Row(answers, n))|
    ensures Row(answers, n)[i].Shown? ==> ReadRow(Row(answers, n))[i - 1] != Some(Row(answers, n)[i].ip)
  {
    RowReadsBack(answers, n);
    RowAtIs(answers, n, i);
    var a, b := answers[i - 1], answers[i];
    if a.Reply? && b.Reply? { DottedInjective(Source(a), Source(b)); }
  }

  lemma {:induction false} RowsAt(net: seq<Hop>, n: nat, k: nat)
    requires n <= |net| && k < PROBES * n
    ensures |Rows(net, n)| == PROBES * n && Rows(net, n)[k] == Printed(net[k / PROBES].answers, k % PROBES)
  {
    var last := PROBES * (n - 1);
    RowsLength(net, n - 1);
    RowReadsBack(net[n - 1].answers, PROBES);
    if k < last {
      RowsAt(net, n - 1, k);
    } else {
      RowAtIs(net[n - 1].answers, PROBES, k - last);
      assert k / PROBES == n - 1 && k % PROBES == k - last;
    }
  }

  lemma {:induction false} RowsLength(net: seq<Hop>, n: nat)
    requires n <= |net|
    ensures |Rows(net, n)| == PROBES * n
  {
    if n > 0 {
      RowsLength(net, n - 1);
      RowReadsBack(net[n - 1].answers, PROBES);
    }
  }

  /** What an item printed for probe `i` of a hop has to be, by the bytes of the answers: a star for no answer; a
      time alone when the probe before was answered from an address that prints the same; else the address,
      behind the name found or, if there is none, behind itself. */
  ghost predicate IsItem(answers: seq<Answer>, i: nat, item: Item)
    requires i < |answers|
  {
    && (item == Star <==> answers[i].Timeout?)
    && (item == Again <==>
        i > 0 && answers[i].Reply? && answers[i - 1].Reply? &&
        Dotted(answers[i - 1].bytes[12..16]) == Dotted(answers[i].bytes[12..16]))
    && (item.Shown? ==>
        item.ip == Dotted(answers[i].bytes[12..16]) &&
        item.name == if answers[i].dns.Some? then answers[i].dns.value else item.ip)
  }

  /** Item number k of a run's output. */
  lemma RunPrints(net: seq<Hop>, n: nat, k: nat)
    requires n <= |net| && k < PROBES * n
    ensures |Rows(net, n)| == 3 * n && IsItem(net[k / 3].answers, k % 3, Rows(net, n)[k])
  {
    RowsAt(net, n, k);
    var answers, i := net[k / 3].answers, k % 3;
    if i > 0 && answers[i - 1].Reply? && answers[i].Reply? {
      DottedInjective(Source(answers[i - 1]), Source(answers[i]));
    }
  }

  // ---------------------------------------------------------------- the blocks

  /** The blocks an answer makes the program allocate: the datagram, the printed address and, if one
      is found, the name. */
  function BlocksFor(a: Answer): nat {
    match a
    case Timeout => 0
    case Reply(_, _, dns) => if dns.Some? then 3 else 2
  }

  function Blocks(answers: seq<Answer>): nat {
    if answers == [] then 0 else Blocks(answers[..|answers| - 1]) + BlocksFor(answers[|answers| - 1])
  }

  lemma {:induction false} BlocksConcat(x: seq<Answer>, y: seq<Answer>)
    ensures Blocks(x + y) == Blocks(x) + Blocks(y)
  {
    if y == [] {
      assert x + y == x;
    } else {
      assert (x + y)[..|x + y| - 1] == x + y[..|y| - 1];
      BlocksConcat(x, y[..|y| - 1]);
    }
  }

  lemma BlocksOfHop(answers: seq<Answer>)
    requires |answers| == PROBES
    ensures Blocks(answers) == BlocksFor(answers[0]) + BlocksFor(answers[1]) + BlocksFor(answers[2])
  {
    assert answers[..2][..1] == answers[..1] && answers[..1][..0] == [];
    assert Blocks(answers[..1]) == BlocksFor(answers[0]);
    assert Blocks(answers[..2]) == BlocksFor(answers[0]) + BlocksFor(answers[1]);
  }

  // ---------------------------------------------------------------- whole runs

  /** What a run has come to: its packets, the address field, whether it goes on, how many blocks
      were freed, what was sent and what was printed. */
  datatype Progress =
    Progress(row: PacketRow, to: Address, alive: bool, freed: nat, sent: seq<Datagram>, out: seq<Item>)

  /** Sending, printing and freeing. */
  function Probing(s: Setup, answers: seq<Answer>, p: Progress): Progress
    requires |answers| == PROBES
  {
    Progress(
      p.row,
      Aim(p.to, answers),
      p.alive && forall i :: 0 <= i < PROBES ==> !Arrives(s, answers[i]),
      p.freed + Blocks(answers),
      p.sent + HopDatagrams(p.row, p.to, answers, PROBES),
      p.out + Row(answers, PROBES))
  }

  /** One round of the loop. */
  function HopStep(s: Setup, ttl: nat, hop: Hop, p: Progress): Progress
    requires 1 <= ttl <= MAX_HOPS
  {
    var q := Probing(s, hop.answers, p.(row := RowFor(p.row, s, ttl)));
    q.(alive := q.alive && !hop.signal)
  }

  /** The packets that `n` hops have left behind. */
  function RowAfter(base: PacketRow, s: Setup, n: nat): PacketRow
    requires n <= MAX_HOPS
  {
    if n == 0 then base else RowAt(base, s, n)
  }

  /** A run of `n` hops, in closed form. */
  function RunState(s: Setup, base: PacketRow, net: seq<Hop>, n: nat, alive: bool): Progress
    requires n <= MAX_HOPS && n <= |net|
  {
    Progress(
      RowAfter(base, s, n),
      Aim(s.dest, Heard(net, n)),
      alive && Quiet(s, net, n),
      Blocks(Heard(net, n)),
      RunDatagrams(base, s, net, n),
      Rows(net, n))
  }

  /** One hop more, for each part of the state. */
  lemma OneMoreHop(s: Setup, base: PacketRow, net: seq<Hop>, n: nat, alive: bool)
    requires n < MAX_HOPS && n < |net|
    ensures HopStep(s, n + 1, net[n], RunState(s, base, net, n, alive)) == RunState(s, base, net, n + 1, alive)
  {
    var heard, now := Heard(net, n), net[n].answers;
    NextRow(base, s, n);
    AimExtends(s.dest, heard, now);
    BlocksConcat(heard, now);
    NextQuiet(s, net, n);
    assert Heard(net, n + 1) == heard + now;
    assert RunDatagrams(base, s, net, n + 1) ==
           RunDatagrams(base, s, net, n) + HopDatagrams(RowAt(base, s, n + 1), Aim(s.dest, heard), now, PROBES);
    assert Rows(net, n + 1) == Rows(net, n) + Row(now, PROBES);
  }

  lemma NextRow(base: PacketRow, s: Setup, n: nat)
    requires n < MAX_HOPS
    ensures RowFor(RowAfter(base, s, n), s, n + 1) == RowAt(base, s, n + 1) == RowAfter(base, s, n + 1)
  {
  }

  lemma NextQuiet(s: Setup, net: seq<Hop>, n: nat)
    requires n < |net|
    ensures Quiet(s, net, n + 1) <==>
            Quiet(s, net, n) && !net[n].signal && forall i :: 0 <= i < PROBES ==> !Arrives(s, net[n].answers[i])
  {
  }

  /** No one of the first `n` hops stops the run. */
  predicate Quiet(s: Setup, net: seq<Hop>, n: nat)
    requires n <= |net|
  {
    n == 0 || (Quiet(s, net, n - 1) && !Stops(s, net[n - 1]))
  }

  lemma {:induction false} QuietIs(s: Setup, net: seq<Hop>, n: nat)
    requires n <= |net|
    ensures Quiet(s, net, n) <==> forall k :: 0 <= k < n ==> !Stops(s, net[k])
  {
    if n > 0 { QuietIs(s, net, n - 1); }
  }

  /** The number of hops a run takes: none after an early signal, else up to and including the
      first one that stops it, at most MAX_HOPS. */
  ghost predicate HopsTaken(s: Setup, net: seq<Hop>, early: bool, hops: nat)
    requires |net| == MAX_HOPS
  {
    && hops <= MAX_HOPS && (early <==> hops == 0)
    && (forall k :: 0 <= k < hops - 1 ==> !Stops(s, net[k]))
    && (!early ==> hops == MAX_HOPS || Stops(s, net[hops - 1]))
  }

  // ---------------------------------------------------------------- the states a run goes through

  /** State n + 1 is reached from state n by one round over hop n. */
  ghost predicate IsRound(s: Setup, net: seq<Hop>, states: seq<Progress>, n: nat)
    requires n < |net| && n + 1 < |states| && n < MAX_HOPS
  {
    states[n + 1] == HopStep(s, n + 1, net[n], states[n])
  }

  ghost predicate IsTrace(s: Setup, net: seq<Hop>, states: seq<Progress>) {
    |net| == MAX_HOPS && |states| == MAX_HOPS + 1 && forall n :: 0 <= n < MAX_HOPS ==> IsRound(s, net, states, n)
  }

  /** The states in closed form. */
  ghost function Trace(s: Setup, base: PacketRow, net: seq<Hop>, alive: bool): (r: seq<Progress>)
    requires |net| == MAX_HOPS
    ensures |r| == MAX_HOPS + 1
  {
    seq(MAX_HOPS + 1, (n: nat) requires n <= MAX_HOPS && |net| == MAX_HOPS => RunState(s, base, net, n, alive))
  }

  lemma TraceIsTrace(s: Setup, base: PacketRow, net: seq<Hop>, alive: bool)
    requires |net| == MAX_HOPS
    ensures IsTrace(s, net, Trace(s, base, net, alive))
  {
    var states := Trace(s, base, net, alive);
    forall n | 0 <= n < MAX_HOPS
      ensures IsRound(s, net, states, n)
    {
      OneMoreHop(s, base, net, n, alive);
    }
  }

  /** The run leaves its loop in state `hops`: the first that is not alive, or the last there is. */
  ghost predicate Leaves(states: seq<Progress>, hops: nat)
    requires |states| == MAX_HOPS + 1
  {
    && hops <= MAX_HOPS
    && (forall n :: 0 <= n < hops ==> states[n].alive)
    && (hops == MAX_HOPS || !states[hops].alive)
  }

  lemma AliveThen(s: Setup, base: PacketRow, net: seq<Hop>, early: bool, n: nat)
    requires |net| == MAX_HOPS && n <= MAX_HOPS
    ensures Trace(s, base, net, !early)[n].alive <==> !early && forall k :: 0 <= k < n ==> !Stops(s, net[k])
  {
    QuietIs(s, net, n);
  }

  /** So it takes the number of hops it should. */
  lemma LeavesAfterHopsTaken(s: Setup, base: PacketRow, net: seq<Hop>, early: bool, hops: nat)
    requires |net| == MAX_HOPS && Leaves(Trace(s, base, net, !early), hops)
    ensures HopsTaken(s, net, early, hops)
  {
    var states := Trace(s, base, net, !early);
    AliveThen(s, base, net, early, hops);
    if hops > 0 {
      assert states[hops - 1].alive;
      AliveThen(s, base, net, early, hops - 1);
    }
  }

  /** How a run begins, and what it has come to when it ends. */
  lemma TraceBegins(s: Setup, base: PacketRow, net: seq<Hop>, alive: bool)
    requires |net| == MAX_HOPS
    ensures Trace(s, base, net, alive)[0] == Progress(base, s.dest, alive, 0, [], [])
  {
  }

  lemma TraceEnds(s: Setup, base: PacketRow, net: seq<Hop>, early: bool, hops: nat)
    requires s.Valid() && FirstRow(s, base) && |net| == MAX_HOPS && Leaves(Trace(s, base, net, !early), hops)
    ensures HopsTaken(s, net, early, hops)
    ensures var p := Trace(s, base, net, !early)[hops];
            && Carries(s, p.sent, Sends(s.dest, net, hops)) && p.out == Rows(net, hops)
            && p.freed == Blocks(Heard(net, hops))
  {
    LeavesAfterHopsTaken(s, base, net, early, hops);
    RunCarries(s, base, net, hops);
  }

  /** That number is determined by the network and the signals. */
  lemma HopsTakenUnique(s: Setup, net: seq<Hop>, early: bool, m: nat, n: nat)
    requires |net| == MAX_HOPS && HopsTaken(s, net, early, m) && HopsTaken(s, net, early, n)
    ensures m == n
  {
  }

  // ---------------------------------------------------------------- what a run is known to have done

  /** An answer that ends a run, by its bytes: its source address prints as the destination, or it is an
      ICMP message of type 0, an echo reply, and the run is in ICMP mode. */
  predicate Ends(s: Setup, a: Answer) {
    a.Reply? && (Dotted(a.bytes[12..16]) == Dotted(s.dest) || (s.icmp && a.bytes[20] == 0))
  }

  predicate EndsAt(s: Setup, hop: Hop) {
    hop.signal || Ends(s, hop.answers[0]) || Ends(s, hop.answers[1]) || Ends(s, hop.answers[2])
  }

  lemma StopsIff(s: Setup, hop: Hop)
    ensures Stops(s, hop) <==> EndsAt(s, hop)
  {
    forall i | 0 <= i < PROBES
      ensures Arrives(s, hop.answers[i]) <==> Ends(s, hop.answers[i])
    {
      if hop.answers[i].Reply? { DottedInjective(Source(hop.answers[i]), s.dest); }
    }
  }

  /** How many hops any run takes: none after an early signal, else up to and including the first with a signal
      or an answer that ends it, and 30 if there is none. */
  lemma RunEndsIff(s: Setup, net: seq<Hop>, early: bool, hops: nat)
    requires |net| == MAX_HOPS
    ensures HopsTaken(s, net, early, hops) <==>
            if early then hops == 0
            else
              && 1 <= hops <= 30 && (forall n :: 0 <= n < hops - 1 ==> !EndsAt(s, net[n]))
              && (hops < 30 ==> EndsAt(s, net[hops - 1]))
  {
    forall n | 0 <= n < MAX_HOPS
      ensures Stops(s, net[n]) <==> EndsAt(s, net[n])
    {
      StopsIff(s, net[n]);
    }
  }

  /** An answer is printed with the destination's address. */
  predicate Reached(s: Setup, hop: Hop) {
    exists i :: 0 <= i < PROBES && Named(s, hop.answers[i])
  }

  predicate Named(s: Setup, a: Answer) {
    a.Reply? && Dotted(a.bytes[12..16]) == Dotted(s.dest)
  }

  /** Without a signal, and by their printed addresses, a UDP run stops at exactly those hops where
      an answer comes from the destination. */
  lemma UdpStopsOnArrival(s: Setup, hop: Hop)
    requires !s.icmp && !hop.signal
    ensures Stops(s, hop) <==> Reached(s, hop)
  {
    StopsIff(s, hop);
    assert forall i :: 0 <= i < PROBES ==> (Named(s, hop.answers[i]) <==> Ends(s, hop.answers[i]));
  }

  /** So a UDP run without signals takes exactly as many hops as it needs to hear from the
      destination, and 30 if it never does. */
  lemma UdpRunStopsOnArrival(s: Setup, net: seq<Hop>, hops: nat)
    requires !s.icmp && |net| == MAX_HOPS && forall n :: 0 <= n < MAX_HOPS ==> !net[n].signal
    ensures HopsTaken(s, net, false, hops) <==>
      && 1 <= hops <= 30
      && (forall n :: 0 <= n < hops - 1 ==> !Reached(s, net[n]))
      && (hops < 30 ==> Reached(s, net[hops - 1]))
  {
    forall n | 0 <= n < MAX_HOPS
      ensures Stops(s, net[n]) <==> Reached(s, net[n])
    {
      UdpStopsOnArrival(s, net[n]);
    }
  }

  /** An answer is an echo reply, or is printed with the destination's address. */
  predicate Replied(s: Setup, hop: Hop) {
    exists i :: 0 <= i < PROBES && (Named(s, hop.answers[i]) || IsEchoReply(hop.answers[i]))
  }

  predicate IsEchoReply(a: Answer) {
    a.Reply? && a.bytes[20] == 0
  }

  /** And an ICMP run without signals as many as it needs to get an echo reply or an answer from the
      destination. In particular the routers on the way, whose answers have another type, do not end it. */
  lemma IcmpRunStopsOnReply(s: Setup, net: seq<Hop>, hops: nat)
    requires s.icmp && |net| == MAX_HOPS && forall n :: 0 <= n < MAX_HOPS ==> !net[n].signal
    ensures HopsTaken(s, net, false, hops) <==>
      && 1 <= hops <= 30
      && (forall n :: 0 <= n < hops - 1 ==> !Replied(s, net[n]))
      && (hops < 30 ==> Replied(s, net[hops - 1]))
  {
    forall n | 0 <= n < MAX_HOPS
      ensures Stops(s, net[n]) <==> Replied(s, net[n])
    {
      StopsIff(s, net[n]);
      assert forall i :: 0 <= i < PROBES ==>
               (Named(s, net[n].answers[i]) || IsEchoReply(net[n].answers[i]) <==> Ends(s, net[n].answers[i]));
    }
  }

  /** Datagram number k of a run, byte by byte, and in UDP mode its ports: they run through 33434, 33435, ...
      without repetition. */
  lemma RunDatagramAt(s: Setup, net: seq<Hop>, n: nat, sent: seq<Datagram>, k: nat)
    requires s.Valid() && n <= MAX_HOPS && n <= |net| && Carries(s, sent, Sends(s.dest, net, n)) && k < PROBES * n
    ensures |sent| == 3 * n && IsProbe(s, k / 3 + 1, k % 3, sent[k].packet)
    ensures !s.icmp ==> var p := sent[k].packet;
              256 * (p[20] as int) + p[21] == 256 * (p[22] as int) + p[23] == 33434 + k
  {
    SendIs(s.dest, net, n, k);
    assert IsSend(s, sent[k], Sends(s.dest, net, n)[k]);
    ProbeBytes(s, k / PROBES + 1, k % PROBES);
  }

  /** Every datagram is handed to the socket layer with the destination in its own header exactly if
      no answer before the last probe is reported to come from anywhere else. */
  lemma RunAimsRightIff(s: Setup, net: seq<Hop>, n: nat, sent: seq<Datagram>)
    requires s.Valid() && 0 < n <= MAX_HOPS && n <= |net| && Carries(s, sent, Sends(s.dest, net, n))
    ensures |sent| == PROBES * n == |Heard(net, n)| && forall k :: 0 <= k < |sent| ==> |sent[k].packet| == s.totalSize
    ensures (forall k :: 0 <= k < |sent| ==> sent[k].to == sent[k].packet[16..20]) <==>
            forall j :: 0 <= j < PROBES * n - 1 ==> Heard(net, n)[j].Timeout? || Heard(net, n)[j].from == s.dest
  {
    SendsAreRightIff(s.dest, net, n);
    forall k | 0 <= k < PROBES * n
      ensures |sent[k].packet| == s.totalSize && sent[k].packet[16..20] == s.dest
      ensures sent[k].to == Sends(s.dest, net, n)[k].to
    {
      RunDatagramAt(s, net, n, sent, k);
      assert IsSend(s, sent[k], Sends(s.dest, net, n)[k]);
    }
  }

  /** Every datagram of an ICMP run passes the checksum test at any receiver. */
  lemma RunDatagramVerifies(s: Setup, net: seq<Hop>, n: nat, sent: seq<Datagram>, k: nat)
    requires s.Valid() && n <= MAX_HOPS && n <= |net| && Carries(s, sent, Sends(s.dest, net, n)) && k < PROBES * n
    requires s.icmp
    ensures |sent| == PROBES * n && |sent[k].packet| == s.totalSize && NetChecksum(sent[k].packet[IP_HEADER..]) == 0
  {
    SendIs(s.dest, net, n, k);
    assert IsSend(s, sent[k], Sends(s.dest, net, n)[k]);
    ProbesVerify(s, k / PROBES + 1, k % PROBES);
  }
}
