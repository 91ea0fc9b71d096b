/** Probe packets: an IPv4 header, an ICMP echo or UDP header, and a payload, written field by
    field into a byte buffer and afterwards edited in place from hop to hop. */
module Packets {
  import opened Checksum

  const IP_HEADER: nat := 20
  const HEADERS: nat := 28
  const MAX_PACKET_SIZE: nat := 65000
  const MAX_HOPS: nat := 30
  const PROBES: nat := 3
  const UDP_PORT: nat := 33434

  type Address = a: seq<Byte> | |a| == 4 witness [0, 0, 0, 0]

  /** What does not change during a run. */
  datatype Setup = Setup(host: Host, icmp: bool, totalSize: nat, dest: Address) {
    predicate Valid() {
      HEADERS <= totalSize <= MAX_PACKET_SIZE
    }

    function PayloadSize(): nat
      requires Valid()
    {
      totalSize - HEADERS
    }
  }

  /** htons: a number whose host representation is the network representation of `w`. */
  function HToNS(h: Host, w: Word16): Word16 {
    if h.Little? then Swap(w) else w
  }

  lemma HToNSStores(h: Host, w: Word16)
    ensures Store(h, HToNS(h, w)) == Store(Big, w)
  {
    SwapStored(w);
  }

  // ---------------------------------------------------------------- closed forms

  function IpHeader(icmp: bool, ttl: Byte, dest: Address): (r: seq<Byte>)
    ensures |r| == IP_HEADER
  {
    [0x45, 0, 0, 0, 0, 0, 0, 0, ttl, if icmp then 1 else 17, 0, 0, 0, 0, 0, 0] + dest
  }

  /** Letters 'A' and a final zero byte. */
  function Payload(n: nat): (r: seq<Byte>)
    ensures |r| == n
  {
    seq(n, (i: nat) => if i == n - 1 then 0 else 65)
  }

  /** The ICMP message with its checksum field still zero. */
  function EchoUnsummed(h: Host, seqNo: Word16, n: nat): (r: seq<Byte>)
    ensures |r| == n + 8
  {
    [8, 0, 0, 0, 0, 0] + Store(h, seqNo) + Payload(n)
  }

  function Echo(h: Host, seqNo: Word16, n: nat): (r: seq<Byte>)
    ensures |r| == n + 8
  {
    var m := EchoUnsummed(h, seqNo, n);
    WithChecksum(h, m, 1, HostChecksum(h, m))
  }

  function Udp(portS: Word16, portD: Word16, n: nat): (r: seq<Byte>)
    requires n + 8 < 0x1_0000
    ensures |r| == n + 8
  {
    Store(Big, portS) + Store(Big, portD) + UdpRest(n)
  }

  function UdpRest(n: nat): (r: seq<Byte>)
    requires n + 8 < 0x1_0000
    ensures |r| == n + 4
  {
    Store(Big, n + 8) + [0, 0] + Payload(n)
  }

  /** What follows the IP header. */
  function Message(s: Setup, seqNo: Word16, port: Word16): (r: seq<Byte>)
    requires s.Valid()
    ensures |r| == s.totalSize - IP_HEADER
  {
    if s.icmp then Echo(s.host, seqNo, s.PayloadSize()) else Udp(port, port, s.PayloadSize())
  }

  /** A whole packet. The sequence number matters in ICMP mode only, the port in UDP mode only. */
  function Packet(s: Setup, ttl: Byte, seqNo: Word16, port: Word16): (r: seq<Byte>)
    requires s.Valid()
    ensures |r| == s.totalSize
  {
    IpHeader(s.icmp, ttl, s.dest) + Message(s, seqNo, port)
  }

  function Port(ttl: nat, i: nat): nat {
    UDP_PORT + i + (ttl - 1) * 3
  }

  /** Probe `i` of the hop with this ttl, whatever was sent before. */
  function Probe(s: Setup, ttl: nat, i: nat): seq<Byte>
    requires s.Valid() && 1 <= ttl <= MAX_HOPS && i < PROBES
  {
    Packet(s, ttl, 1, Port(ttl, i))
  }

  /** A packet edited for another hop: the ttl byte, and in UDP mode the two ports. */
  function Updated(q: seq<Byte>, s: Setup, ttl: nat, i: nat): (r: seq<Byte>)
    requires 1 <= ttl <= MAX_HOPS && i < PROBES && |q| >= HEADERS
    ensures |r| == |q|
  {
    var t: Byte := ttl;
    var r := q[8 := t];
    if s.icmp then r else r[..20] + Store(Big, Port(ttl, i)) + Store(Big, Port(ttl, i)) + r[24..]
  }

  // ---------------------------------------------------------------- what the closed forms promise

  /** Every ICMP probe of every hop carries a checksum that the program's own routine and any
      receiver following the standard accept, on either kind of host: the payload's final zero
      byte is what saves the big-endian host when the length is odd. */
  lemma ProbesVerify(s: Setup, ttl: nat, i: nat)
    requires s.Valid() && s.icmp && 1 <= ttl <= MAX_HOPS && i < PROBES
    ensures HostChecksum(s.host, Probe(s, ttl, i)[IP_HEADER..]) == 0
    ensures NetChecksum(Probe(s, ttl, i)[IP_HEADER..]) == 0
  {
    assert Probe(s, ttl, i)[IP_HEADER..] == Echo(s.host, 1, s.PayloadSize());
    EchoVerifies(s.host, 1, s.PayloadSize());
  }

  lemma EchoVerifies(h: Host, seqNo: Word16, n: nat)
    requires n + HEADERS <= MAX_PACKET_SIZE
    ensures HostChecksum(h, Echo(h, seqNo, n)) == 0 && NetChecksum(Echo(h, seqNo, n)) == 0
  {
    var m := EchoUnsummed(h, seqNo, n);
    assert m[2] == 0 && m[3] == 0;
    ChecksumVerifies(h, m, 1);
    EchoEndsEvenly(h, seqNo, n);
    ReceiverAccepts(h, Echo(h, seqNo, n));
  }

  lemma EchoEndsEvenly(h: Host, seqNo: Word16, n: nat)
    ensures EndsEvenly(Echo(h, seqNo, n))
  {
    var e := Echo(h, seqNo, n);
    if n > 0 {
      assert e[|e| - 1] == EchoUnsummed(h, seqNo, n)[n + 7] == Payload(n)[n - 1];
    }
  }

  /** Two probes of one run differ in the ttl byte and, in UDP mode, the two port fields only. */
  lemma ProbesDifferOnlyIn(s: Setup, t1: nat, i1: nat, t2: nat, i2: nat, k: nat)
    requires s.Valid() && 1 <= t1 <= MAX_HOPS && 1 <= t2 <= MAX_HOPS && i1 < PROBES && i2 < PROBES
    requires k < s.totalSize && k != 8 && (s.icmp || !(20 <= k < 24))
    ensures Probe(s, t1, i1)[k] == Probe(s, t2, i2)[k]
  {
    if !s.icmp && k >= 24 {
      var n := s.PayloadSize();
      assert forall port: Word16 :: Udp(port, port, n)[k - 20] == UdpRest(n)[k - 24];
    }
  }

  /** The header's destination is the resolved address at every hop. */
  lemma ProbeDestination(s: Setup, ttl: nat, i: nat)
    requires s.Valid() && 1 <= ttl <= MAX_HOPS && i < PROBES
    ensures Probe(s, ttl, i)[8] == ttl && Probe(s, ttl, i)[16..20] == s.dest
  {
    var h := IpHeader(s.icmp, ttl, s.dest);
    assert Probe(s, ttl, i)[16..20] == h[16..20] == s.dest;
  }

  /** In UDP mode the ports of the probes of a run are 33434, 33435, ... in order of sending:
      all different, source equal to destination, and within 16 bits. */
  lemma PortsAreConsecutive(s: Setup, k: nat)
    requires s.Valid() && !s.icmp && k < MAX_HOPS * PROBES
    ensures Port(k / PROBES + 1, k % PROBES) == UDP_PORT + k < 0x1_0000
    ensures Probe(s, k / PROBES + 1, k % PROBES)[20..22] == Store(Big, UDP_PORT + k)
    ensures Probe(s, k / PROBES + 1, k % PROBES)[22..24] == Store(Big, UDP_PORT + k)
  {
    var p := Probe(s, k / PROBES + 1, k % PROBES);
    var u := Udp(UDP_PORT + k, UDP_PORT + k, s.PayloadSize());
    assert p[20..] == u;
    assert p[20..22] == p[20..][0..2] && p[22..24] == p[20..][2..4];
    assert u[0..2] == Store(Big, UDP_PORT + k) && u[2..4] == Store(Big, UDP_PORT + k);
  }

  // ---------------------------------------------------------------- a probe, byte by byte

  lemma IpBytes(icmp: bool, ttl: Byte, dest: Address, rest: seq<Byte>)
    ensures var p := IpHeader(icmp, ttl, dest) + rest;
            && p[0] == 0x45 && (forall k :: 1 <= k < 8 ==> p[k] == 0) && p[8] == ttl
            && p[9] == (if icmp then 1 else 17) && (forall k :: 10 <= k < 16 ==> p[k] == 0)
            && p[16..20] == dest && p[20..] == rest
  {
    var h := IpHeader(icmp, ttl, dest);
    assert (h + rest)[16..20] == h[16..20] == dest;
  }

  lemma PayloadBytes(front: seq<Byte>, n: nat)
    ensures forall k :: |front| <= k < |front| + n ==>
              (front + Payload(n))[k] == if k == |front| + n - 1 then 0 else 'A' as int
  {
  }

  lemma EchoBytes(h: Host, seqNo: Word16, n: nat)
    ensures var m := Echo(h, seqNo, n);
            && m[0] == 8 && m[1] == 0 && m[4] == m[5] == 0 && [m[6], m[7]] == Store(h, seqNo)
            && forall k :: 8 <= k < n + 8 ==> m[k] == if k == n + 7 then 0 else 'A' as int
  {
    var u, front := EchoUnsummed(h, seqNo, n), [8, 0, 0, 0, 0, 0] + Store(h, seqNo);
    PayloadBytes(front, n);
    assert forall k :: 0 <= k < n + 8 && !(2 <= k < 4) ==> Echo(h, seqNo, n)[k] == u[k];
    assert u == front + Payload(n) && u[6] == Store(h, seqNo)[0] && u[7] == Store(h, seqNo)[1];
  }

  lemma UdpBytes(port: Word16, n: nat)
    requires n + 8 < 0x1_0000
    ensures var m := Udp(port, port, n);
            && 256 * (m[0] as int) + m[1] == 256 * (m[2] as int) + m[3] == port
            && 256 * (m[4] as int) + m[5] == n + 8 && m[6] == m[7] == 0
            && forall k :: 8 <= k < n + 8 ==> m[k] == if k == n + 7 then 0 else 'A' as int
  {
    var ports, front := Store(Big, port) + Store(Big, port), Store(Big, n + 8) + [0, 0];
    PayloadBytes(ports + front, n);
    assert Udp(port, port, n) == (ports + front) + Payload(n);
  }

  /** What the bytes of a probe are, at their places in the headers of RFC 791, RFC 792 and RFC 768. (For
      the ICMP checksum, bytes 22 and 23, see `ProbesVerify`.) */
  ghost predicate IsProbe(s: Setup, ttl: nat, i: nat, p: seq<Byte>) {
    && |p| == s.totalSize >= 28
    && p[0] == 0x45 && (forall k :: 1 <= k < 8 ==> p[k] == 0) && p[8] == ttl
    && p[9] == (if s.icmp then 1 else 17) && (forall k :: 10 <= k < 16 ==> p[k] == 0) && p[16..20] == s.dest
    && (s.icmp ==> p[20] == 8 && p[21] == 0 && p[24] == p[25] == 0 &&
                   (if s.host.Little? then p[26] == 1 && p[27] == 0 else p[26] == 0 && p[27] == 1))
    && (!s.icmp ==> 256 * (p[20] as int) + p[21] == 256 * (p[22] as int) + p[23] == 33434 + 3 * (ttl - 1) + i &&
                    256 * (p[24] as int) + p[25] == s.totalSize - 20 && p[26] == p[27] == 0)
    && forall k :: 28 <= k < s.totalSize ==> p[k] == if k == s.totalSize - 1 then 0 else 'A' as int
  }

  lemma ProbeBytes(s: Setup, ttl: nat, i: nat)
    requires s.Valid() && 1 <= ttl <= MAX_HOPS && i < PROBES
    ensures IsProbe(s, ttl, i, Probe(s, ttl, i))
  {
    var p, n, m := Probe(s, ttl, i), s.PayloadSize(), Message(s, 1, Port(ttl, i));
    IpBytes(s.icmp, ttl, s.dest, m);
    assert forall k :: 0 <= k < |m| ==> p[20 + k] == m[k];
    if s.icmp { EchoBytes(s.host, 1, n); } else { UdpBytes(Port(ttl, i), n); }
    forall k | 28 <= k < s.totalSize
      ensures p[k] == if k == s.totalSize - 1 then 0 else 'A' as int
    {
      assert p[k] == m[k - 20];
    }
  }

  // ---------------------------------------------------------------- writing into the buffer

  /** ft_memset on part of a buffer. */
  method MemSet(p: array<Byte>, off: nat, c: Byte, n: nat)
    requires off + n <= p.Length
    modifies p
    ensures forall k :: off <= k < off + n ==> p[k] == c
    ensures forall k :: 0 <= k < p.Length && !(off <= k < off + n) ==> p[k] == old(p[k])
  {
    var left := n;
    while left != 0
      invariant 0 <= left <= n
      invariant forall k :: off <= k < off + n - left ==> p[k] == c
      invariant forall k :: 0 <= k < p.Length && !(off <= k < off + n - left) ==> p[k] == old(p[k])
    {
      p[off + n - left] := c;
      left := left - 1;
    }
  }

  /** Assign a 16-bit field the host's way. */
  method Put16(p: array<Byte>, off: nat, h: Host, w: Word16)
    requires off + 2 <= p.Length
    modifies p
    ensures p[..] == old(p[..off]) + Store(h, w) + old(p[off + 2..])
  {
    ghost var was := p[..];
    var bytes := Store(h, w);
    p[off] := bytes[0];
    p[off + 1] := bytes[1];
    assert p[..] == was[off := bytes[0]][off + 1 := bytes[1]];
  }

  /** The fields of the IP header up to ttl, and those behind it. */
  method FillIpStart(p: array<Byte>, ttl: Byte)
    requires p.Length >= IP_HEADER
    modifies p
    ensures p[..9] == [0x45, 0, 0, 0, 0, 0, 0, 0, ttl] && p[9..] == old(p[9..])
  {
    p[0] := 5 + 16 * 4;                 // ihl, version
    p[1] := 0;                          // tos
    p[2], p[3] := 0, 0;                 // tot_len
    p[4], p[5] := 0, 0;                 // id
    p[6], p[7] := 0, 0;                 // frag_off
    p[8] := ttl;
  }

  method FillIpRest(p: array<Byte>, protocol: Byte, dest: Address)
    requires p.Length >= IP_HEADER
    modifies p
    ensures p[..9] == old(p[..9]) && p[9..16] == [protocol, 0, 0, 0, 0, 0, 0]
    ensures p[16..IP_HEADER] == dest && p[IP_HEADER..] == old(p[IP_HEADER..])
  {
    p[9] := protocol;
    p[10], p[11] := 0, 0;               // check
    p[12], p[13], p[14], p[15] := 0, 0, 0, 0;                          // saddr
    p[16], p[17], p[18], p[19] := dest[0], dest[1], dest[2], dest[3];  // daddr
  }

  /** construct_ip_header. */
  method ConstructIpHeader(p: array<Byte>, icmp: bool, ttl: Byte, dest: Address)
    requires p.Length >= IP_HEADER
    modifies p
    ensures p[..] == IpHeader(icmp, ttl, dest) + old(p[IP_HEADER..])
  {
    FillIpStart(p, ttl);
    ghost var rest := p[9..];
    FillIpRest(p, if icmp then 1 else 17, dest);
    assert rest[11..] == old(p[IP_HEADER..]);
    assert p[..] == p[..9] + p[9..16] + p[16..IP_HEADER] + p[IP_HEADER..];
  }

  /** The fields construct_icmp_header writes before the checksum. */
  method FillEcho(p: array<Byte>, h: Host, seqNo: Word16, payloadSize: nat)
    requires p.Length == HEADERS + payloadSize && p[22] == p[23] == 0
    requires p[HEADERS..] == Payload(payloadSize)
    modifies p
    ensures p[..] == old(p[..IP_HEADER]) + EchoUnsummed(h, seqNo, payloadSize)
  {
    ghost var ip := p[..IP_HEADER];
    p[20] := 8;                         // type
    p[21] := 0;                         // code
    p[24], p[25] := 0, 0;               // id
    assert p[20..26] == [8, 0, 0, 0, 0, 0] && p[28..] == Payload(payloadSize) && p[..20] == ip;
    Put16(p, 26, h, seqNo);
    assert p[20..26] == [8, 0, 0, 0, 0, 0] && p[26..28] == Store(h, seqNo);
    assert p[..] == p[..20] + (p[20..26] + p[26..28] + p[28..]);
  }

  /** construct_icmp_header on a zeroed header followed by the payload. The checksum is computed
      while its own field is zero. */
  method ConstructIcmpHeader(p: array<Byte>, h: Host, seqNo: Word16, payloadSize: nat)
    requires p.Length == HEADERS + payloadSize && p[22] == p[23] == 0
    requires p[HEADERS..] == Payload(payloadSize)
    modifies p
    ensures p[..] == old(p[..IP_HEADER]) + Echo(h, seqNo, payloadSize)
  {
    ghost var ip := p[..IP_HEADER];
    ghost var m := EchoUnsummed(h, seqNo, payloadSize);
    FillEcho(p, h, seqNo, payloadSize);
    assert p[IP_HEADER..IP_HEADER + payloadSize + 8] == m;
    var c := ComputeChecksum(h, p, IP_HEADER, payloadSize + 8);
    StoredIn(ip, m, h, c);
    assert p[..22] == (ip + m)[..22] && p[24..] == (ip + m)[24..];
    Put16(p, 22, h, c);
  }

  lemma StoredIn(ip: seq<Byte>, m: seq<Byte>, h: Host, c: Word16)
    requires |ip| == IP_HEADER && |m| >= 8
    ensures (ip + m)[..22] + Store(h, c) + (ip + m)[24..] == ip + WithChecksum(h, m, 1, c)
  {
    assert (ip + m)[..22] == ip + m[..2];
    assert (ip + m)[24..] == m[4..];
  }

  /** Assign both port fields, source first. */
  method PutPorts(p: array<Byte>, h: Host, portS: Word16, portD: Word16)
    requires p.Length >= 24
    modifies p
    ensures p[..] == old(p[..20]) + Store(Big, portS) + Store(Big, portD) + old(p[24..])
  {
    HToNSStores(h, portS);
    HToNSStores(h, portD);
    ghost var was := p[..];
    Put16(p, 20, h, HToNS(h, portS));
    assert p[..22] == was[..20] + Store(Big, portS) && p[24..] == was[24..];
    Put16(p, 22, h, HToNS(h, portD));
  }

  /** construct_udp_header in front of the payload. */
  method ConstructUdpHeader(p: array<Byte>, h: Host, portS: Word16, portD: Word16, payloadSize: nat)
    requires p.Length == HEADERS + payloadSize && payloadSize + 8 < 0x1_0000
    requires p[HEADERS..] == Payload(payloadSize)
    modifies p
    ensures p[..] == old(p[..IP_HEADER]) + Udp(portS, portD, payloadSize)
  {
    ghost var was := p[..];
    PutPorts(p, h, portS, portD);
    assert p[..24] == was[..20] + Store(Big, portS) + Store(Big, portD) && p[26..] == was[26..];
    Put16(p, 24, h, HToNS(h, payloadSize + 8));
    HToNSStores(h, payloadSize + 8);
    assert p[..26] == was[..20] + Store(Big, portS) + Store(Big, portD) + Store(Big, payloadSize + 8);
    assert p[28..] == was[28..] == Payload(payloadSize);
    p[26], p[27] := 0, 0;               // check
    assert p[..26] == was[..20] + Store(Big, portS) + Store(Big, portD) + Store(Big, payloadSize + 8);
    assert p[..] == p[..26] + [0, 0] + p[28..];
  }

  /** construct_packet. */
  method ConstructPacket(s: Setup, ttl: Byte, index: nat) returns (p: array<Byte>)
    requires s.Valid() && index < PROBES
    ensures fresh(p) && p[..] == Packet(s, ttl, ttl, UDP_PORT + index)
  {
    p := new Byte[s.totalSize];
    var payloadSize := s.PayloadSize();
    var offset := s.totalSize - payloadSize;
    MemSet(p, 0, 0, s.totalSize);
    MemSet(p, offset, 65, payloadSize);
    p[s.totalSize - 1] := 0;
    assert p[HEADERS..] == Payload(payloadSize);
    ConstructIpHeader(p, s.icmp, ttl, s.dest);
    assert p[HEADERS..] == Payload(payloadSize) && p[22] == p[23] == 0;
    assert p[..IP_HEADER] == IpHeader(s.icmp, ttl, s.dest);
    if s.icmp {
      ConstructIcmpHeader(p, s.host, ttl, payloadSize);
    } else {
      ConstructUdpHeader(p, s.host, UDP_PORT + index, UDP_PORT + index, payloadSize);
    }
  }

  lemma SetTtl(s: Setup, ttl0: Byte, ttl: Byte, seqNo: Word16, port: Word16)
    requires s.Valid()
    ensures Packet(s, ttl0, seqNo, port)[8 := ttl] == Packet(s, ttl, seqNo, port)
  {
    assert IpHeader(s.icmp, ttl0, s.dest)[8 := ttl] == IpHeader(s.icmp, ttl, s.dest);
  }

  lemma SetPorts(s: Setup, ttl: Byte, seqNo: Word16, port0: Word16, port: Word16)
    requires s.Valid() && !s.icmp
    ensures var q := Packet(s, ttl, seqNo, port0);
            q[..20] + Store(Big, port) + Store(Big, port) + q[24..] == Packet(s, ttl, seqNo, port)
  {
    var q, n := Packet(s, ttl, seqNo, port0), s.PayloadSize();
    assert q[..20] == IpHeader(s.icmp, ttl, s.dest);
    assert q[24..] == UdpRest(n) by {
      assert q[24..] == Udp(port0, port0, n)[4..];
    }
  }

  lemma IcmpIgnoresPort(s: Setup, ttl: Byte, seqNo: Word16, p1: Word16, p2: Word16)
    requires s.Valid() && s.icmp
    ensures Packet(s, ttl, seqNo, p1) == Packet(s, ttl, seqNo, p2)
  {
  }

  /** The body of update_packets: new ttl, and in UDP mode new ports. */
  method UpdatePacket(p: array<Byte>, s: Setup, ttl: nat, i: nat)
    requires 1 <= ttl <= MAX_HOPS && i < PROBES && p.Length >= HEADERS
    modifies p
    ensures p[..] == Updated(old(p[..]), s, ttl, i)
  {
    ghost var was := p[..];
    p[8] := ttl;
    ghost var t: Byte := ttl;
    assert p[..] == was[8 := t];
    if !s.icmp {
      var newPortD := UDP_PORT + i + (ttl - 1) * 3;
      var newPortS := UDP_PORT + i + (ttl - 1) * 3;
      assert p[..20] == p[..][..20] && p[24..] == p[..][24..];
      PutPorts(p, s.host, newPortS, newPortD);
    }
  }

  /** Whatever hop a probe was made for, updating it makes the probe of the new hop. */
  lemma UpdatedIsProbe(s: Setup, ttl0: nat, ttl: nat, i: nat)
    requires s.Valid() && 1 <= ttl0 <= MAX_HOPS && 1 <= ttl <= MAX_HOPS && i < PROBES
    ensures Updated(Probe(s, ttl0, i), s, ttl, i) == Probe(s, ttl, i)
  {
    SetTtl(s, ttl0, ttl, 1, Port(ttl0, i));
    if s.icmp {
      IcmpIgnoresPort(s, ttl, 1, Port(ttl0, i), Port(ttl, i));
    } else {
      SetPorts(s, ttl, 1, Port(ttl0, i), Port(ttl, i));
    }
  }
}
