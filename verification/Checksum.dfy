/** The internet checksum of RFC 1071. The program sums 16-bit words in the host's byte order
    into a 32-bit counter and folds the carries at the end; the standard adds words in network
    byte order with an end-around carry at every step. */
module Checksum {

  type Byte = x: int | 0 <= x < 256
  type Word16 = x: int | 0 <= x < 0x1_0000

  /** Byte order of the machine. */
  datatype Host = Little | Big

  /** The number a 16-bit load finds in two bytes, and the bytes a 16-bit store leaves. */
  function Load(h: Host, b0: Byte, b1: Byte): Word16 {
    if h.Little? then (b1 as int) * 256 + b0 else (b0 as int) * 256 + b1
  }

  function Store(h: Host, w: Word16): seq<Byte> {
    if h.Little? then [w % 256, w / 256] else [w / 256, w % 256]
  }

  function Swap(w: Word16): Word16 {
    (w % 256) * 256 + w / 256
  }

  // ---------------------------------------------------------------- the standard

  /** One's-complement addition of two 16-bit words: the carry comes back in at the right. */
  function PlusCarry(a: Word16, b: Word16): Word16 {
    if a + b >= 0x1_0000 then a + b - 0xffff else a + b
  }

  /** The one's-complement sum of a buffer (section 1): adjacent bytes are paired to words in
      network order, an odd last byte being followed by a zero byte. */
  function NetSum(b: seq<Byte>): Word16 {
    if |b| == 0 then 0
    else if |b| == 1 then 256 * (b[0] as int)
    else PlusCarry(256 * (b[0] as int) + b[1], NetSum(b[2..]))
  }

  /** The checksum the standard asks for. */
  function NetChecksum(b: seq<Byte>): Word16 {
    0xffff - NetSum(b)
  }

  /** The numerical example of the standard (section 3). */
  lemma StandardExample()
    ensures NetSum([0x00, 0x01, 0xf2, 0x03, 0xf4, 0xf5, 0xf6, 0xf7]) == 0xddf2
  {
    assert [0x00, 0x01, 0xf2, 0x03, 0xf4, 0xf5, 0xf6, 0xf7][2..] == [0xf2, 0x03, 0xf4, 0xf5, 0xf6, 0xf7];
    assert [0xf2, 0x03, 0xf4, 0xf5, 0xf6, 0xf7][2..] == [0xf4, 0xf5, 0xf6, 0xf7];
    assert [0xf4, 0xf5, 0xf6, 0xf7][2..] == [0xf6, 0xf7] && [0xf6, 0xf7][2..] == [];
    assert NetSum([0xf6, 0xf7]) == 0xf6f7;
    assert NetSum([0xf4, 0xf5, 0xf6, 0xf7]) == 0xebed;
  }

  // ---------------------------------------------------------------- the program

  /** The plain sum of the words the loop loads; an odd last byte is added as it is. */
  function Total(h: Host, b: seq<Byte>): nat {
    if |b| == 0 then 0
    else if |b| == 1 then b[0]
    else Load(h, b[0], b[1]) + Total(h, b[2..])
  }

  /** An unsigned 32-bit counter keeps a sum up to multiples of 2^32. */
  function Wrapped(t: nat): (r: nat)
    ensures r < 0x1_0000_0000
  {
    t % 0x1_0000_0000
  }

  lemma WrappedAdds(t: nat, w: nat)
    ensures Wrapped(Wrapped(t) + w) == Wrapped(t + w)
    ensures t < 0x1_0000_0000 ==> Wrapped(t) == t
  {
  }

  /** From the 32-bit counter to the result: add the upper half to the lower, add what that
      carries, complement the low 16 bits. */
  function Fold(sum: nat): Word16
    requires sum < 0x1_0000_0000
  {
    var s1 := sum / 0x1_0000 + sum % 0x1_0000;
    var s2 := s1 + s1 / 0x1_0000;
    0xffff - s2 % 0x1_0000
  }

  /** What the program computes over a buffer; the counter wraps at 32 bits. */
  function HostChecksum(h: Host, b: seq<Byte>): Word16 {
    Fold(Wrapped(Total(h, b)))
  }

  /** checksum(b + off, len). */
  method ComputeChecksum(h: Host, b: array<Byte>, off: nat, size: nat) returns (result: Word16)
    requires off + size <= b.Length
    ensures result == HostChecksum(h, b[off..off + size])
  {
    ghost var s := b[off..off + size];
    var sum, at, len := 0, off, size;
    ghost var exact := 0;
    while len > 1
      invariant 0 <= len <= size && at == off + size - len
      invariant 0 <= exact && sum == Wrapped(exact)
      invariant exact + Total(h, s[size - len..]) == Total(h, s)
    {
      ghost var t := s[size - len..];
      assert t[0] == b[at] && t[1] == b[at + 1] && t[2..] == s[size - len + 2..];
      var w := Load(h, b[at], b[at + 1]);
      WrappedAdds(exact, w);
      sum := Wrapped(sum + w);
      exact := exact + w;
      at := at + 2;
      len := len - 2;
    }
    if len == 1 {
      assert s[size - 1..] == [b[at]];
      WrappedAdds(exact, b[at]);
      sum := Wrapped(sum + b[at]);
    } else {
      assert s[size..] == [];
    }
    result := Fold(sum);
  }

  // ---------------------------------------------------------------- deferred carries

  /** The 16-bit one's-complement value of a plain sum: zero for zero only, else 1 to 65535. */
  function Reduce(t: nat): Word16 {
    if t == 0 then 0 else (t - 1) % 0xffff + 1
  }

  lemma ReduceAdds(w: Word16, t: nat)
    ensures Reduce(w + t) == PlusCarry(w, Reduce(t))
  {
    if t > 0 {
      var q, r := (t - 1) / 0xffff, (t - 1) % 0xffff;
      assert t - 1 == 0xffff * q + r;
      if w + r < 0xffff {
        ModIs(w + t - 1, q, w + r);
      } else {
        ModIs(w + t - 1, q + 1, w + r - 0xffff);
      }
    }
  }

  lemma ModIs(x: nat, q: nat, r: nat)
    requires x == 0xffff * q + r && r < 0xffff
    ensures x % 0xffff == r
  {
  }

  /** Folding twice undoes every deferred carry of a sum that fits the counter. */
  lemma FoldReduces(t: nat)
    requires t < 0x1_0000_0000
    ensures Fold(t) == 0xffff - Reduce(t)
  {
    var hi, lo := t / 0x1_0000, t % 0x1_0000;
    var s1 := hi + lo;
    assert t == 0xffff * hi + s1;
    if s1 == 0 {
    } else if s1 < 0x1_0000 {
      if s1 == 0xffff { ModIs(t - 1, hi, 0xfffe); } else { ModIs(t - 1, hi, s1 - 1); }
    } else {
      ModIs(t - 1, hi + 1, s1 - 1 - 0xffff);
    }
  }

  /** The plain sum fits the counter for every buffer of at most 65537 words. */
  lemma {:induction false} TotalFits(h: Host, b: seq<Byte>)
    ensures Total(h, b) <= 0xffff * ((|b| + 1) / 2)
  {
    if |b| > 1 { TotalFits(h, b[2..]); }
  }

  /** So there the program computes a one's-complement sum. */
  lemma NoOverflow(h: Host, b: seq<Byte>)
    requires |b| <= 2 * 65537
    ensures Total(h, b) < 0x1_0000_0000
    ensures HostChecksum(h, b) == 0xffff - Reduce(Total(h, b))
  {
    TotalIsSmall(h, b);
    WrappedAdds(Total(h, b), 0);
    FoldReduces(Total(h, b));
  }

  /** For any length an int can hold: exactly when it does, namely when no carry out of the counter is lost. */
  lemma SumIsRightIff(h: Host, b: seq<Byte>)
    requires |b| < 0x8000_0000
    ensures HostChecksum(h, b) == 0xffff - Reduce(Total(h, b)) <==> Total(h, b) < 0x1_0000_0000
  {
    var t := Total(h, b);
    TotalFits(h, b);
    FoldReduces(Wrapped(t));
    LostCarriesShow(t);
  }

  /** Up to 2^14 carries lost, each worth one modulo 65535, cannot cancel out. */
  lemma LostCarriesShow(t: nat)
    requires t <= 0xffff * 0x4000_0000
    ensures Reduce(Wrapped(t)) == Reduce(t) <==> t < 0x1_0000_0000
  {
    var lost, w := t / 0x1_0000_0000, Wrapped(t);
    assert t == w + lost + 0xffff * (65537 * lost);
    ReduceShift(w + lost, 65537 * lost);
    if lost > 0 { ReducesApart(w, lost); }
  }

  lemma ReduceShift(t: nat, q: nat)
    requires t > 0 || q == 0
    ensures Reduce(t + 0xffff * q) == Reduce(t)
  {
    if t > 0 {
      var k, r := (t - 1) / 0xffff, (t - 1) % 0xffff;
      ModIs(t + 0xffff * q - 1, k + q, r);
    }
  }

  lemma TotalIsSmall(h: Host, b: seq<Byte>)
    requires |b| <= 2 * 65537
    ensures Total(h, b) < 0x1_0000_0000
  {
    TotalFits(h, b);
  }

  function Ones(n: nat): seq<Byte> {
    seq(n, (i: nat) => 255)
  }

  lemma {:induction false} TotalOnes(h: Host, n: nat)
    ensures Total(h, Ones(2 * n)) == 0xffff * n
  {
    if n > 0 {
      assert Ones(2 * n)[2..] == Ones(2 * (n - 1));
      TotalOnes(h, n - 1);
    }
  }

  lemma {:induction false} NetSumOnes(n: nat)
    ensures NetSum(Ones(2 * n)) == if n == 0 then 0 else 0xffff
  {
    if n > 0 {
      assert Ones(2 * n)[2..] == Ones(2 * (n - 1));
      NetSumOnes(n - 1);
    }
  }

  /** The bound is the best one: with one word more the counter can lose a carry. */
  lemma OneWordMoreOverflows(h: Host, n: nat)
    requires n == 65538
    ensures HostChecksum(h, Ones(2 * n)) == 1 && NetChecksum(Ones(2 * n)) == 0
  {
    TotalOnes(h, n);
    NetSumOnes(n);
    assert Wrapped(0xffff * n) == 0xfffe;
    FoldReduces(0xfffe);
  }

  /** The standard's sum, carry by carry, is the reduced plain sum in network order. */
  lemma {:induction false} NetSumIsReduced(b: seq<Byte>)
    ensures NetSum(b) == Reduce(NetTotal(b))
  {
    if |b| > 1 {
      NetSumIsReduced(b[2..]);
      ReduceAdds(Load(Big, b[0], b[1]), NetTotal(b[2..]));
    }
  }

  function NetTotal(b: seq<Byte>): nat {
    if |b| == 0 then 0
    else if |b| == 1 then Load(Big, b[0], 0)
    else Load(Big, b[0], b[1]) + NetTotal(b[2..])
  }

  // ---------------------------------------------------------------- byte order

  /** How often 65535 goes into the difference the byte order makes. */
  function Excess(b: seq<Byte>): nat {
    if |b| == 0 then 0
    else if |b| == 1 then 0
    else b[1] + Excess(b[2..])
  }

  /** Reading words the other way round multiplies the sum by 256, modulo 65535. */
  lemma {:induction false} TotalsDiffer(b: seq<Byte>)
    ensures 256 * Total(Little, b) == NetTotal(b) + 0xffff * Excess(b)
    ensures NetTotal(b) == Total(Big, b) + (if |b| % 2 == 1 then 255 * (b[|b| - 1] as int) else 0)
    ensures NetTotal(b) == 0 <==> Total(Little, b) == 0
  {
    if |b| > 1 { TotalsDiffer(b[2..]); }
  }

  lemma SwapReduces(t: nat, n: nat, k: nat)
    requires 256 * t == n + 0xffff * k && (t == 0 <==> n == 0)
    ensures Swap(Reduce(t)) == Reduce(n)
  {
    if t > 0 {
      var q, r := (t - 1) / 0xffff, Reduce(t);
      assert t == 0xffff * q + r;
      var s := Swap(r);
      assert 256 * r == s + 0xffff * (r / 256);
      // n is congruent to s, and s is in 1 .. 65535
      assert n == s + 0xffff * (256 * q + r / 256 - k);
      ReduceIs(n, 256 * q + r / 256 - k, s);
    }
  }

  lemma ReduceIs(n: nat, q: int, s: nat)
    requires n > 0 && n == s + 0xffff * q && 1 <= s <= 0xffff
    ensures Reduce(n) == s
  {
    assert q >= 0;
    ModIs(n - 1, q, s - 1);
  }

  lemma SwapComplement(w: Word16)
    ensures Swap(0xffff - Swap(w)) == 0xffff - w
  {
  }

  lemma SwapStored(w: Word16)
    ensures Swap(Swap(w)) == w
    ensures Store(Little, Swap(w)) == Store(Big, w)
  {
  }

  lemma TotalIsSwapped(b: seq<Byte>)
    ensures Swap(NetChecksum(b)) == 0xffff - Reduce(Total(Little, b))
  {
    var t := Total(Little, b);
    NetSumIsReduced(b);
    TotalsDiffer(b);
    SwapReduces(t, NetTotal(b), Excess(b));
    SwapComplement(Reduce(t));
  }

  /** What a little-endian host computes is the byte swap of the standard's checksum exactly when its
      counter holds the plain sum. */
  lemma LittleEndianSwapsIff(b: seq<Byte>)
    requires |b| < 0x8000_0000
    ensures HostChecksum(Little, b) == Swap(NetChecksum(b)) <==> Total(Little, b) < 0x1_0000_0000
  {
    TotalIsSwapped(b);
    SumIsRightIff(Little, b);
  }

  lemma LittleEndianSwaps(b: seq<Byte>)
    requires |b| <= 2 * 65537
    ensures HostChecksum(Little, b) == Swap(NetChecksum(b))
  {
    TotalIsSmall(Little, b);
    LittleEndianSwapsIff(b);
  }

  /** Byte-order independence (section 2, part B): a little-endian host computes the byte swap of
      the standard's checksum, so storing it the host's way leaves the right bytes. */
  lemma LittleEndianIsRight(b: seq<Byte>)
    requires |b| <= 2 * 65537
    ensures HostChecksum(Little, b) == Swap(NetChecksum(b))
    ensures Store(Little, HostChecksum(Little, b)) == Store(Big, NetChecksum(b))
  {
    LittleEndianSwaps(b);
    SwapStored(NetChecksum(b));
  }

  /** There is no odd last byte, or it is zero. */
  predicate EndsEvenly(b: seq<Byte>) {
    |b| % 2 == 0 || b[|b| - 1] == 0
  }

  lemma BigEndianEqualsIff(b: seq<Byte>)
    requires |b| <= 2 * 65537
    ensures HostChecksum(Big, b) == NetChecksum(b) <==> EndsEvenly(b)
  {
    var t := Total(Big, b);
    NoOverflow(Big, b);
    NetSumIsReduced(b);
    TotalsDiffer(b);
    if !EndsEvenly(b) {
      ReducesApart(t, 255 * (b[|b| - 1] as int));
    }
  }

  /** A big-endian host adds an odd last byte in the wrong half of a word. It is right exactly
      when there is no such byte or the byte is zero. */
  lemma BigEndianIsRightIff(b: seq<Byte>)
    requires |b| <= 2 * 65537
    ensures Store(Big, HostChecksum(Big, b)) == Store(Big, NetChecksum(b)) <==> EndsEvenly(b)
  {
    BigEndianEqualsIff(b);
    StoreInjective(HostChecksum(Big, b), NetChecksum(b));
  }

  lemma StoreInjective(v: Word16, w: Word16)
    ensures Store(Big, v) == Store(Big, w) <==> v == w
  {
    assert Store(Big, v)[0] == v / 256 && Store(Big, v)[1] == v % 256;
    assert Store(Big, w)[0] == w / 256 && Store(Big, w)[1] == w % 256;
  }

  lemma ReducesApart(t: nat, d: nat)
    requires 0 < d < 0xffff
    ensures Reduce(t) != Reduce(t + d)
  {
    if t > 0 {
      var q, r := (t - 1) / 0xffff, (t - 1) % 0xffff;
      if r + d < 0xffff { ModIs(t + d - 1, q, r + d); } else { ModIs(t + d - 1, q + 1, r + d - 0xffff); }
    }
  }

  // ---------------------------------------------------------------- checking a received buffer

  /** The buffer with a checksum stored, the host's way, in the word at byte 2 * k. */
  function WithChecksum(h: Host, b: seq<Byte>, k: nat, c: Word16): seq<Byte>
    requires 2 * k + 2 <= |b|
  {
    b[..2 * k] + Store(h, c) + b[2 * k + 2..]
  }

  lemma {:induction false} TotalWithChecksum(h: Host, b: seq<Byte>, k: nat, c: Word16)
    requires 2 * k + 2 <= |b| && b[2 * k] == b[2 * k + 1] == 0
    ensures Total(h, WithChecksum(h, b, k, c)) == Total(h, b) + c
  {
    var w := WithChecksum(h, b, k, c);
    if k == 0 {
      assert w[2..] == b[2..] && w[0] == Store(h, c)[0] && w[1] == Store(h, c)[1];
    } else {
      assert w[2..] == WithChecksum(h, b[2..], k - 1, c) && w[0] == b[0] && w[1] == b[1];
      TotalWithChecksum(h, b[2..], k - 1, c);
    }
  }

  lemma CompletesToOnes(t: nat)
    ensures Reduce(t + (0xffff - Reduce(t))) == 0xffff
  {
    if t == 0 {
      ReduceIs(0xffff, 0, 0xffff);
    } else {
      var q := (t - 1) / 0xffff;
      assert t == 0xffff * q + Reduce(t);
      ReduceIs(t + (0xffff - Reduce(t)), q, 0xffff);
    }
  }

  /** Filling a zeroed word with the checksum makes a second computation return zero, whatever
      the buffer holds and whether its length is even or odd. */
  lemma ChecksumVerifies(h: Host, b: seq<Byte>, k: nat)
    requires 2 * k + 2 <= |b| <= 2 * 65537 && b[2 * k] == b[2 * k + 1] == 0
    ensures HostChecksum(h, WithChecksum(h, b, k, HostChecksum(h, b))) == 0
  {
    var t, c := Total(h, b), HostChecksum(h, b);
    NoOverflow(h, b);
    TotalWithChecksum(h, b, k, c);
    var w := WithChecksum(h, b, k, c);
    NoOverflow(h, w);
    CompletesToOnes(t);
  }

  /** Any receiver that follows the standard then finds the buffer intact, if the host read the
      words as the standard does. */
  lemma ReceiverAccepts(h: Host, b: seq<Byte>)
    requires |b| <= 2 * 65537 && HostChecksum(h, b) == 0
    requires h == Little || EndsEvenly(b)
    ensures NetChecksum(b) == 0
  {
    if h == Little {
      LittleEndianSwaps(b);
      SwapStored(NetChecksum(b));
    } else {
      BigEndianEqualsIff(b);
    }
  }
}
