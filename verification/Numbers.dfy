/** Printing and parsing of 32-bit integers. */
module Numbers {
  import opened CStrings

  const INT_MIN: int := -0x8000_0000
  const INT_MAX: int := 0x7fff_ffff

  /** int: 32 bits, two's complement. */
  type Int32 = n: int | INT_MIN <= n <= INT_MAX

  /** C's division by ten, which truncates toward zero. */
  function Quot10(n: int): int {
    if n >= 0 then n / 10 else -(-n / 10)
  }

  /** C's remainder by ten, which takes the sign of the dividend. */
  function Rem10(n: int): int {
    n - 10 * Quot10(n)
  }

  /** What converting to int, and to long long, does with a number out of range. */
  function Wrap32(x: int): Int32 {
    (x + 0x8000_0000) % 0x1_0000_0000 - 0x8000_0000
  }

  function Wrap64(x: int): (r: int)
    ensures -0x8000_0000_0000_0000 <= r < 0x8000_0000_0000_0000
  {
    (x + 0x8000_0000_0000_0000) % 0x1_0000_0000_0000_0000 - 0x8000_0000_0000_0000
  }

  // ---------------------------------------------------------------- decimal notation

  predicate IsDigit(c: char) {
    '0' <= c <= '9'
  }

  function Digit(d: nat): char
    requires d < 10
  {
    (d + 48) as char
  }

  /** Decimal notation, most significant digit first, without leading zeros. */
  function Decimal(n: nat): (s: string)
    ensures s != ""
  {
    if n < 10 then [Digit(n)] else Decimal(n / 10) + [Digit(n % 10)]
  }

  /** Signed decimal notation. */
  function Notation(n: int): string {
    if n < 0 then "-" + Decimal(-n) else Decimal(n)
  }

  /** The number a string of digits stands for. */
  function Value(s: string): nat
    requires forall i :: 0 <= i < |s| ==> IsDigit(s[i])
  {
    if s == "" then 0 else
      assert IsDigit(s[|s| - 1]);
      10 * Value(s[..|s| - 1]) + (s[|s| - 1] as int - 48)
  }

  /** Decimal notation has only digits, no leading zero, and the value it was made from. */
  lemma {:induction false} DecimalReadsBack(n: nat)
    ensures forall i :: 0 <= i < |Decimal(n)| ==> IsDigit(Decimal(n)[i])
    ensures Value(Decimal(n)) == n
    ensures n > 0 ==> Decimal(n)[0] != '0'
  {
    var s := Decimal(n);
    if n < 10 {
      assert Value(s[..0]) == 0;
    } else {
      DecimalReadsBack(n / 10);
      assert s[..|s| - 1] == Decimal(n / 10);
    }
  }

  lemma DecimalSteps(n: nat)
    ensures n < 10 ==> Decimal(n) == [Digit(n)]
    ensures n >= 10 ==> Decimal(n) == Decimal(Quot10(n)) + [Digit(Rem10(n))]
  {
  }

  lemma DecimalInjective(m: nat, n: nat)
    requires Decimal(m) == Decimal(n)
    ensures m == n
  {
    DecimalReadsBack(m);
    DecimalReadsBack(n);
  }

  // ---------------------------------------------------------------- parsing

  predicate IsBlank(c: char) {
    c == '\t' || c as int == 12 || c as int == 11 || c == '\n' || c == '\r' || c == ' '
  }

  function SkipBlanks(s: string): string {
    if s != "" && IsBlank(s[0]) then SkipBlanks(s[1..]) else s
  }

  /** The longest prefix of digits. */
  function Digits(s: string): (d: string)
    ensures |d| <= |s|
    ensures forall i :: 0 <= i < |d| ==> IsDigit(d[i])
  {
    if s == "" || !IsDigit(s[0]) then "" else [s[0]] + Digits(s[1..])
  }

  /** The integer at the front of a string: blanks, at most one sign, digits. */
  function Leading(s: string): int {
    var t := SkipBlanks(s);
    if t == "" then 0
    else if t[0] == '-' then -(Value(Digits(t[1..])) as int)
    else if t[0] == '+' then Value(Digits(t[1..]))
    else Value(Digits(t))
  }

  /** Parsing inverts printing on every integer. */
  lemma NotationReadsBack(n: int)
    ensures Leading(Notation(n)) == n
  {
    var m := if n < 0 then -n else n;
    var d := Decimal(m);
    DecimalReadsBack(m);
    AllDigits(d);
    assert IsDigit(d[0]);
    if n < 0 {
      assert Notation(n)[1..] == d;
    }
  }

  lemma {:induction false} AllDigits(s: string)
    requires forall i :: 0 <= i < |s| ==> IsDigit(s[i])
    ensures Digits(s) == s
  {
    if s != "" {
      AllDigits(s[1..]);
      assert s == [s[0]] + s[1..];
    }
  }

  /** `Digits` is pinned down by what stops it. */
  lemma {:induction false} DigitsUnique(s: string, n: nat)
    requires n <= |s| && (forall i :: 0 <= i < n ==> IsDigit(s[i]))
    requires n == |s| || !IsDigit(s[n])
    ensures Digits(s) == s[..n]
  {
    if n > 0 {
      DigitsUnique(s[1..], n - 1);
      assert s[..n] == [s[0]] + s[1..][..n - 1];
    }
  }

  lemma {:induction false} SkipBlanksAt(s: string, n: nat)
    requires n <= |s| && (forall i :: 0 <= i < n ==> IsBlank(s[i]))
    requires n == |s| || !IsBlank(s[n])
    ensures SkipBlanks(s) == s[n..]
  {
    if n > 0 {
      SkipBlanksAt(s[1..], n - 1);
      assert s[1..][n - 1..] == s[n..];
    }
  }

  lemma LeadingAt(t: string, b: nat)
    requires b <= |t| && SkipBlanks(t) == t[b..]
    ensures b < |t| && t[b] == '-' ==> Leading(t) == -(Value(Digits(t[b + 1..])) as int)
    ensures b < |t| && t[b] == '+' ==> Leading(t) == Value(Digits(t[b + 1..]))
    ensures b == |t| || (t[b] != '-' && t[b] != '+') ==> Leading(t) == Value(Digits(t[b..]))
  {
    if b < |t| {
      assert t[b..][1..] == t[b + 1..];
    } else {
      assert Digits(t[b..]) == "";
    }
  }

  lemma LeadingBehindBlanks(blanks: string, t: string)
    requires forall i :: 0 <= i < |blanks| ==> IsBlank(blanks[i])
    requires t == "" || !IsBlank(t[0])
    ensures Leading(blanks + t) == Leading(t)
  {
    SkipBlanksAt(blanks + t, |blanks|);
    SkipBlanksAt(t, 0);
    assert (blanks + t)[|blanks|..] == t == t[0..];
  }

  lemma DigitsThenRest(digits: string, rest: string)
    requires (forall i :: 0 <= i < |digits| ==> IsDigit(digits[i])) && (rest == "" || !IsDigit(rest[0]))
    ensures Digits(digits + rest) == digits
  {
    DigitsUnique(digits + rest, |digits|);
    assert (digits + rest)[..|digits|] == digits;
  }

  lemma LeadingSigned(sign: string, tail: string)
    requires sign == "+" || sign == "-"
    ensures Leading(sign + tail) == if sign == "-" then -(Value(Digits(tail)) as int) else Value(Digits(tail))
  {
    SkipBlanksAt(sign + tail, 0);
    assert SkipBlanks(sign + tail) == sign + tail;
    assert (sign + tail)[1..] == tail;
  }

  lemma LeadingUnsigned(tail: string)
    requires tail != "" ==> !IsBlank(tail[0]) && tail[0] !in "+-"
    ensures Leading(tail) == Value(Digits(tail))
  {
    SkipBlanksAt(tail, 0);
  }

  lemma BlankCodes(c: char)
    ensures IsBlank(c) <==> c as int in {9, 10, 11, 12, 13, 32}
  {
  }

  lemma TailBegins(digits: string, rest: string)
    requires forall i :: 0 <= i < |digits| ==> IsDigit(digits[i])
    requires rest != "" && digits == "" ==> !IsBlank(rest[0]) && rest[0] !in "+-"
    ensures var t := digits + rest; t != "" ==> !IsBlank(t[0]) && t[0] !in "+-"
  {
    if digits != "" { assert (digits + rest)[0] == digits[0] && IsDigit(digits[0]); }
  }

  /** What is read from any string, cut into its blanks, its sign, its digits and the rest. The six blanks
      are written out; a string without digits there is read as zero. */
  lemma LeadingIs(blanks: string, sign: string, digits: string, rest: string)
    requires forall i :: 0 <= i < |blanks| ==> blanks[i] as int in {9, 10, 11, 12, 13, 32}
    requires sign == "" || sign == "+" || sign == "-"
    requires forall i :: 0 <= i < |digits| ==> '0' <= digits[i] <= '9'
    requires rest != "" ==> !('0' <= rest[0] <= '9')
    requires rest != "" && sign == "" && digits == "" ==> rest[0] as int !in {9, 10, 11, 12, 13, 32} && rest[0] !in "+-"
    ensures Leading(blanks + (sign + (digits + rest))) == if sign == "-" then -(Value(digits) as int) else Value(digits)
  {
    DigitsThenRest(digits, rest);
    forall i | 0 <= i < |blanks| ensures IsBlank(blanks[i]) { BlankCodes(blanks[i]); }
    if sign == "" {
      if rest != "" { BlankCodes(rest[0]); }
      TailBegins(digits, rest);
      assert sign + (digits + rest) == digits + rest;
      LeadingUnsigned(digits + rest);
      LeadingBehindBlanks(blanks, digits + rest);
    } else {
      assert !IsBlank((sign + (digits + rest))[0]);
      LeadingSigned(sign, digits + rest);
      LeadingBehindBlanks(blanks, sign + (digits + rest));
    }
  }

  /** Going through the 64-bit accumulator does not change what arrives in 32 bits. */
  lemma WrapThrough(x: int)
    ensures Wrap32(Wrap64(x)) == Wrap32(x)
    ensures Wrap32(-Wrap64(x)) == Wrap32(-x)
    ensures Wrap32(Wrap64(-Wrap64(x))) == Wrap32(-x)
  {
    var k := (x + 0x8000_0000_0000_0000) / 0x1_0000_0000_0000_0000;
    assert Wrap64(x) == x - k * 0x1_0000_0000_0000_0000;
    WrapShift(x, -k * 0x1_0000_0000);
    WrapShift(-x, k * 0x1_0000_0000);
    var y := -Wrap64(x);
    var j := (y + 0x8000_0000_0000_0000) / 0x1_0000_0000_0000_0000;
    assert Wrap64(y) == y - j * 0x1_0000_0000_0000_0000;
    WrapShift(y, -j * 0x1_0000_0000);
  }

  lemma WrapShift(x: int, k: int)
    ensures Wrap32(x + k * 0x1_0000_0000) == Wrap32(x)
  {
    var q, r := (x + 0x8000_0000) / 0x1_0000_0000, (x + 0x8000_0000) % 0x1_0000_0000;
    assert x + k * 0x1_0000_0000 + 0x8000_0000 == (q + k) * 0x1_0000_0000 + r;
  }

  lemma WrapIsCongruent(x: int)
    ensures (Wrap32(x) - x) % 0x1_0000_0000 == 0
  {
    var q := (x + 0x8000_0000) / 0x1_0000_0000;
    assert Wrap32(x) - x == -q * 0x1_0000_0000;
  }

  lemma Wrap64Step(a: int, d: int)
    ensures Wrap64(10 * Wrap64(a) + d) == Wrap64(10 * a + d)
  {
    var k := (a + 0x8000_0000_0000_0000) / 0x1_0000_0000_0000_0000;
    assert Wrap64(a) == a - k * 0x1_0000_0000_0000_0000;
    var x := 10 * a + d;
    var q, r := (x + 0x8000_0000_0000_0000) / 0x1_0000_0000_0000_0000, (x + 0x8000_0000_0000_0000) % 0x1_0000_0000_0000_0000;
    assert 10 * Wrap64(a) + d + 0x8000_0000_0000_0000 == (q - 10 * k) * 0x1_0000_0000_0000_0000 + r;
  }

  /** ft_atoi. The accumulator is a long long, taken to wrap around, and is cut to int at the end. */
  method AtoI(str: array<char>) returns (n: Int32)
    requires Terminated(str)
    ensures n == Wrap32(Leading(Text(str)))
    ensures (n - Leading(Text(str))) % 0x1_0000_0000 == 0
  {
    WrapIsCongruent(Leading(Text(str)));
    ghost var t := Text(str);
    var i := 0;
    while IsBlank(str[i])
      invariant i <= |t| && forall k :: 0 <= k < i ==> IsBlank(t[k])
      decreases |t| - i
    {
      i := i + 1;
    }
    SkipBlanksAt(t, i);
    LeadingAt(t, i);
    var p := str[i] == '-';
    if str[i] == '+' || str[i] == '-' {
      i := i + 1;
    }
    ghost var v := Value(Digits(t[i..]));
    assert Leading(t) == if p then -(v as int) else v;
    if 'a' <= str[i] <= 'z' || 'A' <= str[i] <= 'Z' {
      assert Digits(t[i..]) == "";
      return 0;
    }
    var r := ReadDigits(str, i);
    n := Signed(p, r, v);
  }

  /** The end of ft_atoi: apply the sign to the accumulator and cut it to an int. */
  method Signed(p: bool, r: int, ghost v: nat) returns (n: Int32)
    requires r == Wrap64(v)
    ensures n == Wrap32(if p then -(v as int) else v)
  {
    WrapThrough(v);
    if p {
      n := Wrap32(Wrap64(-r));
    } else {
      n := Wrap32(r);
    }
  }

  /** The accumulating loop of ft_atoi. */
  method ReadDigits(str: array<char>, from: nat) returns (r: int)
    requires Terminated(str) && from <= |Text(str)|
    ensures r == Wrap64(Value(Digits(Text(str)[from..])))
  {
    ghost var t := Text(str)[from..];
    r := 0;
    var i := 0;
    assert t[..0] == "";
    while str[from + i] <= '9' && str[from + i] >= '0'
      invariant i <= |t| && forall k :: 0 <= k < i ==> IsDigit(t[k])
      invariant r == Wrap64(Value(t[..i]))
      decreases |t| - i
    {
      assert t[..i + 1][..i] == t[..i];
      Wrap64Step(Value(t[..i]), t[i] as int - 48);
      r := Wrap64(10 * r + (str[from + i] as int - 48));
      i := i + 1;
    }
    DigitsUnique(t, i);
  }

  // ---------------------------------------------------------------- printing

  function Abs(n: int): nat {
    if n < 0 then -n else n
  }

  /** The last `width` digits of `n`, with leading zeros. */
  function Fixed(n: nat, width: nat): (s: string)
    ensures |s| == width
  {
    if width == 0 then "" else Fixed(n / 10, width - 1) + [Digit(n % 10)]
  }

  lemma {:induction false} FixedIsDecimal(n: nat)
    ensures Fixed(n, |Decimal(n)|) == Decimal(n)
    ensures Fixed(n, |Decimal(n)| + 1) == "0" + Decimal(n)
  {
    if n < 10 {
      assert Fixed(n, 1) == Fixed(n / 10, 0) + [Digit(n)];
      assert Fixed(n, 2) == Fixed(0, 1) + [Digit(n)];
      assert Fixed(0, 1) == Fixed(0, 0) + ['0'];
    } else {
      FixedIsDecimal(n / 10);
    }
  }

  /** ft_count_integer: the number of decimal digits, sign not counted. */
  method CountInteger(n: Int32) returns (cpt: nat)
    ensures cpt == |Decimal(Abs(n))|
  {
    cpt := 0;
    if n == 0 { cpt := 1; }
    var m: int := n;
    while m != 0
      invariant n == 0 ==> m == 0 && cpt == 1
      invariant n != 0 ==> cpt + (if m == 0 then 0 else |Decimal(Abs(m))|) == |Decimal(Abs(n))|
      decreases Abs(m)
    {
      m := Quot10(m);
      cpt := cpt + 1;
    }
  }

  /** The loop of ft_itoa, from the last digit to the first. */
  method FillDigits(ret: array<char>, n: nat, width: nat)
    requires width < ret.Length
    modifies ret
    ensures ret[..width] == Fixed(n, width)
    ensures forall k :: width <= k < ret.Length ==> ret[k] == old(ret[k])
  {
    ghost var all := Fixed(n, width);
    var nb, cpt := n, width;
    assert all[..cpt] == all;
    while cpt != 0
      invariant 0 <= cpt <= width && nb >= 0
      invariant forall k :: cpt <= k < width ==> ret[k] == all[k]
      invariant forall k :: width <= k < ret.Length ==> ret[k] == old(ret[k])
      invariant all[..cpt] == Fixed(nb, cpt)
    {
      assert all[..cpt][..cpt - 1] == all[..cpt - 1];
      assert all[cpt - 1] == all[..cpt][cpt - 1];
      ret[cpt - 1] := (Rem10(nb) + 48) as char;
      nb := Quot10(nb);
      cpt := cpt - 1;
    }
  }

  /** ft_itoa: a block exactly as long as the notation and its terminator, filled from the right.
      For a negative number the last digit written is a zero that the sign then replaces. */
  method IToA(n: Int32) returns (ret: array<char>)
    ensures fresh(ret) && Terminated(ret) && Text(ret) == Notation(n)
    ensures ret.Length == |Notation(n)| + 1
  {
    var cpt := CountInteger(n);
    var nb: int := n;
    var neg := false;
    if nb < 0 {
      neg := true;
      cpt := cpt + 1;
      nb := -nb;
    }
    FixedIsDecimal(nb);
    ret := StrNew(cpt);
    FillDigits(ret, nb, cpt);
    if neg { ret[0] := '-'; }
    assert ret[..cpt] == Notation(n);
    NotationIsText(n);
    TextIs(ret, Notation(n));
  }

  lemma NotationIsText(n: int)
    ensures NUL !in Notation(n)
  {
    DecimalReadsBack(Abs(n));
  }

  function Pow10(w: nat): nat {
    if w == 0 then 1 else 10 * Pow10(w - 1)
  }

  /** A non-zero digit put in front of a fixed-width number. */
  lemma {:induction false} LeadingDigit(d: nat, m: nat, w: nat)
    requires 1 <= d <= 9 && m < Pow10(w)
    ensures Decimal(d * Pow10(w) + m) == [Digit(d)] + Fixed(m, w)
  {
    if w > 0 {
      var p := Pow10(w - 1);
      PowPositive(w - 1);
      ScaleUp(d, p);
      LeadingDigit(d, m / 10, w - 1);
      DecimalOf(d * p + m / 10, m % 10, d * Pow10(w) + m);
    }
  }

  lemma {:induction false} PowPositive(w: nat)
    ensures Pow10(w) >= 1
  {
    if w > 0 { PowPositive(w - 1); }
  }

  lemma DecimalOf(tens: nat, ones: nat, n: nat)
    requires tens > 0 && ones < 10 && n == 10 * tens + ones
    ensures Decimal(n) == Decimal(tens) + [Digit(ones)]
  {
  }

  lemma ScaleUp(d: nat, p: nat)
    requires d >= 1
    ensures d * p >= p && d * (10 * p) == 10 * (d * p)
  {
    assert d * p == (d - 1) * p + p;
  }

  lemma {:induction false} DecimalLength(n: nat, w: nat)
    requires w >= 1 && Pow10(w - 1) <= n < Pow10(w)
    ensures |Decimal(n)| == w
  {
    if w > 1 {
      PowPositive(w - 2);
      DecimalLength(n / 10, w - 1);
    }
  }

  lemma TenToTheNinth()
    ensures Pow10(8) == 100000000 && Pow10(9) == 1000000000
  {
    assert Pow10(3) == 1000;
    assert Pow10(6) == 1000 * Pow10(3);
    assert Pow10(8) == 100 * Pow10(6);
  }

  /** The least int, whose absolute value is no int, printed as a sign, a 2 and the rest. */
  lemma LeastInt(n: int, rest: nat, w: nat)
    requires n == -2147483648 && rest == -(n + 2000000000) && w == 9
    ensures Notation(n) == "-2" + Decimal(rest)
  {
    TenToTheNinth();
    DecimalLength(rest, w);
    FixedIsDecimal(rest);
    LeadingDigit(2, rest, w);
    assert -n == 2 * Pow10(w) + rest;
  }

  lemma ThreeDigits(n: nat, a: nat, b: nat, c: nat)
    requires n > 0 && a < 10 && b < 10 && c < 10
    ensures Decimal(1000 * n + 100 * a + 10 * b + c) == Decimal(n) + [Digit(a), Digit(b), Digit(c)]
  {
    DecimalOf(n, a, 10 * n + a);
    DecimalOf(10 * n + a, b, 100 * n + 10 * a + b);
    DecimalOf(100 * n + 10 * a + b, c, 1000 * n + 100 * a + 10 * b + c);
  }

  /** In full. */
  lemma LeastIntText()
    ensures Notation(-2147483648) == "-2147483648"
  {
    ThreeDigits(2, 1, 4, 7);
    ThreeDigits(2147, 4, 8, 3);
    ThreeDigits(2147483, 6, 4, 8);
  }

  lemma SignFirst(was: string, sign: string, n: int, nb: nat)
    requires Notation(n) == sign + Decimal(nb)
    ensures (was + sign) + Decimal(nb) == was + Notation(n)
    ensures sign == "-2" ==> was + ['-'] + ['2'] == was + sign
  {
  }

  /** Standard output. */
  class Console {
    var out: string

    constructor ()
      ensures out == ""
    {
      out := "";
    }

    method PutChar(c: char)
      modifies this
      ensures out == old(out) + [c]
    {
      out := out + [c];
    }

    /** The first half of ft_putnbr: print the sign, and the first digit of the least int,
        whose absolute value is no int. */
    method PutSign(n: Int32) returns (nb: Int32)
      modifies this
      ensures nb >= 0 && out + Decimal(nb) == old(out) + Notation(n)
      ensures n >= 0 ==> nb == n
    {
      nb := n;
      if nb == -2147483648 {
        PutChar('-');
        PutChar('2');
        nb := -(nb + 2000000000);  // 147483648
        LeastInt(n, nb, 9);
        SignFirst(old(out), "-2", n, nb);
      } else if nb < 0 {
        PutChar('-');
        nb := nb * (-1);
        SignFirst(old(out), "-", n, nb);
      }
    }

    /** ft_putnbr: the same characters as ft_itoa. */
    method PutNbr(n: Int32)
      modifies this
      ensures out == old(out) + Notation(n)
      decreases if n < 0 then 1 else 0, Abs(n)
    {
      var nb := PutSign(n);
      ghost var was := out;
      DecimalSteps(nb);
      if nb >= 10 {
        PutNbr(Quot10(nb));
        PutChar((Rem10(nb) + 48) as char);
      } else if nb < 10 {
        PutChar((nb + 48) as char);
      }
      assert out == was + Decimal(nb);
    }
  }

  /** Printing a number into a block and parsing the block gives the number back. */
  method PrintThenParse(n: Int32) returns (m: Int32)
    ensures m == n
  {
    var s := IToA(n);
    NotationReadsBack(n);
    m := AtoI(s);
  }
}
