/** IPv4 addresses as text. The program compares addresses by their printed form, which is as
    good as comparing the addresses because no two print alike. */
module Addresses {
  import opened CStrings
  import opened Packets
  import Numbers
  import Words

  /** The dotted-decimal form inet_ntop gives an IPv4 address. */
  function Dotted(a: Address): string {
    Words.Join(Parts(a), '.')
  }

  function Parts(a: Address): seq<string> {
    [Numbers.Decimal(a[0]), Numbers.Decimal(a[1]), Numbers.Decimal(a[2]), Numbers.Decimal(a[3])]
  }

  lemma PartsHaveNoDots(a: Address)
    ensures forall i :: 0 <= i < 4 ==> Parts(a)[i] != "" && '.' !in Parts(a)[i] && NUL !in Parts(a)[i]
  {
    forall i | 0 <= i < 4
      ensures '.' !in Parts(a)[i] && NUL !in Parts(a)[i]
    {
      Numbers.DecimalReadsBack(a[i]);
    }
  }

  /** No two addresses have the same text: splitting it at the dots and parsing the parts gives
      the address back. */
  lemma DottedInjective(a: Address, b: Address)
    ensures Dotted(a) == Dotted(b) <==> a == b
  {
    if Dotted(a) == Dotted(b) {
      PartsHaveNoDots(a);
      PartsHaveNoDots(b);
      Words.SplitJoin(Parts(a), '.');
      Words.SplitJoin(Parts(b), '.');
      assert Parts(a) == Parts(b);
      forall i | 0 <= i < 4
        ensures a[i] == b[i]
      {
        assert Parts(a)[i] == Parts(b)[i];
        Numbers.DecimalInjective(a[i], b[i]);
      }
    }
  }

  /** An address prints as its four bytes in decimal, first byte first, with a dot between any two. */
  lemma DottedParts(a: Address)
    ensures |Words.Split(Dotted(a), '.')| == 4
    ensures forall i :: 0 <= i < 4 ==>
              var piece := Words.Split(Dotted(a), '.')[i];
              (forall k :: 0 <= k < |piece| ==> '0' <= piece[k] <= '9') && Numbers.Value(piece) == a[i]
  {
    PartsHaveNoDots(a);
    Words.SplitJoin(Parts(a), '.');
    forall i | 0 <= i < 4
      ensures forall k :: 0 <= k < |Parts(a)[i]| ==> Numbers.IsDigit(Parts(a)[i][k])
      ensures Numbers.Value(Parts(a)[i]) == a[i]
    {
      Numbers.DecimalReadsBack(a[i]);
    }
  }

  /** For instance. */
  lemma DottedExample()
    ensures Dotted([10, 0, 2, 1]) == "10.0.2.1"
  {
    assert Numbers.Decimal(1) == "1" && Numbers.Decimal(10) == "10";
    assert Numbers.Decimal(0) == "0" && Numbers.Decimal(2) == "2";
    assert Parts([10, 0, 2, 1]) == ["10", "0", "2", "1"];
    assert Words.Join(["2", "1"], '.') == "2.1";
    assert Words.Join(["0", "2", "1"], '.') == "0.2.1";
  }

  lemma {:induction false} JoinHasNoNul(ws: seq<string>, c: char)
    requires c != NUL && forall i :: 0 <= i < |ws| ==> NUL !in ws[i]
    ensures NUL !in Words.Join(ws, c)
  {
    if |ws| > 1 { JoinHasNoNul(ws[1..], c); }
  }

  /** The text is a C string. */
  lemma DottedIsText(a: Address)
    ensures NUL !in Dotted(a)
  {
    PartsHaveNoDots(a);
    JoinHasNoNul(Parts(a), '.');
  }
}
