/** The program from its command line to its end. */
module Traceroute {
  import opened CStrings
  import opened Checksum
  import opened Packets
  import opened HopSpec
  import opened Hops
  import opened Parsing

  /** What a run has done when the program ends. */
  ghost predicate Ended(t: Tracer, net: seq<Hop>, early: bool, hops: nat)
    requires |net| == MAX_HOPS
    reads t, t.heap
  {
    && t.setup.Valid() && HopsTaken(t.setup, net, early, hops)
    && Carries(t.setup, t.sent, Sends(t.setup.dest, net, hops)) && t.out == Rows(net, hops)
    && t.heap.Valid() && t.heap.home.Keys == {t.destIp, t.inputDest}
    && |t.heap.freed| == PROBES + 1 + Blocks(Heard(net, hops))
  }

  /** main behind parse_dest. */
  method Trace(setup: Setup, name: array<char>, net: seq<Hop>, early: bool) returns (t: Tracer, hops: nat)
    requires setup.Valid() && Terminated(name) && |net| == MAX_HOPS
    ensures t.setup == setup && Ended(t, net, early, hops)
    ensures Terminated(t.inputDest) && Text(t.inputDest) == Text(name)
  {
    t := TestDest(setup, name);
    hops := t.Run(net, early);
  }

  /** main. A command line that is not accepted ends the program before anything is sent; otherwise
      the run over the given network is the one it should be, and leaves nothing allocated but the
      two strings that describe the destination. */
  method Program(argv: seq<array<char>>, hosts: map<string, Address>, host: Host, net: seq<Hop>, early: bool)
    returns (outcome: Outcome, t: Tracer?, hops: nat)
    requires AllText(argv) && |net| == MAX_HOPS
    ensures outcome == Understood(Args(argv), hosts, host)
    ensures t == null <==> !outcome.Accepted?
    ensures t != null ==> t.setup == outcome.setup && Ended(t, net, early, hops)
    ensures t != null ==>
              && 0 < outcome.place < |argv| && Terminated(t.inputDest) && Text(t.inputDest) == Text(argv[outcome.place])
  {
    outcome := ParseDest(argv, hosts, host);
    t, hops := null, 0;
    if outcome.Accepted? {
      AcceptedIsValid(Args(argv), hosts, host);
      t, hops := Trace(outcome.setup, argv[outcome.place], net, early);
    }
  }
}
