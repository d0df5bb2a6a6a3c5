/** The server's receive counters, which all its connections share. */
module Totals {
  import opened Framing
  import opened Delivery

  /** The marks are what had been counted when the counters were last cleared. */
  datatype Server = Server(channels: seq<Channel>, packageCount: int, byteCount: int, packageMark: int, byteMark: int)

  const NO_CLIENTS := Server([], 0, 0, 0, 0)

  /** A new connection, a step of one of them, or the clearing of the counters. */
  datatype Happening = Connect | On(i: nat, event: Delivery.Event) | ClearAll

  /** The packages cut off in a step. */
  function Cut(c: Channel, e: Delivery.Event): Parsed {
    if e.Receive? && e.n <= |c.wire| && !c.crashed then Parse(c.rest + c.wire[..e.n]) else Parsed([], 0, false)
  }

  /** What the read callback has cut off since the connection began. */
  function Used(c: Channel): int {
    |c.arrived| - |c.rest|
  }

  function AllUsed(cs: seq<Channel>): int {
    if cs == [] then 0 else Used(cs[0]) + AllUsed(cs[1..])
  }

  function AllPackages(cs: seq<Channel>): int {
    if cs == [] then 0 else |cs[0].receipts.packages| + AllPackages(cs[1..])
  }

  function Next(s: Server, h: Happening): Server {
    match h
    case Connect => s.(channels := s.channels + [Delivery.START])
    case On(i, e) =>
      if i >= |s.channels| || e == Clear then s
      else
        var c := s.channels[i];
        s.(channels := s.channels[i := Delivery.Step(c, e)],
           packageCount := s.packageCount + |Cut(c, e).packages|, byteCount := s.byteCount + Cut(c, e).used)
    case ClearAll =>
      Server(s.channels, 0, 0, AllPackages(s.channels), AllUsed(s.channels))
  }

  function After(hs: seq<Happening>): Server {
    if hs == [] then NO_CLIENTS else Next(After(hs[..|hs| - 1]), hs[|hs| - 1])
  }

  lemma StepCounts(c: Channel, e: Delivery.Event)
    requires Delivery.Inv(c) && e != Clear
    ensures var d := Delivery.Step(c, e);
      && Delivery.Inv(d)
      && Used(d) == Used(c) + Cut(c, e).used
      && |d.receipts.packages| == |c.receipts.packages| + |Cut(c, e).packages|
  {
    hide Parse;
    StepKeepsInv(c, e);
    if e.Receive? && e.n <= |c.wire| {
      assert |c.rest + c.wire[..e.n]| == |c.rest| + e.n;
    }
  }

  lemma {:induction false} UpdateSums(cs: seq<Channel>, i: nat, d: Channel)
    requires i < |cs|
    ensures AllUsed(cs[i := d]) == AllUsed(cs) - Used(cs[i]) + Used(d)
    ensures AllPackages(cs[i := d]) == AllPackages(cs) - |cs[i].receipts.packages| + |d.receipts.packages|
    decreases |cs|
  {
    if i == 0 {
      assert cs[i := d][1..] == cs[1..];
    } else {
      UpdateSums(cs[1..], i - 1, d);
      assert cs[i := d][1..] == cs[1..][i - 1 := d];
    }
  }

  lemma {:induction false} AppendSums(cs: seq<Channel>)
    ensures AllUsed(cs + [Delivery.START]) == AllUsed(cs)
    ensures AllPackages(cs + [Delivery.START]) == AllPackages(cs)
  {
    if cs == [] {
      assert [] + [Delivery.START] == [Delivery.START];
      assert AllUsed([Delivery.START]) == Used(Delivery.START) + AllUsed([]);
    } else {
      AppendSums(cs[1..]);
      assert (cs + [Delivery.START])[1..] == cs[1..] + [Delivery.START];
    }
  }

  ghost predicate CountsInv(s: Server) {
    && (forall i | 0 <= i < |s.channels| :: Delivery.Inv(s.channels[i]))
    && s.byteCount + s.byteMark == AllUsed(s.channels)
    && s.packageCount + s.packageMark == AllPackages(s.channels)
  }

  lemma NextKeepsCounts(s: Server, h: Happening)
    requires CountsInv(s)
    ensures CountsInv(Next(s, h))
  {
    hide Delivery.Inv, Delivery.Step, Cut, Used;
    match h
    case Connect =>
      AppendSums(s.channels);
      Delivery.RunKeepsInv([]);
      Delivery.RunStart();
    case On(i, e) =>
      if i < |s.channels| && e != Clear {
        StepCounts(s.channels[i], e);
        UpdateSums(s.channels, i, Delivery.Step(s.channels[i], e));
      }
    case ClearAll =>
  }

  lemma {:induction false} RunKeepsCounts(hs: seq<Happening>)
    ensures CountsInv(After(hs))
  {
    if hs != [] {
      RunKeepsCounts(hs[..|hs| - 1]);
      NextKeepsCounts(After(hs[..|hs| - 1]), hs[|hs| - 1]);
    }
  }

  /** At any time, over all connections: bytes counted since the counters were cleared are the
      bytes received less the remainders in the read buffers, less what was counted before;
      and packages counted are those handed on since. */
  lemma SharedCounters(hs: seq<Happening>)
    ensures var s := After(hs);
      && s.byteCount == AllUsed(s.channels) - s.byteMark
      && s.packageCount == AllPackages(s.channels) - s.packageMark
  {
    RunKeepsCounts(hs);
  }

  /** The same between two clearings: what has been counted is what has come in since. */
  lemma CountedSinceClear(hs: seq<Happening>, later: seq<Happening>)
    requires ClearAll !in later
    ensures var s, t := After(hs + [ClearAll]), After(hs + [ClearAll] + later);
      && t.byteCount == AllUsed(t.channels) - AllUsed(s.channels)
      && t.packageCount == AllPackages(t.channels) - AllPackages(s.channels)
  {
    RunKeepsCounts(hs + [ClearAll] + later);
    MarksStay(hs + [ClearAll], later);
    assert (hs + [ClearAll])[..|hs|] == hs;
  }

  lemma {:induction false} MarksStay(hs: seq<Happening>, later: seq<Happening>)
    requires ClearAll !in later
    ensures After(hs + later).byteMark == After(hs).byteMark && After(hs + later).packageMark == After(hs).packageMark
    decreases |later|
  {
    if later == [] {
      assert hs + later == hs;
    } else {
      var n := |later| - 1;
      MarksStay(hs, later[..n]);
      assert (hs + later)[..|hs + later| - 1] == hs + later[..n];
      assert (hs + later)[|hs + later| - 1] == later[n];
      assert later[n] in later;
    }
  }
}
