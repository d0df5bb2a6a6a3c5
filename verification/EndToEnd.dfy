/** A conversation between two applications: the sender's connection, the server's handling, and
    the receiver's connection together. */
module EndToEnd {
  import opened Bytes
  import opened Records
  import opened Dispatch
  import opened Relay
  import opened Sdk
  import D = Delivery
  import F = Framing
  import RT = RoundTrip

  /** The circumstances in which the server handles one package: the database's and the clock's
      answers, and what lies behind the package in memory. */
  datatype Stop = Stop(world: World, behind: seq<byte>)

  /** The bytes of the packages sent to one connection, in order. */
  function BytesTo(sent: seq<Packet>, cfd: int): seq<seq<byte>> {
    if sent == [] then []
    else
      var last := sent[|sent| - 1];
      BytesTo(sent[..|sent| - 1], cfd) + (if last.cfd == cfd then [last.bytes] else [])
  }

  lemma {:induction false} BytesToPackages(sent: seq<Packet>, cfd: int)
    ensures |BytesTo(sent, cfd)| == PackagesTo(sent, cfd)
    ensures forall b | b in BytesTo(sent, cfd) :: exists p :: p in sent && p.bytes == b
  {
    if sent != [] {
      var earlier, last := sent[..|sent| - 1], sent[|sent| - 1];
      BytesToPackages(earlier, cfd);
      forall b | b in BytesTo(sent, cfd) ensures exists p :: p in sent && p.bytes == b {
        if b in BytesTo(earlier, cfd) {
          var p :| p in earlier && p.bytes == b;
          assert p in sent;
        } else {
          assert last in sent && last.bytes == b;
        }
      }
    }
  }

  /** What the server sends to the connection to while it handles the packages of cfd one
      after the other. */
  function Outbox(online: Online, cfd: int, packages: seq<seq<byte>>, stops: seq<Stop>, to: int): seq<seq<byte>>
    requires |packages| == |stops|
  {
    if packages == [] then []
    else
      var n := |packages| - 1;
      var effect := Handled(stops[n].world, online, cfd, packages[n] + stops[n].behind, |packages[n]|);
      Outbox(online, cfd, packages[..n], stops[..n], to) + (if effect.None? then [] else BytesTo(effect.value.sent, to))
  }

  /** The server gets through the message m and finds the user among its receivers once. */
  predicate GoesTo(m: Msg, stop: Stop, userId: int32) {
    && 2 * MsgSize(m) + |stop.behind| <= INT_MAX && m.fixed.head.dataType == C2S_DATA_MSG
    && AtServer(m, stop.behind).Some?
    && m.fixed.sender != userId
    && if m.fixed.isGroup then RowsOf(stop.world.members(m.fixed.receiver), userId) == 1 else m.fixed.receiver == userId
  }

  /** The bytes sent on for the message m. */
  function Sent(m: Msg, stop: Stop): seq<byte> {
    match AtServer(m, stop.behind)
    case None => []
    case Some(x) => EncodeMsg(Relayed(stop.world, m, x))
  }

  lemma AtServerIff(m: Msg, behind: seq<byte>)
    ensures AtServer(m, behind).None? <==>
      if |m.text| <= 126 then m.extend == [] && 0 !in behind else RT.Seen(AsWritten, |m.text| + 1) < -34
  {
  }

  /** Handling one such message puts exactly its bytes into the user's outbox, which the
      receiver's interface makes into what is shown of it. */
  lemma OneForTheUser(m: Msg, stop: Stop, online: Online, cfd: int, userId: int32, callbacks: set<int32>,
                      behindReceiver: seq<byte>)
    requires OneUserPerConnection(online) && CfdOf(online, userId) > 0 && GoesTo(m, stop, userId)
    requires S2C_DATA_MSG in callbacks
    ensures var package := Serialized(Chat(m));
      var effect := Handled(stop.world, online, cfd, package + stop.behind, |package|);
      effect.Some? && BytesTo(effect.value.sent, online[userId]) == [Sent(m, stop)]
    ensures Sent(m, stop) != []
    ensures Noticed(callbacks, Sent(m, stop) + behindReceiver, |Sent(m, stop)|) ==
      Shown(stop.world, m, stop.behind, behindReceiver)
  {
    hide Serialized, EncodeMsg, Handled, Noticed, Shown, AtServer, Relayed, BytesTo, PackagesTo;
    RelayLostIff(stop.world, online, cfd, m, stop.behind);
    AtServerIff(m, stop.behind);
    GoesWhereAddressed(stop.world, online, cfd, m, stop.behind, userId);
    var package := Serialized(Chat(m));
    var sent := Handled(stop.world, online, cfd, package + stop.behind, |package|).value.sent;
    BytesToPackages(sent, online[userId]);
    var mine := BytesTo(sent, online[userId]);
    assert mine[0] in mine;
    var p :| p in sent && p.bytes == mine[0];
    ChatShown(stop.world, online, cfd, callbacks, m, stop.behind, behindReceiver, p);
  }

  function AsChats(ms: seq<Msg>): (r: seq<Message>)
    ensures |r| == |ms| && forall i | 0 <= i < |ms| :: r[i] == Chat(ms[i])
  {
    seq(|ms|, i requires 0 <= i < |ms| => Chat(ms[i]))
  }

  predicate AllGoTo(ms: seq<Msg>, stops: seq<Stop>, userId: int32) {
    |ms| == |stops| && forall i | 0 <= i < |ms| :: GoesTo(ms[i], stops[i], userId)
  }

  lemma {:induction false} OutboxOfChats(ms: seq<Msg>, packages: seq<seq<byte>>, stops: seq<Stop>, online: Online,
                                         cfd: int, userId: int32)
    requires |packages| == |ms| && forall i | 0 <= i < |ms| :: packages[i] == Serialized(Chat(ms[i]))
    requires OneUserPerConnection(online) && CfdOf(online, userId) > 0 && AllGoTo(ms, stops, userId)
    ensures var out := Outbox(online, cfd, packages, stops, online[userId]);
      |out| == |ms| && forall i | 0 <= i < |ms| :: out[i] == Sent(ms[i], stops[i])
    decreases |ms|
  {
    hide Serialized, Handled, GoesTo, Sent, BytesTo, OneUserPerConnection, Outbox, Noticed, Shown;
    OutboxGrows(online, cfd, packages, stops, online[userId]);
    if ms != [] {
      var n := |ms| - 1;
      OutboxOfChats(ms[..n], packages[..n], stops[..n], online, cfd, userId);
      OneForTheUser(ms[n], stops[n], online, cfd, userId, {S2C_DATA_MSG}, []);
    }
  }

  lemma OutboxGrows(online: Online, cfd: int, packages: seq<seq<byte>>, stops: seq<Stop>, to: int)
    requires |packages| == |stops|
    ensures packages == [] ==> Outbox(online, cfd, packages, stops, to) == []
    ensures packages != [] ==>
      var n := |packages| - 1;
      var effect := Handled(stops[n].world, online, cfd, packages[n] + stops[n].behind, |packages[n]|);
      Outbox(online, cfd, packages, stops, to) ==
        Outbox(online, cfd, packages[..n], stops[..n], to)
        + (if effect.None? then [] else BytesTo(effect.value.sent, to))
  {
    hide Handled, BytesTo;
  }

  /** Nothing of a direction is still buffered or on the wire. */
  predicate Drained(c: D.Channel) {
    c.buf == [] && c.wire == []
  }

  /** One payload accepted, sent and received through a drained channel. */
  lemma OnePayload(c: D.Channel, p: F.Payload)
    requires D.Inv(c) && Drained(c)
    ensures var n := |F.Frame(p)|;
      var d := D.Step(D.Step(D.Step(c, D.Append(p)), D.Transmit(n)), D.Receive(n));
      d.accepted == c.accepted + [p] && Drained(d)
  {
    hide F.Frame, F.Parse, F.Rest;
    F.FrameShape(p);
    assert c.buf + F.Frame(p) == F.Frame(p) && c.wire + F.Frame(p) == F.Frame(p);
    assert F.Frame(p)[..|F.Frame(p)|] == F.Frame(p);
  }

  /** Any payloads can go through a connection, so the runs spoken of below exist. */
  lemma {:induction false} SomeRunDelivers(ps: seq<F.Payload>) returns (events: seq<D.Event>)
    ensures D.Run(events).accepted == ps && Drained(D.Run(events))
  {
    hide D.Run, D.Step, D.Inv, F.Frame;
    if ps == [] {
      events := [];
      D.RunStart();
    } else {
      var earlier, p := ps[..|ps| - 1], ps[|ps| - 1];
      var before := SomeRunDelivers(earlier);
      var n := |F.Frame(p)|;
      D.RunKeepsInv(before);
      OnePayload(D.Run(before), p);
      D.RunOneMore(before, D.Append(p));
      D.RunOneMore(before + [D.Append(p)], D.Transmit(n));
      D.RunOneMore(before + [D.Append(p)] + [D.Transmit(n)], D.Receive(n));
      events := before + [D.Append(p)] + [D.Transmit(n)] + [D.Receive(n)];
      assert ps == earlier + [p];
    }
  }

  /** Messages that a client's interface sends over its connection, in whatever pieces, and that
      go to one user, directly or through groups, reach that user's application, one notice
      each, in the order in which the server handles them: each as Shown says of it alone. */
  lemma ChatsArriveInOrder(up: seq<D.Event>, down: seq<D.Event>, ms: seq<Msg>, stops: seq<Stop>, online: Online,
                           cfd: int, userId: int32, callbacks: set<int32>, behindReceiver: seq<seq<byte>>)
    requires AllGoTo(ms, stops, userId) && |behindReceiver| == |ms| && S2C_DATA_MSG in callbacks
    requires OneUserPerConnection(online) && CfdOf(online, userId) > 0
    requires Sendable(AsChats(ms)) && D.Run(up).accepted == Payloads(AsChats(ms)) && Drained(D.Run(up))
    requires D.Run(down).accepted == Outbox(online, cfd, Payloads(AsChats(ms)), stops, online[userId])
    requires Drained(D.Run(down))
    ensures D.Run(up).receipts.packages == Payloads(AsChats(ms))
    ensures var packages := D.Run(down).receipts.packages;
      && |packages| == |ms|
      && forall i | 0 <= i < |ms| ::
           Noticed(callbacks, packages[i] + behindReceiver[i], |packages[i]|) ==
             Shown(stops[i].world, ms[i], stops[i].behind, behindReceiver[i])
  {
    hide Serialized, Handled, Noticed, Shown, Outbox, D.Run, GoesTo, Sent;
    D.DeliveredCompletely(up);
    OutboxOfChats(ms, Payloads(AsChats(ms)), stops, online, cfd, userId);
    forall i | 0 <= i < |ms|
      ensures Sent(ms[i], stops[i]) != []
      ensures Noticed(callbacks, Sent(ms[i], stops[i]) + behindReceiver[i], |Sent(ms[i], stops[i])|) ==
        Shown(stops[i].world, ms[i], stops[i].behind, behindReceiver[i])
    {
      OneForTheUser(ms[i], stops[i], online, cfd, userId, callbacks, behindReceiver[i]);
    }
    D.DeliveredCompletely(down);
  }
}
