/** One direction of a connection end to end: writers append frames, the sender's kernel
    takes bytes in pieces, the receiver gets them in other pieces and cuts packages. */
module Delivery {
  import opened Bytes
  import opened Framing
  import opened Socket

  /** accepted: payloads whose frame was appended, in the order of the appends.
      arrived: every byte the receiver has got so far.
      byteMark, packageMark: bytes and packages already cut off when the counters were last
      cleared. */
  datatype Channel = Channel(accepted: seq<Payload>, buf: seq<byte>, wire: seq<byte>, arrived: seq<byte>,
                             rest: seq<byte>, receipts: Receipts, byteMark: int, packageMark: int, crashed: bool)

  const START := Channel([], [], [], [], [], Receipts([], 0, 0), 0, 0, false)

  /** Append is one locked append by any writer, Transmit the kernel taking bytes in some
      Send, Receive some bytes reaching the parser, Clear the reset of the counters. */
  datatype Event = Append(payload: seq<byte>) | Transmit(n: nat) | Receive(n: nat) | Clear

  predicate Fits(c: Channel, payload: seq<byte>) {
    HEAD_SIZE + |payload| <= BUFFER_SIZE - |c.buf|
  }

  function Step(c: Channel, e: Event): Channel {
    match e
    case Append(p) =>
      if Fits(c, p) then c.(accepted := c.accepted + [p], buf := c.buf + Frame(p)) else c
    case Transmit(n) =>
      if n <= |c.buf| then c.(buf := c.buf[n..], wire := c.wire + c.buf[..n]) else c
    case Receive(n) =>
      if n > |c.wire| || c.crashed then c
      else
        var s := c.rest + c.wire[..n];
        c.(wire := c.wire[n..], arrived := c.arrived + c.wire[..n], rest := Rest(s),
           receipts := Count(c.receipts, Parse(s)), crashed := Parse(s).threw)
    case Clear =>
      c.(receipts := c.receipts.(packageCount := 0, byteCount := 0), byteMark := |c.arrived| - |c.rest|,
         packageMark := |c.receipts.packages|)
  }

  function Run(events: seq<Event>): Channel {
    if events == [] then START else Step(Run(events[..|events| - 1]), events[|events| - 1])
  }

  ghost predicate Inv(c: Channel) {
    && c.arrived + c.wire + c.buf == Stream(c.accepted)
    && |c.buf| <= BUFFER_SIZE
    && !c.crashed
    && !Parse(c.arrived).threw
    && c.rest == Rest(c.arrived)
    && c.receipts.packages == Parse(c.arrived).packages
    && c.receipts.byteCount + c.byteMark == Parse(c.arrived).used
    && c.receipts.packageCount + c.packageMark == |c.receipts.packages|
  }

  lemma AppendKeepsInv(c: Channel, p: seq<byte>)
    requires Inv(c)
    ensures Inv(Step(c, Append(p)))
  {
    hide Parse, Rest, Stream, Frame;
    if Fits(c, p) {
      StreamAppend(c.accepted, p);
      FrameShape(p);
      assert c.arrived + c.wire + (c.buf + Frame(p)) == c.arrived + c.wire + c.buf + Frame(p);
    }
  }

  lemma TransmitKeepsInv(c: Channel, n: nat)
    requires Inv(c)
    ensures Inv(Step(c, Transmit(n)))
  {
    if n <= |c.buf| {
      assert c.arrived + (c.wire + c.buf[..n]) + c.buf[n..] == c.arrived + c.wire + c.buf;
    }
  }

  /** What has arrived is the front of the stream, so it parses. */
  lemma ArrivedParses(c: Channel, arrived: seq<byte>, wire: seq<byte>)
    requires arrived + wire + c.buf == Stream(c.accepted)
    ensures !Parse(arrived).threw && Parse(arrived).packages <= c.accepted && |Rest(arrived)| < BUFFER_SIZE
  {
    assert arrived <= Stream(c.accepted);
    ParseArrived(c.accepted, arrived);
  }

  lemma ReceiveKeepsInv(c: Channel, n: nat)
    requires Inv(c)
    ensures Inv(Step(c, Receive(n)))
  {
    hide Parse;
    hide Rest;
    if n <= |c.wire| {
      var chunk := c.wire[..n];
      assert c.arrived + chunk + c.wire[n..] + c.buf == c.arrived + c.wire + c.buf;
      ArrivedParses(c, c.arrived + chunk, c.wire[n..]);
      ChunkingIndependence(c.arrived, chunk);
    }
  }

  lemma StepKeepsInv(c: Channel, e: Event)
    requires Inv(c)
    ensures Inv(Step(c, e))
  {
    match e
    case Append(p) => AppendKeepsInv(c, p);
    case Transmit(n) => TransmitKeepsInv(c, n);
    case Receive(n) => ReceiveKeepsInv(c, n);
    case Clear =>
  }

  lemma {:induction false} RunKeepsInv(events: seq<Event>)
    ensures Inv(Run(events))
  {
    if events != [] {
      RunKeepsInv(events[..|events| - 1]);
      StepKeepsInv(Run(events[..|events| - 1]), events[|events| - 1]);
    }
  }

  /** Bytes handed to the kernel, then the buffered ones, are the accepted frames, whole and
      in the order of acceptance. */
  lemma SentThenBuffered(events: seq<Event>)
    ensures var c := Run(events); c.arrived + c.wire + c.buf == Stream(c.accepted)
  {
    RunKeepsInv(events);
  }

  /** The packages handed on are the first accepted payloads in order; the parser never
      throws; the remainder always leaves room in the read buffer. */
  lemma DeliveredInOrder(events: seq<Event>)
    ensures var c := Run(events);
      && c.receipts.packages <= c.accepted
      && !c.crashed
      && |c.rest| < BUFFER_SIZE
  {
    RunKeepsInv(events);
    var c := Run(events);
    ArrivedParses(c, c.arrived, c.wire);
  }

  /** Once nothing is buffered or on the wire, every payload is out, save a last one of
      length zero. */
  lemma DeliveredCompletely(events: seq<Event>)
    ensures var c := Run(events);
      c.buf == [] && c.wire == [] ==>
        && c.receipts.packages == Complete(c.accepted)
        && (c.receipts.packages == c.accepted <==> c.accepted == [] || c.accepted[|c.accepted| - 1] != [])
  {
    RunKeepsInv(events);
    var c := Run(events);
    if c.buf == [] && c.wire == [] {
      assert c.arrived == c.arrived + c.wire + c.buf;
      ParseWhole(c.accepted);
    }
  }

  /** Bytes counted since the last clearing are the bytes that arrived, less the remainder
      and less what had been counted before. */
  lemma {:induction false} BytesCounted(events: seq<Event>)
    ensures var c := Run(events);
      && c.receipts.byteCount == |c.arrived| - |c.rest| - c.byteMark
      && c.receipts.packageCount == |c.receipts.packages| - c.packageMark
  {
    RunKeepsInv(events);
  }

  lemma RunOneMore(events: seq<Event>, e: Event)
    ensures Run(events + [e]) == Step(Run(events), e)
  {
    assert (events + [e])[..|events|] == events;
  }

  /** A single empty payload, written, sent and received in full, is not handed on. */
  lemma EmptyPayloadWaits()
    ensures var c := Run([Append([])] + [Transmit(4)] + [Receive(4)]);
      c.accepted == [[]] && c.buf == [] && c.wire == [] && c.receipts.packages == []
  {
    hide Parse;
    hide Rest;
    hide Count;
    hide Run;
    var events := [Append([])] + [Transmit(4)] + [Receive(4)];
    FrameShape([]);
    assert [] + [Append([])] == [Append([])];
    RunOneMore([], Append([]));
    RunOneMore([Append([])], Transmit(4));
    RunOneMore([Append([])] + [Transmit(4)], Receive(4));
    assert Run([]) == START by { RunStart(); }
    DeliveredCompletely(events);
  }

  lemma RunStart()
    ensures Run([]) == START
  {
  }

  /** Two endpoints joined by a pipe. Whatever calls are made on them, the real buffers are
      in the state of some run of the channel. */
  class Connection {
    const sender: ClientSocket
    const receiver: ClientSocket
    ghost var events: seq<Event>

    ghost predicate Separate() {
      && sender != receiver
      && sender.outgoing == receiver.incoming
      && sender.incoming != receiver.incoming
      && sender.readBuf != receiver.readBuf && sender.readBuf != receiver.writeBuf
      && sender.writeBuf != receiver.readBuf && sender.writeBuf != receiver.writeBuf
    }

    ghost predicate Matches(c: Channel)
      reads sender, receiver, sender.writeBuf, receiver.readBuf, receiver.incoming
      requires sender.curWriteBufSize <= sender.writeBuf.Length && receiver.curReadBufSize <= receiver.readBuf.Length
    {
      && c.buf == sender.Unsent()
      && c.wire == receiver.incoming.bytes
      && c.rest == receiver.Unread()
      && c.receipts == receiver.receipts
    }

    ghost predicate Valid()
      reads this, sender, receiver, sender.readBuf, sender.writeBuf, receiver.readBuf, receiver.writeBuf,
            receiver.incoming
    {
      && Separate()
      && sender.Valid() && receiver.Valid()
      && Matches(Run(events))
    }

    constructor (sender: ClientSocket, receiver: ClientSocket)
      requires sender != receiver && sender.outgoing == receiver.incoming && sender.incoming != receiver.incoming
      requires sender.readBuf != receiver.readBuf && sender.readBuf != receiver.writeBuf
      requires sender.writeBuf != receiver.readBuf && sender.writeBuf != receiver.writeBuf
      requires sender.Valid() && receiver.Valid()
      requires sender.Unsent() == [] && receiver.Unread() == [] && receiver.incoming.bytes == []
      requires receiver.receipts == Receipts([], 0, 0)
      ensures Valid() && events == []
    {
      this.sender, this.receiver, events := sender, receiver, [];
    }

    /** A writer's frame, appended in one locked section. */
    method Append(payload: array<byte>) returns (accepted: bool)
      requires Valid() && payload.Length <= INT_MAX - HEAD_SIZE
      modifies this`events, sender`curWriteBufSize, sender.writeBuf
      ensures Valid() && events == old(events) + [Event.Append(payload[..])]
      ensures accepted <==> Fits(Run(old(events)), old(payload[..]))
    {
      hide Parse;
      hide Run;
      var frame := BuildFrame(payload);
      accepted := sender.Append(frame);
      ghost var e := Event.Append(payload[..]);
      RunOneMore(events, e);
      events := events + [e];
    }

    /** Some thread's Send. */
    method Flush() returns (code: int)
      requires Valid()
      modifies this`events, sender`curWriteBufSize, sender`isWriting, sender`cfdIsWrite, sender`writeCallbacks,
               sender.writeBuf, sender.outgoing
      ensures Valid()
      ensures exists n :: events == old(events) + [Transmit(n)]
    {
      ghost var n;
      code, n := sender.Send();
      RunOneMore(events, Transmit(n));
      events := events + [Transmit(n)];
    }

    /** The receiver's Recv. The parser never throws, and no recv it makes asks the kernel for
        zero bytes. */
    method Pull() returns (code: int, threw: bool, ghost calls: seq<Call>)
      requires Valid()
      modifies this`events, receiver`curReadBufSize, receiver`receipts, receiver.readBuf, receiver.incoming
      ensures Valid() && !threw
      ensures receiver.incoming.recvs == old(receiver.incoming.recvs) + calls && calls != []
      ensures forall c | c in calls :: c.request > 0
      ensures code == 0 && receiver.isNonBlock ==> EndsWith(calls, {Again})
      ensures exists n :: events == old(events) + [Event.Receive(n)]
    {
      hide Parse, Rest, Run, EndsWith;
      ghost var n, before, was := 0, events, Run(events);
      RunKeepsInv(events);
      code, threw, n, calls := receiver.Recv();
      forall c | c in calls ensures c.request > 0 {
        var k :| 0 <= k <= n && c.request == BUFFER_SIZE - |Rest(was.rest + was.wire[..k])|;
        RoomLeft(before, k);
      }
      RunOneMore(events, Event.Receive(n));
      events := events + [Event.Receive(n)];
      DeliveredInOrder(events);
    }

    static lemma RoomLeft(events: seq<Event>, k: nat)
      requires k <= |Run(events).wire|
      ensures |Rest(Run(events).rest + Run(events).wire[..k])| < BUFFER_SIZE
    {
      hide Parse, Rest, Run;
      RunKeepsInv(events);
      RunOneMore(events, Event.Receive(k));
      DeliveredInOrder(events + [Event.Receive(k)]);
    }

    /** ClearSendRecvCount, as far as this connection is concerned. */
    method ClearRecvCount()
      requires Valid()
      modifies this`events, receiver`receipts
      ensures Valid() && events == old(events) + [Clear]
      ensures receiver.receipts == Receipts(old(receiver.receipts.packages), 0, 0)
    {
      receiver.receipts := receiver.receipts.(packageCount := 0, byteCount := 0);
      RunOneMore(events, Clear);
      events := events + [Clear];
    }
  }
}
