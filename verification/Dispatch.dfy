/** The size gate in front of the message handlers, and why every serialised message passes. */
module Dispatch {
  import opened Bytes
  import opened Framing
  import opened Records
  import opened RoundTrip
  import Delivery

  const SERVER_TYPES: set<int32> := {C2S_LOGIN, C2S_DATA_MSG, C2S_GET_DATA_MSG_LIST}
  const CLIENT_TYPES: set<int32> := {S2C_LOGIN, S2C_USER_LIST, S2C_GROUP_LIST, S2C_DATA_MSG, S2C_DATA_MSG_LIST}

  /** The type whose handler gets the package of the given size lying at the front of mem. */
  function Gate(mem: seq<byte>, size: nat, registered: set<int32>): Option<int32>
    requires size <= |mem|
  {
    if size < SIZEOF_HEAD then None
    else
      var head := ReadHead(mem, 0);
      if head.dataSize != size || head.dataType !in registered then None else Some(head.dataType)
  }

  /** The gate said on the bytes: a package gets to the handler of type t exactly when it holds
      a head, starts with its own size, goes on with t, and t is registered. */
  lemma GateOnBytes(mem: seq<byte>, size: nat, registered: set<int32>)
    requires size <= |mem|
    ensures forall t: int32 :: Gate(mem, size, registered) == Some(t) <==>
      && 8 <= size <= INT_MAX && mem[0..4] == EncodeInt32(size) && mem[4..8] == EncodeInt32(t)
      && t in registered
  {
    hide EncodeInt32, DecodeInt32;
    if size >= 8 {
      var n, k := ReadInt(mem, 0), ReadInt(mem, 4);
      EncodeDecodeInt32(mem[0..4]);
      EncodeDecodeInt32(mem[4..8]);
      forall t: int32 ensures DecodeInt32(EncodeInt32(t)) == t {
        DecodeEncodeInt32(t);
      }
    }
  }

  method GateOf(data: array<byte>, size: nat, registered: set<int32>) returns (handler: Option<int32>)
    requires size <= data.Length
    ensures handler == Gate(data[..], size, registered)
  {
    if size < SIZEOF_HEAD {
      return None;
    }
    var dataSize := DecodeInt32(data[..SIZEOF_INT]);
    assert data[..SIZEOF_INT] == data[..][0..SIZEOF_INT];
    if dataSize != size {
      return None;
    }
    var dataType := DecodeInt32(data[4..8]);
    assert data[4..8] == data[..][4..8];
    handler := if dataType in registered then Some(dataType) else None;
  }

  /** Any record that is sent as a package of its own. */
  datatype Message = Account(user: User) | Users(users: UserList) | Groups(groups: GroupList) | Chat(msg: Msg)
                   | Chats(msgs: MsgList) | Query(query: GetMsgList)

  function HeadOf(m: Message): Head {
    match m
    case Account(u) => u.head
    case Users(l) => l.head
    case Groups(l) => l.head
    case Chat(c) => c.fixed.head
    case Chats(l) => l.head
    case Query(g) => g.head
  }

  function SizeOf(m: Message): nat {
    match m
    case Account(_) => SIZEOF_USER
    case Users(l) => UserListSize(l)
    case Groups(l) => GroupListSize(l)
    case Chat(c) => MsgSize(c)
    case Chats(l) => MsgListSize(l)
    case Query(_) => SIZEOF_GET_MSG_LIST
  }

  /** The bytes its serialiser returns. */
  function Serialized(m: Message): seq<byte> {
    match m
    case Account(u) => EncodeUser(u.(head := WithSize(u.head, SIZEOF_USER)))
    case Users(l) => EncodeUserList(SizedUserList(l))
    case Groups(l) => EncodeGroupList(SizedGroupList(l))
    case Chat(c) => EncodeMsg(SizedMsg(c))
    case Chats(l) => EncodeMsgList(SizedMsgList(l))
    case Query(g) => EncodeGetMsgList(g.(head := WithSize(g.head, SIZEOF_GET_MSG_LIST)))
  }

  lemma SizedKeepsSize(m: Message)
    requires SizeOf(m) <= INT_MAX
    ensures |Serialized(m)| == SizeOf(m)
  {
    match m
    case Groups(l) => SizedGroupsFit(l.groups);
    case Chats(l) => SizedMsgsFit(l.msgs);
    case _ =>
  }

  lemma StartsWithHead(m: Message, h: Head)
    requires h == WithSize(HeadOf(m), SizeOf(m))
    ensures |Serialized(m)| >= SIZEOF_HEAD && Serialized(m)[..SIZEOF_HEAD] == EncodeHead(h)
  {
    hide EncodeHead, EncodeString, EncodeInt32;
  }

  /** Exact fill: what a serialiser writes ends at the size it announces, and that size is the
      first field of the bytes. */
  lemma ExactFill(m: Message, behind: seq<byte>)
    requires SizeOf(m) <= INT_MAX
    ensures |Serialized(m)| == SizeOf(m) >= SIZEOF_HEAD
    ensures ReadHead(Serialized(m) + behind, 0) == Head(|Serialized(m)|, HeadOf(m).dataType)
  {
    hide Serialized, EncodeHead;
    var h := WithSize(HeadOf(m), SizeOf(m));
    SizedKeepsSize(m);
    StartsWithHead(m, h);
    var mem := Serialized(m) + behind;
    assert mem[0..SIZEOF_HEAD] == Serialized(m)[..SIZEOF_HEAD];
    HeadAt(mem, 0, h);
  }

  /** So a serialised message passes the gate exactly when its type is registered. */
  lemma PassesGateIff(m: Message, behind: seq<byte>, registered: set<int32>)
    requires SizeOf(m) <= INT_MAX
    ensures |Serialized(m)| == SizeOf(m)
    ensures Gate(Serialized(m) + behind, |Serialized(m)|, registered) ==
      if HeadOf(m).dataType in registered then Some(HeadOf(m).dataType) else None
  {
    hide Serialized;
    ExactFill(m, behind);
  }

  /** Messages small enough for SendPackage. */
  predicate Sendable(ms: seq<Message>) {
    forall i | 0 <= i < |ms| :: SizeOf(ms[i]) <= BUFFER_SIZE - HEAD_SIZE
  }

  function PayloadOf(m: Message): (p: Payload)
    requires SizeOf(m) <= BUFFER_SIZE - HEAD_SIZE
    ensures p == Serialized(m) && p != []
  {
    ExactFill(m, []);
    Serialized(m)
  }

  function Payloads(ms: seq<Message>): (ps: seq<Payload>)
    requires Sendable(ms)
    ensures |ps| == |ms| && forall i | 0 <= i < |ms| :: ps[i] == PayloadOf(ms[i])
  {
    seq(|ms|, i requires 0 <= i < |ms| => PayloadOf(ms[i]))
  }

  /** Messages serialised by one end, framed, and received in any chunks, reach at the other
      end, in order and without a gap, the handlers of their own types. */
  lemma EveryMessageReachesItsHandler(ms: seq<Message>, chunks: seq<seq<byte>>, registered: set<int32>)
    requires Sendable(ms) && Concat(chunks) == Stream(Payloads(ms))
    ensures var packages := ParseChunks([], chunks).packages;
      && |packages| == |ms|
      && forall i | 0 <= i < |ms| ::
           Gate(packages[i], |packages[i]|, registered) ==
             if HeadOf(ms[i]).dataType in registered then Some(HeadOf(ms[i]).dataType) else None
  {
    hide Serialized, Gate, Parse;
    var ps := Payloads(ms);
    assert [] + Concat(chunks) == Stream(ps);
    ParseArrived(ps, Stream(ps));
    AnyChunking([], chunks);
    ParseWhole(ps);
    forall i | 0 <= i < |ms|
      ensures Gate(ps[i], |ps[i]|, registered) ==
        if HeadOf(ms[i]).dataType in registered then Some(HeadOf(ms[i]).dataType) else None
    {
      PassesGateIff(ms[i], [], registered);
      assert Serialized(ms[i]) + [] == ps[i];
    }
  }

  /** The same over a whole connection with concurrent writers: when every byte has arrived,
      the packages are the messages accepted, each passing the gate of its type. */
  lemma ConnectionReachesHandlers(events: seq<Delivery.Event>, ms: seq<Message>, registered: set<int32>)
    requires Sendable(ms) && Delivery.Run(events).accepted == Payloads(ms)
    requires Delivery.Run(events).buf == [] && Delivery.Run(events).wire == []
    ensures var packages := Delivery.Run(events).receipts.packages;
      && |packages| == |ms|
      && forall i | 0 <= i < |ms| ::
           Gate(packages[i], |packages[i]|, registered) ==
             if HeadOf(ms[i]).dataType in registered then Some(HeadOf(ms[i]).dataType) else None
  {
    hide Serialized, Gate, Delivery.Run;
    var ps := Payloads(ms);
    Delivery.DeliveredCompletely(events);
    forall i | 0 <= i < |ms|
      ensures Gate(ps[i], |ps[i]|, registered) ==
        if HeadOf(ms[i]).dataType in registered then Some(HeadOf(ms[i]).dataType) else None
    {
      PassesGateIff(ms[i], [], registered);
      assert Serialized(ms[i]) + [] == ps[i];
    }
  }
}
