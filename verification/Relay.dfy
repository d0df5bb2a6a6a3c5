/** What handling one package does: login answers, stored messages, and the relay of a chat
    message to the members that are online. The database and the clock are parameters. */
module Relay {
  import opened Bytes
  import opened Records
  import opened RoundTrip
  import opened DataTypes
  import opened Dispatch

  type Online = map<int32, int>

  datatype Packet = Packet(cfd: int, bytes: seq<byte>)

  datatype LoginReply = LoginReply(ok: bool, userId: int32, userName: Name)

  /** The answers of the database and the clock during one handler. */
  datatype World = World(now: int32, login: User -> LoginReply, users: seq<User>, groups: int32 -> seq<Group>,
                         stored: GetMsgList -> seq<Msg>, save: Msg -> int32, members: int32 -> seq<int32>)

  datatype Effect = Effect(online: Online, sent: seq<Packet>)

  // Users online.

  /** Zero stands for a user who is not online. */
  function CfdOf(online: Online, userId: int32): int {
    if userId in online then online[userId] else 0
  }

  /** An entry that is already there stays. */
  function Opened(online: Online, userId: int32, cfd: int): Online {
    if userId in online then online else online[userId := cfd]
  }

  predicate OneUserPerConnection(online: Online) {
    forall u, v | u in online && v in online && online[u] == online[v] :: u == v
  }

  // The handlers.

  function Reply(cfd: int, m: Message): Packet {
    Packet(cfd, Serialized(m))
  }

  function LoginAnswer(r: LoginReply): Message {
    Account(User(Head(SIZEOF_USER, S2C_LOGIN), r.userId, r.userName))
  }

  function UsersAnswer(w: World): Message {
    Users(UserList(Head(0, S2C_USER_LIST), w.users))
  }

  function GroupsAnswer(w: World, userId: int32): Message {
    Groups(GroupList(Head(0, S2C_GROUP_LIST), w.groups(userId)))
  }

  function StoredAnswer(w: World, query: GetMsgList): Message {
    Chats(MsgList(Head(0, S2C_DATA_MSG_LIST), w.stored(query)))
  }

  /** None, here and below, stands for a decoder that leaves the memory it was given. */
  function OnLogin(w: World, online: Online, cfd: int, mem: seq<byte>): Option<Effect> {
    var login := DecodeUser(mem, 0);
    if login.None? then None
    else
      var r := w.login(login.value);
      var answer := Reply(cfd, LoginAnswer(r));
      if !r.ok then Some(Effect(online, [answer]))
      else Some(Effect(Opened(online, r.userId, cfd),
                       [answer, Reply(cfd, UsersAnswer(w)), Reply(cfd, GroupsAnswer(w, r.userId))]))
  }

  function OnQuery(w: World, online: Online, cfd: int, mem: seq<byte>): Option<Effect> {
    var query := DecodeGetMsgList(mem, 0);
    if query.None? then None else Some(Effect(online, [Reply(cfd, StoredAnswer(w, query.value))]))
  }

  function Stamped(w: World, m: Msg): Msg {
    m.(fixed := m.fixed.(createdTime := w.now))
  }

  /** A received message as it is sent on: stamped, numbered by the database, and turned into
      the server's type. */
  function SentOn(w: World, m: Msg): Msg {
    var s := Stamped(w, m);
    s.(fixed := s.fixed.(msgId := w.save(s), head := s.fixed.head.(dataType := S2C_DATA_MSG)))
  }

  function Rows(w: World, f: Fixed): seq<int32> {
    if f.isGroup then w.members(f.receiver) else [f.receiver]
  }

  predicate Served(online: Online, userId: int32, sender: int32) {
    userId != sender && CfdOf(online, userId) > 0
  }

  /** The packages the loop has sent once it is through these rows. */
  function Deliveries(online: Online, rows: seq<int32>, sender: int32, bytes: seq<byte>): seq<Packet> {
    if rows == [] then []
    else
      var last := rows[|rows| - 1];
      Deliveries(online, rows[..|rows| - 1], sender, bytes)
      + (if Served(online, last, sender) then [Packet(CfdOf(online, last), bytes)] else [])
  }

  function OnChat(w: World, online: Online, mem: seq<byte>): Option<Effect> {
    var d := DecodeMsg(AsWritten, mem, 0);
    if d.None? || d.value.extend.None? then None
    else
      var m := SentOn(w, Landed(d.value));
      Some(Effect(online, Deliveries(online, Rows(w, m.fixed), m.fixed.sender, Serialized(Chat(m)))))
  }

  function Handled(w: World, online: Online, cfd: int, mem: seq<byte>, size: nat): Option<Effect>
    requires size <= |mem|
  {
    var handler := Gate(mem, size, SERVER_TYPES);
    if handler.None? then Some(Effect(online, []))
    else if handler.value == C2S_LOGIN then OnLogin(w, online, cfd, mem)
    else if handler.value == C2S_DATA_MSG then OnChat(w, online, mem)
    else OnQuery(w, online, cfd, mem)
  }

  // The relay.

  /** The packages sent stand, in the order of the rows, for distinct rows that are served:
      at gives the row of each. */
  predicate Stand(online: Online, rows: seq<int32>, sender: int32, bytes: seq<byte>, sent: seq<Packet>, at: seq<nat>) {
    && |at| == |sent|
    && (forall j, k | 0 <= j < k < |at| :: at[j] < at[k])
    && (forall k | 0 <= k < |at| :: at[k] < |rows| && Served(online, rows[at[k]], sender)
                                    && sent[k] == Packet(CfdOf(online, rows[at[k]]), bytes))
  }

  /** One package for every row that is online and not the sender, in the order of the rows,
      and no other. */
  lemma {:induction false} OnePackagePerRow(online: Online, rows: seq<int32>, sender: int32, bytes: seq<byte>)
    returns (at: seq<nat>)
    ensures Stand(online, rows, sender, bytes, Deliveries(online, rows, sender, bytes), at)
    ensures forall i | 0 <= i < |rows| && Served(online, rows[i], sender) :: i in at
  {
    hide Served, CfdOf, Stand;
    at := [];
    if rows != [] {
      var n := |rows| - 1;
      var earlier := rows[..n];
      var before := OnePackagePerRow(online, earlier, sender, bytes);
      at := if Served(online, rows[n], sender) then before + [n] else before;
      StandOneMore(online, rows, sender, bytes, Deliveries(online, earlier, sender, bytes), before);
      forall i | 0 <= i < |rows| && Served(online, rows[i], sender)
        ensures i in at
      {
        if i < n {
          assert earlier[i] == rows[i];
          assert i in before;
        }
      }
    } else {
      StandNone(online, rows, sender, bytes);
    }
  }

  lemma StandNone(online: Online, rows: seq<int32>, sender: int32, bytes: seq<byte>)
    ensures Stand(online, rows, sender, bytes, [], [])
  {
  }

  lemma StandOneMore(online: Online, rows: seq<int32>, sender: int32, bytes: seq<byte>, sent: seq<Packet>, at: seq<nat>)
    requires rows != [] && Stand(online, rows[..|rows| - 1], sender, bytes, sent, at)
    ensures var last := rows[|rows| - 1];
      if Served(online, last, sender)
      then Stand(online, rows, sender, bytes, sent + [Packet(CfdOf(online, last), bytes)], at + [|rows| - 1])
      else Stand(online, rows, sender, bytes, sent + [], at)
  {
    hide Served, CfdOf;
  }

  function PackagesTo(sent: seq<Packet>, cfd: int): nat {
    if sent == [] then 0
    else PackagesTo(sent[..|sent| - 1], cfd) + (if sent[|sent| - 1].cfd == cfd then 1 else 0)
  }

  function RowsOf(rows: seq<int32>, userId: int32): nat {
    if rows == [] then 0
    else RowsOf(rows[..|rows| - 1], userId) + (if rows[|rows| - 1] == userId then 1 else 0)
  }

  /** The connection of an online user gets a package for every row that names the user, and
      the sender's own connection gets none. */
  lemma {:induction false} PackagesPerConnection(online: Online, rows: seq<int32>, sender: int32, bytes: seq<byte>,
                                                 userId: int32)
    requires OneUserPerConnection(online) && CfdOf(online, userId) > 0
    ensures PackagesTo(Deliveries(online, rows, sender, bytes), online[userId]) ==
      if userId == sender then 0 else RowsOf(rows, userId)
  {
    if rows != [] {
      var earlier, last := rows[..|rows| - 1], rows[|rows| - 1];
      PackagesPerConnection(online, earlier, sender, bytes, userId);
      var before := Deliveries(online, earlier, sender, bytes);
      if Served(online, last, sender) {
        OneMorePackage(before, Packet(online[last], bytes), online[userId]);
        assert online[last] == online[userId] ==> last == userId;
      } else {
        assert before + [] == before;
      }
    }
  }

  lemma OneMorePackage(sent: seq<Packet>, p: Packet, cfd: int)
    ensures PackagesTo(sent + [p], cfd) == PackagesTo(sent, cfd) + (if p.cfd == cfd then 1 else 0)
  {
    assert (sent + [p])[..|sent|] == sent;
  }

  // Meaning.

  /** The message the server holds after decoding what a client serialised. */
  lemma ServerReads(m: Msg, behind: seq<byte>)
    requires MsgSize(m) <= INT_MAX
    ensures DecodeMsg(AsWritten, Serialized(Chat(m)) + behind, 0) ==
      Some(DecodedMsg(SizedMsg(m).fixed, UpToNul(m.text), TakenAtFront(SizedMsg(m), behind)))
  {
    hide EncodeMsg, DecodeMsg, TakenAtFront;
    ExtendAtFront(SizedMsg(m), behind);
  }

  /** The message given to the database: as received, with extend for its extension, at the
      server's time. */
  function AsSaved(w: World, m: Msg, extend: seq<byte>): Msg {
    Msg(Fixed(Head(Wrap(MsgSize(m)), m.fixed.head.dataType), m.fixed.msgId, m.fixed.msgType, m.fixed.sender,
              m.fixed.receiver, m.fixed.isGroup, w.now),
        UpToNul(m.text), extend)
  }

  /** The message relayed for m after the server has taken extend for its extension. */
  function Relayed(w: World, m: Msg, extend: seq<byte>): Msg {
    Msg(Fixed(Head(Wrap(SIZEOF_MSG_FIXED + 10 + |UpToNul(m.text)| + |extend|), S2C_DATA_MSG),
              w.save(AsSaved(w, m, extend)), m.fixed.msgType, m.fixed.sender, m.fixed.receiver, m.fixed.isGroup, w.now),
        UpToNul(m.text), extend)
  }

  /** That is what the handler makes of what it has decoded. */
  lemma SentOnIsRelayed(w: World, m: Msg, extend: seq<byte>)
    ensures SizedMsg(SentOn(w, Msg(SizedMsg(m).fixed, UpToNul(m.text), extend))) == Relayed(w, m, extend)
    ensures SentOn(w, Msg(SizedMsg(m).fixed, UpToNul(m.text), extend)).fixed.(head := m.fixed.head) ==
      Relayed(w, m, extend).fixed.(head := m.fixed.head)
  {
    hide UpToNul;
    assert Stamped(w, Msg(SizedMsg(m).fixed, UpToNul(m.text), extend)) == AsSaved(w, m, extend);
  }

  /** Every receiver decodes what is relayed, whatever lies behind it in memory. */
  lemma ReceiverReads(w: World, m: Msg, extend: seq<byte>, behind: seq<byte>)
    requires MsgSize(Relayed(w, m, extend)) <= INT_MAX
    ensures var r := Relayed(w, m, extend); var mem := EncodeMsg(r) + behind;
      && Gate(mem, MsgSize(r), CLIENT_TYPES) == Some(S2C_DATA_MSG)
      && DecodeMsg(AsWritten, mem, 0) == Some(DecodedMsg(r.fixed, UpToNul(m.text), TakenAtFront(r, behind)))
  {
    hide EncodeMsg, DecodeMsg, Gate, UpToNul, TakenAtFront;
    var r := Relayed(w, m, extend);
    assert SizedMsg(r) == r;
    PassesGateIff(Chat(r), behind, CLIENT_TYPES);
    ExtendAtFront(r, behind);
  }

  /** A client's message passes the server's gate and, unless the search for its extension
      leaves the memory, goes out to exactly the rows of its receiver in identical packages
      that every client's gate lets through. They are, field by field, the sender's message
      under the database's number and the server's time and type, with the text up to its
      first NUL and the extension the server read; and so they are decoded, but for the
      extension, which again loses its first byte or worse. */
  lemma RelayPreservesMeaning(w: World, online: Online, cfd: int, m: Msg, behind: seq<byte>, behindReceiver: seq<byte>)
    requires 2 * MsgSize(m) + |behind| <= INT_MAX && m.fixed.head.dataType == C2S_DATA_MSG
    ensures var package, extend := Serialized(Chat(m)), TakenAtFront(SizedMsg(m), behind);
      var effect := Handled(w, online, cfd, package + behind, |package|);
      && (effect.None? <==> extend.None?)
      && (effect.Some? ==>
            var f, x, text := m.fixed, extend.value, UpToNul(m.text);
            var relayed := Msg(Fixed(Head(SIZEOF_MSG_FIXED + 10 + |text| + |x|, S2C_DATA_MSG), w.save(AsSaved(w, m, x)),
                                     f.msgType, f.sender, f.receiver, f.isGroup, w.now), text, x);
            var bytes := EncodeMsg(relayed);
            var d := DecodeMsg(AsWritten, bytes + behindReceiver, 0);
            && effect.value == Effect(online, Deliveries(online, Rows(w, f), f.sender, bytes))
            && Gate(bytes + behindReceiver, |bytes|, CLIENT_TYPES) == Some(S2C_DATA_MSG)
            && d.Some? && d.value.fixed == relayed.fixed && d.value.text == text && (text == m.text <==> 0 !in m.text)
            && d.value.extend ==
                 if |text| > 126 then FoundInFront(relayed)
                 else if x != [] then Some(UpToNul(x[1..]))
                 else if 0 in behindReceiver then Some(UpToNul(behindReceiver)) else None)
  {
    hide EncodeMsg, DecodeMsg, Gate, Deliveries, UpToNul, FoundInFront, Serialized;
    HandledChat(w, online, cfd, m, behind);
    var extend := TakenAtFront(SizedMsg(m), behind);
    if extend.Some? {
      var x := extend.value;
      assert |UpToNul(m.text)| <= |m.text|;
      assert |x| < MsgSize(SizedMsg(m)) + |behind|;
      ReceiverReads(w, m, x, behindReceiver);
    }
  }

  /** What the handler does with the bytes of a client's message. */
  lemma HandledChat(w: World, online: Online, cfd: int, m: Msg, behind: seq<byte>)
    requires MsgSize(m) <= INT_MAX && m.fixed.head.dataType == C2S_DATA_MSG
    ensures var package, extend := Serialized(Chat(m)), TakenAtFront(SizedMsg(m), behind);
      Handled(w, online, cfd, package + behind, |package|) ==
        if extend.None? then None
        else Some(Effect(online, Deliveries(online, Rows(w, m.fixed), m.fixed.sender,
                                            EncodeMsg(Relayed(w, m, extend.value)))))
  {
    hide EncodeMsg, DecodeMsg, TakenAtFront, Gate, Deliveries, UpToNul, Relayed;
    PassesGateIff(Chat(m), behind, SERVER_TYPES);
    ServerReads(m, behind);
    var extend := TakenAtFront(SizedMsg(m), behind);
    if extend.Some? {
      SentOnIsRelayed(w, m, extend.value);
    }
  }

  /** A message to a user goes to that user's connection alone, one to a group to the
      connections of its members, to each as often as the member is listed, and neither to the
      sender's own. */
  lemma GoesWhereAddressed(w: World, online: Online, cfd: int, m: Msg, behind: seq<byte>, userId: int32)
    requires 2 * MsgSize(m) + |behind| <= INT_MAX && m.fixed.head.dataType == C2S_DATA_MSG
    requires OneUserPerConnection(online) && CfdOf(online, userId) > 0
    ensures var effect := Handled(w, online, cfd, Serialized(Chat(m)) + behind, |Serialized(Chat(m))|);
      effect.Some? ==>
        PackagesTo(effect.value.sent, online[userId]) ==
          if userId == m.fixed.sender then 0
          else if m.fixed.isGroup then RowsOf(w.members(m.fixed.receiver), userId)
          else if userId == m.fixed.receiver then 1 else 0
  {
    hide EncodeMsg, DecodeMsg, TakenAtFront, Gate, Handled, Deliveries, PackagesTo, Relayed, Serialized;
    HandledChat(w, online, cfd, m, behind);
    var extend := TakenAtFront(SizedMsg(m), behind);
    if extend.Some? {
      var bytes := EncodeMsg(Relayed(w, m, extend.value));
      PackagesPerConnection(online, Rows(w, m.fixed), m.fixed.sender, bytes, userId);
      assert [m.fixed.receiver][..0] == [];
    }
  }

  /** Before sending one can tell whether the server will get through a message: it does not
      when a short text comes with an empty extension and no NUL happens to lie behind the
      package, nor when the text's size reads as a number below -34. */
  lemma RelayLostIff(w: World, online: Online, cfd: int, m: Msg, behind: seq<byte>)
    requires 2 * MsgSize(m) + |behind| <= INT_MAX && m.fixed.head.dataType == C2S_DATA_MSG
    ensures var package := Serialized(Chat(m));
      Handled(w, online, cfd, package + behind, |package|).None? <==>
        if |m.text| <= 126 then m.extend == [] && 0 !in behind else Seen(AsWritten, |m.text| + 1) < -34
  {
    hide EncodeMsg, DecodeMsg, Gate, Handled, UpToNul, Front, Serialized, Relayed;
    HandledChat(w, online, cfd, m, behind);
  }

  /** A package that does not start with its own size, or whose type is not that of a login, a
      message or a query, has no effect. */
  lemma OthersIgnored(w: World, online: Online, cfd: int, mem: seq<byte>, size: nat)
    requires size <= |mem|
    requires !(size >= 8 && size <= INT_MAX && mem[0..4] == EncodeInt32(size)
               && mem[4..8] in {EncodeInt32(100), EncodeInt32(101), EncodeInt32(102)})
    ensures Handled(w, online, cfd, mem, size) == Some(Effect(online, []))
  {
    hide EncodeInt32, OnLogin, OnChat, OnQuery, Gate;
    GateOnBytes(mem, size, SERVER_TYPES);
  }

  // The answers to a login and to a query, as the client reads them.

  lemma AccountRoundTrip(u: User, behind: seq<byte>)
    requires u.head.dataSize == SIZEOF_USER
    ensures DecodeUser(Serialized(Account(u)) + behind, 0) == Some(u)
  {
    var mem := EncodeUser(u) + behind;
    assert mem[0..|EncodeUser(u)|] == EncodeUser(u);
    UserAt(mem, 0, u);
  }

  /** A login package passes the gate, and the record handed to the database is the one sent.
      All answers go to its own connection: the reply, and after a success all users and the
      user's groups, which the client reads for as many of each as the char counts show, while
      the user goes online. */
  lemma LoginAnswered(w: World, online: Online, cfd: int, login: User, behind: seq<byte>)
    requires login.head == Head(SIZEOF_USER, C2S_LOGIN)
    requires 12 + SIZEOF_USER * |w.users| <= INT_MAX && 12 + GroupsSize(w.groups(w.login(login).userId)) <= INT_MAX
    ensures var package, r := Serialized(Account(login)), w.login(login);
      var effect := Handled(w, online, cfd, package + behind, |package|);
      && effect.Some?
      && (forall k | 0 <= k < |effect.value.sent| :: effect.value.sent[k].cfd == cfd)
      && |effect.value.sent| == (if r.ok then 3 else 1)
      && DecodeUser(effect.value.sent[0].bytes, 0) == Some(User(Head(SIZEOF_USER, S2C_LOGIN), r.userId, r.userName))
      && (!r.ok ==> effect.value.online == online)
      && (r.ok ==> CfdOf(effect.value.online, r.userId) == (if r.userId in online then online[r.userId] else cfd)
                   && (forall v | v != r.userId :: CfdOf(effect.value.online, v) == CfdOf(online, v))
                   && UsersRead(w.users, effect.value.sent[1].bytes)
                   && GroupsRead(w.groups(r.userId), effect.value.sent[2].bytes))
  {
    hide EncodeUser, DecodeUser, Gate, UsersRead, GroupsRead, EncodeUserList, EncodeGroupList, GroupsSize;
    PassesGateIff(Account(login), behind, SERVER_TYPES);
    AccountRoundTrip(login, behind);
    var r := w.login(login);
    var reply := LoginAnswer(r).user;
    AccountRoundTrip(reply, []);
    assert Serialized(Account(reply)) + [] == Serialized(Account(reply));
    if r.ok {
      UsersAnswerRead(w);
      GroupsAnswerRead(w, r.userId);
    }
  }

  /** The users a client reads from the bytes. */
  predicate UsersRead(users: seq<User>, bytes: seq<byte>) {
    DecodeUserList(AsWritten, bytes, 0) ==
      Some(UserList(Head(Wrap(12 + SIZEOF_USER * |users|), S2C_USER_LIST), users[..Times(AsWritten, |users|)]))
  }

  /** The groups a client reads from the bytes: their sizes filled in, the list and every
      group's members cut to what the char counts show. */
  predicate GroupsRead(groups: seq<Group>, bytes: seq<byte>) {
    DecodeGroupList(AsWritten, bytes, 0) ==
      Some(GroupList(Head(Wrap(12 + GroupsSize(groups)), S2C_GROUP_LIST),
                     SeenGroups(AsWritten, SizedGroups(groups))[..Times(AsWritten, |groups|)]))
  }

  lemma UsersAnswerRead(w: World)
    requires 12 + SIZEOF_USER * |w.users| <= INT_MAX
    ensures UsersRead(w.users, Serialized(UsersAnswer(w)))
  {
    hide EncodeUserList, DecodeUserList;
    var l := SizedUserList(UsersAnswer(w).users);
    var bytes := EncodeUserList(l);
    assert bytes[0..|bytes|] == bytes;
    UserListAt(AsWritten, bytes, 0, l);
  }

  lemma GroupsAnswerRead(w: World, userId: int32)
    requires 12 + GroupsSize(w.groups(userId)) <= INT_MAX
    ensures GroupsRead(w.groups(userId), Serialized(GroupsAnswer(w, userId)))
  {
    hide EncodeGroupList, DecodeGroupList, SeenGroups, GroupsSize;
    var l := GroupsAnswer(w, userId).groups;
    var bytes := EncodeGroupList(SizedGroupList(l));
    assert bytes[0..|bytes|] == bytes;
    GroupListAt(AsWritten, bytes, 0, l);
  }

  /** A query is answered on its own connection by one list that the client reads message by
      message, for as many as the char count shows: fixed fields and texts up to a NUL as they
      are stored, extensions as ReadBack says. */
  lemma QueryAnswered(w: World, online: Online, cfd: int, query: GetMsgList, behind: seq<byte>)
    requires query.head == Head(SIZEOF_GET_MSG_LIST, C2S_GET_DATA_MSG_LIST)
    requires 12 + MsgsSize(w.stored(query)) <= INT_MAX
    ensures var package, stored := Serialized(Query(query)), w.stored(query);
      var effect := Handled(w, online, cfd, package + behind, |package|);
      && effect.Some? && effect.value.online == online
      && |effect.value.sent| == 1 && effect.value.sent[0].cfd == cfd
      && StoredRead(stored, effect.value.sent[0].bytes)
  {
    hide EncodeGetMsgList, DecodeGetMsgList, Gate, StoredRead, EncodeMsgList, MsgsSize;
    PassesGateIff(Query(query), behind, SERVER_TYPES);
    QueryAt(EncodeGetMsgList(query) + behind, query);
    StoredAnswerRead(w, query);
  }

  /** The messages a client reads from the bytes. */
  predicate StoredRead(stored: seq<Msg>, bytes: seq<byte>) {
    DecodeMsgList(AsWritten, bytes, 0) ==
      Some((Head(Wrap(12 + MsgsSize(stored)), S2C_DATA_MSG_LIST),
            ReadBacks(AsWritten, bytes, 12, SizedMsgs(stored)[..Times(AsWritten, |stored|)])))
  }

  lemma StoredAnswerRead(w: World, query: GetMsgList)
    requires 12 + MsgsSize(w.stored(query)) <= INT_MAX
    ensures StoredRead(w.stored(query), Serialized(StoredAnswer(w, query)))
  {
    hide EncodeMsgList, DecodeMsgList, ReadBacks, MsgsSize;
    var l := StoredAnswer(w, query).msgs;
    var bytes := EncodeMsgList(SizedMsgList(l));
    assert bytes[0..|bytes|] == bytes;
    MsgListRoundTrip(AsWritten, bytes, 0, l);
  }

  lemma QueryAt(mem: seq<byte>, query: GetMsgList)
    requires EncodeGetMsgList(query) <= mem
    ensures DecodeGetMsgList(mem, 0) == Some(query)
  {
    assert mem[0..|EncodeGetMsgList(query)|] == EncodeGetMsgList(query);
    GetMsgListAt(mem, 0, query);
  }
}
