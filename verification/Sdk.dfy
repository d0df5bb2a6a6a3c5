/** The client's interface object: the packages it builds from calls, and the notices it makes
    of packages received. */
module Sdk {
  import opened Bytes
  import opened Records
  import opened RoundTrip
  import opened DataTypes
  import opened Dispatch
  import opened Relay

  datatype UserInfo = UserInfo(userId: int32, userName: seq<byte>)
  datatype GroupInfo = GroupInfo(groupId: int32, groupName: seq<byte>, adminId: int32, users: seq<UserInfo>)
  datatype ChatMsg = ChatMsg(msgId: int32, msgType: int32, sender: int32, receiver: int32, isGroup: bool,
                             createdTime: int32, text: seq<byte>, extend: seq<byte>)

  /** What the application is called back with. */
  datatype Notice = Nothing | LoginNotice(userId: int32, userName: seq<byte>) | UserNotice(users: seq<UserInfo>)
                  | GroupNotice(groups: seq<GroupInfo>) | ChatNotice(msg: ChatMsg) | ChatsNotice(msgs: seq<ChatMsg>)

  // From records to the interface's own types. Reading a name needs its NUL.

  predicate Terminated(n: Name) {
    0 in n
  }

  predicate AllTerminated(us: seq<User>) {
    forall i | 0 <= i < |us| :: Terminated(us[i].userName)
  }

  predicate GroupsTerminated(gs: seq<Group>) {
    forall i | 0 <= i < |gs| :: Terminated(gs[i].groupName) && AllTerminated(gs[i].userList.users)
  }

  function InfoOf(u: User): UserInfo {
    UserInfo(u.userId, UpToNul(u.userName))
  }

  function InfosOf(us: seq<User>): (r: seq<UserInfo>)
    ensures |r| == |us| && forall i | 0 <= i < |us| :: r[i] == InfoOf(us[i])
  {
    seq(|us|, i requires 0 <= i < |us| => InfoOf(us[i]))
  }

  function GroupInfoOf(g: Group): GroupInfo {
    GroupInfo(g.groupId, UpToNul(g.groupName), g.adminId, InfosOf(g.userList.users))
  }

  function GroupInfosOf(gs: seq<Group>): (r: seq<GroupInfo>)
    ensures |r| == |gs| && forall i | 0 <= i < |gs| :: r[i] == GroupInfoOf(gs[i])
  {
    seq(|gs|, i requires 0 <= i < |gs| => GroupInfoOf(gs[i]))
  }

  function ChatOf(m: Msg): ChatMsg {
    ChatMsg(m.fixed.msgId, m.fixed.msgType, m.fixed.sender, m.fixed.receiver, m.fixed.isGroup, m.fixed.createdTime,
            m.text, m.extend)
  }

  function ChatsOf(ms: seq<Msg>): (r: seq<ChatMsg>)
    ensures |r| == |ms| && forall i | 0 <= i < |ms| :: r[i] == ChatOf(ms[i])
  {
    seq(|ms|, i requires 0 <= i < |ms| => ChatOf(ms[i]))
  }

  method ConvertUsers(users: seq<User>) returns (ok: bool, infos: seq<UserInfo>)
    ensures ok == AllTerminated(users)
    ensures ok ==> infos == InfosOf(users)
  {
    infos := [];
    for i := 0 to |users|
      invariant |infos| == i
      invariant forall j | 0 <= j < i :: Terminated(users[j].userName) && infos[j] == InfoOf(users[j])
    {
      if 0 !in users[i].userName {
        return false, infos;
      }
      infos := infos + [UserInfo(users[i].userId, UpToNul(users[i].userName))];
    }
    ok := true;
    assert infos == InfosOf(users);
  }

  method ConvertGroups(groups: seq<Group>) returns (ok: bool, infos: seq<GroupInfo>)
    ensures ok == GroupsTerminated(groups)
    ensures ok ==> infos == GroupInfosOf(groups)
  {
    infos := [];
    for i := 0 to |groups|
      invariant |infos| == i
      invariant GroupsTerminated(groups[..i])
      invariant forall j | 0 <= j < i :: infos[j] == GroupInfoOf(groups[j])
    {
      var g := groups[i];
      assert groups[..i + 1][i] == g;
      var usersOk, users := ConvertUsers(g.userList.users);
      if 0 !in g.groupName || !usersOk {
        return false, infos;
      }
      infos := infos + [GroupInfo(g.groupId, UpToNul(g.groupName), g.adminId, users)];
    }
    ok := true;
    assert groups[..|groups|] == groups;
    assert infos == GroupInfosOf(groups);
  }

  method ConvertMsgs(msgs: seq<Msg>) returns (chats: seq<ChatMsg>)
    ensures chats == ChatsOf(msgs)
  {
    chats := [];
    for i := 0 to |msgs|
      invariant |chats| == i && forall j | 0 <= j < i :: chats[j] == ChatOf(msgs[j])
    {
      var f := msgs[i].fixed;
      chats := chats + [ChatMsg(f.msgId, f.msgType, f.sender, f.receiver, f.isGroup, f.createdTime,
                                msgs[i].text, msgs[i].extend)];
    }
    assert chats == ChatsOf(msgs);
  }

  // What a received package is made into. None stands for a read outside the memory.

  function OnAccount(mem: seq<byte>): Option<Notice> {
    var u := DecodeUser(mem, 0);
    if u.None? || !Terminated(u.value.userName) then None
    else Some(LoginNotice(u.value.userId, UpToNul(u.value.userName)))
  }

  function OnUsers(mem: seq<byte>): Option<Notice> {
    var l := DecodeUserList(AsWritten, mem, 0);
    if l.None? || !AllTerminated(l.value.users) then None else Some(UserNotice(InfosOf(l.value.users)))
  }

  function OnGroups(mem: seq<byte>): Option<Notice> {
    var l := DecodeGroupList(AsWritten, mem, 0);
    if l.None? || !GroupsTerminated(l.value.groups) then None else Some(GroupNotice(GroupInfosOf(l.value.groups)))
  }

  function OnMsg(mem: seq<byte>): Option<Notice> {
    var d := DecodeMsg(AsWritten, mem, 0);
    if d.None? || d.value.extend.None? then None else Some(ChatNotice(ChatOf(Landed(d.value))))
  }

  function OnMsgs(mem: seq<byte>): Option<Notice> {
    var d := DecodeMsgList(AsWritten, mem, 0);
    if d.None? then None else Some(ChatsNotice(ChatsOf(LandedAll(d.value.1))))
  }

  /** callbacks: the message types for which the application has set a callback. */
  function Noticed(callbacks: set<int32>, mem: seq<byte>, size: nat): Option<Notice>
    requires size <= |mem|
  {
    var handler := Gate(mem, size, CLIENT_TYPES);
    if handler.None? || handler.value !in callbacks then Some(Nothing)
    else if handler.value == S2C_LOGIN then OnAccount(mem)
    else if handler.value == S2C_USER_LIST then OnUsers(mem)
    else if handler.value == S2C_GROUP_LIST then OnGroups(mem)
    else if handler.value == S2C_DATA_MSG then OnMsg(mem)
    else OnMsgs(mem)
  }

  /** The user the client takes itself for after a notice. */
  function SelfAfter(self: int32, n: Notice): int32 {
    if n.LoginNotice? && n.userId != -1 then n.userId else self
  }

  /** The 32 bytes the password is copied into; before holds what was there. */
  function PasswordField(password: seq<byte>, before: Name): (n: Name) {
    var k := if |password| + 1 < 32 then |password| + 1 else 32;
    (password + [0])[..k] + before[k..]
  }

  function OutgoingChat(self: int32, msgId: int32, msgType: int32, receiver: int32, isGroup: bool, now: int32,
                        text: seq<byte>, ext: seq<byte>): Msg {
    Msg(Fixed(Head(Wrap(SIZEOF_MSG_FIXED + 10 + |text| + |ext|), C2S_DATA_MSG), msgId, msgType, self, receiver, isGroup,
              now),
        text, ext)
  }

  class SocketMessageSdkInterface {
    var selfUserId: int32
    var callbacks: set<int32>

    constructor ()
      ensures selfUserId == 0 && callbacks == {}
    {
      selfUserId, callbacks := 0, {};
    }

    /** before stands for the uninitialised bytes of the record. */
    method SendLogin(connected: bool, userId: int32, password: seq<byte>, before: Name)
      returns (package: Option<seq<byte>>)
      ensures connected <==> package.Some?
      ensures connected ==>
        package.value == EncodeUser(User(Head(SIZEOF_USER, C2S_LOGIN), userId, PasswordField(password, before)))
    {
      hide EncodeUser, PasswordField;
      if !connected {
        return None;
      }
      var field := FillPassword(password, before);
      var p := new byte[SIZEOF_USER];
      var end := Fill(p, 0, EncodeUser(User(Head(SIZEOF_USER, C2S_LOGIN), userId, field)), []);
      assert p[..] == p[..end];
      package := Some(p[..]);
    }

    method FillPassword(password: seq<byte>, before: Name) returns (field: Name)
      ensures field == PasswordField(password, before)
    {
      var a := new byte[32](i requires 0 <= i < 32 => before[i]);
      assert a[..] == before;
      var passwordLength := 32;
      if passwordLength > |password| + 1 {
        passwordLength := |password| + 1;
      }
      MemCopy(a, 0, (password + [0])[..passwordLength]);
      assert a[..] == PasswordField(password, before);
      field := a[..];
    }

    /** msgId stands for the uninitialised number of the record. Nothing is sent before a login. */
    method SendDataMsg(connected: bool, msgId: int32, msgType: int32, receiver: int32, isGroup: bool, now: int32,
                       text: seq<byte>, ext: seq<byte>) returns (package: Option<seq<byte>>)
      requires SIZEOF_MSG_FIXED + 10 + |text| + |ext| <= INT_MAX
      ensures package.Some? <==> connected && selfUserId != 0
      ensures package.Some? ==>
        package.value ==
          EncodeMsg(OutgoingChat(selfUserId, msgId, msgType, receiver, isGroup, now, text, ext))
    {
      hide EncodeMsg;
      if !connected || selfUserId == 0 {
        return None;
      }
      var dataMsg := new DataMsg(C2S_DATA_MSG);
      dataMsg.fixed := dataMsg.fixed.(msgId := msgId, msgType := msgType, sender := selfUserId, receiver := receiver,
                                      isGroup := isGroup, createdTime := now);
      dataMsg.text, dataMsg.extend := text, ext;
      var p := dataMsg.Serialize();
      package := Some(p[..]);
    }

    method SendGetDataMsgList(connected: bool, lastMsgId: int32) returns (package: Option<seq<byte>>)
      ensures package.Some? <==> connected && selfUserId != 0
      ensures package.Some? ==>
        package.value ==
          EncodeGetMsgList(GetMsgList(Head(SIZEOF_GET_MSG_LIST, C2S_GET_DATA_MSG_LIST), lastMsgId, selfUserId))
    {
      hide EncodeGetMsgList;
      if !connected || selfUserId == 0 {
        return None;
      }
      var query := GetMsgList(Head(SIZEOF_GET_MSG_LIST, C2S_GET_DATA_MSG_LIST), lastMsgId, selfUserId);
      var p := new byte[SIZEOF_GET_MSG_LIST];
      var end := Fill(p, 0, EncodeGetMsgList(query), []);
      assert p[..] == p[..end];
      package := Some(p[..]);
    }

    method SocketReadReadPackageCallback(data: array<byte>, size: nat) returns (ok: bool, notice: Notice)
      requires size <= data.Length
      modifies this`selfUserId
      ensures var n := Noticed(callbacks, data[..], size);
        && ok == n.Some? && (ok ==> notice == n.value)
        && selfUserId == (if ok then SelfAfter(old(selfUserId), notice) else old(selfUserId))
      ensures !(ok && notice.LoginNotice?) ==> selfUserId == old(selfUserId)
    {
      hide OnAccount, OnUsers, OnGroups, OnMsg, OnMsgs, Gate;
      ok, notice := true, Nothing;
      var handler := GateOf(data, size, CLIENT_TYPES);
      if handler.None? || handler.value !in callbacks {
        return;
      }
      if handler.value == S2C_LOGIN {
        ok, notice := DataHandlerS2CLogin(data);
      } else if handler.value == S2C_USER_LIST {
        ok, notice := DataHandlerS2CUserList(data);
      } else if handler.value == S2C_GROUP_LIST {
        ok, notice := DataHandlerS2CGroupList(data);
      } else if handler.value == S2C_DATA_MSG {
        ok, notice := DataHandlerS2CDataMsg(data);
      } else {
        ok, notice := DataHandlerS2CDataMsgList(data);
      }
    }

    method DataHandlerS2CLogin(data: array<byte>) returns (ok: bool, notice: Notice)
      modifies this`selfUserId
      ensures ok == OnAccount(data[..]).Some? && (ok ==> notice == OnAccount(data[..]).value)
      ensures ok ==> notice.LoginNotice?
      ensures selfUserId == (if ok then SelfAfter(old(selfUserId), notice) else old(selfUserId))
    {
      hide DecodeUser;
      notice := Nothing;
      var login := ReadUserAt(data, 0);
      if login.None? || 0 !in login.value.userName {
        return false, notice;
      }
      if login.value.userId != -1 {
        selfUserId := login.value.userId;
      }
      ok, notice := true, LoginNotice(login.value.userId, UpToNul(login.value.userName));
    }

    method DataHandlerS2CUserList(data: array<byte>) returns (ok: bool, notice: Notice)
      ensures ok == OnUsers(data[..]).Some? && (ok ==> notice == OnUsers(data[..]).value && notice.UserNotice?)
    {
      hide DecodeUserList, InfosOf, AllTerminated;
      notice := Nothing;
      var userList := new S2CUserList();
      ok := userList.UnSerialize(AsWritten, data, 0);
      if ok {
        assert userList.users == DecodeUserList(AsWritten, data[..], 0).value.users;
        var infos;
        ok, infos := ConvertUsers(userList.users);
        notice := UserNotice(infos);
      }
    }

    method DataHandlerS2CGroupList(data: array<byte>) returns (ok: bool, notice: Notice)
      ensures ok == OnGroups(data[..]).Some? && (ok ==> notice == OnGroups(data[..]).value && notice.GroupNotice?)
    {
      hide DecodeGroupList, GroupInfosOf, GroupsTerminated;
      notice := Nothing;
      var gl := new S2CGroupList();
      ok := gl.UnSerialize(AsWritten, data, 0);
      if ok {
        assert gl.groups == DecodeGroupList(AsWritten, data[..], 0).value.groups;
        var infos;
        ok, infos := ConvertGroups(gl.groups);
        notice := GroupNotice(infos);
      }
    }

    method DataHandlerS2CDataMsg(data: array<byte>) returns (ok: bool, notice: Notice)
      ensures ok == OnMsg(data[..]).Some? && (ok ==> notice == OnMsg(data[..]).value && notice.ChatNotice?)
    {
      hide DecodeMsg;
      notice := Nothing;
      var dm := new DataMsg(S2C_DATA_MSG);
      var overread;
      ok, overread := dm.UnSerialize(AsWritten, data, 0);
      ok := ok && !overread;
      if ok {
        assert dm.Value() == Landed(DecodeMsg(AsWritten, data[..], 0).value);
        notice := ChatNotice(ChatMsg(dm.fixed.msgId, dm.fixed.msgType, dm.fixed.sender, dm.fixed.receiver,
                                     dm.fixed.isGroup, dm.fixed.createdTime, dm.text, dm.extend));
      }
    }

    method DataHandlerS2CDataMsgList(data: array<byte>) returns (ok: bool, notice: Notice)
      ensures ok == OnMsgs(data[..]).Some? && (ok ==> notice == OnMsgs(data[..]).value && notice.ChatsNotice?)
    {
      hide DecodeMsgList, ChatsOf;
      notice := Nothing;
      var msgList := new DataMsgList();
      ok := msgList.UnSerialize(AsWritten, data, 0);
      if ok {
        assert msgList.msgs == LandedAll(DecodeMsgList(AsWritten, data[..], 0).value.1);
        var chats := ConvertMsgs(msgList.msgs);
        notice := ChatsNotice(chats);
      }
    }
  }

  /** A package that does not start with its own size, that has none of the types a server
      sends as a package, or for whose type no callback is set, is shown as nothing and leaves
      the client who it was. */
  lemma OthersNotShown(callbacks: set<int32>, self: int32, mem: seq<byte>, size: nat)
    requires size <= |mem|
    requires !(8 <= size <= INT_MAX && mem[0..4] == EncodeInt32(size)
               && exists t: int32 :: t in {200, 202, 204, 205, 206} && t in callbacks && mem[4..8] == EncodeInt32(t))
    ensures Noticed(callbacks, mem, size) == Some(Nothing) && SelfAfter(self, Nothing) == self
  {
    hide EncodeInt32, OnAccount, OnUsers, OnGroups, OnMsg, OnMsgs, Gate;
    GateOnBytes(mem, size, CLIENT_TYPES);
  }

  // From one application to another.

  /** The package of SendLogin passes the server's gate as a login. The server reads the user's
      id, and the password the user typed exactly when it has at most 31 bytes and no NUL among
      them; longer ones arrive without a terminator. */
  lemma PasswordArrivesIff(userId: int32, password: seq<byte>, before: Name, behind: seq<byte>)
    ensures var package := EncodeUser(User(Head(SIZEOF_USER, C2S_LOGIN), userId, PasswordField(password, before)));
      var d := DecodeUser(package + behind, 0);
      && Gate(package + behind, |package|, SERVER_TYPES) == Some(C2S_LOGIN)
      && d.Some? && d.value.userId == userId
      && (Terminated(d.value.userName) && UpToNul(d.value.userName) == password <==> |password| <= 31 && 0 !in password)
      && (if |password| <= 31 then password + [0] <= d.value.userName else d.value.userName == password[..32])
  {
    hide EncodeUser, DecodeUser, PasswordField, UpToNul, Gate;
    var login := User(Head(SIZEOF_USER, C2S_LOGIN), userId, PasswordField(password, before));
    AccountRoundTrip(login, behind);
    PassesGateIff(Account(login), behind, SERVER_TYPES);
    PasswordFieldReads(password, before);
  }

  /** The package of SendGetDataMsgList asks the database about the caller's own messages after
      the given one. */
  lemma QueryArrives(w: World, online: Online, cfd: int, self: int32, lastMsgId: int32, behind: seq<byte>)
    requires var query := GetMsgList(Head(16, C2S_GET_DATA_MSG_LIST), lastMsgId, self);
      12 + MsgsSize(w.stored(query)) <= INT_MAX
    ensures var query := GetMsgList(Head(16, C2S_GET_DATA_MSG_LIST), lastMsgId, self);
      var package := EncodeGetMsgList(query);
      var effect := Handled(w, online, cfd, package + behind, |package|);
      && effect.Some? && effect.value.online == online && |effect.value.sent| == 1
      && effect.value.sent[0].cfd == cfd && StoredRead(w.stored(query), effect.value.sent[0].bytes)
  {
    hide Handled, StoredRead, EncodeGetMsgList, MsgsSize;
    QueryAnswered(w, online, cfd, GetMsgList(Head(16, C2S_GET_DATA_MSG_LIST), lastMsgId, self), behind);
  }

  /** A successful or refused login is shown with the id and the name the database gave, if the
      name is terminated, and makes the client that user; an id of -1 leaves it who it was. */
  lemma LoginShown(w: World, online: Online, cfd: int, login: User, behind: seq<byte>, callbacks: set<int32>,
                   self: int32)
    requires login.head == Head(SIZEOF_USER, C2S_LOGIN) && S2C_LOGIN in callbacks
    requires 12 + SIZEOF_USER * |w.users| <= INT_MAX && 12 + GroupsSize(w.groups(w.login(login).userId)) <= INT_MAX
    ensures var package, r := Serialized(Account(login)), w.login(login);
      var effect := Handled(w, online, cfd, package + behind, |package|);
      && effect.Some? && effect.value.sent != []
      && var bytes := effect.value.sent[0].bytes;
         var n := Noticed(callbacks, bytes, |bytes|);
         && (n.Some? <==> 0 in r.userName)
         && (n.Some? ==> n.value == LoginNotice(r.userId, UpToNul(r.userName))
                         && SelfAfter(self, n.value) == if r.userId == -1 then self else r.userId)
  {
    hide EncodeUser, DecodeUser, Gate, GroupsSize, UsersRead, GroupsRead, UpToNul, OnLogin;
    LoginAnswered(w, online, cfd, login, behind);
    LoginReply0(w, online, cfd, login, behind);
    var r := w.login(login);
    var reply := User(Head(SIZEOF_USER, S2C_LOGIN), r.userId, r.userName);
    PassesGateIff(Account(reply), [], CLIENT_TYPES);
    assert EncodeUser(reply) + [] == EncodeUser(reply);
  }

  lemma LoginReply0(w: World, online: Online, cfd: int, login: User, behind: seq<byte>)
    requires login.head == Head(SIZEOF_USER, C2S_LOGIN)
    ensures var package, r := Serialized(Account(login)), w.login(login);
      var effect := Handled(w, online, cfd, package + behind, |package|);
      && effect.Some? && effect.value.sent != []
      && effect.value.sent[0].bytes == EncodeUser(User(Head(SIZEOF_USER, S2C_LOGIN), r.userId, r.userName))
  {
    hide EncodeUser, DecodeUser, Gate, EncodeUserList, EncodeGroupList;
    PassesGateIff(Account(login), behind, SERVER_TYPES);
    AccountRoundTrip(login, behind);
  }

  lemma PasswordFieldReads(password: seq<byte>, before: Name)
    ensures var n := PasswordField(password, before);
      && (Terminated(n) && UpToNul(n) == password <==> |password| <= 31 && 0 !in password)
      && (if |password| <= 31 then password + [0] <= n else n == password[..32])
  {
    var n := PasswordField(password, before);
    if |password| <= 31 && 0 !in password {
      assert n == password + [0] + before[|password| + 1..];
      UpToFirstNul(password, before[|password| + 1..]);
    } else if |password| >= 32 && Terminated(n) {
      assert |UpToNul(n)| <= 32;
      assert n == password[..32];
    }
  }

  lemma {:induction false} UpToFirstNul(s: seq<byte>, behind: seq<byte>)
    requires 0 !in s
    ensures UpToNul(s + [0] + behind) == s
    decreases |s|
  {
    var t := s + [0] + behind;
    if s != [] {
      assert t[1..] == s[1..] + [0] + behind;
      UpToFirstNul(s[1..], behind);
    }
  }

  /** The server, handling the bytes of m, sends the package p. */
  predicate SentFor(w: World, online: Online, cfd: int, m: Msg, behind: seq<byte>, p: Packet) {
    var package := Serialized(Chat(m));
    var effect := Handled(w, online, cfd, package + behind, |package|);
    effect.Some? && p in effect.value.sent
  }

  /** What the server, and after it a receiver, takes for the extension of the message m. Both
      follow from the message and the bytes that happen to lie behind the two packages. */
  function AtServer(m: Msg, behind: seq<byte>): Option<seq<byte>> {
    TakenAtFront(SizedMsg(m), behind)
  }

  function AtReceiver(w: World, m: Msg, extend: seq<byte>, behind: seq<byte>): Option<seq<byte>> {
    TakenAtFront(Relayed(w, m, extend), behind)
  }

  /** What the other application is shown of the message m, the server having handled it in w. */
  function Shown(w: World, m: Msg, behind: seq<byte>, behindReceiver: seq<byte>): Option<Notice> {
    match AtServer(m, behind)
    case None => None
    case Some(x) =>
      match AtReceiver(w, m, x, behindReceiver)
      case None => None
      case Some(y) =>
        Some(ChatNotice(ChatMsg(w.save(AsSaved(w, m, x)), m.fixed.msgType, m.fixed.sender, m.fixed.receiver,
                                m.fixed.isGroup, w.now, UpToNul(m.text), y)))
  }

  /** A message given to one application's interface is shown to the other, after the sender's
      encoding, the server's handler and the receiver's handler, exactly when the receiver's
      search for the extension stays in its memory; and then with the sender's fields, the
      server's number and time, the text up to a NUL, and the extension that search finds. */
  lemma ChatShown(w: World, online: Online, cfd: int, callbacks: set<int32>, m: Msg, behind: seq<byte>,
                  behindReceiver: seq<byte>, p: Packet)
    requires 2 * MsgSize(m) + |behind| <= INT_MAX && m.fixed.head.dataType == C2S_DATA_MSG
    requires S2C_DATA_MSG in callbacks && SentFor(w, online, cfd, m, behind, p)
    ensures AtServer(m, behind).Some?
    ensures p.bytes == EncodeMsg(Relayed(w, m, AtServer(m, behind).value))
    ensures Noticed(callbacks, p.bytes + behindReceiver, |p.bytes|) == Shown(w, m, behind, behindReceiver)
  {
    hide Serialized, DecodeMsg, EncodeMsg, Gate, TakenAtFront, Deliveries, Handled, Relayed, AsSaved;
    HandledChat(w, online, cfd, m, behind);
    var x := AtServer(m, behind).value;
    SameBytes(online, Rows(w, m.fixed), m.fixed.sender, EncodeMsg(Relayed(w, m, x)), p);
    RelayedFields(w, m, x, behind);
    ReceiverReads(w, m, x, behindReceiver);
  }

  lemma RelayedFields(w: World, m: Msg, x: seq<byte>, behind: seq<byte>)
    requires 2 * MsgSize(m) + |behind| <= INT_MAX && |x| < MsgSize(m) + |behind|
    ensures MsgSize(Relayed(w, m, x)) <= INT_MAX
    ensures var f := Relayed(w, m, x).fixed;
      && f.msgId == w.save(AsSaved(w, m, x)) && f.msgType == m.fixed.msgType && f.sender == m.fixed.sender
      && f.receiver == m.fixed.receiver && f.isGroup == m.fixed.isGroup && f.createdTime == w.now
  {
    hide UpToNul, AsSaved;
    assert |UpToNul(m.text)| <= |m.text|;
  }

  /** The package of SendDataMsg as the server reads it: the caller's own id as the sender, the
      receiver, type, group flag and time as given, the text up to a NUL, and of the extension,
      after a short text, all but its first byte; a reader with the intended cursor gets it
      whole. */
  lemma OutgoingReads(self: int32, msgId: int32, msgType: int32, receiver: int32, isGroup: bool, now: int32,
                      text: seq<byte>, ext: seq<byte>, behind: seq<byte>)
    requires SIZEOF_MSG_FIXED + 10 + |text| + |ext| <= INT_MAX
    ensures var package := EncodeMsg(OutgoingChat(self, msgId, msgType, receiver, isGroup, now, text, ext));
      var d := DecodeMsg(AsWritten, package + behind, 0);
      && Gate(package + behind, |package|, SERVER_TYPES) == Some(C2S_DATA_MSG)
      && d.Some? && d.value.fixed.sender == self && d.value.fixed.receiver == receiver
      && d.value.fixed.msgType == msgType && d.value.fixed.isGroup == isGroup && d.value.fixed.createdTime == now
      && d.value.text == UpToNul(text)
      && (|text| > 126
          || d.value.extend ==
             if ext != [] then Some(UpToNul(ext[1..])) else if 0 in behind then Some(UpToNul(behind)) else None)
    ensures var package := EncodeMsg(OutgoingChat(self, msgId, msgType, receiver, isGroup, now, text, ext));
      var d := DecodeMsg(Intended, package + behind, 0);
      d.Some? && d.value.extend == Some(UpToNul(ext))
  {
    hide EncodeMsg, DecodeMsg, Gate, UpToNul;
    var m := OutgoingChat(self, msgId, msgType, receiver, isGroup, now, text, ext);
    assert SizedMsg(m) == m;
    PassesGateIff(Chat(m), behind, SERVER_TYPES);
    ServerReads(m, behind);
    assert (EncodeMsg(m) + behind)[0..|EncodeMsg(m)|] == EncodeMsg(m);
    MsgIntended(EncodeMsg(m) + behind, 0, m);
  }

  /** From the caller of SendDataMsg to the application that is shown the message: the notice
      comes from the caller's own id and carries the caller's receiver, type, group flag and
      text; and when there is none. */
  lemma CallerIsShown(w: World, online: Online, cfd: int, callbacks: set<int32>,
                      self: int32, msgId: int32, msgType: int32, receiver: int32, isGroup: bool, now: int32,
                      text: seq<byte>, ext: seq<byte>, behind: seq<byte>, behindReceiver: seq<byte>, p: Packet)
    requires 2 * (SIZEOF_MSG_FIXED + 10 + |text| + |ext|) + |behind| <= INT_MAX && S2C_DATA_MSG in callbacks
    requires var m := OutgoingChat(self, msgId, msgType, receiver, isGroup, now, text, ext);
      var effect := Handled(w, online, cfd, EncodeMsg(m) + behind, |EncodeMsg(m)|);
      effect.Some? && p in effect.value.sent
    ensures var n := Noticed(callbacks, p.bytes + behindReceiver, |p.bytes|);
      n.Some? ==>
        && n.value.ChatNotice?
        && n.value.msg.sender == self && n.value.msg.receiver == receiver && n.value.msg.isGroup == isGroup
        && n.value.msg.msgType == msgType && n.value.msg.text == UpToNul(text) && n.value.msg.createdTime == w.now
    ensures var m := OutgoingChat(self, msgId, msgType, receiver, isGroup, now, text, ext);
      Noticed(callbacks, p.bytes + behindReceiver, |p.bytes|).None? <==>
        if |UpToNul(text)| > 126 then Seen(AsWritten, |UpToNul(text)| + 1) < -34
        else 0 !in behindReceiver && ServerFindsEmpty(m, behind)
    ensures p.cfd != CfdOf(online, self) || !OneUserPerConnection(online)
  {
    hide EncodeMsg, Handled, Noticed, UpToNul, TakenAtFront, Relayed, ServerFindsEmpty;
    var m := OutgoingChat(self, msgId, msgType, receiver, isGroup, now, text, ext);
    assert SizedMsg(m) == m;
    ChatShown(w, online, cfd, callbacks, m, behind, behindReceiver, p);
    ChatArrives(w, online, cfd, callbacks, m, behind, behindReceiver, p);
    NotToSelf(w, online, cfd, m, behind, p);
  }

  /** And it goes where the caller said: to the receiver's connection, or to each member of the
      group as often as listed, and not back to the caller. */
  lemma CallerReaches(w: World, online: Online, cfd: int, self: int32, msgId: int32, msgType: int32, receiver: int32,
                      isGroup: bool, now: int32, text: seq<byte>, ext: seq<byte>, behind: seq<byte>, userId: int32)
    requires 2 * (SIZEOF_MSG_FIXED + 10 + |text| + |ext|) + |behind| <= INT_MAX
    requires OneUserPerConnection(online) && CfdOf(online, userId) > 0
    ensures var package := EncodeMsg(OutgoingChat(self, msgId, msgType, receiver, isGroup, now, text, ext));
      var effect := Handled(w, online, cfd, package + behind, |package|);
      effect.Some? ==>
        PackagesTo(effect.value.sent, online[userId]) ==
          if userId == self then 0
          else if isGroup then RowsOf(w.members(receiver), userId)
          else if userId == receiver then 1 else 0
  {
    hide EncodeMsg, Handled, PackagesTo;
    var m := OutgoingChat(self, msgId, msgType, receiver, isGroup, now, text, ext);
    assert SizedMsg(m) == m;
    GoesWhereAddressed(w, online, cfd, m, behind, userId);
  }

  /** A package goes to the connection of some user who is not the sender. */
  lemma NotToSelf(w: World, online: Online, cfd: int, m: Msg, behind: seq<byte>, p: Packet)
    requires MsgSize(m) <= INT_MAX && m.fixed.head.dataType == C2S_DATA_MSG && SentFor(w, online, cfd, m, behind, p)
    ensures OneUserPerConnection(online) ==> p.cfd != CfdOf(online, m.fixed.sender)
  {
    hide Handled, Serialized, EncodeMsg, TakenAtFront, Relayed, Deliveries;
    HandledChat(w, online, cfd, m, behind);
    var rows, bytes := Rows(w, m.fixed), EncodeMsg(Relayed(w, m, AtServer(m, behind).value));
    var at := OnePackagePerRow(online, rows, m.fixed.sender, bytes);
    var k :| 0 <= k < |at| && Deliveries(online, rows, m.fixed.sender, bytes)[k] == p;
  }

  /** The condition in the sender's terms: the message is shown to no one it was sent to
      exactly when one of the two decoders gets lost. With a text of at most 126 bytes up to
      its NUL that means that the server found an empty extension, as it does after one of a
      single byte, and that no NUL lies behind the receiver's package; with a longer one, that
      its size reads below -34. */
  lemma ChatArrives(w: World, online: Online, cfd: int, callbacks: set<int32>, m: Msg, behind: seq<byte>,
                    behindReceiver: seq<byte>, p: Packet)
    requires 2 * MsgSize(m) + |behind| <= INT_MAX && m.fixed.head.dataType == C2S_DATA_MSG
    requires S2C_DATA_MSG in callbacks && SentFor(w, online, cfd, m, behind, p)
    ensures var n, size, read := Noticed(callbacks, p.bytes + behindReceiver, |p.bytes|), |m.text|, |UpToNul(m.text)|;
      n.None? <==>
        if read > 126 then Seen(AsWritten, read + 1) < -34
        else 0 !in behindReceiver && ServerFindsEmpty(m, behind)
  {
    hide Serialized, DecodeMsg, Gate, Deliveries, Handled, UpToNul, Front;
    ChatShown(w, online, cfd, callbacks, m, behind, behindReceiver, p);
    ServerFindsEmptyIff(m, behind);
  }

  /** The extension found by the server is empty. */
  predicate ServerFindsEmpty(m: Msg, behind: seq<byte>) {
    if |m.text| > 126 then FoundInFront(SizedMsg(m)) == Some([])
    else if m.extend == [] then behind != [] && behind[0] == 0
    else |m.extend| == 1 || m.extend[1] == 0
  }

  lemma ServerFindsEmptyIff(m: Msg, behind: seq<byte>)
    ensures ServerFindsEmpty(m, behind) <==> AtServer(m, behind) == Some([])
  {
    hide Front;
  }

  lemma SameBytes(online: Online, rows: seq<int32>, sender: int32, bytes: seq<byte>, p: Packet)
    requires p in Deliveries(online, rows, sender, bytes)
    ensures p.bytes == bytes
  {
    hide Deliveries;
    var at := OnePackagePerRow(online, rows, sender, bytes);
  }

  /** The application is shown the users the server looked up, as many as the char count lets
      through, with their ids and names, exactly when these names are terminated. */
  lemma UsersShown(w: World, callbacks: set<int32>)
    requires 12 + SIZEOF_USER * |w.users| <= INT_MAX && S2C_USER_LIST in callbacks
    ensures var bytes, seen := Serialized(UsersAnswer(w)), w.users[..Times(AsWritten, |w.users|)];
      var n := Noticed(callbacks, bytes, |bytes|);
      && (n.Some? <==> forall i | 0 <= i < |seen| :: 0 in seen[i].userName)
      && (n.Some? ==> n.value.UserNotice? && AreUsers(n.value.users, seen))
  {
    hide EncodeUserList, DecodeUserList, Gate;
    var bytes := Serialized(UsersAnswer(w));
    assert bytes + [] == bytes;
    PassesGateIff(UsersAnswer(w), [], CLIENT_TYPES);
    UsersAnswerRead(w);
  }

  /** Ids and names, user by user. */
  predicate AreUsers(infos: seq<UserInfo>, users: seq<User>) {
    && |infos| == |users|
    && forall i | 0 <= i < |users| ::
         infos[i].userId == users[i].userId && infos[i].userName == UpToNul(users[i].userName)
  }

  /** It is shown the groups the server looked up, list and members cut to what the char counts
      let through, with their ids, names, administrators and members, exactly when the names
      among these are terminated. */
  lemma GroupsShown(w: World, userId: int32, callbacks: set<int32>)
    requires 12 + GroupsSize(w.groups(userId)) <= INT_MAX && S2C_GROUP_LIST in callbacks
    ensures var bytes, groups := Serialized(GroupsAnswer(w, userId)), w.groups(userId);
      var n, count := Noticed(callbacks, bytes, |bytes|), Times(AsWritten, |groups|);
      && (n.Some? <==> forall i | 0 <= i < count :: NamesTerminated(groups[i]))
      && (n.Some? ==> n.value.GroupNotice? && |n.value.groups| == count
                      && forall i | 0 <= i < count :: IsGroup(n.value.groups[i], groups[i]))
  {
    hide EncodeGroupList, DecodeGroupList, Gate, GroupsSize, NamesTerminated, IsGroup, GroupsTerminated, GroupInfoOf;
    var bytes, groups := Serialized(GroupsAnswer(w, userId)), w.groups(userId);
    assert bytes + [] == bytes;
    PassesGateIff(GroupsAnswer(w, userId), [], CLIENT_TYPES);
    GroupsAnswerRead(w, userId);
    var count := Times(AsWritten, |groups|);
    var seen := SeenGroups(AsWritten, SizedGroups(groups))[..count];
    TerminatedEach(seen);
    forall i | 0 <= i < count
      ensures seen[i] == SeenGroup(AsWritten, SizedGroup(groups[i]))
      ensures EachTerminated(seen[i]) <==> NamesTerminated(groups[i])
      ensures IsGroup(GroupInfoOf(seen[i]), groups[i])
    {
      GroupAsShown(groups[i]);
    }
  }

  predicate EachTerminated(g: Group) {
    Terminated(g.groupName) && AllTerminated(g.userList.users)
  }

  lemma TerminatedEach(gs: seq<Group>)
    ensures GroupsTerminated(gs) <==> forall i | 0 <= i < |gs| :: EachTerminated(gs[i])
  {
  }

  /** The group's name and those of the members that are let through end in NUL. */
  predicate NamesTerminated(g: Group) {
    var users := g.userList.users;
    0 in g.groupName && forall i | 0 <= i < Times(AsWritten, |users|) :: 0 in users[i].userName
  }

  /** Id, name, administrator, and the members that are let through. */
  predicate IsGroup(info: GroupInfo, g: Group) {
    var users := g.userList.users;
    && info.groupId == g.groupId && info.groupName == UpToNul(g.groupName) && info.adminId == g.adminId
    && AreUsers(info.users, users[..Times(AsWritten, |users|)])
  }

  lemma GroupAsShown(g: Group)
    ensures var seen := SeenGroup(AsWritten, SizedGroup(g));
      (EachTerminated(seen) <==> NamesTerminated(g)) && IsGroup(GroupInfoOf(seen), g)
  {
    hide UpToNul;
  }

  /** It is shown the stored messages, as many as the char count lets through: every field, the
      text up to a NUL, and the extension as it is read, or none when the search for it leaves
      the memory. */
  lemma HistoryShown(w: World, query: GetMsgList, callbacks: set<int32>)
    requires 12 + MsgsSize(w.stored(query)) <= INT_MAX && S2C_DATA_MSG_LIST in callbacks
    ensures var bytes, stored := Serialized(StoredAnswer(w, query)), w.stored(query);
      var n, count := Noticed(callbacks, bytes, |bytes|), Times(AsWritten, |stored|);
      && n.Some? && n.value.ChatsNotice? && |n.value.msgs| == count
      && forall i | 0 <= i < count ::
           && IsMessage(n.value.msgs[i], stored[i])
           && var x := ExtendTaken(bytes, 12 + MsgsSize(SizedMsgs(stored)[..i]), SizedMsg(stored[i]));
              n.value.msgs[i].extend == if x.Some? then x.value else []
  {
    hide EncodeMsgList, DecodeMsgList, Gate, ReadBacks, MsgsSize, IsMessage, ExtendTaken, SizedMsg, ReadBack;
    var bytes, stored := Serialized(StoredAnswer(w, query)), w.stored(query);
    assert bytes + [] == bytes;
    PassesGateIff(StoredAnswer(w, query), [], CLIENT_TYPES);
    StoredAnswerRead(w, query);
    var count := Times(AsWritten, |stored|);
    var cut := SizedMsgs(stored)[..count];
    var read := ReadBacks(AsWritten, bytes, 12, cut);
    forall i | 0 <= i < count
      ensures IsMessage(ChatOf(Landed(read[i])), stored[i])
      ensures var x := ExtendTaken(bytes, 12 + MsgsSize(SizedMsgs(stored)[..i]), SizedMsg(stored[i]));
        ChatOf(Landed(read[i])).extend == if x.Some? then x.value else []
    {
      ReadBackOf(AsWritten, bytes, 12, cut, i);
      assert cut[..i] == SizedMsgs(stored)[..i];
      MessageAsShown(bytes, 12 + MsgsSize(cut[..i]), stored[i]);
    }
  }

  /** Number, type, sender, receiver, group flag, time and text. */
  predicate IsMessage(c: ChatMsg, m: Msg) {
    && c.msgId == m.fixed.msgId && c.msgType == m.fixed.msgType && c.sender == m.fixed.sender
    && c.receiver == m.fixed.receiver && c.isGroup == m.fixed.isGroup && c.createdTime == m.fixed.createdTime
    && c.text == UpToNul(m.text)
  }

  lemma MessageAsShown(mem: seq<byte>, at: nat, m: Msg)
    ensures var c, x := ChatOf(Landed(ReadBack(AsWritten, mem, at, SizedMsg(m)))), ExtendTaken(mem, at, SizedMsg(m));
      IsMessage(c, m) && c.extend == if x.Some? then x.value else []
  {
    hide ExtendTaken, UpToNul;
  }
}
