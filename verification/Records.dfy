/** The message records, their bytes, and the decoders that read them back from memory. */
module Records {
  import opened Bytes

  type Name = n: seq<byte> | |n| == 32 witness seq(32, _ => 0)

  datatype Head = Head(dataSize: int32, dataType: int32)

  /** Also the layout of the login request and reply: a head, an id and 32 bytes. */
  datatype User = User(head: Head, userId: int32, userName: Name)
  datatype UserList = UserList(head: Head, users: seq<User>)
  datatype Group = Group(head: Head, groupId: int32, groupName: Name, adminId: int32, userList: UserList)
  datatype GroupList = GroupList(head: Head, groups: seq<Group>)
  datatype Fixed = Fixed(head: Head, msgId: int32, msgType: int32, sender: int32, receiver: int32, isGroup: bool,
                         createdTime: int32)
  datatype Msg = Msg(fixed: Fixed, text: seq<byte>, extend: seq<byte>)
  datatype MsgList = MsgList(head: Head, msgs: seq<Msg>)
  datatype GetMsgList = GetMsgList(head: Head, lastMsgId: int32, userId: int32)

  const C2S_LOGIN := 100
  const C2S_DATA_MSG := 101
  const C2S_GET_DATA_MSG_LIST := 102
  const S2C_LOGIN := 200
  const S2C_USER := 201
  const S2C_USER_LIST := 202
  const S2C_GROUP := 203
  const S2C_GROUP_LIST := 204
  const S2C_DATA_MSG := 205
  const S2C_DATA_MSG_LIST := 206

  const SIZEOF_INT := 4
  const SIZEOF_HEAD := 8
  const SIZEOF_USER := 44
  const SIZEOF_GROUP_FIXED := 48
  const SIZEOF_MSG_FIXED := 29
  const SIZEOF_GET_MSG_LIST := 16

  // Bytes of a record whose sizes are already filled in.

  function EncodeHead(h: Head): (b: seq<byte>)
    ensures |b| == SIZEOF_HEAD
  {
    EncodeInt32(h.dataSize) + EncodeInt32(h.dataType)
  }

  function EncodeUser(u: User): (b: seq<byte>)
    ensures |b| == SIZEOF_USER
  {
    EncodeHead(u.head) + (EncodeInt32(u.userId) + u.userName)
  }

  function EncodeUsers(us: seq<User>): (b: seq<byte>)
    ensures |b| == SIZEOF_USER * |us|
  {
    if us == [] then [] else EncodeUser(us[0]) + EncodeUsers(us[1..])
  }

  function EncodeUserList(l: UserList): (b: seq<byte>)
    ensures |b| == UserListSize(l)
  {
    EncodeHead(l.head) + (EncodeInt32(Wrap(|l.users|)) + EncodeUsers(l.users))
  }

  function EncodeGroupFixed(g: Group): (b: seq<byte>)
    ensures |b| == SIZEOF_GROUP_FIXED
  {
    EncodeHead(g.head) + (EncodeInt32(g.groupId) + (g.groupName + EncodeInt32(g.adminId)))
  }

  function EncodeGroup(g: Group): (b: seq<byte>)
    ensures |b| == GroupSize(g)
  {
    EncodeGroupFixed(g) + EncodeUserList(g.userList)
  }

  function EncodeGroups(gs: seq<Group>): (b: seq<byte>)
    ensures |b| == GroupsSize(gs)
  {
    if gs == [] then [] else EncodeGroup(gs[0]) + EncodeGroups(gs[1..])
  }

  function EncodeGroupList(l: GroupList): (b: seq<byte>)
    ensures |b| == GroupListSize(l)
  {
    EncodeHead(l.head) + (EncodeInt32(Wrap(|l.groups|)) + EncodeGroups(l.groups))
  }

  function EncodeFixed(f: Fixed): (b: seq<byte>)
    ensures |b| == SIZEOF_MSG_FIXED
  {
    EncodeHead(f.head) + (EncodeInt32(f.msgId) + (EncodeInt32(f.msgType) + (EncodeInt32(f.sender)
      + (EncodeInt32(f.receiver) + ([if f.isGroup then 1 else 0] + EncodeInt32(f.createdTime))))))
  }

  /** A counted, NUL-terminated string. */
  function EncodeString(s: seq<byte>): (b: seq<byte>)
    ensures |b| == SIZEOF_INT + |s| + 1
  {
    EncodeInt32(Wrap(|s| + 1)) + (s + [0])
  }

  function EncodeMsg(m: Msg): (b: seq<byte>)
    ensures |b| == MsgSize(m)
  {
    EncodeFixed(m.fixed) + (EncodeString(m.text) + EncodeString(m.extend))
  }

  function EncodeMsgs(ms: seq<Msg>): (b: seq<byte>)
    ensures |b| == MsgsSize(ms)
  {
    if ms == [] then [] else EncodeMsg(ms[0]) + EncodeMsgs(ms[1..])
  }

  function EncodeMsgList(l: MsgList): (b: seq<byte>)
    ensures |b| == MsgListSize(l)
  {
    EncodeHead(l.head) + (EncodeInt32(Wrap(|l.msgs|)) + EncodeMsgs(l.msgs))
  }

  function EncodeGetMsgList(g: GetMsgList): (b: seq<byte>)
    ensures |b| == SIZEOF_GET_MSG_LIST
  {
    EncodeHead(g.head) + (EncodeInt32(g.lastMsgId) + EncodeInt32(g.userId))
  }

  // Where each field lies: the layout of the packed structures.

  lemma UserLayout(u: User)
    ensures var b := EncodeUser(u);
      && b[0..4] == EncodeInt32(u.head.dataSize) && b[4..8] == EncodeInt32(u.head.dataType)
      && b[8..12] == EncodeInt32(u.userId) && b[12..44] == u.userName
  {
    hide EncodeInt32;
  }

  lemma {:induction false} UsersLayout(us: seq<User>, i: nat)
    requires i < |us|
    ensures EncodeUsers(us)[SIZEOF_USER * i..SIZEOF_USER * i + SIZEOF_USER] == EncodeUser(us[i])
  {
    hide EncodeUser;
    var b, later := EncodeUsers(us), EncodeUsers(us[1..]);
    assert b == EncodeUser(us[0]) + later;
    if i > 0 {
      UsersLayout(us[1..], i - 1);
      assert b[SIZEOF_USER..] == later;
      SliceOfSlice(b, SIZEOF_USER, |b|, SIZEOF_USER * (i - 1), SIZEOF_USER * (i - 1) + SIZEOF_USER);
    }
  }

  lemma UserListLayout(l: UserList)
    ensures var b := EncodeUserList(l);
      && b[0..4] == EncodeInt32(l.head.dataSize) && b[4..8] == EncodeInt32(l.head.dataType)
      && b[8..12] == EncodeInt32(Wrap(|l.users|)) && b[12..] == EncodeUsers(l.users)
  {
    hide EncodeInt32, EncodeUsers;
  }

  lemma GroupLayout(g: Group)
    ensures var b := EncodeGroup(g);
      && b[0..4] == EncodeInt32(g.head.dataSize) && b[4..8] == EncodeInt32(g.head.dataType)
      && b[8..12] == EncodeInt32(g.groupId) && b[12..44] == g.groupName && b[44..48] == EncodeInt32(g.adminId)
      && b[48..] == EncodeUserList(g.userList)
  {
    hide EncodeInt32, EncodeUserList;
    var b, fixed := EncodeGroup(g), EncodeGroupFixed(g);
    assert b[..48] == fixed;
    assert fixed[0..4] == EncodeInt32(g.head.dataSize) && fixed[4..8] == EncodeInt32(g.head.dataType);
    assert fixed[8..12] == EncodeInt32(g.groupId) && fixed[12..44] == g.groupName;
    assert fixed[44..48] == EncodeInt32(g.adminId);
  }

  lemma GroupListLayout(l: GroupList)
    ensures var b := EncodeGroupList(l);
      && b[0..4] == EncodeInt32(l.head.dataSize) && b[4..8] == EncodeInt32(l.head.dataType)
      && b[8..12] == EncodeInt32(Wrap(|l.groups|)) && b[12..] == EncodeGroups(l.groups)
    ensures l.groups != [] ==>
      var first := GroupSize(l.groups[0]);
      && EncodeGroups(l.groups)[..first] == EncodeGroup(l.groups[0])
      && EncodeGroups(l.groups)[first..] == EncodeGroups(l.groups[1..])
  {
    hide EncodeInt32, EncodeGroup, GroupSize;
  }

  lemma FixedLayout(f: Fixed)
    ensures var b := EncodeFixed(f);
      && b[0..4] == EncodeInt32(f.head.dataSize) && b[4..8] == EncodeInt32(f.head.dataType)
      && b[8..12] == EncodeInt32(f.msgId) && b[12..16] == EncodeInt32(f.msgType)
      && b[16..20] == EncodeInt32(f.sender) && b[20..24] == EncodeInt32(f.receiver)
      && b[24] == (if f.isGroup then 1 else 0) && b[25..29] == EncodeInt32(f.createdTime)
  {
    hide EncodeInt32;
  }

  lemma MsgLayout(m: Msg)
    ensures var b, textEnd := EncodeMsg(m), 34 + |m.text|;
      && b[0..29] == EncodeFixed(m.fixed)
      && b[29..33] == EncodeInt32(Wrap(|m.text| + 1)) && b[33..textEnd] == m.text + [0]
      && b[textEnd..textEnd + 4] == EncodeInt32(Wrap(|m.extend| + 1)) && b[textEnd + 4..] == m.extend + [0]
  {
    hide EncodeInt32, EncodeFixed;
    var b, text, ext := EncodeMsg(m), EncodeString(m.text), EncodeString(m.extend);
    assert b[29..] == text + ext;
    StringLayout(m.text);
    StringLayout(m.extend);
    assert b[29..34 + |m.text|] == text && b[34 + |m.text|..] == ext;
    SliceOfSlice(b, 29, 34 + |m.text|, 0, 4);
    SliceOfSlice(b, 29, 34 + |m.text|, 4, 5 + |m.text|);
    SliceOfSlice(b, 34 + |m.text|, |b|, 0, 4);
    SliceOfSlice(b, 34 + |m.text|, |b|, 4, |b| - 34 - |m.text|);
  }

  lemma StringLayout(s: seq<byte>)
    ensures EncodeString(s)[0..4] == EncodeInt32(Wrap(|s| + 1)) && EncodeString(s)[4..] == s + [0]
  {
    hide EncodeInt32;
  }

  lemma MsgListLayout(l: MsgList)
    ensures var b := EncodeMsgList(l);
      && b[0..4] == EncodeInt32(l.head.dataSize) && b[4..8] == EncodeInt32(l.head.dataType)
      && b[8..12] == EncodeInt32(Wrap(|l.msgs|)) && b[12..] == EncodeMsgs(l.msgs)
    ensures l.msgs != [] ==>
      var first := MsgSize(l.msgs[0]);
      && EncodeMsgs(l.msgs)[..first] == EncodeMsg(l.msgs[0])
      && EncodeMsgs(l.msgs)[first..] == EncodeMsgs(l.msgs[1..])
  {
    hide EncodeInt32, EncodeMsg, MsgSize;
  }

  lemma GetMsgListLayout(g: GetMsgList)
    ensures var b := EncodeGetMsgList(g);
      && b[0..4] == EncodeInt32(g.head.dataSize) && b[4..8] == EncodeInt32(g.head.dataType)
      && b[8..12] == EncodeInt32(g.lastMsgId) && b[12..16] == EncodeInt32(g.userId)
  {
    hide EncodeInt32;
  }

  // The sizes the serialisers compute.

  function UserListSize(l: UserList): nat {
    SIZEOF_HEAD + SIZEOF_INT + SIZEOF_USER * |l.users|
  }

  function GroupSize(g: Group): nat {
    SIZEOF_GROUP_FIXED + UserListSize(g.userList)
  }

  function GroupsSize(gs: seq<Group>): nat {
    if gs == [] then 0 else GroupSize(gs[0]) + GroupsSize(gs[1..])
  }

  function GroupListSize(l: GroupList): nat {
    SIZEOF_HEAD + SIZEOF_INT + GroupsSize(l.groups)
  }

  function MsgSize(m: Msg): nat {
    SIZEOF_MSG_FIXED + SIZEOF_INT + |m.text| + SIZEOF_INT + |m.extend| + 2
  }

  function MsgsSize(ms: seq<Msg>): nat {
    if ms == [] then 0 else MsgSize(ms[0]) + MsgsSize(ms[1..])
  }

  function MsgListSize(l: MsgList): nat {
    SIZEOF_HEAD + SIZEOF_INT + MsgsSize(l.msgs)
  }

  // A record as its serialiser leaves it, every size field filled in.

  function WithSize(h: Head, size: nat): Head {
    h.(dataSize := Wrap(size))
  }

  function SizedUserList(l: UserList): UserList {
    l.(head := WithSize(l.head, UserListSize(l)))
  }

  function SizedGroup(g: Group): Group {
    g.(head := WithSize(g.head, GroupSize(g)), userList := SizedUserList(g.userList))
  }

  function SizedGroups(gs: seq<Group>): (r: seq<Group>)
    ensures |r| == |gs|
    ensures forall i | 0 <= i < |gs| :: r[i] == SizedGroup(gs[i])
  {
    seq(|gs|, i requires 0 <= i < |gs| => SizedGroup(gs[i]))
  }

  function SizedGroupList(l: GroupList): GroupList {
    GroupList(WithSize(l.head, GroupListSize(l)), SizedGroups(l.groups))
  }

  function SizedMsg(m: Msg): Msg {
    m.(fixed := m.fixed.(head := WithSize(m.fixed.head, MsgSize(m))))
  }

  function SizedMsgs(ms: seq<Msg>): (r: seq<Msg>)
    ensures |r| == |ms|
    ensures forall i | 0 <= i < |ms| :: r[i] == SizedMsg(ms[i])
  {
    seq(|ms|, i requires 0 <= i < |ms| => SizedMsg(ms[i]))
  }

  function SizedMsgList(l: MsgList): MsgList {
    MsgList(WithSize(l.head, MsgListSize(l)), SizedMsgs(l.msgs))
  }

  // Decoding. None, and a message's extension None, stand for a read outside the memory.

  /** AsWritten: counts and string sizes are read through one signed char, and the cursor
      skips one byte too many before the extension. Intended: the mirror of the encoder. */
  datatype Reader = AsWritten | Intended

  predicate Within(mem: seq<byte>, at: int, n: nat) {
    0 <= at && at + n <= |mem|
  }

  function ReadInt(mem: seq<byte>, at: int): int32
    requires Within(mem, at, SIZEOF_INT)
  {
    DecodeInt32(mem[at..at + SIZEOF_INT])
  }

  function ReadHead(mem: seq<byte>, at: int): Head
    requires Within(mem, at, SIZEOF_HEAD)
  {
    Head(ReadInt(mem, at), ReadInt(mem, at + 4))
  }

  function ReadCount(rd: Reader, mem: seq<byte>, at: int): Option<int> {
    match rd
    case AsWritten => if Within(mem, at, 1) then Some(SignedChar(mem[at])) else None
    case Intended => if Within(mem, at, SIZEOF_INT) then Some(ReadInt(mem, at)) else None
  }

  function DecodeUser(mem: seq<byte>, at: int): Option<User> {
    if !Within(mem, at, SIZEOF_USER) then None
    else Some(User(ReadHead(mem, at), ReadInt(mem, at + 8), mem[at + 12..at + 44]))
  }

  function DecodeUsers(mem: seq<byte>, at: int, n: int): Option<seq<User>>
    decreases n
  {
    if n <= 0 then Some([])
    else
      var u := DecodeUser(mem, at);
      if u.None? then None else Prepend([u.value], DecodeUsers(mem, at + SIZEOF_USER, n - 1))
  }

  function DecodeUserList(rd: Reader, mem: seq<byte>, at: int): Option<UserList> {
    var n := ReadCount(rd, mem, at + SIZEOF_HEAD);
    if !Within(mem, at, SIZEOF_HEAD) || n.None? then None
    else
      var us := DecodeUsers(mem, at + SIZEOF_HEAD + SIZEOF_INT, n.value);
      if us.None? then None else Some(UserList(ReadHead(mem, at), us.value))
  }

  function DecodeGroup(rd: Reader, mem: seq<byte>, at: int): Option<Group> {
    if !Within(mem, at, SIZEOF_GROUP_FIXED) then None
    else
      var l := DecodeUserList(rd, mem, at + SIZEOF_GROUP_FIXED);
      if l.None? then None
      else Some(Group(ReadHead(mem, at), ReadInt(mem, at + 8), mem[at + 12..at + 44], ReadInt(mem, at + 44), l.value))
  }

  function DecodeGroups(rd: Reader, mem: seq<byte>, at: int, n: int): Option<seq<Group>>
    decreases n
  {
    if n <= 0 then Some([])
    else
      var g := DecodeGroup(rd, mem, at);
      if g.None? then None
      else Prepend([g.value], DecodeGroups(rd, mem, at + g.value.head.dataSize, n - 1))
  }

  function DecodeGroupList(rd: Reader, mem: seq<byte>, at: int): Option<GroupList> {
    var n := ReadCount(rd, mem, at + SIZEOF_HEAD);
    if !Within(mem, at, SIZEOF_HEAD) || n.None? then None
    else
      var gs := DecodeGroups(rd, mem, at + SIZEOF_HEAD + SIZEOF_INT, n.value);
      if gs.None? then None else Some(GroupList(ReadHead(mem, at), gs.value))
  }

  datatype DecodedMsg = DecodedMsg(fixed: Fixed, text: seq<byte>, extend: Option<seq<byte>>)

  function ReadFixed(mem: seq<byte>, at: int): Fixed
    requires Within(mem, at, SIZEOF_MSG_FIXED)
  {
    Fixed(ReadHead(mem, at), ReadInt(mem, at + 8), ReadInt(mem, at + 12), ReadInt(mem, at + 16), ReadInt(mem, at + 20),
          mem[at + 24] != 0, ReadInt(mem, at + 25))
  }

  /** The extension as found from the cursor that stands on its size. */
  function ReadExtend(rd: Reader, mem: seq<byte>, cursor: int): Option<seq<byte>> {
    if ReadCount(rd, mem, cursor).None? then None else CString(mem, cursor + SIZEOF_INT)
  }

  function Skip(rd: Reader): int {
    if rd == AsWritten then 1 else 0
  }

  function DecodeMsg(rd: Reader, mem: seq<byte>, at: int): Option<DecodedMsg> {
    var size := ReadCount(rd, mem, at + SIZEOF_MSG_FIXED);
    var textAt := at + SIZEOF_MSG_FIXED + SIZEOF_INT;
    var text := CString(mem, textAt);
    if !Within(mem, at, SIZEOF_MSG_FIXED) || size.None? || text.None? then None
    else Some(DecodedMsg(ReadFixed(mem, at), text.value, ReadExtend(rd, mem, textAt + size.value + Skip(rd))))
  }

  function DecodeMsgs(rd: Reader, mem: seq<byte>, at: int, n: int): Option<seq<DecodedMsg>>
    decreases n
  {
    if n <= 0 then Some([])
    else
      var m := DecodeMsg(rd, mem, at);
      if m.None? then None
      else Prepend([m.value], DecodeMsgs(rd, mem, at + m.value.fixed.head.dataSize, n - 1))
  }

  function DecodeMsgList(rd: Reader, mem: seq<byte>, at: int): Option<(Head, seq<DecodedMsg>)> {
    var n := ReadCount(rd, mem, at + SIZEOF_HEAD);
    if !Within(mem, at, SIZEOF_HEAD) || n.None? then None
    else
      var ms := DecodeMsgs(rd, mem, at + SIZEOF_HEAD + SIZEOF_INT, n.value);
      if ms.None? then None else Some((ReadHead(mem, at), ms.value))
  }

  function DecodeGetMsgList(mem: seq<byte>, at: int): Option<GetMsgList> {
    if !Within(mem, at, SIZEOF_GET_MSG_LIST) then None
    else Some(GetMsgList(ReadHead(mem, at), ReadInt(mem, at + 8), ReadInt(mem, at + 12)))
  }
}
