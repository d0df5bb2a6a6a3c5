/** The message structs: serialisers that fill a buffer through a moving offset, and decoders
    that overwrite the object and append to its vectors. */
module DataTypes {
  import opened Bytes
  import opened Records

  // Building an encoding from the front, as the loops do.

  lemma {:induction false} EncodeUsersAppend(us: seq<User>, u: User)
    ensures EncodeUsers(us + [u]) == EncodeUsers(us) + EncodeUser(u)
  {
    if us == [] {
      assert [] + [u] == [u];
    } else {
      EncodeUsersAppend(us[1..], u);
      assert (us + [u])[1..] == us[1..] + [u];
    }
  }

  lemma {:induction false} EncodeGroupsAppend(gs: seq<Group>, g: Group)
    ensures EncodeGroups(gs + [g]) == EncodeGroups(gs) + EncodeGroup(g)
    ensures GroupsSize(gs + [g]) == GroupsSize(gs) + GroupSize(g)
  {
    hide EncodeGroup;
    if gs == [] {
      assert [] + [g] == [g];
    } else {
      EncodeGroupsAppend(gs[1..], g);
      assert (gs + [g])[1..] == gs[1..] + [g];
    }
  }

  lemma {:induction false} GroupsSizePrefix(gs: seq<Group>, i: nat)
    requires i <= |gs|
    ensures GroupsSize(gs[..i]) <= GroupsSize(gs)
    ensures i < |gs| ==> GroupsSize(gs[..i]) + GroupSize(gs[i]) <= GroupsSize(gs)
    decreases |gs|
  {
    if i > 0 {
      GroupsSizePrefix(gs[1..], i - 1);
      assert gs[..i] == [gs[0]] + gs[1..][..i - 1];
    }
  }

  lemma {:induction false} EncodeMsgsAppend(ms: seq<Msg>, m: Msg)
    ensures EncodeMsgs(ms + [m]) == EncodeMsgs(ms) + EncodeMsg(m)
    ensures MsgsSize(ms + [m]) == MsgsSize(ms) + MsgSize(m)
  {
    hide EncodeMsg;
    if ms == [] {
      assert [] + [m] == [m];
    } else {
      EncodeMsgsAppend(ms[1..], m);
      assert (ms + [m])[1..] == ms[1..] + [m];
    }
  }

  lemma {:induction false} MsgsSizePrefix(ms: seq<Msg>, i: nat)
    requires i <= |ms|
    ensures MsgsSize(ms[..i]) <= MsgsSize(ms)
    ensures i < |ms| ==> MsgsSize(ms[..i]) + MsgSize(ms[i]) <= MsgsSize(ms)
    decreases |ms|
  {
    if i > 0 {
      MsgsSizePrefix(ms[1..], i - 1);
      assert ms[..i] == [ms[0]] + ms[1..][..i - 1];
    }
  }

  /** memcpy of src behind the part of p that is already filled. */
  method Fill(p: array<byte>, offset: nat, src: seq<byte>, ghost done: seq<byte>) returns (next: nat)
    requires offset + |src| <= p.Length && p[..offset] == done
    modifies p
    ensures next == offset + |src| && p[..next] == done + src
  {
    MemCopy(p, offset, src);
    next := offset + |src|;
  }

  /** The loop that copies users behind what is filled. */
  method FillUsers(p: array<byte>, at: nat, users: seq<User>, ghost done: seq<byte>) returns (offset: nat)
    requires at + SIZEOF_USER * |users| <= p.Length && p[..at] == done
    modifies p
    ensures offset == at + SIZEOF_USER * |users| && p[..offset] == done + EncodeUsers(users)
  {
    hide EncodeUser;
    offset := at;
    assert users[..0] == [] && done + EncodeUsers([]) == done;
    for i := 0 to |users|
      invariant offset == at + SIZEOF_USER * i
      invariant p[..offset] == done + EncodeUsers(users[..i])
    {
      EncodeUsersAppend(users[..i], users[i]);
      assert users[..i + 1] == users[..i] + [users[i]];
      ghost var before := done + EncodeUsers(users[..i]);
      offset := Fill(p, offset, EncodeUser(users[i]), before);
      assert before + EncodeUser(users[i]) == done + EncodeUsers(users[..i + 1]);
    }
    assert users[..|users|] == users;
  }

  /** The loop that copies serialised records behind what is filled. */
  method FillParts(p: array<byte>, at: nat, parts: seq<seq<byte>>, ghost done: seq<byte>) returns (offset: nat)
    requires at + |Concat(parts)| <= p.Length && p[..at] == done
    modifies p
    ensures offset == at + |Concat(parts)| && p[..offset] == done + Concat(parts)
  {
    offset := at;
    assert parts[..0] == [] && done + Concat([]) == done;
    for i := 0 to |parts|
      invariant offset == at + |Concat(parts[..i])| <= at + |Concat(parts)|
      invariant p[..offset] == done + Concat(parts[..i])
    {
      ConcatSplit(parts, i);
      ghost var before := done + Concat(parts[..i]);
      offset := Fill(p, offset, parts[i], before);
      assert before + parts[i] == done + Concat(parts[..i + 1]);
    }
    assert parts[..|parts|] == parts;
  }

  /** A list's head, its count, and its parts. */
  method FillList(head: Head, count: nat, parts: seq<seq<byte>>) returns (p: array<byte>)
    requires count <= INT_MAX && head.dataSize == SIZEOF_HEAD + SIZEOF_INT + |Concat(parts)|
    ensures fresh(p) && p[..] == EncodeHead(head) + (EncodeInt32(Wrap(count)) + Concat(parts))
  {
    hide EncodeHead, EncodeInt32;
    p := new byte[head.dataSize];
    var offset := Fill(p, 0, EncodeHead(head), []);
    offset := Fill(p, offset, EncodeInt32(count), EncodeHead(head));
    offset := FillParts(p, offset, parts, EncodeHead(head) + EncodeInt32(count));
    assert p[..] == p[..offset];
  }

  lemma {:induction false} ConcatSplit(parts: seq<seq<byte>>, i: nat)
    requires i < |parts|
    ensures Concat(parts[..i + 1]) == Concat(parts[..i]) + parts[i]
    ensures |Concat(parts[..i + 1])| <= |Concat(parts)|
    decreases |parts|
  {
    if i == 0 {
      assert parts[..1] == [parts[0]] && parts[..0] == [] && Concat([parts[0]]) == parts[0];
    } else {
      ConcatSplit(parts[1..], i - 1);
      assert parts[..i + 1] == [parts[0]] + parts[1..][..i] && parts[..i] == [parts[0]] + parts[1..][..i - 1];
    }
  }

  method ReadIntAt(data: array<byte>, at: int) returns (n: int32)
    requires Within(data[..], at, SIZEOF_INT)
    ensures n == ReadInt(data[..], at)
  {
    assert data[at..at + SIZEOF_INT] == data[..][at..at + SIZEOF_INT];
    n := DecodeInt32(data[at..at + SIZEOF_INT]);
  }

  method ReadHeadAt(data: array<byte>, at: int) returns (h: Head)
    requires Within(data[..], at, SIZEOF_HEAD)
    ensures h == ReadHead(data[..], at)
  {
    var size := ReadIntAt(data, at);
    var kind := ReadIntAt(data, at + 4);
    h := Head(size, kind);
  }

  /** A count read through a char pointer, or as the int it is. */
  method ReadCountAt(rd: Reader, data: array<byte>, at: int) returns (n: Option<int>)
    ensures n == ReadCount(rd, data[..], at)
  {
    if rd == AsWritten {
      return if 0 <= at < data.Length then Some(SignedChar(data[at])) else None;
    }
    if !(0 <= at && at + SIZEOF_INT <= data.Length) {
      return None;
    }
    var count := ReadIntAt(data, at);
    n := Some(count);
  }

  method ReadUserAt(data: array<byte>, at: int) returns (u: Option<User>)
    ensures u == DecodeUser(data[..], at)
  {
    if !(0 <= at && at + SIZEOF_USER <= data.Length) {
      return None;
    }
    var head := ReadHeadAt(data, at);
    var userId := ReadIntAt(data, at + 8);
    assert data[at + 12..at + 44] == data[..][at + 12..at + 44];
    u := Some(User(head, userId, data[at + 12..at + 44]));
  }

  class S2CUserList {
    var head: Head
    var users: seq<User>

    ghost function Value(): UserList
      reads this
    {
      UserList(head, users)
    }

    constructor ()
      ensures Value() == UserList(Head(0, S2C_USER_LIST), [])
    {
      head, users := Head(0, S2C_USER_LIST), [];
    }

    constructor Copy(l: UserList)
      ensures Value() == l
    {
      head, users := l.head, l.users;
    }

    method Serialize() returns (p: array<byte>)
      requires UserListSize(Value()) <= INT_MAX
      modifies this`head
      ensures Value() == SizedUserList(old(Value()))
      ensures fresh(p) && p[..] == EncodeUserList(Value())
    {
      hide EncodeUser, EncodeHead, EncodeInt32;
      head := head.(dataSize := SIZEOF_HEAD + SIZEOF_INT + SIZEOF_USER * |users|);
      p := new byte[head.dataSize];
      var count := |users|;
      var offset := Fill(p, 0, EncodeHead(head), []);
      offset := Fill(p, offset, EncodeInt32(count), EncodeHead(head));
      offset := FillUsers(p, offset, users, EncodeHead(head) + EncodeInt32(count));
      assert p[..] == p[..offset];
      assert EncodeHead(head) + EncodeInt32(count) + EncodeUsers(users) == EncodeUserList(Value());
    }

    /** False when the reads leave the memory. */
    method UnSerialize(rd: Reader, data: array<byte>, at: int) returns (ok: bool)
      modifies this
      ensures var d := DecodeUserList(rd, data[..], at);
        ok == d.Some? && (ok ==> Value() == UserList(d.value.head, old(users) + d.value.users))
    {
      if !(0 <= at && at + SIZEOF_HEAD <= data.Length) {
        return false;
      }
      head := ReadHeadAt(data, at);
      var count := ReadCountAt(rd, data, at + SIZEOF_HEAD);
      if count.None? {
        return false;
      }
      ok := PushUsers(data, at + SIZEOF_HEAD + SIZEOF_INT, count.value);
    }

    method PushUsers(data: array<byte>, at: int, count: int) returns (ok: bool)
      modifies this`users
      ensures var us := DecodeUsers(data[..], at, count);
        ok == us.Some? && (ok ==> users == old(users) + us.value)
    {
      hide DecodeUser;
      ghost var all := DecodeUsers(data[..], at, count);
      ghost var done: seq<User> := [];
      PrependTwice([], [], all);
      var i, offset := 0, at;
      while i < count
        invariant i <= count || i == 0
        invariant users == old(users) + done
        invariant all == Prepend(done, DecodeUsers(data[..], offset, count - i))
      {
        var u := ReadUserAt(data, offset);
        if u.None? {
          return false;
        }
        PrependTwice(done, [u.value], DecodeUsers(data[..], offset + SIZEOF_USER, count - i - 1));
        users, done := users + [u.value], done + [u.value];
        offset := offset + SIZEOF_USER;
        i := i + 1;
      }
      ok := true;
    }
  }

  class S2CGroup {
    var head: Head
    var groupId: int32
    var groupName: Name
    var adminId: int32
    const userList: S2CUserList

    ghost function Value(): Group
      reads this, userList
    {
      Group(head, groupId, groupName, adminId, userList.Value())
    }

    constructor ()
      ensures fresh(userList)
      ensures userList.users == []
    {
      head, groupId, adminId := Head(0, S2C_GROUP), 0, 0;
      userList := new S2CUserList();
    }

    constructor Copy(g: Group)
      ensures fresh(userList) && Value() == g
    {
      head, groupId, groupName, adminId := g.head, g.groupId, g.groupName, g.adminId;
      userList := new S2CUserList.Copy(g.userList);
    }

    method Serialize() returns (p: array<byte>)
      requires GroupSize(Value()) <= INT_MAX
      modifies this`head, userList`head
      ensures Value() == SizedGroup(old(Value()))
      ensures fresh(p) && p[..] == EncodeGroup(Value())
    {
      hide EncodeGroupFixed, EncodeUserList;
      var user := userList.Serialize();
      var userCount := userList.head.dataSize;
      head := head.(dataSize := SIZEOF_GROUP_FIXED + userCount);
      p := new byte[head.dataSize];
      var offset := FillFixed(p);
      offset := Fill(p, offset, user[..], EncodeGroupFixed(Value()));
      assert p[..] == p[..offset];
    }

    /** The copy of the record's own bytes up to the nested list. */
    method FillFixed(p: array<byte>) returns (offset: nat)
      requires SIZEOF_GROUP_FIXED <= p.Length
      modifies p
      ensures offset == SIZEOF_GROUP_FIXED && p[..offset] == EncodeGroupFixed(Value())
    {
      hide EncodeHead, EncodeInt32;
      offset := Fill(p, 0, EncodeHead(head), []);
      offset := Fill(p, offset, EncodeInt32(groupId), EncodeHead(head));
      offset := Fill(p, offset, groupName, EncodeHead(head) + EncodeInt32(groupId));
      offset := Fill(p, offset, EncodeInt32(adminId), EncodeHead(head) + EncodeInt32(groupId) + groupName);
      assert p[..offset] == EncodeGroupFixed(Value());
    }

    method UnSerialize(rd: Reader, data: array<byte>, at: int) returns (ok: bool)
      modifies this, userList
      ensures var d := DecodeGroup(rd, data[..], at);
        && ok == d.Some?
        && (ok ==> Value() == d.value.(userList := UserList(d.value.userList.head,
                                                            old(userList.users) + d.value.userList.users)))
    {
      if !(0 <= at && at + SIZEOF_GROUP_FIXED <= data.Length) {
        return false;
      }
      head := ReadHeadAt(data, at);
      groupId := ReadIntAt(data, at + 8);
      assert data[at + 12..at + 44] == data[..][at + 12..at + 44];
      groupName := data[at + 12..at + 44];
      adminId := ReadIntAt(data, at + 44);
      ok := userList.UnSerialize(rd, data, at + SIZEOF_GROUP_FIXED);
    }
  }

  class S2CGroupList {
    var head: Head
    var groups: seq<Group>

    ghost function Value(): GroupList
      reads this
    {
      GroupList(head, groups)
    }

    constructor ()
      ensures Value() == GroupList(Head(0, S2C_GROUP_LIST), [])
    {
      head, groups := Head(0, S2C_GROUP_LIST), [];
    }

    /** One group serialised where it stands in the vector. */
    method SerializeGroup(i: nat) returns (part: seq<byte>, size: nat)
      requires i < |groups| && GroupSize(groups[i]) <= INT_MAX
      modifies this`groups
      ensures groups == old(groups)[i := SizedGroup(old(groups)[i])]
      ensures part == EncodeGroup(groups[i]) && size == GroupSize(old(groups)[i])
    {
      var group := new S2CGroup.Copy(groups[i]);
      var p := group.Serialize();
      groups := groups[i := Group(group.head, group.groupId, group.groupName, group.adminId,
                                  UserList(group.userList.head, group.userList.users))];
      part, size := p[..], group.head.dataSize;
    }

    /** The first loop of Serialize: every group serialised, its size kept in the vector. */
    method SerializeGroups() returns (parts: seq<seq<byte>>, size: nat)
      requires GroupListSize(Value()) <= INT_MAX
      modifies this`groups
      ensures groups == SizedGroups(old(groups))
      ensures |parts| == |groups| && forall j | 0 <= j < |groups| :: parts[j] == EncodeGroup(groups[j])
      ensures size == GroupsSize(old(groups))
    {
      hide EncodeGroup, SizedGroup;
      ghost var was := groups;
      parts, size := [], 0;
      assert was[..0] == [];
      for i := 0 to |groups|
        invariant |groups| == |was| && |parts| == i
        invariant forall j | 0 <= j < i :: groups[j] == SizedGroup(was[j]) && parts[j] == EncodeGroup(groups[j])
        invariant forall j | i <= j < |was| :: groups[j] == was[j]
        invariant size == GroupsSize(was[..i])
      {
        GroupsSizePrefix(was, i);
        EncodeGroupsAppend(was[..i], was[i]);
        assert was[..i + 1] == was[..i] + [was[i]];
        var part, partSize := SerializeGroup(i);
        parts := parts + [part];
        size := size + partSize;
      }
      assert was[..|was|] == was;
      assert groups == SizedGroups(was);
    }

    method Serialize() returns (p: array<byte>)
      requires GroupListSize(Value()) <= INT_MAX
      modifies this
      ensures Value() == SizedGroupList(old(Value()))
      ensures fresh(p) && p[..] == EncodeGroupList(Value())
    {
      hide EncodeGroup, SizedGroup, EncodeHead, EncodeInt32;
      var parts, size := SerializeGroups();
      head := head.(dataSize := SIZEOF_HEAD + SIZEOF_INT + size);
      SizedGroupsSize(old(groups));
      GroupsConcat(groups, parts);
      p := FillList(head, |groups|, parts);
    }

    method UnSerialize(rd: Reader, data: array<byte>, at: int) returns (ok: bool)
      modifies this
      ensures var d := DecodeGroupList(rd, data[..], at);
        ok == d.Some? && (ok ==> Value() == GroupList(d.value.head, old(groups) + d.value.groups))
    {
      hide DecodeGroup;
      if !(0 <= at && at + SIZEOF_HEAD <= data.Length) {
        return false;
      }
      head := ReadHeadAt(data, at);
      var count := ReadCountAt(rd, data, at + SIZEOF_HEAD);
      if count.None? {
        return false;
      }
      ok := PushGroups(rd, data, at + SIZEOF_HEAD + SIZEOF_INT, count.value);
    }

    method ReadGroup(rd: Reader, data: array<byte>, at: int) returns (g: Option<Group>)
      ensures g == DecodeGroup(rd, data[..], at)
    {
      hide DecodeGroup;
      var group := new S2CGroup();
      var ok := group.UnSerialize(rd, data, at);
      if !ok {
        return None;
      }
      var users := group.userList.users;
      assert users == DecodeGroup(rd, data[..], at).value.userList.users;
      g := Some(Group(group.head, group.groupId, group.groupName, group.adminId, UserList(group.userList.head, users)));
    }

    method PushGroups(rd: Reader, data: array<byte>, at: int, count: int) returns (ok: bool)
      modifies this`groups
      ensures var gs := DecodeGroups(rd, data[..], at, count);
        ok == gs.Some? && (ok ==> groups == old(groups) + gs.value)
    {
      hide DecodeGroup;
      ghost var all := DecodeGroups(rd, data[..], at, count);
      ghost var done: seq<Group> := [];
      PrependTwice([], [], all);
      var i, offset := 0, at;
      while i < count
        invariant i <= count || i == 0
        invariant groups == old(groups) + done
        invariant all == Prepend(done, DecodeGroups(rd, data[..], offset, count - i))
      {
        var g := ReadGroup(rd, data, offset);
        if g.None? {
          return false;
        }
        PrependTwice(done, [g.value], DecodeGroups(rd, data[..], offset + g.value.head.dataSize, count - i - 1));
        groups, done := groups + [g.value], done + [g.value];
        offset := offset + g.value.head.dataSize;
        i := i + 1;
      }
      ok := true;
    }
  }

  /** A count, the characters and the terminator copied behind what is filled. */
  method FillString(p: array<byte>, at: nat, s: seq<byte>, ghost done: seq<byte>) returns (offset: nat)
    requires |s| < INT_MAX && at + SIZEOF_INT + |s| + 1 <= p.Length && p[..at] == done
    modifies p
    ensures offset == at + SIZEOF_INT + |s| + 1 && p[..offset] == done + EncodeString(s)
  {
    hide EncodeInt32;
    var size := |s| + 1;
    offset := Fill(p, at, EncodeInt32(size), done);
    offset := Fill(p, offset, s + [0], done + EncodeInt32(size));
    assert done + EncodeInt32(size) + (s + [0]) == done + EncodeString(s);
  }

  method ReadFixedAt(data: array<byte>, at: int) returns (f: Fixed)
    requires Within(data[..], at, SIZEOF_MSG_FIXED)
    ensures f == ReadFixed(data[..], at)
  {
    var head := ReadHeadAt(data, at);
    var msgId := ReadIntAt(data, at + 8);
    var msgType := ReadIntAt(data, at + 12);
    var sender := ReadIntAt(data, at + 16);
    var receiver := ReadIntAt(data, at + 20);
    var createdTime := ReadIntAt(data, at + 25);
    f := Fixed(head, msgId, msgType, sender, receiver, data[at + 24] != 0, createdTime);
  }

  /** The extension, from the cursor that stands on its size. */
  method ReadExtendAt(rd: Reader, data: array<byte>, cursor: int) returns (ext: Option<seq<byte>>)
    ensures ext == ReadExtend(rd, data[..], cursor)
  {
    hide CString, ReadCount;
    var extendSize := ReadCountAt(rd, data, cursor);
    ext := ReadCString(data, cursor + SIZEOF_INT);
    if extendSize.None? {
      ext := None;
    }
  }

  /** What a pushed message holds: an extension that was not found stays empty. */
  function Landed(d: DecodedMsg): Msg {
    Msg(d.fixed, d.text, if d.extend.Some? then d.extend.value else [])
  }

  class DataMsg {
    var fixed: Fixed
    var text: seq<byte>
    var extend: seq<byte>

    ghost function Value(): Msg
      reads this
    {
      Msg(fixed, text, extend)
    }

    constructor (dataType: int32)
      ensures fixed.head == Head(0, dataType) && text == [] && extend == []
    {
      fixed := Fixed(Head(0, dataType), 0, 0, 0, 0, false, 0);
      text, extend := [], [];
    }

    constructor Copy(m: Msg)
      ensures Value() == m
    {
      fixed, text, extend := m.fixed, m.text, m.extend;
    }

    method Serialize() returns (p: array<byte>)
      requires MsgSize(Value()) <= INT_MAX
      modifies this`fixed
      ensures Value() == SizedMsg(old(Value()))
      ensures fresh(p) && p[..] == EncodeMsg(Value())
    {
      hide EncodeFixed, EncodeString;
      var size := SIZEOF_MSG_FIXED + SIZEOF_INT + |text| + SIZEOF_INT + |extend| + 2;
      fixed := fixed.(head := fixed.head.(dataSize := size));
      p := new byte[size];
      var offset := Fill(p, 0, EncodeFixed(fixed), []);
      offset := FillString(p, offset, text, EncodeFixed(fixed));
      offset := FillString(p, offset, extend, EncodeFixed(fixed) + EncodeString(text));
      assert p[..] == p[..offset];
      assert EncodeFixed(fixed) + EncodeString(text) + EncodeString(extend) == EncodeMsg(Value());
    }

    /** ok is false when the fixed part, the size or the text lies outside the memory;
        overread when the search for the extension leaves it. */
    method UnSerialize(rd: Reader, data: array<byte>, at: int) returns (ok: bool, overread: bool)
      modifies this
      ensures var d := DecodeMsg(rd, data[..], at);
        && ok == d.Some?
        && (ok ==> fixed == d.value.fixed && text == old(text) + d.value.text)
        && (ok ==> overread == d.value.extend.None?)
        && (ok && !overread ==> extend == old(extend) + d.value.extend.value)
        && (ok && overread ==> extend == old(extend))
        && (ok && old(text) == [] && old(extend) == [] ==> Value() == Landed(d.value))
    {
      hide CString, DecodeInt32, ReadFixed, ReadCount, ReadExtend;
      overread := false;
      if !(0 <= at && at + SIZEOF_MSG_FIXED <= data.Length) {
        return false, overread;
      }
      fixed := ReadFixedAt(data, at);
      var offset := at + SIZEOF_MSG_FIXED;
      var msgSize := ReadCountAt(rd, data, offset);
      offset := offset + SIZEOF_INT;
      var msg := ReadCString(data, offset);
      if msgSize.None? || msg.None? {
        return false, overread;
      }
      text := text + msg.value;
      offset := offset + msgSize.value;
      if rd == AsWritten {
        offset := offset + 1;
      }
      var ext := ReadExtendAt(rd, data, offset);
      ok, overread := true, ext.None?;
      if !overread {
        extend := extend + ext.value;
      }
    }
  }

  function LandedAll(ds: seq<DecodedMsg>): (r: seq<Msg>)
    ensures |r| == |ds| && forall i | 0 <= i < |ds| :: r[i] == Landed(ds[i])
  {
    seq(|ds|, i requires 0 <= i < |ds| => Landed(ds[i]))
  }

  class DataMsgList {
    var head: Head
    var msgs: seq<Msg>

    ghost function Value(): MsgList
      reads this
    {
      MsgList(head, msgs)
    }

    constructor ()
      ensures Value() == MsgList(Head(0, S2C_DATA_MSG_LIST), [])
    {
      head, msgs := Head(0, S2C_DATA_MSG_LIST), [];
    }

    constructor Copy(l: MsgList)
      ensures Value() == l
    {
      head, msgs := l.head, l.msgs;
    }

    method SerializeMsg(i: nat) returns (part: seq<byte>, size: nat)
      requires i < |msgs| && MsgSize(msgs[i]) <= INT_MAX
      modifies this`msgs
      ensures msgs == old(msgs)[i := SizedMsg(old(msgs)[i])]
      ensures part == EncodeMsg(msgs[i]) && size == MsgSize(old(msgs)[i])
    {
      var msg := new DataMsg.Copy(msgs[i]);
      var p := msg.Serialize();
      msgs := msgs[i := Msg(msg.fixed, msg.text, msg.extend)];
      part, size := p[..], msg.fixed.head.dataSize;
    }

    method SerializeMsgs() returns (parts: seq<seq<byte>>, size: nat)
      requires MsgListSize(Value()) <= INT_MAX
      modifies this`msgs
      ensures msgs == SizedMsgs(old(msgs))
      ensures |parts| == |msgs| && forall j | 0 <= j < |msgs| :: parts[j] == EncodeMsg(msgs[j])
      ensures size == MsgsSize(old(msgs))
    {
      hide EncodeMsg, SizedMsg;
      ghost var was := msgs;
      parts, size := [], 0;
      assert was[..0] == [];
      for i := 0 to |msgs|
        invariant |msgs| == |was| && |parts| == i
        invariant forall j | 0 <= j < i :: msgs[j] == SizedMsg(was[j]) && parts[j] == EncodeMsg(msgs[j])
        invariant forall j | i <= j < |was| :: msgs[j] == was[j]
        invariant size == MsgsSize(was[..i])
      {
        MsgsSizePrefix(was, i);
        EncodeMsgsAppend(was[..i], was[i]);
        assert was[..i + 1] == was[..i] + [was[i]];
        var part, partSize := SerializeMsg(i);
        parts := parts + [part];
        size := size + partSize;
      }
      assert was[..|was|] == was;
      assert msgs == SizedMsgs(was);
    }

    method Serialize() returns (p: array<byte>)
      requires MsgListSize(Value()) <= INT_MAX
      modifies this
      ensures Value() == SizedMsgList(old(Value()))
      ensures fresh(p) && p[..] == EncodeMsgList(Value())
    {
      hide EncodeMsg, SizedMsg, EncodeHead, EncodeInt32;
      var parts, size := SerializeMsgs();
      head := head.(dataSize := SIZEOF_HEAD + SIZEOF_INT + size);
      SizedMsgsSize(old(msgs));
      MsgsConcat(msgs, parts);
      p := FillList(head, |msgs|, parts);
    }

    method UnSerialize(rd: Reader, data: array<byte>, at: int) returns (ok: bool)
      modifies this
      ensures var d := DecodeMsgList(rd, data[..], at);
        ok == d.Some? && (ok ==> head == d.value.0 && msgs == old(msgs) + LandedAll(d.value.1))
    {
      if !(0 <= at && at + SIZEOF_HEAD <= data.Length) {
        return false;
      }
      head := ReadHeadAt(data, at);
      var count := ReadCountAt(rd, data, at + SIZEOF_HEAD);
      if count.None? {
        return false;
      }
      ok := PushMsgs(rd, data, at + SIZEOF_HEAD + SIZEOF_INT, count.value);
    }

    method PushMsgs(rd: Reader, data: array<byte>, at: int, count: int) returns (ok: bool)
      modifies this`msgs
      ensures var ds := DecodeMsgs(rd, data[..], at, count);
        ok == ds.Some? && (ok ==> msgs == old(msgs) + LandedAll(ds.value))
    {
      hide DecodeMsg;
      ghost var all := DecodeMsgs(rd, data[..], at, count);
      ghost var done: seq<DecodedMsg> := [];
      PrependTwice([], [], all);
      var i, offset := 0, at;
      while i < count
        invariant i <= count || i == 0
        invariant msgs == old(msgs) + LandedAll(done)
        invariant all == Prepend(done, DecodeMsgs(rd, data[..], offset, count - i))
      {
        var msg := new DataMsg(0);
        var overread;
        ok, overread := msg.UnSerialize(rd, data, offset);
        if !ok {
          return;
        }
        ghost var d := DecodeMsg(rd, data[..], offset).value;
        PrependTwice(done, [d], DecodeMsgs(rd, data[..], offset + d.fixed.head.dataSize, count - i - 1));
        assert LandedAll(done + [d]) == LandedAll(done) + [Landed(d)];
        assert msg.Value() == Landed(d);
        msgs, done := msgs + [Msg(msg.fixed, msg.text, msg.extend)], done + [d];
        offset := offset + msg.fixed.head.dataSize;
        i := i + 1;
      }
      ok := true;
    }
  }

  lemma {:induction false} SizedMsgsSize(ms: seq<Msg>)
    ensures MsgsSize(SizedMsgs(ms)) == MsgsSize(ms)
    ensures |ms| <= MsgsSize(ms)
  {
    if ms != [] {
      SizedMsgsSize(ms[1..]);
      assert SizedMsgs(ms) == [SizedMsg(ms[0])] + SizedMsgs(ms[1..]);
    }
  }

  lemma {:induction false} MsgsConcat(ms: seq<Msg>, parts: seq<seq<byte>>)
    requires |parts| == |ms| && forall j | 0 <= j < |ms| :: parts[j] == EncodeMsg(ms[j])
    ensures Concat(parts) == EncodeMsgs(ms)
    decreases |ms|
  {
    hide EncodeMsg;
    if ms != [] {
      MsgsConcat(ms[1..], parts[1..]);
    }
  }

  lemma {:induction false} SizedGroupsSize(gs: seq<Group>)
    ensures GroupsSize(SizedGroups(gs)) == GroupsSize(gs)
    ensures |gs| <= GroupsSize(gs)
  {
    if gs != [] {
      SizedGroupsSize(gs[1..]);
      assert SizedGroups(gs) == [SizedGroup(gs[0])] + SizedGroups(gs[1..]);
    }
  }

  lemma {:induction false} GroupsConcat(gs: seq<Group>, parts: seq<seq<byte>>)
    requires |parts| == |gs| && forall j | 0 <= j < |gs| :: parts[j] == EncodeGroup(gs[j])
    ensures Concat(parts) == EncodeGroups(gs)
    decreases |gs|
  {
    hide EncodeGroup;
    if gs != [] {
      GroupsConcat(gs[1..], parts[1..]);
    }
  }
}
