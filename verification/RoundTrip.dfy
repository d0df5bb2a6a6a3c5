/** What the decoders read back from encoded records lying anywhere in memory. */
module RoundTrip {
  import opened Bytes
  import opened Records

  // Counts.

  /** What a reader makes of a count n written as an int. */
  function Seen(rd: Reader, n: nat): (r: int)
    ensures -0x80 <= r <= n
    ensures rd == AsWritten && n > 127 ==> r <= n - 0x100
  {
    match rd
    case AsWritten => SignedChar(n % 0x100)
    case Intended => n
  }

  /** The number of elements it therefore reads. */
  function Times(rd: Reader, n: nat): (k: nat)
    ensures k <= n
    ensures k == n <==> rd == Intended || n <= 127
  {
    if Seen(rd, n) < 0 then 0 else Seen(rd, n)
  }

  lemma IntAt(mem: seq<byte>, at: int, n: int32)
    requires Holds(mem, at, EncodeInt32(n))
    ensures Within(mem, at, SIZEOF_INT) && ReadInt(mem, at) == n
  {
    DecodeEncodeInt32(n);
  }

  lemma CountAt(rd: Reader, mem: seq<byte>, at: int, n: nat)
    requires n <= INT_MAX && Holds(mem, at, EncodeInt32(n))
    ensures ReadCount(rd, mem, at) == Some(Seen(rd, n))
  {
    IntAt(mem, at, n);
    assert mem[at] == mem[at..at + SIZEOF_INT][0] == EncodeInt32(n)[0];
  }

  lemma HeadAt(mem: seq<byte>, at: int, h: Head)
    requires Holds(mem, at, EncodeHead(h))
    ensures Within(mem, at, SIZEOF_HEAD) && ReadHead(mem, at) == h
  {
    HoldsSplit(mem, at, EncodeInt32(h.dataSize), EncodeInt32(h.dataType));
    IntAt(mem, at, h.dataSize);
    IntAt(mem, at + SIZEOF_INT, h.dataType);
  }

  // Users, groups and lists of groups.

  lemma UserAt(mem: seq<byte>, at: int, u: User)
    requires Holds(mem, at, EncodeUser(u))
    ensures DecodeUser(mem, at) == Some(u)
  {
    HoldsSplit(mem, at, EncodeHead(u.head), EncodeInt32(u.userId) + u.userName);
    HoldsSplit(mem, at + 8, EncodeInt32(u.userId), u.userName);
    HeadAt(mem, at, u.head);
    IntAt(mem, at + 8, u.userId);
  }

  lemma {:induction false} UsersAt(mem: seq<byte>, at: int, us: seq<User>, k: nat)
    requires k <= |us| && Holds(mem, at, EncodeUsers(us))
    ensures DecodeUsers(mem, at, k) == Some(us[..k])
    decreases k
  {
    hide EncodeUser, DecodeUser;
    if k > 0 {
      HoldsSplit(mem, at, EncodeUser(us[0]), EncodeUsers(us[1..]));
      UserAt(mem, at, us[0]);
      UsersAt(mem, at + SIZEOF_USER, us[1..], k - 1);
      assert us[..k] == [us[0]] + us[1..][..k - 1];
    }
  }

  function SeenUserList(rd: Reader, l: UserList): UserList {
    l.(users := l.users[..Times(rd, |l.users|)])
  }

  lemma TimesDecodes(rd: Reader, mem: seq<byte>, at: int, n: nat)
    ensures DecodeUsers(mem, at, Seen(rd, n)) == DecodeUsers(mem, at, Times(rd, n))
    ensures DecodeGroups(rd, mem, at, Seen(rd, n)) == DecodeGroups(rd, mem, at, Times(rd, n))
    ensures DecodeMsgs(rd, mem, at, Seen(rd, n)) == DecodeMsgs(rd, mem, at, Times(rd, n))
  {
  }

  lemma UserListAt(rd: Reader, mem: seq<byte>, at: int, l: UserList)
    requires |l.users| <= INT_MAX && Holds(mem, at, EncodeUserList(l))
    ensures DecodeUserList(rd, mem, at) == Some(SeenUserList(rd, l))
  {
    hide EncodeHead, EncodeUsers, EncodeInt32, DecodeUsers, ReadHead;
    var n := |l.users|;
    HoldsSplit(mem, at, EncodeHead(l.head), EncodeInt32(n) + EncodeUsers(l.users));
    HoldsSplit(mem, at + 8, EncodeInt32(n), EncodeUsers(l.users));
    HeadAt(mem, at, l.head);
    CountAt(rd, mem, at + 8, n);
    TimesDecodes(rd, mem, at + 12, n);
    UsersAt(mem, at + 12, l.users, Times(rd, n));
  }

  function SeenGroup(rd: Reader, g: Group): (r: Group)
    ensures r.head == g.head
  {
    g.(userList := SeenUserList(rd, g.userList))
  }

  lemma GroupFixedAt(mem: seq<byte>, at: int, g: Group)
    requires Holds(mem, at, EncodeGroupFixed(g))
    ensures Within(mem, at, SIZEOF_GROUP_FIXED) && ReadHead(mem, at) == g.head
    ensures ReadInt(mem, at + 8) == g.groupId && mem[at + 12..at + 44] == g.groupName
    ensures ReadInt(mem, at + 44) == g.adminId
  {
    var admin := EncodeInt32(g.adminId);
    HoldsSplit(mem, at, EncodeHead(g.head), EncodeInt32(g.groupId) + (g.groupName + admin));
    HoldsSplit(mem, at + 8, EncodeInt32(g.groupId), g.groupName + admin);
    HoldsSplit(mem, at + 12, g.groupName, admin);
    HeadAt(mem, at, g.head);
    IntAt(mem, at + 8, g.groupId);
    IntAt(mem, at + 44, g.adminId);
  }

  lemma GroupAt(rd: Reader, mem: seq<byte>, at: int, g: Group)
    requires |g.userList.users| <= INT_MAX && Holds(mem, at, EncodeGroup(g))
    ensures DecodeGroup(rd, mem, at) == Some(SeenGroup(rd, g))
  {
    HoldsSplit(mem, at, EncodeGroupFixed(g), EncodeUserList(g.userList));
    GroupFixedAt(mem, at, g);
    UserListAt(rd, mem, at + SIZEOF_GROUP_FIXED, g.userList);
  }

  function SeenGroups(rd: Reader, gs: seq<Group>): (r: seq<Group>)
    ensures |r| == |gs|
    ensures forall i | 0 <= i < |gs| :: r[i] == SeenGroup(rd, gs[i])
  {
    seq(|gs|, i requires 0 <= i < |gs| => SeenGroup(rd, gs[i]))
  }

  /** Every group carries its own size, which is what the list cursor steps by. */
  predicate GroupsFilled(gs: seq<Group>) {
    forall i | 0 <= i < |gs| :: gs[i].head.dataSize == GroupSize(gs[i]) && |gs[i].userList.users| <= INT_MAX
  }

  lemma {:induction false} GroupsAt(rd: Reader, mem: seq<byte>, at: int, gs: seq<Group>, k: nat)
    requires k <= |gs| && GroupsFilled(gs) && Holds(mem, at, EncodeGroups(gs))
    ensures DecodeGroups(rd, mem, at, k) == Some(SeenGroups(rd, gs)[..k])
    decreases k
  {
    hide DecodeGroup, EncodeGroup, SeenGroup, GroupSize;
    if k > 0 {
      HoldsSplit(mem, at, EncodeGroup(gs[0]), EncodeGroups(gs[1..]));
      GroupAt(rd, mem, at, gs[0]);
      GroupsAt(rd, mem, at + GroupSize(gs[0]), gs[1..], k - 1);
      assert SeenGroups(rd, gs)[..k] == [SeenGroup(rd, gs[0])] + SeenGroups(rd, gs[1..])[..k - 1];
    }
  }

  function SeenGroupList(rd: Reader, l: GroupList): GroupList {
    l.(groups := SeenGroups(rd, l.groups)[..Times(rd, |l.groups|)])
  }

  lemma {:induction false} SizedGroupsFit(gs: seq<Group>)
    requires GroupsSize(gs) <= INT_MAX
    ensures |gs| <= INT_MAX && SIZEOF_GROUP_FIXED * |gs| <= GroupsSize(gs)
    ensures GroupsFilled(SizedGroups(gs)) && GroupsSize(SizedGroups(gs)) == GroupsSize(gs)
    decreases |gs|
  {
    if gs != [] {
      SizedGroupsFit(gs[1..]);
      assert SizedGroups(gs) == [SizedGroup(gs[0])] + SizedGroups(gs[1..]);
    }
  }

  /** The bytes of a serialised group list read back, wherever they lie, as the list with
      every vector cut to what its count looks like to the reader; the cursor meets the
      start of every group. */
  lemma GroupListAt(rd: Reader, mem: seq<byte>, at: int, l: GroupList)
    requires GroupListSize(l) <= INT_MAX && Holds(mem, at, EncodeGroupList(SizedGroupList(l)))
    ensures DecodeGroupList(rd, mem, at) == Some(SeenGroupList(rd, SizedGroupList(l)))
  {
    hide EncodeHead, EncodeGroups, EncodeInt32, DecodeGroups, ReadHead, SeenGroups, GroupsSize;
    SizedGroupsFit(l.groups);
    var s := SizedGroupList(l);
    var n := |s.groups|;
    HoldsSplit(mem, at, EncodeHead(s.head), EncodeInt32(n) + EncodeGroups(s.groups));
    HoldsSplit(mem, at + 8, EncodeInt32(n), EncodeGroups(s.groups));
    HeadAt(mem, at, s.head);
    CountAt(rd, mem, at + 8, n);
    TimesDecodes(rd, mem, at + 12, n);
    GroupsAt(rd, mem, at + 12, s.groups, Times(rd, n));
  }

  /** A count survives the char read up to 127. */
  predicate CountsReadable(l: GroupList) {
    |l.groups| <= 127 && forall i | 0 <= i < |l.groups| :: |l.groups[i].userList.users| <= 127
  }

  lemma SeenAllIffReadable(rd: Reader, l: GroupList)
    ensures SeenGroupList(rd, l) == l <==> rd == Intended || CountsReadable(l)
  {
    var s := SeenGroupList(rd, l);
    if s == l {
      forall i | 0 <= i < |l.groups| ensures Times(rd, |l.groups[i].userList.users|) == |l.groups[i].userList.users| {
        assert s.groups[i] == SeenGroup(rd, l.groups[i]) == l.groups[i];
      }
    }
    if rd == Intended || CountsReadable(l) {
      forall i | 0 <= i < |l.groups| ensures s.groups[i] == l.groups[i] {
        assert l.groups[i].userList.users[..|l.groups[i].userList.users|] == l.groups[i].userList.users;
      }
      assert s.groups == l.groups;
    }
  }

  /** All that a serialiser changes in a list and the records inside it are their sizes. */
  lemma OnlySizesFilled(l: GroupList)
    ensures var s := SizedGroupList(l);
      && s.head == Head(Wrap(12 + GroupsSize(l.groups)), l.head.dataType) && |s.groups| == |l.groups|
      && forall i | 0 <= i < |l.groups| ::
           var g, n := l.groups[i], 12 + SIZEOF_USER * |l.groups[i].userList.users|;
           s.groups[i] == Group(Head(Wrap(48 + n), g.head.dataType), g.groupId, g.groupName, g.adminId,
                                UserList(Head(Wrap(n), g.userList.head.dataType), g.userList.users))
  {
  }

  lemma OnlyUserListSizeFilled(l: UserList)
    ensures SizedUserList(l) == UserList(Head(Wrap(12 + SIZEOF_USER * |l.users|), l.head.dataType), l.users)
  {
  }

  lemma OnlyMsgSizeFilled(m: Msg)
    ensures SizedMsg(m) ==
      Msg(Fixed(Head(Wrap(SIZEOF_MSG_FIXED + 10 + |m.text| + |m.extend|), m.fixed.head.dataType), m.fixed.msgId,
                m.fixed.msgType, m.fixed.sender, m.fixed.receiver, m.fixed.isGroup, m.fixed.createdTime),
          m.text, m.extend)
  {
  }

  /** Serialising a group list and reading it into a fresh one gives the list back, sizes
      filled in, exactly when all counts are at most 127; with the int reader always. */
  lemma GroupListRoundTrip(rd: Reader, l: GroupList)
    requires GroupListSize(l) <= INT_MAX
    ensures var s := SizedGroupList(l);
      DecodeGroupList(rd, EncodeGroupList(s), 0) == Some(s) <==> rd == Intended || CountsReadable(l)
  {
    hide EncodeGroupList, DecodeGroupList, SeenGroupList, GroupsSize;
    var s := SizedGroupList(l);
    GroupListAt(rd, EncodeGroupList(s), 0, l);
    SeenAllIffReadable(rd, s);
    assert CountsReadable(s) <==> CountsReadable(l) by {
      assert forall i | 0 <= i < |l.groups| :: s.groups[i] == SizedGroup(l.groups[i]);
    }
  }

  lemma UserListRoundTrip(rd: Reader, l: UserList)
    requires UserListSize(l) <= INT_MAX
    ensures var s := SizedUserList(l);
      DecodeUserList(rd, EncodeUserList(s), 0) == Some(s) <==> rd == Intended || |l.users| <= 127
  {
    var s := SizedUserList(l);
    UserListAt(rd, EncodeUserList(s), 0, s);
    assert s.users[..|s.users|] == s.users;
  }

  /** A group list with one group of 128 users comes back from the char reader with none. */
  lemma LargeGroupLosesUsers(g: Group)
    requires |g.userList.users| == 128
    ensures var l := SizedGroupList(GroupList(Head(0, S2C_GROUP_LIST), [g]));
      var d := DecodeGroupList(AsWritten, EncodeGroupList(l), 0);
      d.Some? && |d.value.groups| == 1 && d.value.groups[0].userList.users == []
  {
    hide DecodeGroupList, EncodeGroupList;
    var l := GroupList(Head(0, S2C_GROUP_LIST), [g]);
    assert GroupsSize([g]) == GroupSize(g) + GroupsSize([]);
    GroupListAt(AsWritten, EncodeGroupList(SizedGroupList(l)), 0, l);
  }

  // Messages.

  lemma FixedTailAt(mem: seq<byte>, at: int, receiver: int32, isGroup: bool, createdTime: int32)
    requires Holds(mem, at, EncodeInt32(receiver) + ([if isGroup then 1 else 0] + EncodeInt32(createdTime)))
    ensures Within(mem, at, 9)
    ensures ReadInt(mem, at) == receiver && (mem[at + 4] != 0) == isGroup && ReadInt(mem, at + 5) == createdTime
  {
    var flag: seq<byte> := [if isGroup then 1 else 0];
    HoldsSplit(mem, at, EncodeInt32(receiver), flag + EncodeInt32(createdTime));
    HoldsSplit(mem, at + 4, flag, EncodeInt32(createdTime));
    IntAt(mem, at, receiver);
    IntAt(mem, at + 5, createdTime);
    assert mem[at + 4] == mem[at + 4..at + 5][0] == flag[0];
  }

  lemma FixedAt(mem: seq<byte>, at: int, f: Fixed)
    requires Holds(mem, at, EncodeFixed(f))
    ensures Within(mem, at, SIZEOF_MSG_FIXED) && ReadFixed(mem, at) == f
  {
    var tail := EncodeInt32(f.receiver) + ([if f.isGroup then 1 else 0] + EncodeInt32(f.createdTime));
    HoldsSplit(mem, at, EncodeHead(f.head),
      EncodeInt32(f.msgId) + (EncodeInt32(f.msgType) + (EncodeInt32(f.sender) + tail)));
    HoldsSplit(mem, at + 8, EncodeInt32(f.msgId), EncodeInt32(f.msgType) + (EncodeInt32(f.sender) + tail));
    HoldsSplit(mem, at + 12, EncodeInt32(f.msgType), EncodeInt32(f.sender) + tail);
    HoldsSplit(mem, at + 16, EncodeInt32(f.sender), tail);
    HeadAt(mem, at, f.head);
    IntAt(mem, at + 8, f.msgId);
    IntAt(mem, at + 12, f.msgType);
    IntAt(mem, at + 16, f.sender);
    FixedTailAt(mem, at + 20, f.receiver, f.isGroup, f.createdTime);
  }

  lemma StringAt(rd: Reader, mem: seq<byte>, at: int, s: seq<byte>)
    requires |s| < INT_MAX && Holds(mem, at, EncodeString(s))
    ensures ReadCount(rd, mem, at) == Some(Seen(rd, |s| + 1))
    ensures CString(mem, at + SIZEOF_INT) == Some(UpToNul(s))
    ensures Holds(mem, at + SIZEOF_INT, s + [0])
  {
    HoldsSplit(mem, at, EncodeInt32(|s| + 1), s + [0]);
    CountAt(rd, mem, at, |s| + 1);
    CStringReads(mem, at + SIZEOF_INT, s);
  }

  /** The record offset at which a reader expects the size of the extension. */
  function ExtendCursor(rd: Reader, textSize: nat): int {
    SIZEOF_MSG_FIXED + SIZEOF_INT + Seen(rd, textSize + 1) + Skip(rd)
  }

  /** Where the encoder put it. */
  function ExtendOffset(textSize: nat): int {
    SIZEOF_MSG_FIXED + SIZEOF_INT + textSize + 1
  }

  /** What lies before the extension: the fixed part and the text with its terminator. */
  function Front(m: Msg): (f: seq<byte>)
    ensures |f| == ExtendOffset(|m.text|) && f[|f| - 1] == 0
  {
    EncodeFixed(m.fixed) + EncodeString(m.text)
  }

  lemma FrontAt(mem: seq<byte>, at: int, m: Msg)
    requires Holds(mem, at, EncodeMsg(m))
    ensures Holds(mem, at, Front(m)) && Holds(mem, at + |Front(m)|, EncodeString(m.extend))
  {
    hide EncodeFixed, EncodeString;
    assert EncodeMsg(m) == Front(m) + EncodeString(m.extend);
    HoldsSplit(mem, at, Front(m), EncodeString(m.extend));
  }

  /** With either reader all fixed fields and the text up to its first NUL come back, and
      the extension is whatever is found from the reader's cursor. */
  lemma MsgAt(rd: Reader, mem: seq<byte>, at: int, m: Msg)
    requires |m.text| < INT_MAX && Holds(mem, at, EncodeMsg(m))
    ensures DecodeMsg(rd, mem, at) ==
      Some(DecodedMsg(m.fixed, UpToNul(m.text), ReadExtend(rd, mem, at + ExtendCursor(rd, |m.text|))))
    ensures Holds(mem, at + ExtendOffset(|m.text|), EncodeString(m.extend))
  {
    hide EncodeFixed, EncodeString, CString, ReadFixed, ReadExtend, UpToNul, Seen;
    FrontAt(mem, at, m);
    HoldsSplit(mem, at, EncodeFixed(m.fixed), EncodeString(m.text));
    FixedAt(mem, at, m.fixed);
    StringAt(rd, mem, at + SIZEOF_MSG_FIXED, m.text);
  }

  /** The char reader's cursor is one byte past the extension's size field for texts of at
      most 126 bytes, and short of the text's terminator for all longer ones: it never
      stands where the encoder put the size. */
  lemma CursorNeverAligned(textSize: nat)
    ensures ExtendCursor(Intended, textSize) == ExtendOffset(textSize)
    ensures textSize <= 126 ==> ExtendCursor(AsWritten, textSize) == ExtendOffset(textSize) + 1
    ensures textSize >= 127 ==> ExtendCursor(AsWritten, textSize) < ExtendOffset(textSize) - 1
  {
  }

  lemma MsgIntended(mem: seq<byte>, at: int, m: Msg)
    requires |m.text| < INT_MAX && |m.extend| < INT_MAX && Holds(mem, at, EncodeMsg(m))
    ensures DecodeMsg(Intended, mem, at) == Some(DecodedMsg(m.fixed, UpToNul(m.text), Some(UpToNul(m.extend))))
  {
    hide EncodeMsg, EncodeString, CString, UpToNul, DecodeMsg;
    MsgAt(Intended, mem, at, m);
    StringAt(Intended, mem, at + ExtendOffset(|m.text|), m.extend);
  }

  lemma SecondByteOnwards(mem: seq<byte>, at: int, s: seq<byte>)
    requires s != [] && Holds(mem, at, s + [0])
    ensures CString(mem, at + 1) == Some(UpToNul(s[1..]))
  {
    assert s + [0] == [s[0]] + (s[1..] + [0]);
    HoldsSplit(mem, at, [s[0]], s[1..] + [0]);
    CStringReads(mem, at + 1, s[1..]);
  }

  /** As written, a short text is followed by an extension without its first byte; an empty
      extension becomes whatever string lies behind the record. */
  lemma ExtendAsWritten(mem: seq<byte>, at: int, m: Msg)
    requires |m.text| <= 126 && |m.extend| < INT_MAX && Holds(mem, at, EncodeMsg(m))
    ensures ReadExtend(AsWritten, mem, at + ExtendCursor(AsWritten, |m.text|)) ==
      if m.extend != [] then Some(UpToNul(m.extend[1..])) else CString(mem, at + MsgSize(m))
  {
    hide EncodeMsg, EncodeString, CString, Front, UpToNul, ReadExtend;
    FrontAt(mem, at, m);
    ReadExtendFrom(mem, at + ExtendCursor(AsWritten, |m.text|));
    StringAt(AsWritten, mem, at + ExtendOffset(|m.text|), m.extend);
    if m.extend != [] {
      SecondByteOnwards(mem, at + ExtendOffset(|m.text|) + SIZEOF_INT, m.extend);
    }
  }

  lemma {:induction false} UpToNulTerminated(s: seq<byte>)
    ensures UpToNul(s + [0]) == UpToNul(s)
  {
    if s != [] {
      assert (s + [0])[1..] == s[1..] + [0];
      UpToNulTerminated(s[1..]);
    }
  }

  /** A scan that starts inside a terminated stretch of memory stays inside. */
  lemma CStringInside(mem: seq<byte>, at: int, f: seq<byte>, i: nat)
    requires i < |f| && f[|f| - 1] == 0 && Holds(mem, at, f)
    ensures CString(mem, at + i) == Some(UpToNul(f[i..]))
  {
    hide CString, UpToNul;
    var s := f[i..|f| - 1];
    assert f[i..] == s + [0];
    SliceOfSlice(mem, at, at + |f|, i, |f|);
    CStringReads(mem, at + i, s);
    UpToNulTerminated(s);
  }

  /** A scan finds the bytes up to the next NUL, if there is one in memory. */
  lemma {:induction false} CStringScans(mem: seq<byte>, at: int)
    requires 0 <= at <= |mem|
    ensures CString(mem, at) == if 0 in mem[at..] then Some(UpToNul(mem[at..])) else None
    decreases |mem| - at
  {
    if at < |mem| {
      CStringScans(mem, at + 1);
      assert mem[at..] == [mem[at]] + mem[at + 1..];
    }
  }

  /** For a long text: the bytes between the record's start and the text's terminator that the
      cursor falls on, up to a NUL; None when it falls before the record. */
  function FoundInFront(m: Msg): Option<seq<byte>>
    requires |m.text| >= 127
  {
    var t := Seen(AsWritten, |m.text| + 1);
    if t >= -34 then Some(UpToNul(Front(m)[SIZEOF_MSG_FIXED + 9 + t..])) else None
  }

  /** What the decoder as written takes for the extension of the record m at address at: for a
      short text the extension without its first byte, or when it is empty the bytes behind
      the record; for a long one a piece of what lies before the extension, or of what lies
      before the record itself. */
  function ExtendTaken(mem: seq<byte>, at: nat, m: Msg): Option<seq<byte>> {
    var t := Seen(AsWritten, |m.text| + 1);
    if |m.text| <= 126 then
      if m.extend != [] then Some(UpToNul(m.extend[1..])) else StringFrom(mem, at + MsgSize(m))
    else if t >= -34 then FoundInFront(m)
    else if at + t >= -34 then StringFrom(mem, at + SIZEOF_MSG_FIXED + 9 + t)
    else None
  }

  /** The bytes from address at up to a NUL, if there is one. */
  function StringFrom(mem: seq<byte>, at: nat): Option<seq<byte>> {
    if at <= |mem| && 0 in mem[at..] then Some(UpToNul(mem[at..])) else None
  }

  lemma ReadExtendFrom(mem: seq<byte>, cursor: int)
    ensures ReadExtend(AsWritten, mem, cursor) ==
      if 0 <= cursor < |mem| then CString(mem, cursor + SIZEOF_INT) else None
  {
    hide CString;
  }

  lemma LongTextExtend(mem: seq<byte>, at: nat, m: Msg)
    requires 127 <= |m.text| < INT_MAX && Holds(mem, at, EncodeMsg(m))
    ensures ReadExtend(AsWritten, mem, at + ExtendCursor(AsWritten, |m.text|)) == ExtendTaken(mem, at, m)
  {
    hide CString, UpToNul, Front, EncodeMsg, Seen, ReadExtend;
    var t := Seen(AsWritten, |m.text| + 1);
    FrontAt(mem, at, m);
    ReadExtendFrom(mem, at + ExtendCursor(AsWritten, |m.text|));
    if t >= -34 {
      CStringInside(mem, at, Front(m), SIZEOF_MSG_FIXED + 9 + t);
    } else if at + t >= -34 {
      CStringScans(mem, at + SIZEOF_MSG_FIXED + 9 + t);
    }
  }

  /** Every record, with a text and an extension of any length: what the decoder as written
      reads is what ExtendTaken says. */
  lemma ExtendFound(mem: seq<byte>, at: nat, m: Msg)
    requires |m.text| < INT_MAX && |m.extend| < INT_MAX && Holds(mem, at, EncodeMsg(m))
    ensures DecodeMsg(AsWritten, mem, at) == Some(DecodedMsg(m.fixed, UpToNul(m.text), ExtendTaken(mem, at, m)))
  {
    hide CString, UpToNul, Front, EncodeMsg, DecodeMsg, ReadExtend;
    MsgAt(AsWritten, mem, at, m);
    if |m.text| <= 126 {
      ExtendAsWritten(mem, at, m);
      CStringScans(mem, at + MsgSize(m));
    } else {
      LongTextExtend(mem, at, m);
    }
  }

  /** The same for a record at the front of memory, in terms of the record and of the bytes
      behind it. */
  function TakenAtFront(m: Msg, behind: seq<byte>): (x: Option<seq<byte>>)
    ensures x.Some? ==> |x.value| < MsgSize(m) + |behind|
  {
    if |m.text| >= 127 then FoundInFront(m)
    else if m.extend != [] then Some(UpToNul(m.extend[1..]))
    else if 0 in behind then Some(UpToNul(behind))
    else None
  }

  lemma ExtendAtFront(m: Msg, behind: seq<byte>)
    requires |m.text| < INT_MAX && |m.extend| < INT_MAX
    ensures DecodeMsg(AsWritten, EncodeMsg(m) + behind, 0) ==
      Some(DecodedMsg(m.fixed, UpToNul(m.text), TakenAtFront(m, behind)))
  {
    hide EncodeMsg, DecodeMsg, Front, UpToNul;
    var mem := EncodeMsg(m) + behind;
    assert mem[0..|EncodeMsg(m)|] == EncodeMsg(m);
    assert mem[|EncodeMsg(m)|..] == behind;
    ExtendFound(mem, 0, m);
  }

  /** For any text, the extension of a record at the front of memory survives the decoder as
      written exactly when the text is short, the extension empty and the byte behind the
      record happens to be NUL, or the text is long and the extension happens to repeat the
      bytes before it that the cursor falls on. */
  lemma ExtendSurvivesIff(m: Msg, behind: seq<byte>)
    requires |m.text| < INT_MAX && |m.extend| < INT_MAX
    ensures var d := DecodeMsg(AsWritten, EncodeMsg(m) + behind, 0);
      && d.Some?
      && (d.value.extend == Some(m.extend) <==>
            if |m.text| <= 126 then m.extend == [] && behind != [] && behind[0] == 0
            else FoundInFront(m) == Some(m.extend))
  {
    hide EncodeMsg, DecodeMsg, FoundInFront, UpToNul;
    ExtendAtFront(m, behind);
    if |m.text| <= 126 && m.extend != [] {
      assert |UpToNul(m.extend[1..])| < |m.extend|;
    } else if |m.text| <= 126 {
      StartsWithNul(behind);
      assert behind != [] && behind[0] == 0 ==> 0 in behind;
    }
  }

  lemma StartsWithNul(s: seq<byte>)
    ensures UpToNul(s) == [] <==> s == [] || s[0] == 0
  {
  }

  /** The decoder as written looks for the extension outside the memory it was given, whose
      front holds the record, in exactly two cases: a short text with an empty extension and
      no NUL anywhere behind the record, or a text whose size, read through the char, is so
      negative that the cursor ends up before the record. */
  lemma ExtendLostIff(m: Msg, behind: seq<byte>)
    requires |m.text| < INT_MAX && |m.extend| < INT_MAX
    ensures var d := DecodeMsg(AsWritten, EncodeMsg(m) + behind, 0);
      && d.Some?
      && (d.value.extend.None? <==>
            if |m.text| <= 126 then m.extend == [] && 0 !in behind else Seen(AsWritten, |m.text| + 1) < -34)
  {
    hide EncodeMsg, DecodeMsg, Front, UpToNul;
    ExtendAtFront(m, behind);
  }

  /** For a long text whose cursor falls into the text, what is taken for the extension is the
      rest of the text from there, up to a NUL. */
  lemma LongTextLeaksIntoExtend(mem: seq<byte>, at: nat, m: Msg)
    requires 127 <= |m.text| < INT_MAX && |m.extend| < INT_MAX && Holds(mem, at, EncodeMsg(m))
    ensures var t, d := Seen(AsWritten, |m.text| + 1), DecodeMsg(AsWritten, mem, at);
      && d.Some?
      && (t >= -5 ==> d.value.extend == Some(UpToNul(m.text[t + 5..])))
      && (-34 <= t < -5 ==> d.value.extend == FoundInFront(m))
      && (t < -34 <= at + t ==> d.value.extend == StringFrom(mem, at + SIZEOF_MSG_FIXED + 9 + t))
      && (at + t < -34 ==> d.value.extend == None)
  {
    hide EncodeMsg, DecodeMsg, UpToNul, EncodeFixed, EncodeInt32;
    ExtendFound(mem, at, m);
    var t := Seen(AsWritten, |m.text| + 1);
    if t >= -5 {
      assert Front(m)[SIZEOF_MSG_FIXED + 9 + t..] == m.text[t + 5..] + [0];
      UpToNulTerminated(m.text[t + 5..]);
    }
  }

  lemma {:induction false} CStringFits(mem: seq<byte>, at: int)
    requires CString(mem, at).Some?
    ensures |CString(mem, at).value| < |mem| - at
    decreases |mem| - at
  {
    if mem[at] != 0 {
      CStringFits(mem, at + 1);
    }
  }

  // Message lists.

  predicate MsgsFilled(ms: seq<Msg>) {
    forall i | 0 <= i < |ms| ::
      ms[i].fixed.head.dataSize == MsgSize(ms[i]) && |ms[i].text| < INT_MAX && |ms[i].extend| < INT_MAX
  }

  /** What a reader makes of the record m at address at. */
  function ReadBack(rd: Reader, mem: seq<byte>, at: nat, m: Msg): (d: DecodedMsg)
    ensures d.fixed == m.fixed
  {
    DecodedMsg(m.fixed, UpToNul(m.text),
               match rd case AsWritten => ExtendTaken(mem, at, m) case Intended => Some(UpToNul(m.extend)))
  }

  lemma MsgReadBack(rd: Reader, mem: seq<byte>, at: nat, m: Msg)
    requires |m.text| < INT_MAX && |m.extend| < INT_MAX && Holds(mem, at, EncodeMsg(m))
    ensures DecodeMsg(rd, mem, at) == Some(ReadBack(rd, mem, at, m))
  {
    hide EncodeMsg, DecodeMsg, ExtendTaken, UpToNul;
    match rd
    case AsWritten => ExtendFound(mem, at, m);
    case Intended => MsgIntended(mem, at, m);
  }

  /** Records one behind the other. */
  function ReadBacks(rd: Reader, mem: seq<byte>, at: nat, ms: seq<Msg>): (ds: seq<DecodedMsg>)
    ensures |ds| == |ms|
    decreases |ms|
  {
    if ms == [] then [] else [ReadBack(rd, mem, at, ms[0])] + ReadBacks(rd, mem, at + MsgSize(ms[0]), ms[1..])
  }

  lemma {:induction false} ReadBackOf(rd: Reader, mem: seq<byte>, at: nat, ms: seq<Msg>, i: nat)
    requires i < |ms|
    ensures ReadBacks(rd, mem, at, ms)[i] == ReadBack(rd, mem, at + MsgsSize(ms[..i]), ms[i])
    decreases i
  {
    hide ReadBack, MsgSize;
    if i > 0 {
      ReadBackOf(rd, mem, at + MsgSize(ms[0]), ms[1..], i - 1);
      assert ms[..i][1..] == ms[1..][..i - 1];
    }
  }

  lemma {:induction false} MsgsAt(rd: Reader, mem: seq<byte>, at: nat, ms: seq<Msg>, k: nat)
    requires k <= |ms| && MsgsFilled(ms) && Holds(mem, at, EncodeMsgs(ms))
    ensures DecodeMsgs(rd, mem, at, k) == Some(ReadBacks(rd, mem, at, ms[..k]))
    decreases k
  {
    hide DecodeMsg, EncodeMsg, MsgSize, ReadBack;
    if k > 0 {
      HoldsSplit(mem, at, EncodeMsg(ms[0]), EncodeMsgs(ms[1..]));
      MsgReadBack(rd, mem, at, ms[0]);
      MsgsAt(rd, mem, at + MsgSize(ms[0]), ms[1..], k - 1);
      assert ms[..k][0] == ms[0] && ms[..k][1..] == ms[1..][..k - 1];
    }
  }

  lemma {:induction false} RecordAt(mem: seq<byte>, at: nat, ms: seq<Msg>, i: nat)
    requires i < |ms| && Holds(mem, at, EncodeMsgs(ms))
    ensures Holds(mem, at + MsgsSize(ms[..i]), EncodeMsg(ms[i]))
    decreases i
  {
    hide EncodeMsg, MsgSize;
    HoldsSplit(mem, at, EncodeMsg(ms[0]), EncodeMsgs(ms[1..]));
    if i > 0 {
      RecordAt(mem, at + MsgSize(ms[0]), ms[1..], i - 1);
      assert ms[..i][1..] == ms[1..][..i - 1];
    }
  }

  lemma {:induction false} SizeUpTo(ms: seq<Msg>, i: nat)
    requires i < |ms|
    ensures MsgsSize(ms[..i + 1]) == MsgsSize(ms[..i]) + MsgSize(ms[i])
    decreases i
  {
    hide MsgSize;
    if i > 0 {
      SizeUpTo(ms[1..], i - 1);
      assert ms[..i][1..] == ms[1..][..i - 1] && ms[..i + 1][1..] == ms[1..][..i];
    }
  }

  /** In a list, a message with a short text and no extension gets the first bytes of the
      next record's own size for an extension. */
  lemma EmptyExtendReadsNext(mem: seq<byte>, at: nat, ms: seq<Msg>, i: nat)
    requires i + 1 < |ms| && Holds(mem, at, EncodeMsgs(ms))
    requires |ms[i].text| <= 126 && ms[i].extend == []
    ensures ReadBacks(AsWritten, mem, at, ms)[i].extend == Some(UpToNul(Front(ms[i + 1])))
  {
    hide EncodeMsgs, EncodeMsg, ReadBacks, Front, UpToNul, MsgSize, MsgsSize, CString;
    ReadBackOf(AsWritten, mem, at, ms, i);
    SizeUpTo(ms, i);
    RecordAt(mem, at, ms, i + 1);
    var next := at + MsgsSize(ms[..i + 1]);
    FrontAt(mem, next, ms[i + 1]);
    CStringInside(mem, next, Front(ms[i + 1]), 0);
    CStringScans(mem, next);
    assert Front(ms[i + 1])[0..] == Front(ms[i + 1]);
  }

  lemma {:induction false} SizedMsgsFit(ms: seq<Msg>)
    requires MsgsSize(ms) <= INT_MAX
    ensures |ms| <= INT_MAX && SIZEOF_MSG_FIXED * |ms| <= MsgsSize(ms)
    ensures MsgsFilled(SizedMsgs(ms)) && MsgsSize(SizedMsgs(ms)) == MsgsSize(ms)
    decreases |ms|
  {
    if ms != [] {
      SizedMsgsFit(ms[1..]);
      assert SizedMsgs(ms) == [SizedMsg(ms[0])] + SizedMsgs(ms[1..]);
    }
  }

  /** A serialised message list reads back record by record, the cursor meeting the start of
      each, for as many records as the count looks like; each as one record alone. */
  lemma MsgListRoundTrip(rd: Reader, mem: seq<byte>, at: nat, l: MsgList)
    requires MsgListSize(l) <= INT_MAX && Holds(mem, at, EncodeMsgList(SizedMsgList(l)))
    ensures DecodeMsgList(rd, mem, at) ==
      Some((SizedMsgList(l).head, ReadBacks(rd, mem, at + 12, SizedMsgs(l.msgs)[..Times(rd, |l.msgs|)])))
  {
    hide EncodeHead, EncodeMsgs, EncodeInt32, DecodeMsgs, ReadHead, ReadBacks, MsgsSize;
    SizedMsgsFit(l.msgs);
    var s := SizedMsgList(l);
    var n := |s.msgs|;
    HoldsSplit(mem, at, EncodeHead(s.head), EncodeInt32(n) + EncodeMsgs(s.msgs));
    HoldsSplit(mem, at + 8, EncodeInt32(n), EncodeMsgs(s.msgs));
    HeadAt(mem, at, s.head);
    CountAt(rd, mem, at + 8, n);
    TimesDecodes(rd, mem, at + 12, n);
    MsgsAt(rd, mem, at + 12, s.msgs, Times(rd, n));
  }

  /** Message round trip, as written: every fixed field, and the text exactly when it holds
      no NUL. With the intended reader the extension too. */
  lemma MsgRoundTrip(m: Msg, behind: seq<byte>)
    requires MsgSize(m) <= INT_MAX
    ensures var s := SizedMsg(m);
      var d := DecodeMsg(AsWritten, EncodeMsg(s) + behind, 0);
      d.Some? && d.value.fixed == s.fixed && (d.value.text == m.text <==> 0 !in m.text)
    ensures var s := SizedMsg(m);
      var d := DecodeMsg(Intended, EncodeMsg(s) + behind, 0);
      && d.Some? && d.value.fixed == s.fixed
      && (d.value.text == m.text <==> 0 !in m.text)
      && d.value.extend.Some? && (d.value.extend.value == m.extend <==> 0 !in m.extend)
  {
    var s := SizedMsg(m);
    var mem := EncodeMsg(s) + behind;
    assert mem[0..|EncodeMsg(s)|] == EncodeMsg(s);
    MsgAt(AsWritten, mem, 0, s);
    MsgIntended(mem, 0, s);
  }

  lemma GetMsgListAt(mem: seq<byte>, at: int, g: GetMsgList)
    requires Holds(mem, at, EncodeGetMsgList(g))
    ensures DecodeGetMsgList(mem, at) == Some(g)
  {
    HoldsSplit(mem, at, EncodeHead(g.head), EncodeInt32(g.lastMsgId) + EncodeInt32(g.userId));
    HoldsSplit(mem, at + 8, EncodeInt32(g.lastMsgId), EncodeInt32(g.userId));
    HeadAt(mem, at, g.head);
    IntAt(mem, at + 8, g.lastMsgId);
    IntAt(mem, at + 12, g.userId);
  }
}
