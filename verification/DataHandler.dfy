/** The handler object: its online map, its use of the connection pool, and the packages it
    hands to the send callback. */
module DataHandler {
  import opened Bytes
  import opened Records
  import opened RoundTrip
  import opened DataTypes
  import opened Dispatch
  import opened Relay
  import Pool = MySqlPool

  /** How a handler ends: through, in a decoder that left the memory, or waiting for a
      connection, which it does before it has sent or changed anything. */
  datatype Outcome = Done | LeftMemory | Waiting

  /** No answer of the database is too large for the int that holds its size. */
  ghost predicate AnswersFit(w: World) {
    && SizeOf(UsersAnswer(w)) <= INT_MAX
    && (forall userId: int32 :: SizeOf(GroupsAnswer(w, userId)) <= INT_MAX)
    && (forall query: GetMsgList :: SizeOf(StoredAnswer(w, query)) <= INT_MAX)
  }

  lemma {:induction false} LeastOf(s: set<int32>) returns (least: int32)
    requires s != {}
    ensures least in s && forall j | j in s :: least <= j
  {
    var x :| x in s;
    var others := s - {x};
    least := x;
    if others != {} {
      var other := LeastOf(others);
      least := if other < x then other else x;
    }
    assert forall j | j in s :: j == x || j in others;
  }

  /** The relayed message is not too large for the int that holds its size. */
  predicate RelayFits(w: World, mem: seq<byte>) {
    var d := DecodeMsg(AsWritten, mem, 0);
    d.Some? && d.value.extend.Some? ==> MsgSize(SentOn(w, Landed(d.value))) <= INT_MAX
  }

  /** That is so whenever the memory the decoder may look into has less than a gigabyte. */
  lemma SmallMemoryFits(w: World, mem: seq<byte>)
    requires |mem| <= 0x3fff_ff00
    ensures RelayFits(w, mem)
  {
    hide CString;
    var d := DecodeMsg(AsWritten, mem, 0);
    if d.Some? && d.value.extend.Some? {
      var textAt := SIZEOF_MSG_FIXED + SIZEOF_INT;
      CStringFits(mem, textAt);
      ExtendFits(mem, textAt + ReadCount(AsWritten, mem, SIZEOF_MSG_FIXED).value + Skip(AsWritten));
    }
  }

  lemma ExtendFits(mem: seq<byte>, cursor: int)
    requires ReadExtend(AsWritten, mem, cursor).Some?
    ensures |ReadExtend(AsWritten, mem, cursor).value| < |mem|
  {
    CStringFits(mem, cursor + SIZEOF_INT);
  }

  class DataHandler {
    var onlineUserMap: Online
    var sent: seq<Packet>
    const mySqlPool: Pool.MySqlPool

    constructor (threadCount: nat, mySqlPoolCount: int)
      ensures onlineUserMap == map[] && sent == [] && fresh(mySqlPool)
      ensures mySqlPool.Valid() && mySqlPool.workers == threadCount
      ensures mySqlPool.count == if mySqlPoolCount <= 0 then 1 else mySqlPoolCount
    {
      onlineUserMap, sent := map[], [];
      mySqlPool := new Pool.MySqlPool(mySqlPoolCount, threadCount);
    }

    /** Worker t is one of the pool's users and has no connection in hand. */
    ghost predicate Free(t: nat)
      reads mySqlPool
    {
      mySqlPool.Valid() && t < mySqlPool.workers && t !in mySqlPool.State().held
    }

    /** What a handler may have done, given the effect its package has: all of it, with the
        connection given back; or nothing. */
    twostate predicate Follows(o: Outcome, e: Option<Effect>, t: nat)
      reads this, mySqlPool
    {
      && Free(t) && mySqlPool.State().held == old(mySqlPool.State().held)
      && mySqlPool.mySqlVector == old(mySqlPool.mySqlVector)
      && (o.LeftMemory? <==> e.None?)
      && (o.Waiting? ==> mySqlPool.mySqlVector == [])
      && onlineUserMap == (if o.Done? then e.value.online else old(onlineUserMap))
      && sent == (if o.Done? then old(sent) + e.value.sent else old(sent))
    }

    method ClientOpen(cfd: int, userId: int32)
      modifies this`onlineUserMap
      ensures onlineUserMap == Opened(old(onlineUserMap), userId, cfd)
    {
      if userId !in onlineUserMap {
        onlineUserMap := onlineUserMap[userId := cfd];
      }
    }

    /** The end of a connection takes away the entry of its least user, so nothing is left of
        the connection when it had one user. */
    method ClientSocketState(cfd: int, state: bool)
      modifies this`onlineUserMap
      ensures state || cfd !in old(onlineUserMap).Values ==> onlineUserMap == old(onlineUserMap)
      ensures !state && cfd in old(onlineUserMap).Values ==>
        exists userId :: userId in old(onlineUserMap) && old(onlineUserMap)[userId] == cfd
                         && onlineUserMap == old(onlineUserMap) - {userId}
                         && forall v | v in old(onlineUserMap) && old(onlineUserMap)[v] == cfd :: userId <= v
      ensures !state && OneUserPerConnection(old(onlineUserMap)) ==> cfd !in onlineUserMap.Values
    {
      if state {
        return;
      }
      var ahead := onlineUserMap.Keys;
      while ahead != {}
        invariant ahead <= onlineUserMap.Keys && onlineUserMap == old(onlineUserMap)
        invariant forall v | v in onlineUserMap && v !in ahead :: onlineUserMap[v] != cfd
        decreases |ahead|
      {
        ghost var least := LeastOf(ahead);
        var userId :| userId in ahead && forall j | j in ahead :: userId <= j;
        if onlineUserMap[userId] == cfd {
          onlineUserMap := onlineUserMap - {userId};
          return;
        }
        ahead := ahead - {userId};
      }
    }

    method UserId2Cfd(userId: int32) returns (cfd: int)
      ensures cfd == CfdOf(onlineUserMap, userId)
    {
      cfd := if userId in onlineUserMap then onlineUserMap[userId] else 0;
    }

    method SendPackage(cfd: int, data: array<byte>)
      modifies this`sent
      ensures sent == old(sent) + [Packet(cfd, data[..])]
    {
      sent := sent + [Packet(cfd, data[..])];
    }

    method SendAccount(cfd: int, u: User)
      requires u.head.dataSize == SIZEOF_USER
      modifies this`sent
      ensures sent == old(sent) + [Reply(cfd, Account(u))]
    {
      hide EncodeUser;
      var p := new byte[SIZEOF_USER];
      var end := Fill(p, 0, EncodeUser(u), []);
      assert p[..] == p[..end] == [] + EncodeUser(u);
      assert u.(head := WithSize(u.head, SIZEOF_USER)) == u;
      SendPackage(cfd, p);
    }

    method SendAllUsers(w: World, cfd: int)
      requires SizeOf(UsersAnswer(w)) <= INT_MAX
      modifies this`sent
      ensures sent == old(sent) + [Reply(cfd, UsersAnswer(w))]
    {
      var allUser := new S2CUserList.Copy(UserList(Head(0, S2C_USER_LIST), w.users));
      var p := allUser.Serialize();
      SendPackage(cfd, p);
    }

    method SendUserGroups(w: World, cfd: int, userId: int32)
      requires SizeOf(GroupsAnswer(w, userId)) <= INT_MAX
      modifies this`sent
      ensures sent == old(sent) + [Reply(cfd, GroupsAnswer(w, userId))]
    {
      var groupList := new S2CGroupList();
      groupList.groups := w.groups(userId);
      var p := groupList.Serialize();
      SendPackage(cfd, p);
    }

    method DataHandlerC2SLogin(w: World, cfd: int, data: array<byte>, ghost t: nat) returns (o: Outcome)
      requires AnswersFit(w) && Free(t)
      modifies this, mySqlPool
      ensures Follows(o, OnLogin(w, old(onlineUserMap), cfd, data[..]), t)
      ensures old(mySqlPool.mySqlVector) != [] ==> !o.Waiting?
    {
      hide EncodeUser, Serialized, SizeOf, DecodeUser, Pool.Run;
      var login := ReadUserAt(data, 0);
      if login.None? {
        return LeftMemory;
      }
      var mySql, got := mySqlPool.Pop(t);
      if !got {
        return Waiting;
      }
      var r := w.login(login.value);
      SendAccount(cfd, User(Head(SIZEOF_USER, S2C_LOGIN), r.userId, r.userName));
      o := Done;
      if !r.ok {
        mySqlPool.Push(mySql, t);
        return;
      }
      ClientOpen(cfd, r.userId);
      SendAllUsers(w, cfd);
      SendUserGroups(w, cfd, r.userId);
      mySqlPool.Push(mySql, t);
    }

    method DataHandlerC2SGetDataMsgList(w: World, cfd: int, data: array<byte>, ghost t: nat) returns (o: Outcome)
      requires AnswersFit(w) && Free(t)
      modifies this`sent, mySqlPool
      ensures Follows(o, OnQuery(w, old(onlineUserMap), cfd, data[..]), t)
      ensures old(mySqlPool.mySqlVector) != [] ==> !o.Waiting?
    {
      hide Serialized, SizeOf, Pool.Run;
      if data.Length < SIZEOF_GET_MSG_LIST {
        return LeftMemory;
      }
      var head := ReadHeadAt(data, 0);
      var lastMsgId := ReadIntAt(data, 8);
      var userId := ReadIntAt(data, 12);
      var query := GetMsgList(head, lastMsgId, userId);
      var mySql, got := mySqlPool.Pop(t);
      if !got {
        return Waiting;
      }
      SendStored(w, cfd, query);
      mySqlPool.Push(mySql, t);
      o := Done;
    }

    method SendStored(w: World, cfd: int, query: GetMsgList)
      requires SizeOf(StoredAnswer(w, query)) <= INT_MAX
      modifies this`sent
      ensures sent == old(sent) + [Reply(cfd, StoredAnswer(w, query))]
    {
      var msgList := new DataMsgList();
      msgList.msgs := w.stored(query);
      var p := msgList.Serialize();
      SendPackage(cfd, p);
    }

    method DataHandlerC2SDataMsg(w: World, data: array<byte>, ghost t: nat) returns (o: Outcome)
      requires RelayFits(w, data[..]) && Free(t)
      modifies this`sent, mySqlPool
      ensures Follows(o, OnChat(w, old(onlineUserMap), data[..]), t)
      ensures old(mySqlPool.mySqlVector) != [] ==> !o.Waiting?
    {
      hide Serialized, EncodeMsg, Deliveries, DecodeMsg, Pool.Run;
      var msg := new DataMsg(C2S_DATA_MSG);
      var ok, overread := msg.UnSerialize(AsWritten, data, 0);
      if !ok || overread {
        return LeftMemory;
      }
      ghost var was := msg.Value();
      msg.fixed := msg.fixed.(createdTime := w.now);
      var mySql, got := mySqlPool.Pop(t);
      if !got {
        return Waiting;
      }
      var id := w.save(Msg(msg.fixed, msg.text, msg.extend));
      msg.fixed := msg.fixed.(msgId := id);
      var users := if msg.fixed.isGroup then w.members(msg.fixed.receiver) else [msg.fixed.receiver];
      mySqlPool.Push(mySql, t);
      msg.fixed := msg.fixed.(head := msg.fixed.head.(dataType := S2C_DATA_MSG));
      assert msg.Value() == SentOn(w, was);
      assert users == Rows(w, msg.fixed);
      SendToAll(msg, users);
      o := Done;
    }

    /** The relay's loop: the message is serialised once and its bytes go to every row. */
    method SendToAll(msg: DataMsg, users: seq<int32>)
      requires MsgSize(msg.Value()) <= INT_MAX
      modifies this`sent, msg`fixed
      ensures sent == old(sent)
        + Deliveries(onlineUserMap, users, old(msg.fixed.sender), Serialized(Chat(old(msg.Value()))))
    {
      hide EncodeMsg;
      var p := msg.Serialize();
      var sender := msg.fixed.sender;
      ghost var bytes := Serialized(Chat(old(msg.Value())));
      assert sender == old(msg.fixed.sender) && p[..] == bytes;
      assert users[..0] == [];
      for i := 0 to |users|
        invariant p[..] == bytes
        invariant sent == old(sent) + Deliveries(onlineUserMap, users[..i], sender, bytes)
        modifies this`sent
      {
        assert users[..i + 1][..i] == users[..i];
        if users[i] == sender {
          continue;
        }
        var cfd := UserId2Cfd(users[i]);
        if cfd > 0 {
          SendPackage(cfd, p);
        }
      }
      assert users[..|users|] == users;
    }

    /** The gate and the dispatch: the package, whose memory data begins with its size bytes,
        has exactly the effect stated by Handled, and worker t has given back the connection
        it took; with none to take, it waits with nothing done. */
    method ThreadWork(w: World, cfd: int, data: array<byte>, size: nat, ghost t: nat) returns (o: Outcome)
      requires AnswersFit(w) && size <= data.Length && RelayFits(w, data[..]) && Free(t)
      modifies this, mySqlPool
      ensures Follows(o, Handled(w, old(onlineUserMap), cfd, data[..], size), t)
      ensures mySqlPool.workers <= mySqlPool.count ==> !o.Waiting?
    {
      hide OnLogin, Serialized, DecodeMsg, Deliveries, AnswersFit, DecodeGetMsgList, Gate, Pool.Run;
      if mySqlPool.workers <= mySqlPool.count {
        mySqlPool.NeverWaits(t);
      }
      var handler := GateOf(data, size, SERVER_TYPES);
      if handler.None? {
        return Done;
      }
      if handler.value == C2S_LOGIN {
        o := DataHandlerC2SLogin(w, cfd, data, t);
      } else if handler.value == C2S_DATA_MSG {
        o := DataHandlerC2SDataMsg(w, data, t);
      } else {
        o := DataHandlerC2SGetDataMsgList(w, cfd, data, t);
      }
    }
  }
}
