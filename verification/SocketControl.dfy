/** The server's control object over real sockets: its sections follow the steps of the
    readiness protocol and of the client table, so what holds of all runs holds of them. */
module SocketControl {
  import opened Bytes
  import opened Interest
  import opened Readiness
  import F = Framing
  import S = Socket
  import T = ClientTable

  /** Two steps and three steps in a row. */
  function Steps2(c: Client, e: Event, f: Event): Client {
    Step(Step(c, e), f)
  }

  lemma StepsReach2(c: Client, e: Event, f: Event)
    requires Reachable(c)
    ensures Reachable(Steps2(c, e, f))
  {
    hide Step;
    StepReaches(c, e);
    StepReaches(Step(c, e), f);
  }

  /** What a Send under its lock, together with its callback, comes to. */
  lemma SendSteps(c: Client, who: Who, left: nat)
    requires c.isOpen && c.holder == Free && left <= c.buffered
    requires if who == Writer then c.appended > 0 else c.sendRunning > 0
    ensures var hasData := left > 0;
      var c1 := match who
        case Writer => c.(appended := c.appended - 1)
        case SendTask => c.(sendRunning := c.sendRunning - 1, sendDone := c.sendDone + 1);
      Steps2(c, SendSection(who, left), WriteCallback) ==
        c1.(buffered := left, isWriting := hasData,
            reg := if hasData == c.isWriting then c.reg else Apply(c.reg, if hasData then AddWrite else DelWrite))
  {
    hide Apply;
  }

  /** Where the threads stand that work on one client. */
  datatype Threads = Threads(isOpen: bool, registering: bool, epoll: EpollThread, recvQueued: nat, recvRunning: nat,
                             recvDone: nat, holder: Holder, appended: nat,
                             sendQueued: nat, sendRunning: nat, sendDone: nat)

  /** One registered client: its socket, its registration, and the queued tasks that name it. */
  class ServedClient {
    const socket: S.ClientSocket
    const registration: ClientRegistration
    ghost var threads: Threads

    ghost function State(): Client
      reads this, socket, registration, registration.epoll
    {
      Client(threads.isOpen, threads.registering, registration.State(), threads.epoll,
             threads.recvQueued, threads.recvRunning, threads.recvDone,
             socket.isWriting, socket.curWriteBufSize, threads.holder, threads.appended,
             threads.sendQueued, threads.sendRunning, threads.sendDone)
    }

    ghost predicate Valid()
      reads this, socket, socket.readBuf, socket.writeBuf, registration, registration.epoll
    {
      && socket.Valid() && socket.isNonBlock && !socket.isSdk
      && registration.Valid()
      && Reachable(State())
    }

    constructor (socket: S.ClientSocket)
      requires socket.Valid() && !socket.isSdk && socket.Unsent() == [] && !socket.isWriting
      modifies socket`isNonBlock
      ensures this.socket == socket && fresh(registration) && fresh(registration.epoll)
      ensures Valid() && State() == CONNECTED
    {
      this.socket := socket;
      registration := new ClientRegistration();
      threads := Threads(true, true, Waiting, 0, 0, 0, Free, 0, 0, 0, 0);
      new;
      socket.SetNonBlock();
      assert Run([]) == CONNECTED;
    }

    /** The end of the connect callback. */
    method Connected()
      requires Valid() && State().isOpen && State().registering
      modifies this`threads, registration, registration.epoll
      ensures Valid() && State() == Step(old(State()), Register)
    {
      hide Apply, InStep;
      StepReaches(State(), Register);
      threads := threads.(registering := false);
      registration.EPollAddClientRead();
    }

    /** One round of the epoll thread: it may get an event for this client, and then calls
        Epoll4EventCallback. */
    method EpollRound() returns (got: bool, isRead: bool, isWrite: bool)
      requires Valid() && State().isOpen && State().epoll == Waiting
      modifies this`threads, registration, registration.epoll
      ensures Valid() && State().epoll == Waiting && State().isOpen
      ensures State() ==
        if got then Steps2(Step(old(State()), Report(isRead, isWrite)), HandleEvent, QueueTask) else old(State())
      ensures got ==> (if isRead then State().recvQueued > 0 else isWrite && State().sendQueued > 0)
    {
      hide Step, Reachable;
      got, isRead, isWrite := Wait();
      if got {
        Epoll4EventCallback(isRead, isWrite);
      }
    }

    /** Without an unreported event in hand the record is not silent. */
    lemma NotSpent()
      requires Valid() && State().isOpen && State().epoll == Waiting
      ensures !registration.epoll.spent
    {
      hide Run;
      var events :| Run(events) == State();
      RunKeepsInv(events);
    }

    method Wait() returns (got: bool, isRead: bool, isWrite: bool)
      requires Valid() && State().isOpen && State().epoll == Waiting
      modifies this`threads, registration.epoll`spent
      ensures Valid() && State().isOpen
      ensures State() == if got then Step(old(State()), Report(isRead, isWrite)) else old(State())
      ensures got ==> State().epoll == Got(isRead, isWrite) && (isRead || isWrite)
    {
      hide Reachable, Run;
      got, isRead, isWrite := registration.epoll.Wait();
      StepReaches(old(State()), Report(isRead, isWrite));
      if got {
        threads := threads.(epoll := Got(isRead, isWrite));
      }
    }

    /** The first half of Epoll4EventCallback for an event that was reported. */
    method Disarm(isRead: bool, isWrite: bool)
      requires Valid() && State().isOpen && State().epoll == Got(isRead, isWrite)
      modifies this`threads, registration, registration.epoll
      ensures Valid() && State() == Step(old(State()), HandleEvent) && State().isOpen
    {
      hide Apply, InStep;
      StepReaches(State(), HandleEvent);
      if isRead {
        threads := threads.(epoll := ReadOff);
        registration.EPollDelClientRead();
      } else if isWrite {
        threads := threads.(epoll := WriteOff);
        registration.EPollDelClientWrite();
      } else {
        threads := threads.(epoll := Waiting);
      }
    }

    /** The whole callback: one direction is disarmed and its task queued. */
    method Epoll4EventCallback(isRead: bool, isWrite: bool)
      requires Valid() && State().isOpen && State().epoll == Got(isRead, isWrite)
      modifies this`threads, registration, registration.epoll
      ensures Valid() && State() == Steps2(old(State()), HandleEvent, QueueTask)
      ensures State().isOpen && State().epoll == Waiting
      ensures isRead ==> State().recvQueued > 0
      ensures !isRead && isWrite ==> State().sendQueued > 0
    {
      hide Apply, InStep, Reachable;
      Disarm(isRead, isWrite);
      StepReaches(State(), QueueTask);
      if isRead {
        threads := threads.(epoll := Waiting, recvQueued := threads.recvQueued + 1);
      } else if isWrite {
        threads := threads.(epoll := Waiting, sendQueued := threads.sendQueued + 1);
      }
    }

    /** The Recv of a queued receive task: n bytes come in and are parsed with the remainder.
        The client is re-armed when the kernel would block, and closed when the kernel reported
        the end of the stream or a failure. */
    method ReceiveTask() returns (threw: bool, ghost n: nat)
      requires Valid() && State().isOpen && State().recvQueued > 0
      modifies this`threads, registration, registration.epoll, socket`curReadBufSize, socket`receipts, socket.readBuf,
               socket.incoming
      ensures n <= |old(socket.incoming.bytes)| && socket.incoming.bytes == old(socket.incoming.bytes)[n..]
      ensures var s := old(socket.Unread()) + old(socket.incoming.bytes)[..n];
        && threw == F.Parse(s).threw
        && socket.receipts == S.Count(old(socket.receipts), F.Parse(s))
        && (!threw ==> Valid() && socket.Unread() == F.Rest(s))
      ensures old(socket.incoming.recvs) < socket.incoming.recvs
      ensures !threw ==> (State().isOpen <==> S.EndsWith(socket.incoming.recvs, {S.Again}))
      ensures !threw ==> (!State().isOpen <==> S.EndsWith(socket.incoming.recvs, {S.Zero, S.Failed}))
      ensures !threw && State().isOpen ==> State() == Step(Steps2(old(State()), StartRecv, FinishRecv), RearmRead)
      ensures !threw && !State().isOpen ==> State() == Step(old(State()), Close) && IsUnregistered()
    {
      hide Step, Reachable, S.ClientSocket.Received, Run, F.Parse, F.Rest;
      StepReaches(State(), Close);
      var code;
      ghost var calls;
      code, threw, n, calls := socket.Recv();
      if threw {
        return;
      }
      if code == S.SOCKET_CLOSE {
        CloseAndDelete();
      } else {
        RearmReading();
      }
    }

    /** What follows a Recv that did not close the client. */
    method RearmReading()
      requires Valid() && State().isOpen && State().recvQueued > 0
      modifies this`threads, registration, registration.epoll
      ensures Valid() && State() == Step(Steps2(old(State()), StartRecv, FinishRecv), RearmRead) && State().isOpen
    {
      hide Apply, InStep, Reachable, Run;
      StepsReach2(State(), StartRecv, FinishRecv);
      StepReaches(Steps2(State(), StartRecv, FinishRecv), RearmRead);
      threads := threads.(recvQueued := threads.recvQueued - 1);
      registration.EPollAddClientRead();
    }

    /** Client4WriteCallback. */
    method WriteDataCallback(hasData: bool)
      requires registration.Valid()
      modifies registration, registration.epoll
      ensures registration.Valid()
      ensures registration.State() == Apply(old(registration.State()), if hasData then AddWrite else DelWrite)
    {
      if hasData {
        registration.EPollAddClientWrite();
      } else {
        registration.EPollDelClientWrite();
      }
    }

    /** Both flags are down and epoll has no record of the client. */
    predicate IsUnregistered()
      reads registration, registration.epoll
    {
      !registration.cfdIsRead && !registration.cfdIsWrite && registration.epoll.kernel == None
    }

    /** EPollDelClient for a client being closed. */
    method CloseAndDelete()
      requires registration.Valid() && State().isOpen
      modifies this`threads, registration, registration.epoll
      ensures registration.Valid() && State() == Step(old(State()), Close) && !State().isOpen
      ensures IsUnregistered()
    {
      hide InStep;
      threads := threads.(isOpen := false);
      registration.EPollDelClient();
    }

    /** The kernel has taken the first n of the bytes that were buffered; the others still are. */
    ghost predicate TakenByKernel(unsent: seq<byte>, wire: seq<byte>, n: nat)
      reads socket, socket.writeBuf, socket.outgoing
    {
      && socket.curWriteBufSize <= socket.writeBuf.Length
      && n <= |unsent| && socket.Unsent() == unsent[n..] && socket.outgoing.bytes == wire + unsent[..n]
    }

    /** A Send that went well has emptied the buffer or met a kernel that would block; one that
        did not has met the end of the connection or a failure. */
    ghost predicate Answered(well: bool)
      reads socket, socket.writeBuf, socket.outgoing
    {
      && socket.curWriteBufSize <= socket.writeBuf.Length
      && if well then socket.Unsent() == [] || S.EndsWith(socket.outgoing.sends, {S.Again})
         else S.EndsWith(socket.outgoing.sends, {S.Zero, S.Failed})
    }

    /** Send under its lock, and the write callback it makes while it holds it. After a failure
        only the buffer has changed. */
    method SendLocked(ghost who: Who) returns (code: int, ghost n: nat)
      requires Valid() && State().isOpen && State().holder == Free
      requires if who == Writer then State().appended > 0 else State().sendRunning > 0
      modifies this`threads, registration, registration.epoll
      modifies socket`curWriteBufSize, socket`isWriting, socket`cfdIsWrite, socket`writeCallbacks, socket.writeBuf,
               socket.outgoing
      ensures code == 0 || code == S.SOCKET_CLOSE
      ensures code == 0 ==>
        && Valid() && State() == Steps2(old(State()), SendSection(who, socket.curWriteBufSize), WriteCallback)
        && State().isOpen && (who == Readiness.SendTask ==> State().sendDone > 0)
      ensures code != 0 ==> registration.Valid() && State() == old(State()).(buffered := socket.curWriteBufSize)
      ensures TakenByKernel(old(socket.Unsent()), old(socket.outgoing.bytes), n) && Answered(code == 0)
    {
      hide InStep, Reachable, Step, Apply, Run;
      ghost var c := State();
      var before := socket.isWriting;
      code, n := socket.Send();
      if code == 0 {
        ReportSent(c, who, before);
      }
    }

    /** The end of Send: the callback on a change of the flag. */
    method ReportSent(ghost c: Client, ghost who: Who, before: bool)
      requires socket.Valid() && socket.isNonBlock && !socket.isSdk && registration.Valid() && Reachable(c)
      requires c.isOpen && c.holder == Free && (if who == Writer then c.appended > 0 else c.sendRunning > 0)
      requires before == c.isWriting && socket.isWriting == (socket.curWriteBufSize > 0)
      requires State() == c.(buffered := socket.curWriteBufSize, isWriting := socket.isWriting)
      requires socket.curWriteBufSize <= c.buffered
      modifies this`threads, registration, registration.epoll
      ensures Valid() && State() == Steps2(c, SendSection(who, socket.curWriteBufSize), WriteCallback)
      ensures State().isOpen && (who == Readiness.SendTask ==> State().sendDone > 0)
    {
      hide InStep, Reachable, Step, Apply, Run, S.ClientSocket.Valid;
      StepsReach2(c, SendSection(who, socket.curWriteBufSize), WriteCallback);
      SendSteps(c, who, socket.curWriteBufSize);
      threads := if who == Writer then threads.(appended := threads.appended - 1)
                 else threads.(sendRunning := threads.sendRunning - 1, sendDone := threads.sendDone + 1);
      if socket.isWriting != before {
        WriteDataCallback(socket.isWriting);
      }
    }

    /** A queued send task, alone. It ends re-armed, or with the client closed. */
    method SendTask() returns (ghost n: nat)
      requires Valid() && State().isOpen && State().holder == Free && State().sendQueued > 0
      modifies this`threads, registration, registration.epoll
      modifies socket`curWriteBufSize, socket`isWriting, socket`cfdIsWrite, socket`writeCallbacks, socket.writeBuf,
               socket.outgoing
      ensures State().isOpen ==>
        && Valid()
        && var sent := SendSection(Readiness.SendTask, socket.curWriteBufSize);
        State() == Step(Steps2(Step(old(State()), StartSend), sent, WriteCallback), RearmWrite)
      ensures !State().isOpen ==>
        State() == Step(Step(old(State()), StartSend).(buffered := socket.curWriteBufSize), Close) && IsUnregistered()
      ensures TakenByKernel(old(socket.Unsent()), old(socket.outgoing.bytes), n) && Answered(State().isOpen)
    {
      hide Step, Reachable, Run;
      StartSending();
      var code;
      code, n := SendLocked(Readiness.SendTask);
      if code == S.SOCKET_CLOSE {
        CloseAndDelete();
        return;
      }
      RearmWriting();
    }

    /** The task SendPackage queues: Write, and the close should it fail. */
    method WriteTask(frame: array<byte>) returns (accepted: bool, ghost n: nat)
      requires Valid() && State().isOpen && State().holder == Free
      requires frame != socket.writeBuf && frame != socket.readBuf && frame.Length > 0
      modifies this`threads, registration, registration.epoll
      modifies socket`curWriteBufSize, socket`isWriting, socket`cfdIsWrite, socket`writeCallbacks, socket.writeBuf,
               socket.outgoing
      ensures accepted <==> frame.Length <= F.BUFFER_SIZE - |old(socket.Unsent())|
      ensures !accepted ==> Valid() && State() == old(State())
      ensures var all := old(socket.Unsent()) + if accepted then old(frame[..]) else [];
        TakenByKernel(all, old(socket.outgoing.bytes), n) && (accepted ==> Answered(State().isOpen))
      ensures accepted && State().isOpen ==>
        && Valid()
        && var sent := SendSection(Writer, socket.curWriteBufSize);
        State() == Steps2(Step(old(State()), Event.Append(frame.Length)), sent, WriteCallback)
      ensures accepted && !State().isOpen ==>
        && State() == Step(Step(old(State()), Event.Append(frame.Length)).(buffered := socket.curWriteBufSize), Close)
        && IsUnregistered()
    {
      hide Step, Reachable, Run;
      n := 0;
      accepted := Append(frame);
      if !accepted {
        return;
      }
      var code;
      code, n := SendLocked(Writer);
      if code == S.SOCKET_CLOSE {
        CloseAndDelete();
      }
    }

    method StartSending()
      requires Valid() && State().isOpen && State().sendQueued > 0
      modifies this`threads
      ensures Valid() && State() == Step(old(State()), StartSend)
      ensures State().isOpen && State().sendRunning > 0 && State().holder == old(State()).holder
    {
      hide Reachable, Run, InStep;
      StepReaches(State(), StartSend);
      threads := threads.(sendQueued := threads.sendQueued - 1, sendRunning := threads.sendRunning + 1);
    }

    /** What follows a Send that did not close the client. */
    method RearmWriting()
      requires Valid() && State().isOpen && State().sendDone > 0
      modifies this`threads, registration, registration.epoll
      ensures Valid() && State() == Step(old(State()), RearmWrite) && State().isOpen
    {
      hide Reachable, Run, InStep, Apply;
      StepReaches(State(), RearmWrite);
      threads := threads.(sendDone := threads.sendDone - 1);
      registration.EPollAddClientWrite();
    }

    /** The append half of Write: a writer that got its frame in goes on to Send. */
    method Append(frame: array<byte>) returns (accepted: bool)
      requires Valid() && State().isOpen && State().holder == Free
      requires frame != socket.writeBuf && frame != socket.readBuf && frame.Length > 0
      modifies this`threads, socket`curWriteBufSize, socket.writeBuf
      ensures Valid()
      ensures State() == if accepted then Step(old(State()), Event.Append(frame.Length)) else old(State())
      ensures State().isOpen && State().holder == Free && (accepted ==> State().appended > 0)
      ensures accepted <==> frame.Length <= F.BUFFER_SIZE - |old(socket.Unsent())|
      ensures socket.Unsent() == old(socket.Unsent()) + if accepted then frame[..] else []
    {
      hide InStep, Reachable, Run;
      StepReaches(State(), Event.Append(frame.Length));
      accepted := socket.Append(frame);
      if accepted {
        assert |socket.Unsent()| == |old(socket.Unsent())| + frame.Length;
        threads := threads.(appended := threads.appended + 1);
      }
    }

    /** When no thread is at work on an open, registered client, bytes left in the write
        buffer are there with write interest recorded in the kernel, and read interest is
        recorded too. */
    lemma QuietClientIsArmed()
      requires Valid() && State().isOpen && !State().registering
      requires threads.epoll == Waiting && threads.holder == Free && threads.appended == 0
      requires threads.recvQueued + threads.recvRunning + threads.recvDone == 0
      requires threads.sendQueued + threads.sendRunning + threads.sendDone == 0
      ensures registration.epoll.kernel.Some? && registration.epoll.kernel.value.isIn
      ensures socket.Unsent() != [] ==> registration.epoll.kernel.value.isOut && !registration.epoll.spent
    {
      hide Run;
      var events :| Run(events) == State();
      ReadingExclusive(events);
      QuietOutputIsArmed(events);
      RunKeepsInv(events);
    }
  }

  /** The table of connected clients with its counter and its state callback. */
  class ClientFds {
    var clientFdMap: map<T.Fd, nat>
    var clientSocketCount: int
    var openNotices: multiset<nat>
    var closeNotices: multiset<nat>
    ghost var conns: seq<T.Conn>
    ghost var events: seq<T.Event>

    ghost function State(): T.State
      reads this
    {
      T.State(conns, clientFdMap, clientSocketCount, openNotices, closeNotices)
    }

    ghost predicate Valid()
      reads this
    {
      State() == T.Run(events)
    }

    constructor ()
      ensures Valid() && events == []
    {
      clientFdMap, clientSocketCount := map[], 0;
      openNotices, closeNotices := multiset{}, multiset{};
      conns, events := [], [];
    }

    /** The connect callback, section by section, for connection number i. */
    method Insert(fd: T.Fd, i: nat)
      requires Valid() && T.Enabled(State(), T.Accept(fd)) && i == |conns|
      modifies this
      ensures Valid() && events == old(events) + [T.Accept(fd)]
      ensures clientFdMap == old(clientFdMap)[fd := i] && fd !in old(clientFdMap)
    {
      T.InsertSucceeds(events, fd);
      Log(T.Accept(fd));
      conns := conns + [T.Conn(fd, T.Inserted, T.None)];
      if fd !in clientFdMap {
        clientFdMap := clientFdMap[fd := i];
      }
    }

    method CountUp(i: nat)
      requires Valid() && T.Enabled(State(), T.CountUp(i))
      modifies this
      ensures Valid() && events == old(events) + [T.CountUp(i)] && clientSocketCount == old(clientSocketCount) + 1
    {
      Log(T.CountUp(i));
      conns := conns[i := conns[i].(opening := T.Counted)];
      clientSocketCount := clientSocketCount + 1;
    }

    method NoticeOpen(i: nat)
      requires Valid() && T.Enabled(State(), T.NoticeOpen(i))
      modifies this
      ensures Valid() && events == old(events) + [T.NoticeOpen(i)] && openNotices == old(openNotices) + multiset{i}
    {
      Log(T.NoticeOpen(i));
      conns := conns[i := conns[i].(opening := T.Opened)];
      openNotices := openNotices + multiset{i};
    }

    /** ClientSocketCloseAndDelete by one of any number of closers: only the one whose erase
        takes the entry goes on, and gives the notice. */
    method CloseAndDelete(fd: T.Fd) returns (won: bool)
      requires Valid()
      modifies this
      ensures Valid() && won == (fd in old(clientFdMap))
      ensures clientFdMap == old(clientFdMap) - {fd}
      ensures closeNotices == old(closeNotices) + if won then multiset{old(clientFdMap[fd])} else multiset{}
      ensures clientSocketCount == old(clientSocketCount) - if won then 1 else 0
    {
      hide T.Run, T.Step, T.Enabled;
      if fd !in clientFdMap {
        assert clientFdMap - {fd} == clientFdMap;
        return false;
      }
      EntryIsLive(fd);
      var i := clientFdMap[fd];
      Erase(fd, i);
      Finish(i);
      won := true;
    }

    /** What the winner does after its erase. */
    method Finish(i: nat)
      requires Valid() && i < |conns| && conns[i].closing == T.Erased
      modifies this
      ensures Valid() && clientFdMap == old(clientFdMap)
      ensures closeNotices == old(closeNotices) + multiset{i}
      ensures clientSocketCount == old(clientSocketCount) - 1
    {
      hide T.Run, T.Step, T.Enabled;
      Progress(i, T.Unregister(i), T.Unregistered);
      Progress(i, T.CountDown(i), T.Uncounted);
      Progress(i, T.NoticeClosed(i), T.Closed);
      Progress(i, T.Delete(i), T.Deleted);
    }

    lemma EntryIsLive(fd: T.Fd)
      requires Valid() && fd in clientFdMap
      ensures clientFdMap[fd] < |conns|
    {
      hide T.Run, T.Step;
      T.RunKeepsInv(events);
    }

    method Erase(fd: T.Fd, i: nat)
      requires Valid() && fd in clientFdMap && clientFdMap[fd] == i < |conns|
      modifies this`clientFdMap, this`conns, this`events
      ensures Valid() && clientFdMap == old(clientFdMap) - {fd}
      ensures i < |conns| && conns[i].closing == T.Erased
    {
      Log(T.Close(fd));
      conns := conns[i := conns[i].(closing := T.Erased)];
      clientFdMap := clientFdMap - {fd};
    }

    /** One later step of the closer that won. */
    method Progress(i: nat, e: T.Event, to: T.Closing)
      requires Valid() && i < |conns|
      requires match conns[i].closing
        case Erased => e == T.Unregister(i) && to == T.Unregistered
        case Unregistered => e == T.CountDown(i) && to == T.Uncounted
        case Uncounted => e == T.NoticeClosed(i) && to == T.Closed
        case Closed => e == T.Delete(i) && to == T.Deleted
        case _ => false
      modifies this
      ensures Valid() && clientFdMap == old(clientFdMap) && openNotices == old(openNotices)
      ensures i < |conns| && conns[i].closing == to
      ensures closeNotices == old(closeNotices) + if to == T.Closed then multiset{i} else multiset{}
      ensures clientSocketCount == old(clientSocketCount) - if to == T.Uncounted then 1 else 0
    {
      Log(e);
      conns := conns[i := conns[i].(closing := to)];
      if to == T.Uncounted {
        clientSocketCount := clientSocketCount - 1;
      } else if to == T.Closed {
        closeNotices := closeNotices + multiset{i};
      }
    }

    ghost method Log(e: T.Event)
      modifies this`events
      ensures events == old(events) + [e]
      ensures T.Run(events) == T.Step(T.Run(old(events)), e)
    {
      assert (events + [e])[..|events|] == events;
      events := events + [e];
    }
  }
}
