/** The server's readiness protocol for one registered client: the epoll thread, receive and
    send tasks and any number of writers, interleaved at their lock sections. */
module Readiness {
  import opened Counting
  import opened Bytes
  import opened Interest

  datatype Who = Writer | SendTask

  /** m_MutexWrite: free, or kept by a Send that is in its write callback. */
  datatype Holder = Free | Calling(hasData: bool, who: Who)

  /** The epoll thread, as far as this client is concerned: Got is an event returned by
      epoll_wait and not yet acted on, ReadOff and WriteOff a disarmed direction whose task
      is not yet queued. */
  datatype EpollThread = Waiting | Got(isRead: bool, isWrite: bool) | ReadOff | WriteOff

  /** registering: connected, first read interest not yet armed.
      buffered: bytes in the write buffer.
      appended: writers between their append and their Send.
      recv..., send...: tasks queued, in their socket call, and before their re-arm. */
  datatype Client = Client(
    isOpen: bool, registering: bool, reg: Registration, epoll: EpollThread,
    recvQueued: nat, recvRunning: nat, recvDone: nat,
    isWriting: bool, buffered: nat, holder: Holder, appended: nat,
    sendQueued: nat, sendRunning: nat, sendDone: nat)

  const CONNECTED :=
    Client(true, true, UNREGISTERED, Waiting, 0, 0, 0, false, 0, Free, 0, 0, 0, 0)

  datatype Event =
    | Register
    | Report(isRead: bool, isWrite: bool)
    | HandleEvent
    | QueueTask
    | StartRecv
    | FinishRecv
    | RearmRead
    | Append(size: nat)
    | StartSend
    | SendSection(who: Who, left: nat)
    | WriteCallback
    | RearmWrite
    | Close

  /** One atomic section; an event that is not possible changes nothing. Register to Append,
      StartSend and RearmWrite follow the bodies of the tasks and of Epoll4EventCallback;
      SendSection is Send under its lock, leaving the given number of bytes. */
  function Step(c: Client, e: Event): Client {
    if !c.isOpen then c
    else match e
      case Register =>
        if c.registering then c.(registering := false, reg := Apply(c.reg, AddRead)) else c
      case Report(isRead, isWrite) =>
        if c.epoll == Waiting && c.reg.kernel.Some? && (isRead || isWrite)
           && (isRead ==> c.reg.kernel.value.isIn) && (isWrite ==> c.reg.kernel.value.isOut)
        then c.(epoll := Got(isRead, isWrite), reg := c.reg.(spent := true)) else c
      case HandleEvent =>
        if !c.epoll.Got? then c
        else if c.epoll.isRead then c.(reg := Apply(c.reg, DelRead), epoll := ReadOff)
        else if c.epoll.isWrite then c.(reg := Apply(c.reg, DelWrite), epoll := WriteOff)
        else c.(epoll := Waiting)
      case QueueTask =>
        if c.epoll == ReadOff then c.(epoll := Waiting, recvQueued := c.recvQueued + 1)
        else if c.epoll == WriteOff then c.(epoll := Waiting, sendQueued := c.sendQueued + 1)
        else c
      case StartRecv =>
        if c.recvQueued > 0 then c.(recvQueued := c.recvQueued - 1, recvRunning := c.recvRunning + 1) else c
      case FinishRecv =>
        if c.recvRunning > 0 then c.(recvRunning := c.recvRunning - 1, recvDone := c.recvDone + 1) else c
      case RearmRead =>
        if c.recvDone > 0 then c.(recvDone := c.recvDone - 1, reg := Apply(c.reg, AddRead)) else c
      case Append(size) =>
        if c.holder == Free && size > 0 then c.(buffered := c.buffered + size, appended := c.appended + 1) else c
      case StartSend =>
        if c.sendQueued > 0 then c.(sendQueued := c.sendQueued - 1, sendRunning := c.sendRunning + 1) else c
      case SendSection(who, left) =>
        if c.holder != Free || left > c.buffered || (who == Writer && c.appended == 0)
           || (who == SendTask && c.sendRunning == 0)
        then c
        else
          var c1 := match who
            case Writer => c.(buffered := left, appended := c.appended - 1)
            case SendTask => c.(buffered := left, sendRunning := c.sendRunning - 1);
          var hasData := left > 0;
          if c.isWriting != hasData then c1.(isWriting := hasData, holder := Calling(hasData, who))
          else Sent(c1, who)
      case WriteCallback =>
        if c.holder == Free then c
        else
          Sent(c.(reg := Apply(c.reg, if c.holder.hasData then AddWrite else DelWrite), holder := Free), c.holder.who)
      case RearmWrite =>
        if c.sendDone > 0 then c.(sendDone := c.sendDone - 1, reg := Apply(c.reg, AddWrite)) else c
      case Close =>
        c.(isOpen := false, reg := Apply(c.reg, DelClient))
  }

  /** A finished Send leaves a write task about to re-arm and a writer done. */
  function Sent(c: Client, who: Who): Client {
    if who == SendTask then c.(sendDone := c.sendDone + 1) else c
  }

  function Run(events: seq<Event>): Client {
    if events == [] then CONNECTED else Step(Run(events[..|events| - 1]), events[|events| - 1])
  }

  /** Everything that stands for "reading will go on": exactly one of these at any time. */
  function ReadTokens(c: Client): nat {
    One(c.registering) + One(c.reg.read) + One(c.epoll == ReadOff) + c.recvQueued + c.recvRunning + c.recvDone
  }

  predicate SendInFlight(c: Client) {
    c.epoll == WriteOff || c.sendQueued + c.sendRunning + c.sendDone > 0
  }

  predicate RegistrationInv(c: Client) {
    && InStep(c.reg)
    && (c.reg.spent ==> c.epoll.Got? && (c.epoll.isRead ==> c.reg.read) && (c.epoll.isWrite ==> c.reg.write))
    && (c.epoll.Got? ==> c.epoll.isRead || c.epoll.isWrite)
  }

  predicate ReadInv(c: Client) {
    && ReadTokens(c) == 1
    && (c.epoll.Got? && c.epoll.isRead ==> c.reg.read)
  }

  predicate WriteInv(c: Client) {
    && (c.isWriting ==> c.buffered > 0)
    && (c.buffered > 0 ==> c.isWriting || c.appended > 0)
    && (c.holder.Calling? ==> c.holder.hasData == c.isWriting)
    && (c.isWriting ==> c.reg.write || c.holder.Calling? || SendInFlight(c))
  }

  lemma ApplyFacts(r: Registration, op: Op)
    requires InStep(r)
    ensures var a := Apply(r, op);
      && InStep(a) && (a.spent ==> a == r)
      && a.read == (if op == AddRead then true else if op == DelRead || op == DelClient then false else r.read)
      && a.write == (if op == AddWrite then true else if op == DelWrite || op == DelClient then false else r.write)
  {
  }

  /** The events of sending, which leave read interest and the event thread alone. */
  predicate OfSending(e: Event) {
    e.Append? || e.StartSend? || e.SendSection? || e.WriteCallback? || e.RearmWrite?
  }

  lemma SendingKeeps(c: Client, e: Event)
    requires c.isOpen && RegistrationInv(c) && ReadInv(c) && OfSending(e)
    ensures var d := Step(c, e);
      && d.reg.read == c.reg.read && d.epoll == c.epoll && d.registering == c.registering
      && ReadTokens(d) == ReadTokens(c)
      && InStep(d.reg) && (d.reg.spent ==> d.reg == c.reg)
  {
    hide Apply, InStep;
    ApplyFacts(c.reg, AddWrite);
    ApplyFacts(c.reg, DelWrite);
  }

  lemma StepKeepsRegistration(c: Client, e: Event)
    requires c.isOpen && RegistrationInv(c) && ReadInv(c)
    ensures Step(c, e).isOpen ==> RegistrationInv(Step(c, e))
  {
    if OfSending(e) {
      hide Step, InStep, ReadTokens;
      SendingKeeps(c, e);
    }
  }

  lemma StepKeepsReading(c: Client, e: Event)
    requires c.isOpen && RegistrationInv(c) && ReadInv(c)
    ensures Step(c, e).isOpen ==> ReadInv(Step(c, e))
  {
    if OfSending(e) {
      hide Step, InStep;
      SendingKeeps(c, e);
    }
  }

  lemma StepKeepsWriting(c: Client, e: Event)
    requires c.isOpen && WriteInv(c)
    ensures Step(c, e).isOpen ==> WriteInv(Step(c, e))
  {
  }

  lemma {:induction false} RunKeepsInv(events: seq<Event>)
    ensures Run(events).isOpen ==> RegistrationInv(Run(events)) && ReadInv(Run(events)) && WriteInv(Run(events))
  {
    if events != [] {
      var before, e := Run(events[..|events| - 1]), events[|events| - 1];
      RunKeepsInv(events[..|events| - 1]);
      if before.isOpen {
        StepKeepsRegistration(before, e);
        StepKeepsReading(before, e);
        StepKeepsWriting(before, e);
      }
    }
  }

  /** In every reachable state of an open client that has been registered, read interest is
      armed or else exactly one receive task is on its way, queued, receiving or about to
      re-arm, and never both. */
  lemma ReadingExclusive(events: seq<Event>)
    requires Run(events).isOpen && !Run(events).registering
    ensures var c := Run(events);
      var tasks := One(c.epoll == ReadOff) + c.recvQueued + c.recvRunning + c.recvDone;
      && (c.reg.read <==> tasks == 0)
      && tasks <= 1
      && c.recvRunning <= 1
  {
    RunKeepsInv(events);
  }

  /** No output is stranded: buffered bytes have the writing flag up or a writer about to
      send, and the writing flag up means that write interest is armed and will be reported,
      is about to be armed, or that a send task is on its way. */
  lemma NoStrandedOutput(events: seq<Event>)
    requires Run(events).isOpen
    ensures var c := Run(events);
      && (c.buffered > 0 ==> c.isWriting || c.appended > 0)
      && (c.isWriting ==>
            || (c.reg.write && c.reg.kernel.Some? && c.reg.kernel.value.isOut && (c.reg.spent ==> c.epoll.Got?))
            || (c.holder.Calling? && c.holder.hasData)
            || SendInFlight(c))
  {
    RunKeepsInv(events);
  }

  /** With no writer, callback, task or event in between, unsent bytes and armed, unspent
      write interest go together with the flag. */
  lemma QuietOutputIsArmed(events: seq<Event>)
    requires var c := Run(events);
      c.isOpen && c.holder == Free && c.appended == 0 && !SendInFlight(c) && c.epoll == Waiting
    ensures var c := Run(events);
      && (c.buffered > 0 <==> c.isWriting)
      && (c.buffered > 0 ==> c.reg.kernel == Some(Mask(c.reg.read, true, true)) && !c.reg.spent)
  {
    RunKeepsInv(events);
  }

  /** A client that has been closed is off the epoll record, with both flags down, and stays so. */
  lemma {:induction false} ClosedIsUnregistered(events: seq<Event>)
    requires !Run(events).isOpen
    ensures var r := Run(events).reg; !r.read && !r.write && r.kernel == None && !r.spent
  {
    if events != [] {
      var before, e := Run(events[..|events| - 1]), events[|events| - 1];
      if before.isOpen {
        OnlyCloseCloses(before, e);
      } else {
        ClosedIsUnregistered(events[..|events| - 1]);
        ClosedStays(before, e);
      }
    }
  }

  lemma OnlyCloseCloses(c: Client, e: Event)
    requires c.isOpen
    ensures Step(c, e).isOpen <==> e != Close
    ensures e == Close ==> Step(c, e).reg == Registration(false, false, None, false)
  {
  }

  lemma ClosedStays(c: Client, e: Event)
    requires !c.isOpen
    ensures Step(c, e) == c
  {
  }

  // When armed write interest means pending data.

  /** An operation on write interest, by the write callback, by the event thread, or by a send
      task's re-arm, with the flag as that found it. */
  datatype WriteOp = Never | ByCallback | ByEvent | ByRearm(isWriting: bool)

  /** The operation on write interest that e is in state c, whether or not it changes anything. */
  function OpOf(c: Client, e: Event): Option<WriteOp> {
    if !c.isOpen then None
    else match e
      case WriteCallback => if c.holder.Calling? then Some(ByCallback) else None
      case HandleEvent => if c.epoll.Got? && !c.epoll.isRead && c.epoll.isWrite then Some(ByEvent) else None
      case RearmWrite => if c.sendDone > 0 then Some(ByRearm(c.isWriting)) else None
      case _ => None
  }

  function LastWriteOp(events: seq<Event>): WriteOp {
    if events == [] then Never
    else
      var op := OpOf(Run(events[..|events| - 1]), events[|events| - 1]);
      if op.Some? then op.value else LastWriteOp(events[..|events| - 1])
  }

  predicate LastOpInv(c: Client, op: WriteOp) {
    && (op == ByRearm(false) ==> c.reg.write && (c.isWriting ==> c.holder.Calling?))
    && (c.reg.write && !c.isWriting && op != ByRearm(false) ==> c.holder.Calling?)
  }

  lemma StepKeepsLastOp(c: Client, e: Event, op: WriteOp)
    requires c.isOpen && WriteInv(c) && LastOpInv(c, op)
    ensures Step(c, e).isOpen ==> LastOpInv(Step(c, e), if OpOf(c, e).Some? then OpOf(c, e).value else op)
  {
    hide WriteInv;
    match e
    case SendSection(_, _) =>
    case WriteCallback => CallbackMatches(c);
    case _ =>
  }

  lemma CallbackMatches(c: Client)
    requires WriteInv(c)
    ensures c.holder.Calling? ==> c.holder.hasData == c.isWriting
  {
  }

  lemma {:induction false} RunKeepsLastOp(events: seq<Event>)
    ensures Run(events).isOpen ==> LastOpInv(Run(events), LastWriteOp(events))
  {
    hide LastOpInv, Step, OpOf, WriteInv, RegistrationInv, ReadInv;
    if events == [] {
      StartLastOp();
    } else {
      var earlier, e := events[..|events| - 1], events[|events| - 1];
      RunKeepsLastOp(earlier);
      RunKeepsInv(earlier);
      if Run(earlier).isOpen {
        StepKeepsLastOp(Run(earlier), e, LastWriteOp(earlier));
      } else {
        ClosedStays(Run(earlier), e);
      }
    }
  }

  lemma StartLastOp()
    ensures LastOpInv(CONNECTED, Never)
  {
  }

  /** In every reachable state of an open client in which no Send is in its callback, write
      interest is armed with the flag down exactly when the last operation on it was a send
      task's re-arm that found the flag down. */
  lemma IdleArmedIff(events: seq<Event>)
    requires Run(events).isOpen && Run(events).holder == Free
    ensures var c := Run(events);
      c.reg.write && !c.isWriting <==> LastWriteOp(events) == ByRearm(false)
  {
    RunKeepsLastOp(events);
  }

  /** So with no thread at work, armed write interest and pending data go together unless the
      last operation was such a re-arm, and then nothing is pending. */
  lemma ArmedMeansPendingIff(events: seq<Event>)
    requires var c := Run(events);
      c.isOpen && c.holder == Free && c.appended == 0 && !SendInFlight(c) && c.epoll == Waiting
    ensures var c := Run(events);
      (c.reg.write <==> c.buffered > 0) <==> LastWriteOp(events) != ByRearm(false)
  {
    hide Run, LastWriteOp;
    QuietOutputIsArmed(events);
    IdleArmedIff(events);
    RunKeepsInv(events);
  }

  lemma {:induction false} NoRearmNoOp(events: seq<Event>)
    requires RearmWrite !in events
    ensures !LastWriteOp(events).ByRearm?
  {
    if events != [] {
      NoRearmNoOp(events[..|events| - 1]);
    }
  }

  /** Without the send tasks' re-arm the equivalence would hold in every quiet state. */
  lemma WithoutRearmExact(events: seq<Event>)
    requires RearmWrite !in events
    requires var c := Run(events);
      c.isOpen && c.holder == Free && c.appended == 0 && !SendInFlight(c) && c.epoll == Waiting
    ensures Run(events).reg.write <==> Run(events).buffered > 0
  {
    NoRearmNoOp(events);
    ArmedMeansPendingIff(events);
  }

  ghost predicate Reachable(c: Client) {
    exists events :: Run(events) == c
  }

  lemma StepReaches(c: Client, e: Event)
    requires Reachable(c)
    ensures Reachable(Step(c, e))
  {
    var events :| Run(events) == c;
    assert (events + [e])[..|events|] == events;
    assert Run(events + [e]) == Step(c, e);
  }

  const READING := Registration(true, false, Some(Mask(true, false, true)), false)
  const BOTH := Registration(true, true, Some(Mask(true, true, true)), false)
  const REPORTED := Registration(true, true, Some(Mask(true, true, true)), true)

  /** A registered client with no receive task. */
  function Sending(reg: Registration, epoll: EpollThread, isWriting: bool, buffered: nat, holder: Holder, appended: nat,
                   queued: nat, running: nat, done: nat): Client
  {
    Client(true, false, reg, epoll, 0, 0, 0, isWriting, buffered, holder, appended, queued, running, done)
  }

  const READY := Sending(READING, Waiting, false, 0, Free, 0, 0, 0, 0)
  const APPENDED := Sending(READING, Waiting, false, 1, Free, 1, 0, 0, 0)
  const BLOCKED := Sending(READING, Waiting, true, 1, Calling(true, Writer), 0, 0, 0, 0)
  const FLAG_UP := Sending(BOTH, Waiting, true, 1, Free, 0, 0, 0, 0)
  const WRITABLE := Sending(REPORTED, Got(false, true), true, 1, Free, 0, 0, 0, 0)
  const DISARMED := Sending(READING, WriteOff, true, 1, Free, 0, 0, 0, 0)
  const TASK_QUEUED := Sending(READING, Waiting, true, 1, Free, 0, 1, 0, 0)
  const TASK_RUNNING := Sending(READING, Waiting, true, 1, Free, 0, 0, 1, 0)
  const DRAINED := Sending(READING, Waiting, false, 0, Calling(false, SendTask), 0, 0, 0, 0)
  const TASK_DONE := Sending(READING, Waiting, false, 0, Free, 0, 0, 0, 1)
  const IDLE_ARMED := Sending(BOTH, Waiting, false, 0, Free, 0, 0, 0, 0)

  lemma WriterSteps()
    ensures Step(CONNECTED, Register) == READY
    ensures Step(READY, Append(1)) == APPENDED
    ensures Step(APPENDED, SendSection(Writer, 1)) == BLOCKED
    ensures Step(BLOCKED, WriteCallback) == FLAG_UP
    ensures Step(FLAG_UP, Report(false, true)) == WRITABLE
  {
  }

  lemma EventSteps()
    ensures Step(WRITABLE, HandleEvent) == DISARMED
    ensures Step(DISARMED, QueueTask) == TASK_QUEUED
    ensures Step(TASK_QUEUED, StartSend) == TASK_RUNNING
  {
  }

  lemma TaskSteps()
    ensures Step(TASK_RUNNING, SendSection(SendTask, 0)) == DRAINED
  {
  }

  lemma CallbackStep()
    ensures Step(DRAINED, WriteCallback) == TASK_DONE
  {
  }

  lemma RearmStep()
    ensures Step(TASK_DONE, RearmWrite) == IDLE_ARMED
  {
  }

  /** Armed write interest does not mean that data is pending: a send task re-arms it even
      after it has emptied the buffer. */
  lemma IdleWriterStaysArmed()
    ensures Reachable(IDLE_ARMED)
    ensures IDLE_ARMED.isOpen && IDLE_ARMED.reg.write && IDLE_ARMED.buffered == 0 && !IDLE_ARMED.isWriting
  {
    hide Step;
    assert Run([]) == CONNECTED;
    WriterSteps();
    EventSteps();
    TaskSteps();
    CallbackStep();
    RearmStep();
    StepReaches(CONNECTED, Register);
    StepReaches(READY, Append(1));
    StepReaches(APPENDED, SendSection(Writer, 1));
    StepReaches(BLOCKED, WriteCallback);
    StepReaches(FLAG_UP, Report(false, true));
    StepReaches(WRITABLE, HandleEvent);
    StepReaches(DISARMED, QueueTask);
    StepReaches(TASK_QUEUED, StartSend);
    StepReaches(TASK_RUNNING, SendSection(SendTask, 0));
    StepReaches(DRAINED, WriteCallback);
    StepReaches(TASK_DONE, RearmWrite);
  }
}
