/** The table of connected clients, its counter, and the open and close notices, under any
    interleaving of connects and competing closes. */
module ClientTable {
  import opened Counting

  type Fd = int

  /** Progress of the connect callback. */
  datatype Opening = Inserted | Counted | Opened

  /** Progress of the closer that won the erase, if any; Deleted closes the descriptor. */
  datatype Closing = None | Erased | Unregistered | Uncounted | Closed | Deleted

  datatype Conn = Conn(fd: Fd, opening: Opening, closing: Closing)

  /** conns: every connection ever accepted. table: m_ClientFdMap, from descriptor to the
      position of its connection. openNotices, closeNotices: notices given so far, by connection. */
  datatype State = State(conns: seq<Conn>, table: map<Fd, nat>, counter: int,
                         openNotices: multiset<nat>, closeNotices: multiset<nat>)

  const START := State([], map[], 0, multiset{}, multiset{})

  /** Close is one closer's locked erase for a descriptor; it does nothing when the entry is
      gone. The others are the next steps of connection i's opener and of its closer. */
  datatype Event = Accept(fd: Fd) | Close(fd: Fd) | CountUp(i: nat) | NoticeOpen(i: nat) | Unregister(i: nat)
                 | CountDown(i: nat) | NoticeClosed(i: nat) | Delete(i: nat)

  /** The kernel gives out a descriptor that no undeleted connection has. */
  predicate Enabled(s: State, e: Event) {
    match e
    case Accept(fd) => forall i | 0 <= i < |s.conns| && s.conns[i].closing != Deleted :: s.conns[i].fd != fd
    case Close(fd) => fd in s.table && s.table[fd] < |s.conns|
    case CountUp(i) => i < |s.conns| && s.conns[i].opening == Inserted
    case NoticeOpen(i) => i < |s.conns| && s.conns[i].opening == Counted
    case Unregister(i) => i < |s.conns| && s.conns[i].closing == Erased
    case CountDown(i) => i < |s.conns| && s.conns[i].closing == Unregistered
    case NoticeClosed(i) => i < |s.conns| && s.conns[i].closing == Uncounted
    case Delete(i) => i < |s.conns| && s.conns[i].closing == Closed
  }

  function Change(s: State, i: nat, opening: Opening, closing: Closing): State
    requires i < |s.conns|
  {
    s.(conns := s.conns[i := s.conns[i].(opening := opening, closing := closing)])
  }

  function Step(s: State, e: Event): State {
    if !Enabled(s, e) then s
    else match e
      case Accept(fd) =>
        s.(conns := s.conns + [Conn(fd, Inserted, None)],
           table := if fd in s.table then s.table else s.table[fd := |s.conns|])
      case Close(fd) =>
        var i := s.table[fd];
        Change(s, i, s.conns[i].opening, Erased).(table := s.table - {fd})
      case CountUp(i) => Change(s, i, Counted, s.conns[i].closing).(counter := s.counter + 1)
      case NoticeOpen(i) => Change(s, i, Opened, s.conns[i].closing).(openNotices := s.openNotices + multiset{i})
      case Unregister(i) => Change(s, i, s.conns[i].opening, Unregistered)
      case CountDown(i) => Change(s, i, s.conns[i].opening, Uncounted).(counter := s.counter - 1)
      case NoticeClosed(i) => Change(s, i, s.conns[i].opening, Closed).(closeNotices := s.closeNotices + multiset{i})
      case Delete(i) => Change(s, i, s.conns[i].opening, Deleted)
  }

  function Run(events: seq<Event>): State {
    if events == [] then START else Step(Run(events[..|events| - 1]), events[|events| - 1])
  }

  // Sums over the connections.

  predicate IsCountedDown(c: Conn) {
    c.closing == Uncounted || c.closing == Closed || c.closing == Deleted
  }

  predicate IsUncounted(c: Conn) {
    c.opening == Inserted
  }

  predicate IsUndecremented(c: Conn) {
    c.closing == Erased || c.closing == Unregistered
  }

  /** Connections the callback has inserted and not yet counted. */
  function InsertedUncounted(cs: seq<Conn>): nat {
    if cs == [] then 0 else One(IsUncounted(cs[0])) + InsertedUncounted(cs[1..])
  }

  /** Connections erased from the table and not yet subtracted. */
  function ErasedUndecremented(cs: seq<Conn>): nat {
    if cs == [] then 0 else One(IsUndecremented(cs[0])) + ErasedUndecremented(cs[1..])
  }

  /** What one connection has added to the counter. */
  function Share(c: Conn): int {
    One(!IsUncounted(c)) - One(IsCountedDown(c))
  }

  function Shares(cs: seq<Conn>): int {
    if cs == [] then 0 else Share(cs[0]) + Shares(cs[1..])
  }

  function Present(cs: seq<Conn>): nat {
    if cs == [] then 0 else One(cs[0].closing == None) + Present(cs[1..])
  }

  lemma {:induction false} SumsAgree(cs: seq<Conn>)
    ensures Shares(cs) + InsertedUncounted(cs) - ErasedUndecremented(cs) == Present(cs)
  {
    if cs != [] {
      SumsAgree(cs[1..]);
    }
  }

  lemma {:induction false} UpdateShares(cs: seq<Conn>, i: nat, c: Conn)
    requires i < |cs|
    ensures Shares(cs[i := c]) == Shares(cs) - Share(cs[i]) + Share(c)
    ensures Present(cs[i := c]) == Present(cs) - One(cs[i].closing == None) + One(c.closing == None)
    decreases |cs|
  {
    if i == 0 {
      assert cs[i := c][1..] == cs[1..];
    } else {
      UpdateShares(cs[1..], i - 1, c);
      assert cs[i := c][1..] == cs[1..][i - 1 := c];
    }
  }

  lemma {:induction false} AppendShares(cs: seq<Conn>, c: Conn)
    ensures Shares(cs + [c]) == Shares(cs) + Share(c)
    ensures Present(cs + [c]) == Present(cs) + One(c.closing == None)
  {
    if cs == [] {
      assert [] + [c] == [c];
    } else {
      AppendShares(cs[1..], c);
      assert (cs + [c])[1..] == cs[1..] + [c];
    }
  }

  // The invariant.

  predicate IsOpened(c: Conn) {
    c.opening == Opened
  }

  predicate IsClosed(c: Conn) {
    c.closing == Closed || c.closing == Deleted
  }

  predicate TableInv(s: State) {
    && (forall fd | fd in s.table ::
          s.table[fd] < |s.conns| && s.conns[s.table[fd]].fd == fd && s.conns[s.table[fd]].closing == None)
    && (forall i | 0 <= i < |s.conns| && s.conns[i].closing == None ::
          s.conns[i].fd in s.table && s.table[s.conns[i].fd] == i)
  }

  ghost predicate NoticesInv(s: State) {
    && (forall i: nat | i < |s.conns| ::
          s.openNotices[i] == One(IsOpened(s.conns[i])) && s.closeNotices[i] == One(IsClosed(s.conns[i])))
    && (forall i | i in s.openNotices || i in s.closeNotices :: i < |s.conns|)
  }

  predicate CounterInv(s: State) {
    s.counter == Shares(s.conns) && |s.table| == Present(s.conns)
  }

  ghost predicate Inv(s: State) {
    TableInv(s) && NoticesInv(s) && CounterInv(s)
  }

  lemma AcceptKeepsTable(s: State, fd: Fd)
    requires TableInv(s) && Enabled(s, Accept(fd))
    ensures fd !in s.table && TableInv(Step(s, Accept(fd)))
  {
    if fd in s.table {
      assert false;
    }
  }

  lemma AcceptKeepsNotices(s: State, fd: Fd)
    requires NoticesInv(s) && Enabled(s, Accept(fd))
    ensures NoticesInv(Step(s, Accept(fd)))
  {
    assert |s.conns| !in s.openNotices && |s.conns| !in s.closeNotices;
  }

  lemma AcceptKeepsCounter(s: State, fd: Fd)
    requires fd !in s.table && CounterInv(s) && Enabled(s, Accept(fd))
    ensures CounterInv(Step(s, Accept(fd)))
  {
    AppendShares(s.conns, Conn(fd, Inserted, None));
    var s' := Step(s, Accept(fd));
    assert s'.table.Keys == s.table.Keys + {fd} && |s'.table| == |s'.table.Keys| && |s.table| == |s.table.Keys|;
  }

  lemma CloseKeepsTable(s: State, fd: Fd)
    requires TableInv(s) && Enabled(s, Close(fd))
    ensures TableInv(Step(s, Close(fd)))
  {
  }

  lemma CloseKeepsNotices(s: State, fd: Fd)
    requires NoticesInv(s) && Enabled(s, Close(fd)) && s.conns[s.table[fd]].closing == None
    ensures NoticesInv(Step(s, Close(fd)))
  {
  }

  lemma CloseKeepsCounter(s: State, fd: Fd)
    requires CounterInv(s) && Enabled(s, Close(fd)) && s.conns[s.table[fd]].closing == None
    ensures CounterInv(Step(s, Close(fd)))
  {
    var s', i := Step(s, Close(fd)), s.table[fd];
    UpdateShares(s.conns, i, s'.conns[i]);
    assert s'.table.Keys == s.table.Keys - {fd} && |s'.table| == |s'.table.Keys| && |s.table| == |s.table.Keys|;
  }

  lemma CloseKeepsInv(s: State, fd: Fd)
    requires Inv(s) && Enabled(s, Close(fd))
    ensures Inv(Step(s, Close(fd)))
  {
    hide NoticesInv, CounterInv, Step;
    CloseKeepsTable(s, fd);
    CloseKeepsNotices(s, fd);
    CloseKeepsCounter(s, fd);
  }

  /** The later steps of an opener or a closer leave the table alone. */
  lemma ProgressKeepsTable(s: State, e: Event)
    requires TableInv(s) && Enabled(s, e) && !e.Accept? && !e.Close?
    ensures TableInv(Step(s, e))
  {
    var s' := Step(s, e);
    assert s'.table == s.table && |s'.conns| == |s.conns|;
    assert forall i | 0 <= i < |s.conns| ::
        s'.conns[i].fd == s.conns[i].fd && (s'.conns[i].closing == None <==> s.conns[i].closing == None);
  }

  lemma ProgressKeepsNotices(s: State, e: Event)
    requires NoticesInv(s) && Enabled(s, e) && !e.Accept? && !e.Close?
    ensures NoticesInv(Step(s, e))
  {
    var s' := Step(s, e);
    assert |s'.conns| == |s.conns|;
    forall i: nat | i < |s.conns|
      ensures s'.openNotices[i] == One(IsOpened(s'.conns[i])) && s'.closeNotices[i] == One(IsClosed(s'.conns[i]))
    {
      if i != e.i {
        assert s'.conns[i] == s.conns[i];
      }
    }
  }

  lemma ProgressKeepsCounter(s: State, e: Event)
    requires CounterInv(s) && Enabled(s, e) && !e.Accept? && !e.Close?
    ensures CounterInv(Step(s, e))
  {
    UpdateShares(s.conns, e.i, Step(s, e).conns[e.i]);
  }

  /** Every step keeps the invariant. */
  lemma StepKeepsInv(s: State, e: Event)
    requires Inv(s)
    ensures Inv(Step(s, e))
  {
    hide TableInv, NoticesInv, CounterInv, Enabled;
    if Enabled(s, e) {
      match e
      case Accept(fd) => AcceptKeepsTable(s, fd); AcceptKeepsNotices(s, fd); AcceptKeepsCounter(s, fd);
      case Close(fd) => CloseKeepsInv(s, fd);
      case _ => ProgressKeepsTable(s, e); ProgressKeepsNotices(s, e); ProgressKeepsCounter(s, e);
    }
  }

  lemma {:induction false} RunKeepsInv(events: seq<Event>)
    ensures Inv(Run(events))
  {
    if events != [] {
      RunKeepsInv(events[..|events| - 1]);
      StepKeepsInv(Run(events[..|events| - 1]), events[|events| - 1]);
    }
  }

  /** At any time the counter, plus the clients inserted and not yet counted, less those erased
      and not yet subtracted, is the number of entries in the table. */
  lemma CounterMatchesTable(events: seq<Event>)
    ensures var s := Run(events);
      s.counter + InsertedUncounted(s.conns) - ErasedUndecremented(s.conns) == |s.table|
  {
    RunKeepsInv(events);
    SumsAgree(Run(events).conns);
  }

  /** Every connection gives one open notice once its connect callback is through and none
      before, and at most one close notice, whatever number of closers compete for it. */
  lemma NoticesOnce(events: seq<Event>, i: nat)
    requires i < |Run(events).conns|
    ensures var s := Run(events); var c := s.conns[i];
      && s.openNotices[i] == One(c.opening == Opened)
      && s.closeNotices[i] <= 1
      && (s.closeNotices[i] == 1 <==> c.closing == Closed || c.closing == Deleted)
      && (s.closeNotices[i] == 1 ==> !(c.fd in s.table && s.table[c.fd] == i))
  {
    RunKeepsInv(events);
  }

  /** A new client's entry never meets an old one: its insert always takes effect. */
  lemma InsertSucceeds(events: seq<Event>, fd: Fd)
    requires Enabled(Run(events), Accept(fd))
    ensures fd !in Run(events).table
  {
    RunKeepsInv(events);
  }
}
