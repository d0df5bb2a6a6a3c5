/** The epoll registration of one client: two flags, and a kernel record that the four
    arm and disarm operations keep in step with them. */
module Interest {
  import opened Bytes

  /** The events a descriptor is registered for. */
  datatype Mask = Mask(isIn: bool, isOut: bool, isEdge: bool)

  /** read, write: the flags m_CfdIsRead and m_CfdIsWrite.
      kernel: what epoll has recorded, None when the descriptor is not registered.
      spent: an event was reported since the record was last written, so an edge-triggered
      record may stay silent until it is written again. */
  datatype Registration = Registration(read: bool, write: bool, kernel: Option<Mask>, spent: bool)

  const UNREGISTERED := Registration(false, false, None, false)

  function MaskOf(read: bool, write: bool): Option<Mask> {
    if read || write then Some(Mask(read, write, true)) else None
  }

  /** The record is absent exactly when both flags are down and else has exactly their bits. */
  predicate InStep(r: Registration) {
    r.kernel == MaskOf(r.read, r.write)
  }

  /** The flags brought to the given values. An actual change rewrites the record. */
  function Set(r: Registration, read: bool, write: bool): Registration {
    if read == r.read && write == r.write then r else Registration(read, write, MaskOf(read, write), false)
  }

  datatype Op = AddRead | AddWrite | DelRead | DelWrite | DelClient

  function Apply(r: Registration, op: Op): Registration {
    match op
    case AddRead => Set(r, true, r.write)
    case AddWrite => Set(r, r.read, true)
    case DelRead => Set(r, false, r.write)
    case DelWrite => Set(r, r.read, false)
    case DelClient => Registration(false, false, None, false)
  }

  function ApplyAll(r: Registration, ops: seq<Op>): Registration {
    if ops == [] then r else Apply(ApplyAll(r, ops[..|ops| - 1]), ops[|ops| - 1])
  }

  /** The kernel side for one non-blocking descriptor. epoll_ctl refuses to add a registered
      descriptor and to change or remove an unregistered one. */
  class EPoll {
    var kernel: Option<Mask>
    var spent: bool
    var refusals: nat

    constructor ()
      ensures kernel == None && !spent && refusals == 0
    {
      kernel, spent, refusals := None, false, 0;
    }

    method BuildMask(isWrite: bool, isRead: bool) returns (m: Mask)
      ensures m == Mask(isRead, isWrite, true)
    {
      m := Mask(false, false, false);
      if isRead {
        m := m.(isIn := true);
      }
      if isWrite {
        m := m.(isOut := true);
      }
      m := m.(isEdge := true);
    }

    method Add(isWrite: bool := false, isRead: bool := true)
      modifies this
      ensures kernel == if old(kernel).None? then Some(Mask(isRead, isWrite, true)) else old(kernel)
      ensures spent == (old(spent) && old(kernel).Some?)
      ensures refusals == old(refusals) + if old(kernel).None? then 0 else 1
    {
      var m := BuildMask(isWrite, isRead);
      if kernel.Some? {
        refusals := refusals + 1;
      } else {
        kernel, spent := Some(m), false;
      }
    }

    method Change(isWrite: bool := false, isRead: bool := true)
      modifies this
      ensures kernel == if old(kernel).Some? then Some(Mask(isRead, isWrite, true)) else None
      ensures spent == (old(spent) && old(kernel).None?)
      ensures refusals == old(refusals) + if old(kernel).Some? then 0 else 1
    {
      var m := BuildMask(isWrite, isRead);
      if kernel.None? {
        refusals := refusals + 1;
      } else {
        kernel, spent := Some(m), false;
      }
    }

    method Remove()
      modifies this
      ensures kernel == None
      ensures spent == (old(spent) && old(kernel).None?)
      ensures refusals == old(refusals) + if old(kernel).Some? then 0 else 1
    {
      if kernel.None? {
        refusals := refusals + 1;
      } else {
        kernel, spent := None, false;
      }
    }

    /** epoll_wait, as far as this descriptor is concerned: nothing, or an event with some of
        the recorded directions, after which an edge-triggered record is silent. */
    method Wait() returns (got: bool, isRead: bool, isWrite: bool)
      modifies this`spent
      ensures got ==> kernel.Some? && !old(spent) && (isRead || isWrite)
      ensures got ==> (isRead ==> kernel.value.isIn) && (isWrite ==> kernel.value.isOut)
      ensures spent == (old(spent) || got)
    {
      got, isRead, isWrite := *, *, *;
      if spent || kernel.None? || !(isRead || isWrite)
         || (isRead && !kernel.value.isIn) || (isWrite && !kernel.value.isOut)
      {
        got := false;
      }
      spent := spent || got;
    }
  }

  /** The registration operations of SocketControl, each one section under m_EPollMutex. */
  class ClientRegistration {
    const epoll: EPoll
    var cfdIsRead: bool
    var cfdIsWrite: bool

    ghost function State(): Registration
      reads this, epoll
    {
      Registration(cfdIsRead, cfdIsWrite, epoll.kernel, epoll.spent)
    }

    ghost predicate Valid()
      reads this, epoll
    {
      InStep(State()) && (epoll.kernel == None ==> !epoll.spent)
    }

    constructor ()
      ensures Valid() && fresh(epoll) && State() == UNREGISTERED && epoll.refusals == 0
    {
      epoll := new EPoll();
      cfdIsRead, cfdIsWrite := false, false;
    }

    method EPollAddClientRead()
      requires Valid()
      modifies this, epoll
      ensures Valid() && State() == Apply(old(State()), AddRead)
      ensures epoll.refusals == old(epoll.refusals)
    {
      if cfdIsRead {
        return;
      }
      cfdIsRead := true;
      if cfdIsWrite {
        epoll.Change(true);
      } else {
        epoll.Add();
      }
    }

    method EPollAddClientWrite()
      requires Valid()
      modifies this, epoll
      ensures Valid() && State() == Apply(old(State()), AddWrite)
      ensures epoll.refusals == old(epoll.refusals)
    {
      if cfdIsWrite {
        return;
      }
      cfdIsWrite := true;
      if cfdIsRead {
        epoll.Change(true);
      } else {
        epoll.Add(true, false);
      }
    }

    method EPollDelClientRead()
      requires Valid()
      modifies this, epoll
      ensures Valid() && State() == Apply(old(State()), DelRead)
      ensures epoll.refusals == old(epoll.refusals)
    {
      if !cfdIsRead {
        return;
      }
      cfdIsRead := false;
      if cfdIsWrite {
        epoll.Change(true, false);
      } else {
        epoll.Remove();
      }
    }

    method EPollDelClientWrite()
      requires Valid()
      modifies this, epoll
      ensures Valid() && State() == Apply(old(State()), DelWrite)
      ensures epoll.refusals == old(epoll.refusals)
    {
      if !cfdIsWrite {
        return;
      }
      cfdIsWrite := false;
      if cfdIsRead {
        epoll.Change();
      } else {
        epoll.Remove();
      }
    }

    method EPollDelClient()
      requires Valid()
      modifies this, epoll
      ensures Valid() && State() == Apply(old(State()), DelClient)
      ensures epoll.refusals == old(epoll.refusals) + if old(cfdIsRead || cfdIsWrite) then 0 else 1
    {
      cfdIsWrite := false;
      cfdIsRead := false;
      epoll.Remove();
    }
  }

  /** Any sequence of the operations on a new client ends in step, and no operation but the
      closing one is ever refused. */
  method Drive(ops: seq<Op>) returns (r: ClientRegistration)
    ensures fresh(r) && fresh(r.epoll) && r.Valid()
    ensures r.State() == ApplyAll(UNREGISTERED, ops)
    ensures DelClient !in ops ==> r.epoll.refusals == 0
  {
    r := new ClientRegistration();
    for i := 0 to |ops|
      invariant fresh(r) && fresh(r.epoll) && r.Valid()
      invariant r.State() == ApplyAll(UNREGISTERED, ops[..i])
      invariant DelClient !in ops ==> r.epoll.refusals == 0
    {
      assert ops[..i + 1][..i] == ops[..i];
      match ops[i]
      case AddRead => r.EPollAddClientRead();
      case AddWrite => r.EPollAddClientWrite();
      case DelRead => r.EPollDelClientRead();
      case DelWrite => r.EPollDelClientWrite();
      case DelClient => r.EPollDelClient();
    }
    assert ops[..|ops|] == ops;
  }

  predicate LastAt(ops: seq<Op>, on: Op, off: Op, i: int) {
    && 0 <= i < |ops| && ops[i] == on
    && forall j | i < j < |ops| :: ops[j] != off && ops[j] != DelClient
  }

  /** The last of on, off and DelClient in ops is on. */
  ghost predicate LastOf(ops: seq<Op>, on: Op, off: Op) {
    exists i :: LastAt(ops, on, off, i)
  }

  lemma LastOfOneMore(ops: seq<Op>, on: Op, off: Op)
    requires ops != [] && on != off && on != DelClient
    ensures var last := ops[|ops| - 1];
      LastOf(ops, on, off) <==> last == on || (last != off && last != DelClient && LastOf(ops[..|ops| - 1], on, off))
  {
    var n := |ops| - 1;
    if ops[n] == on {
      assert LastAt(ops, on, off, n);
    } else {
      assert forall i | 0 <= i < n :: ops[..n][i] == ops[i];
      if LastOf(ops[..n], on, off) && ops[n] != off && ops[n] != DelClient {
        var i :| LastAt(ops[..n], on, off, i);
        assert LastAt(ops, on, off, i);
      }
      if LastOf(ops, on, off) {
        var i :| LastAt(ops, on, off, i);
        assert LastAt(ops[..n], on, off, i);
      }
    }
  }

  /** The last read operation and the last write operation decide the two flags, and with
      them the record. */
  lemma {:induction false} ApplyAllInStep(ops: seq<Op>)
    ensures var r := ApplyAll(UNREGISTERED, ops);
      && InStep(r)
      && (r.read <==> LastOf(ops, AddRead, DelRead))
      && (r.write <==> LastOf(ops, AddWrite, DelWrite))
  {
    if ops != [] {
      ApplyAllInStep(ops[..|ops| - 1]);
      LastOfOneMore(ops, AddRead, DelRead);
      LastOfOneMore(ops, AddWrite, DelWrite);
    }
  }
}
