/** One endpoint of a connection: bounded read and write buffers over a kernel that moves
    bytes in pieces of its own choosing. Server and client SDK run the same code. */
module Socket {
  import opened Bytes
  import opened Framing

  const SOCKET_CLOSE := -1

  /** Outcomes of recv and send: a positive count, zero, a would-block or interrupted
      errno, any other errno. */
  datatype IoResult = Zero | Moved(n: nat) | Again | Failed

  /** A call to recv or send: the length asked for, and the outcome. */
  datatype Call = Call(request: nat, result: IoResult)

  /** The kernel's free choice, given the length asked for and the bytes it could move. */
  predicate Possible(r: IoResult, request: nat, available: nat) {
    if request == 0 then r == Zero else r.Moved? ==> 1 <= r.n <= request && r.n <= available
  }

  /** One direction of a connection: the bytes the kernel has taken and not yet given out, and
      the calls made at either end. */
  class Pipe {
    var bytes: seq<byte>
    var sends: seq<Call>
    var recvs: seq<Call>

    constructor ()
      ensures bytes == [] && sends == [] && recvs == []
    {
      bytes, sends, recvs := [], [], [];
    }

    method Recv(request: nat) returns (r: IoResult)
      modifies this`recvs
      ensures Possible(r, request, |bytes|) && recvs == old(recvs) + [Call(request, r)]
    {
      r := *;
      if !Possible(r, request, |bytes|) {
        r := Zero;
      }
      recvs := recvs + [Call(request, r)];
    }

    method Send(request: nat) returns (r: IoResult)
      modifies this`sends
      ensures Possible(r, request, request) && sends == old(sends) + [Call(request, r)]
    {
      r := *;
      if !Possible(r, request, request) {
        r := Zero;
      }
      sends := sends + [Call(request, r)];
    }
  }

  /** What the receiving side has handed on and counted. */
  datatype Receipts = Receipts(packages: seq<seq<byte>>, packageCount: nat, byteCount: nat)

  function Count(before: Receipts, r: Parsed): Receipts {
    Receipts(before.packages + r.packages, before.packageCount + |r.packages|, before.byteCount + r.used)
  }

  lemma CountThen(before: Receipts, a: Parsed, b: Parsed)
    ensures Count(Count(before, a), b) == Count(before, Then(a, b))
  {
    assert before.packages + a.packages + b.packages == before.packages + (a.packages + b.packages);
  }

  lemma StuckStays(s: seq<byte>, before: Receipts)
    requires Stuck(s)
    ensures !Parse(s).threw && Rest(s) == s && Count(before, Parse(s)) == before
  {
    assert before.packages + [] == before.packages;
  }

  /** The last call made had one of these outcomes. */
  predicate EndsWith(calls: seq<Call>, results: set<IoResult>) {
    calls != [] && calls[|calls| - 1].result in results
  }

  class ClientSocket {
    const incoming: Pipe
    const outgoing: Pipe
    // The SDK installs a write callback that stores its argument in cfdIsWrite; the server's
    // callback changes the epoll registration instead.
    const isSdk: bool
    var isNonBlock: bool
    const readBuf: array<byte>
    var curReadBufSize: nat
    const writeBuf: array<byte>
    var curWriteBufSize: nat
    var isWriting: bool
    var cfdIsWrite: bool
    var writeCallbacks: seq<bool>
    var receipts: Receipts

    ghost predicate Valid()
      reads this, readBuf, writeBuf
    {
      && incoming != outgoing
      && readBuf != writeBuf
      && readBuf.Length == writeBuf.Length == BUFFER_SIZE
      && curReadBufSize <= BUFFER_SIZE && curWriteBufSize <= BUFFER_SIZE
      && Stuck(Unread())
      && (isSdk ==> cfdIsWrite == isWriting)
    }

    /** Bytes received and not yet cut into packages. */
    ghost function Unread(): seq<byte>
      requires curReadBufSize <= readBuf.Length
      reads this, readBuf
    {
      readBuf[..curReadBufSize]
    }

    /** Bytes accepted for sending and not yet taken by the kernel. */
    ghost function Unsent(): seq<byte>
      requires curWriteBufSize <= writeBuf.Length
      reads this, writeBuf
    {
      writeBuf[..curWriteBufSize]
    }

    constructor (incoming: Pipe, outgoing: Pipe, isSdk: bool)
      requires incoming != outgoing
      ensures Valid() && fresh(readBuf) && fresh(writeBuf)
      ensures this.incoming == incoming && this.outgoing == outgoing && this.isSdk == isSdk
      ensures Unread() == [] && Unsent() == [] && receipts == Receipts([], 0, 0)
      ensures !isNonBlock && !isWriting
    {
      this.incoming, this.outgoing, this.isSdk := incoming, outgoing, isSdk;
      isNonBlock, isWriting, cfdIsWrite := false, false, false;
      readBuf, writeBuf := new byte[BUFFER_SIZE], new byte[BUFFER_SIZE];
      curReadBufSize, curWriteBufSize := 0, 0;
      writeCallbacks, receipts := [], Receipts([], 0, 0);
    }

    method SetNonBlock()
      requires Valid()
      modifies this`isNonBlock
      ensures Valid() && isNonBlock
    {
      isNonBlock := true;
    }

    /** The locked first half of Write: the whole frame or nothing of it. */
    method Append(data: array<byte>) returns (accepted: bool)
      requires Valid() && data != writeBuf && data != readBuf
      modifies this`curWriteBufSize, writeBuf
      ensures Valid()
      ensures accepted <==> data.Length <= BUFFER_SIZE - |old(Unsent())|
      ensures Unsent() == old(Unsent()) + if accepted then data[..] else []
    {
      if data.Length > writeBuf.Length - curWriteBufSize {
        return false;
      }
      MemCopy(writeBuf, curWriteBufSize, data[..]);
      curWriteBufSize := curWriteBufSize + data.Length;
      return true;
    }

    /** The kernel takes k bytes off the front of the write buffer. */
    method Transfer(k: nat)
      requires writeBuf.Length == BUFFER_SIZE && curWriteBufSize <= BUFFER_SIZE && k <= curWriteBufSize
      modifies this`curWriteBufSize, writeBuf, outgoing`bytes
      ensures curWriteBufSize == old(curWriteBufSize) - k
      ensures Unsent() == old(Unsent())[k..]
      ensures outgoing.bytes == old(outgoing.bytes) + old(Unsent())[..k]
    {
      ghost var before := Unsent();
      outgoing.bytes := outgoing.bytes + writeBuf[..k];
      assert writeBuf[k..curWriteBufSize] == before[k..] && writeBuf[..k] == before[..k];
      if curWriteBufSize == k {
        curWriteBufSize := 0;
        return;
      }
      MemMoveDown(writeBuf, k, curWriteBufSize - k);
      curWriteBufSize := curWriteBufSize - k;
    }

    /** The edge callback: called only when the flag changes. */
    method ReportWriting(hasData: bool)
      requires Valid()
      modifies this`isWriting, this`cfdIsWrite, this`writeCallbacks
      ensures Valid() && isWriting == hasData
      ensures writeCallbacks == old(writeCallbacks) + if hasData != old(isWriting) then [hasData] else []
    {
      if isWriting != hasData {
        isWriting := hasData;
        writeCallbacks := writeCallbacks + [hasData];
        if isSdk {
          cfdIsWrite := hasData;
        }
      }
    }

    /** n of the bytes of start, buffered when the wire held what wire says, have been taken. */
    ghost predicate Taken(start: seq<byte>, wire: seq<byte>, n: nat)
      reads this, writeBuf, outgoing
    {
      && curWriteBufSize <= writeBuf.Length == BUFFER_SIZE
      && n <= |start| && Unsent() == start[n..]
      && outgoing.bytes == wire + start[..n]
    }

    method SendMore(k: nat, ghost start: seq<byte>, ghost wire: seq<byte>, ghost n: nat)
      requires Taken(start, wire, n) && k <= curWriteBufSize
      modifies this`curWriteBufSize, writeBuf, outgoing`bytes
      ensures Taken(start, wire, n + k) && curWriteBufSize == old(curWriteBufSize) - k
    {
      TakeMore(start, n, k);
      Transfer(k);
      assert wire + start[..n] + start[n..][..k] == wire + (start[..n] + start[n..][..k]);
    }

    /** Send's loop: n bytes are taken; hasData tells that the kernel would block. */
    method Drain() returns (code: int, hasData: bool, ghost n: nat)
      requires Valid()
      modifies this`curWriteBufSize, writeBuf, outgoing
      ensures Valid()
      ensures n <= |old(Unsent())|
      ensures Unsent() == old(Unsent())[n..]
      ensures outgoing.bytes == old(outgoing.bytes) + old(Unsent())[..n] && old(outgoing.sends) <= outgoing.sends
      ensures code == 0 || code == SOCKET_CLOSE
      ensures code == SOCKET_CLOSE ==> Unsent() != [] && !hasData && EndsWith(outgoing.sends, {Zero, Failed})
      ensures hasData ==> Unsent() != [] && (!isNonBlock ==> n == 0) && EndsWith(outgoing.sends, {Again})
      ensures code == 0 && !hasData ==> Unsent() == [] || (!isNonBlock && n > 0)
    {
      n, code, hasData := 0, 0, false;
      ghost var start, wire, sends := Unsent(), outgoing.bytes, outgoing.sends;
      var more := true;
      while more
        invariant Taken(start, wire, n) && sends <= outgoing.sends
        invariant isNonBlock ==> more || curWriteBufSize == 0
        invariant !isNonBlock ==> (more <==> n == 0)
        modifies this`curWriteBufSize, writeBuf, outgoing
        decreases more, curWriteBufSize
      {
        if curWriteBufSize == 0 {
          return;
        }
        var r := outgoing.Send(curWriteBufSize);
        match r
        case Moved(overCount) =>
          SendMore(overCount, start, wire, n);
          n := n + overCount;
          more := isNonBlock && curWriteBufSize != 0;
        case Again =>
          hasData := true;
          return;
        case _ =>
          code := SOCKET_CLOSE;
          return;
      }
    }

    /** Hands buffered bytes to the kernel; n of them are taken. A non-blocking Send goes on
        until the buffer is empty or the kernel would block. In blocking mode there is only one
        call, and what it leaves behind is not reported. */
    method Send() returns (code: int, ghost n: nat)
      requires Valid()
      modifies this`curWriteBufSize, this`isWriting, this`cfdIsWrite, this`writeCallbacks, writeBuf, outgoing
      ensures Valid()
      ensures n <= |old(Unsent())|
      ensures Unsent() == old(Unsent())[n..]
      ensures outgoing.bytes == old(outgoing.bytes) + old(Unsent())[..n]
      ensures code == 0 || code == SOCKET_CLOSE
      ensures code == SOCKET_CLOSE ==> Unsent() != [] && isWriting == old(isWriting)
      ensures code == 0 && isNonBlock ==> isWriting == (Unsent() != [])
      ensures code == 0 && !isNonBlock ==> isWriting == (n == 0 && Unsent() != [])
      ensures writeCallbacks == old(writeCallbacks) + if isWriting != old(isWriting) then [isWriting] else []
      ensures old(outgoing.sends) <= outgoing.sends
      ensures code == SOCKET_CLOSE ==> EndsWith(outgoing.sends, {Zero, Failed})
      ensures code == 0 && isWriting ==> EndsWith(outgoing.sends, {Again})
    {
      var hasData;
      code, hasData, n := Drain();
      if code == 0 {
        ReportWriting(hasData);
      }
    }

    /** Write with no other thread between its two halves. */
    method Write(data: array<byte>) returns (code: int, ghost accepted: bool, ghost n: nat)
      requires Valid() && data != writeBuf && data != readBuf
      modifies this`curWriteBufSize, this`isWriting, this`cfdIsWrite, this`writeCallbacks, writeBuf, outgoing
      ensures Valid()
      ensures accepted <==> data.Length <= BUFFER_SIZE - |old(Unsent())|
      ensures code == 0 || code == SOCKET_CLOSE
      ensures !accepted ==> code == 0 && n == 0 && isWriting == old(isWriting)
      ensures var all := old(Unsent()) + if accepted then data[..] else [];
        n <= |all| && Unsent() == all[n..] && outgoing.bytes == old(outgoing.bytes) + all[..n]
      ensures accepted && code == 0 && isNonBlock ==> isWriting == (Unsent() != [])
    {
      n := 0;
      var ok := Append(data);
      accepted := ok;
      if !ok {
        return 0, accepted, n;
      }
      code, n := Send();
    }

    /** SendPackage as the SDK runs it: nothing is written unless the whole frame fits. */
    method SendPackage(data: array<byte>) returns (ok: bool, ghost accepted: bool, ghost n: nat)
      requires Valid() && data.Length <= INT_MAX - HEAD_SIZE
      modifies this`curWriteBufSize, this`isWriting, this`cfdIsWrite, this`writeCallbacks, writeBuf, outgoing
      ensures Valid()
      ensures accepted <==> HEAD_SIZE + data.Length <= BUFFER_SIZE - |old(Unsent())|
      ensures ok ==> accepted
      ensures var all := old(Unsent()) + if accepted then EncodeInt32(data.Length) + old(data[..]) else [];
        n <= |all| && Unsent() == all[n..] && outgoing.bytes == old(outgoing.bytes) + all[..n]
      ensures ok && isNonBlock ==> isWriting == (Unsent() != [])
    {
      n, accepted := 0, false;
      if writeBuf.Length - curWriteBufSize < data.Length + HEAD_SIZE {
        return false, accepted, n;
      }
      var frame := BuildFrame(data);
      var code;
      code, accepted, n := Write(frame);
      ok := code != SOCKET_CLOSE;
    }

    /** One positive recv: m bytes arrive behind the remainder, whole packages are cut off
        and the rest moves to the front. */
    method Absorb(m: nat) returns (threw: bool)
      requires incoming != outgoing && readBuf != writeBuf && readBuf.Length == BUFFER_SIZE
      requires curReadBufSize + m <= BUFFER_SIZE && m <= |incoming.bytes|
      modifies this`curReadBufSize, this`receipts, readBuf, incoming`bytes
      ensures curReadBufSize <= BUFFER_SIZE
      ensures incoming.bytes == old(incoming.bytes)[m..]
      ensures var r := Parse(old(Unread() + incoming.bytes[..m]));
        && threw == r.threw
        && receipts == Count(old(receipts), r)
      ensures !threw ==> Unread() == Rest(old(Unread() + incoming.bytes[..m]))
    {
      hide Parse;
      ghost var buffer := Unread() + incoming.bytes[..m];
      MemCopy(readBuf, curReadBufSize, incoming.bytes[..m]);
      incoming.bytes := incoming.bytes[m..];
      curReadBufSize := curReadBufSize + m;
      assert Unread() == buffer;
      var cut, eatCount, packageCount, byteCount;
      cut, eatCount, packageCount, byteCount, threw := ReadCallback(readBuf, curReadBufSize);
      receipts := Receipts(receipts.packages + cut, receipts.packageCount + packageCount,
                           receipts.byteCount + byteCount);
      if threw {
        return;
      }
      if eatCount > 0 {
        MemMoveDown(readBuf, eatCount, curReadBufSize - eatCount);
        curReadBufSize := curReadBufSize - eatCount;
      }
      assert Unread() == buffer[eatCount..];
    }

    /** n of the arriving bytes have been received since start was in the read buffer, and
        the receiver is where one parse over all of them leads. */
    ghost predicate Received(start: seq<byte>, arriving: seq<byte>, before: Receipts, n: nat)
      reads this, readBuf, incoming
    {
      && n <= |arriving|
      && incoming.bytes == arriving[n..]
      && curReadBufSize <= readBuf.Length
      && var s := start + arriving[..n];
        && !Parse(s).threw
        && receipts == Count(before, Parse(s))
        && Unread() == Rest(s)
    }

    method RecvMore(k: nat, ghost start: seq<byte>, ghost arriving: seq<byte>, ghost before: Receipts, ghost n: nat)
      returns (threw: bool)
      requires incoming != outgoing && readBuf != writeBuf && readBuf.Length == BUFFER_SIZE
      requires Received(start, arriving, before, n)
      requires curReadBufSize + k <= BUFFER_SIZE && k <= |incoming.bytes|
      modifies this`curReadBufSize, this`receipts, readBuf, incoming`bytes
      ensures n + k <= |arriving| && incoming.bytes == arriving[n + k..]
      ensures threw == Parse(start + arriving[..n + k]).threw
      ensures receipts == Count(before, Parse(start + arriving[..n + k]))
      ensures !threw ==> Received(start, arriving, before, n + k)
    {
      hide Parse;
      hide Rest;
      ghost var s, chunk := start + arriving[..n], incoming.bytes[..k];
      TakeMore(arriving, n, k);
      assert s + chunk == start + arriving[..n + k];
      ChunkingIndependence(s, chunk);
      CountThen(before, Parse(s), Parse(Rest(s) + chunk));
      threw := Absorb(k);
    }

    /** Every recv was asked for the room that the remainder left in the buffer after some
        part of the arriving bytes. */
    ghost predicate AskedForRoom(calls: seq<Call>, start: seq<byte>, arriving: seq<byte>, n: nat)
      requires n <= |arriving|
    {
      forall c | c in calls :: exists k | 0 <= k <= n :: c.request == BUFFER_SIZE - |Rest(start + arriving[..k])|
    }

    /** Receives until the kernel has no more; n bytes arrive in all. The effect is that of
        one parse over the old remainder and those n bytes, however they were cut. A
        non-blocking Recv returns 0 only when the kernel would block. */
    method Recv() returns (code: int, threw: bool, ghost n: nat, ghost calls: seq<Call>)
      requires Valid()
      modifies this`curReadBufSize, this`receipts, readBuf, incoming
      ensures n <= |old(incoming.bytes)| && incoming.bytes == old(incoming.bytes)[n..]
      ensures var s := old(Unread()) + old(incoming.bytes)[..n];
        && threw == Parse(s).threw
        && receipts == Count(old(receipts), Parse(s))
        && (!threw ==> Valid() && Unread() == Rest(s))
      ensures code == 0 || code == SOCKET_CLOSE
      ensures incoming.recvs == old(incoming.recvs) + calls
      ensures AskedForRoom(calls, old(Unread()), old(incoming.bytes), n)
      ensures calls != [] && (!isNonBlock ==> |calls| == 1)
      ensures code == SOCKET_CLOSE ==> EndsWith(calls, {Zero, Failed})
      ensures code == 0 && !threw && isNonBlock ==> EndsWith(calls, {Again})
    {
      hide Parse, Rest, HasFrame;
      n, threw, calls := 0, false, [];
      var more := true;
      ghost var start, arriving, before := Unread(), incoming.bytes, receipts;
      assert start + arriving[..0] == start;
      StuckStays(start, receipts);
      while more
        invariant !threw && curReadBufSize <= BUFFER_SIZE
        invariant Received(start, arriving, before, n)
        invariant incoming.recvs == old(incoming.recvs) + calls && AskedForRoom(calls, start, arriving, n)
        invariant if isNonBlock then more else if more then calls == [] else |calls| == 1
        decreases more, |incoming.bytes|
      {
        var request := readBuf.Length - curReadBufSize;
        var r := incoming.Recv(request);
        calls := calls + [Call(request, r)];
        match r
        case Moved(readCount) =>
          threw := RecvMore(readCount, start, arriving, before, n);
          n := n + readCount;
          if threw {
            return 0, threw, n, calls;
          }
          more := isNonBlock;
        case Again =>
          RestIsStuck(start + arriving[..n]);
          return 0, threw, n, calls;
        case _ =>
          RestIsStuck(start + arriving[..n]);
          return SOCKET_CLOSE, threw, n, calls;
      }
      RestIsStuck(start + arriving[..n]);
      code := 0;
    }
  }
}
