/** The connection pool: a vector of idle connections that workers take from and return to
    at its end. */
module MySqlPool {

  type Conn = nat

  /** held: the connection each worker has taken and not returned. */
  datatype State = State(available: seq<Conn>, held: map<nat, Conn>)

  function Start(count: nat): State {
    State(seq(count, i requires 0 <= i => i), map[])
  }

  datatype Event = Pop(w: nat) | Push(w: nat)

  /** A worker takes one connection at a time; Pop waits while there is none. */
  predicate Enabled(s: State, workers: nat, e: Event) {
    match e
    case Pop(w) => w < workers && w !in s.held && s.available != []
    case Push(w) => w in s.held
  }

  function Step(s: State, workers: nat, e: Event): State {
    if !Enabled(s, workers, e) then s
    else match e
      case Pop(w) => State(s.available[..|s.available| - 1], s.held[w := s.available[|s.available| - 1]])
      case Push(w) => State(s.available + [s.held[w]], s.held - {w})
  }

  function Run(count: nat, workers: nat, events: seq<Event>): State {
    if events == [] then Start(count)
    else Step(Run(count, workers, events[..|events| - 1]), workers, events[|events| - 1])
  }

  ghost predicate HeldBySome(s: State, c: Conn) {
    exists w :: w in s.held && s.held[w] == c
  }

  ghost predicate Inv(s: State, count: nat, workers: nat) {
    && |s.available| + |s.held| == count
    && (forall i, j | 0 <= i < j < |s.available| :: s.available[i] != s.available[j])
    && (forall v, w | v in s.held && w in s.held && v != w :: s.held[v] != s.held[w])
    && (forall w | w in s.held :: w < workers && s.held[w] !in s.available)
    && (forall c: Conn :: c < count <==> c in s.available || HeldBySome(s, c))
  }

  lemma PopMovesOne(s: State, workers: nat, w: nat, c: Conn)
    requires Enabled(s, workers, Pop(w))
    ensures var s', last := Step(s, workers, Pop(w)), s.available[|s.available| - 1];
      && (HeldBySome(s', c) <==> c == last || HeldBySome(s, c))
      && (c in s.available <==> c == last || c in s'.available)
  {
    var s', last := Step(s, workers, Pop(w)), s.available[|s.available| - 1];
    assert s.available == s'.available + [last];
    assert w in s'.held && s'.held[w] == last;
    if HeldBySome(s, c) {
      var v :| v in s.held && s.held[v] == c;
      assert v in s'.held && s'.held[v] == c;
    }
  }

  lemma PopKeepsInv(s: State, count: nat, workers: nat, w: nat)
    requires Inv(s, count, workers) && Enabled(s, workers, Pop(w))
    ensures Inv(Step(s, workers, Pop(w)), count, workers)
  {
    hide HeldBySome;
    var s' := Step(s, workers, Pop(w));
    assert s'.held.Keys == s.held.Keys + {w} && |s'.held| == |s'.held.Keys| && |s.held| == |s.held.Keys|;
    assert s.available == s'.available + [s'.held[w]];
    forall c: Conn ensures c < count <==> c in s'.available || HeldBySome(s', c) {
      PopMovesOne(s, workers, w, c);
    }
  }

  lemma PushMovesOne(s: State, workers: nat, w: nat, c: Conn)
    requires Enabled(s, workers, Push(w))
    requires forall v | v in s.held && v != w :: s.held[v] != s.held[w]
    ensures var s' := Step(s, workers, Push(w));
      && (HeldBySome(s', c) <==> c != s.held[w] && HeldBySome(s, c))
      && (c in s'.available <==> c == s.held[w] || c in s.available)
  {
    var s' := Step(s, workers, Push(w));
    assert s'.available[|s.available|] == s.held[w];
    if HeldBySome(s, c) && c != s.held[w] {
      var v :| v in s.held && s.held[v] == c;
      assert v in s'.held && s'.held[v] == c;
    }
  }

  lemma PushKeepsInv(s: State, count: nat, workers: nat, w: nat)
    requires Inv(s, count, workers) && Enabled(s, workers, Push(w))
    ensures Inv(Step(s, workers, Push(w)), count, workers)
  {
    var s' := Step(s, workers, Push(w));
    assert s'.held.Keys == s.held.Keys - {w} && |s'.held| == |s'.held.Keys| && |s.held| == |s.held.Keys|;
    assert HeldBySome(s, s.held[w]);
    forall c: Conn ensures c < count <==> c in s'.available || HeldBySome(s', c) {
      PushMovesOne(s, workers, w, c);
    }
  }

  lemma StepKeepsInv(s: State, count: nat, workers: nat, e: Event)
    requires Inv(s, count, workers)
    ensures Inv(Step(s, workers, e), count, workers)
  {
    if Enabled(s, workers, e) {
      match e
      case Pop(w) => PopKeepsInv(s, count, workers, w);
      case Push(w) => PushKeepsInv(s, count, workers, w);
    }
  }

  lemma {:induction false} RunKeepsInv(count: nat, workers: nat, events: seq<Event>)
    ensures Inv(Run(count, workers, events), count, workers)
  {
    if events == [] {
      forall c: Conn | c < count ensures c in Start(count).available {
        assert Start(count).available[c] == c;
      }
    } else {
      RunKeepsInv(count, workers, events[..|events| - 1]);
      StepKeepsInv(Run(count, workers, events[..|events| - 1]), count, workers, events[|events| - 1]);
    }
  }

  /** Over any run, every connection is either idle, in one place, or held by exactly one
      worker. */
  lemma ConnectionsConserved(count: nat, workers: nat, events: seq<Event>, c: Conn)
    ensures var s := Run(count, workers, events);
      && |s.available| + |s.held| == count
      && (c < count <==> c in s.available || HeldBySome(s, c))
      && !(c in s.available && HeldBySome(s, c))
      && (forall v, w | v in s.held && w in s.held && s.held[v] == c == s.held[w] :: v == w)
      && (forall i, j | 0 <= i < j < |s.available| :: !(s.available[i] == c == s.available[j]))
  {
    RunKeepsInv(count, workers, events);
  }

  /** The connection given back last is the next one taken, whoever takes it; and the pool is
      then as it was. */
  lemma LastReturnedIsNext(s: State, workers: nat, w: nat, v: nat)
    requires w in s.held && v < workers && (v == w || v !in s.held)
    ensures var t := Step(Step(s, workers, Push(w)), workers, Pop(v));
      v in t.held && t.held[v] == s.held[w] && t.available == s.available
  {
    var t := Step(s, workers, Push(w));
    assert Enabled(t, workers, Pop(v));
  }

  function Below(n: nat): (r: set<nat>)
    ensures |r| == n && forall k: nat :: k in r <==> k < n
  {
    if n == 0 then {} else Below(n - 1) + {n - 1}
  }

  lemma KeysBelow(keys: set<nat>, n: nat, w: nat)
    requires (forall k | k in keys :: k < n) && w < n && w !in keys
    ensures |keys| < n
  {
    assert keys + {w} <= Below(n);
    assert |Below(n) - (keys + {w})| == |Below(n)| - |keys + {w}|;
  }

  predicate FindsConnection(s: State, workers: nat) {
    forall w | 0 <= w < workers && w !in s.held :: s.available != []
  }

  lemma RunOneMore(count: nat, workers: nat, events: seq<Event>, e: Event)
    ensures Run(count, workers, events + [e]) == Step(Run(count, workers, events), workers, e)
  {
    hide Step;
    assert (events + [e])[..|events|] == events;
  }

  lemma PopLowers(s: State, workers: nat, w: nat)
    requires w < workers && w !in s.held && s.available != []
    ensures var s' := Step(s, workers, Pop(w));
      |s'.available| == |s.available| - 1 && forall v :: v in s'.held <==> v in s.held || v == w
  {
  }

  lemma {:induction false} TakenByTheFirst(count: nat, workers: nat, n: nat) returns (events: seq<Event>)
    requires n <= count && n <= workers
    ensures var s := Run(count, workers, events);
      |s.available| == count - n && forall w: nat :: w in s.held <==> w < n
  {
    hide Run, Step;
    if n == 0 {
      events := [];
      RunNothing(count, workers);
    } else {
      var before := TakenByTheFirst(count, workers, n - 1);
      events := before + [Pop(n - 1)];
      RunOneMore(count, workers, before, Pop(n - 1));
      PopLowers(Run(count, workers, before), workers, n - 1);
    }
  }

  lemma RunNothing(count: nat, workers: nat)
    ensures Run(count, workers, []) == Start(count)
  {
  }

  /** A worker that wants a connection finds one in every reachable state exactly when there
      are at least as many connections as workers. */
  lemma NeverWaitsIff(count: nat, workers: nat)
    ensures (forall events :: FindsConnection(Run(count, workers, events), workers)) <==> workers <= count
  {
    hide Run, Inv;
    if workers <= count {
      forall events ensures FindsConnection(Run(count, workers, events), workers) {
        RunKeepsInv(count, workers, events);
        EnoughForAll(Run(count, workers, events), count, workers);
      }
    } else {
      var events := TakenByTheFirst(count, workers, count);
      assert count !in Run(count, workers, events).held;
      assert !FindsConnection(Run(count, workers, events), workers);
    }
  }

  lemma EnoughForAll(s: State, count: nat, workers: nat)
    requires Inv(s, count, workers) && workers <= count
    ensures FindsConnection(s, workers)
  {
    hide HeldBySome;
    forall w | 0 <= w < workers && w !in s.held ensures s.available != [] {
      KeysBelow(s.held.Keys, workers, w);
      assert |s.held.Keys| == |s.held|;
    }
  }

  const DATA_HANDLER_THREADS := 8
  const CONNECTIONS := DATA_HANDLER_THREADS + 1

  /** With the configured sizes no data-handling worker ever waits for a connection. */
  lemma ConfiguredNeverWaits(events: seq<Event>, w: nat)
    requires w < DATA_HANDLER_THREADS && w !in Run(CONNECTIONS, DATA_HANDLER_THREADS, events).held
    ensures Run(CONNECTIONS, DATA_HANDLER_THREADS, events).available != []
  {
    NeverWaitsIff(CONNECTIONS, DATA_HANDLER_THREADS);
    assert FindsConnection(Run(CONNECTIONS, DATA_HANDLER_THREADS, events), DATA_HANDLER_THREADS);
  }

  /** The pool's own vector. The methods are its locked sections, by the worker that calls. */
  class MySqlPool {
    var mySqlVector: seq<Conn>
    const count: nat
    ghost const workers: nat
    ghost var events: seq<Event>

    ghost function State(): State
      reads this
    {
      Run(count, workers, events)
    }

    ghost predicate Valid()
      reads this
    {
      mySqlVector == State().available
    }

    constructor (count: int, ghost workers: nat)
      ensures Valid() && events == [] && this.workers == workers
      ensures this.count == if count <= 0 then 1 else count
    {
      var n := if count <= 0 then 1 else count;
      this.count := n;
      this.workers := workers;
      events, mySqlVector := [], [];
      new;
      for i := 0 to n
        invariant mySqlVector == Start(n).available[..i] && events == []
      {
        mySqlVector := mySqlVector + [i];
      }
    }

    /** The locked section of Pop: the last connection, or nothing as long as it must wait. */
    method Pop(ghost w: nat) returns (mySql: Conn, got: bool)
      requires Valid() && w < workers && w !in State().held
      modifies this
      ensures Valid() && (got <==> old(mySqlVector) != [])
      ensures got ==> events == old(events) + [Event.Pop(w)] && State().held == old(State()).held[w := mySql]
      ensures got ==> old(mySqlVector) == mySqlVector + [mySql]
      ensures !got ==> mySqlVector == old(mySqlVector) && events == old(events)
    {
      hide Run;
      if mySqlVector == [] {
        return 0, false;
      }
      RunOneMore(count, workers, events, Event.Pop(w));
      mySql, got := mySqlVector[|mySqlVector| - 1], true;
      mySqlVector := mySqlVector[..|mySqlVector| - 1];
      events := events + [Event.Pop(w)];
    }

    method Push(mySql: Conn, ghost w: nat)
      requires Valid() && w in State().held && State().held[w] == mySql
      modifies this
      ensures Valid() && events == old(events) + [Event.Push(w)] && State().held == old(State()).held - {w}
      ensures mySqlVector == old(mySqlVector) + [mySql]
    {
      hide Run;
      RunOneMore(count, workers, events, Event.Push(w));
      mySqlVector := mySqlVector + [mySql];
      events := events + [Event.Push(w)];
    }

    /** What holds of all runs holds of the object: with a connection for every worker, Pop
        always gets one. */
    lemma NeverWaits(w: nat)
      requires Valid() && workers <= count && w < workers && w !in State().held
      ensures mySqlVector != []
    {
      hide Run;
      NeverWaitsIff(count, workers);
      assert FindsConnection(Run(count, workers, events), workers);
    }

    /** Nor is a connection ever lost or held twice. */
    lemma Conserved(c: Conn)
      requires Valid()
      ensures |mySqlVector| + |State().held| == count
      ensures c < count <==> c in mySqlVector || HeldBySome(State(), c)
      ensures !(c in mySqlVector && HeldBySome(State(), c))
    {
      hide Run;
      ConnectionsConserved(count, workers, events, c);
    }
  }
}
