/** The worker pool: a task queue under one mutex and workers that take tasks until the pool
    is being destroyed and the queue is empty. */
module ThreadPool {
  import opened Counting

  type Task(==, 0) = nat

  /** Taken: a task was dequeued and the counter not yet lowered. Running: counted as busy,
      its call not finished. Finished: the counter not yet raised again. */
  datatype Worker = Idle | Taken(task: Task) | Running(task: Task) | Finished | Exited

  /** added, taken: every task ever queued and every task ever dequeued, in order.
      completed: the tasks whose call has returned. */
  datatype State = State(queue: seq<Task>, workers: seq<Worker>, available: int, destroyed: bool,
                         added: seq<Task>, taken: seq<Task>, completed: multiset<Task>)

  function Start(count: nat): State {
    State([], seq(if count < 1 then 1 else count, _ => Idle), if count < 1 then 1 else count, false, [], [], multiset{})
  }

  /** Add by a caller outside the pool, AddBy from inside a running task. Dequeue and Exit
      are the two ways out of a worker's locked section. */
  datatype Event =
    | Add(task: Task)
    | AddBy(w: nat, task: Task)
    | Destroy
    | Dequeue(w: nat)
    | Lower(w: nat)
    | Return(w: nat)
    | Raise(w: nat)
    | Exit(w: nat)

  function Push(s: State, t: Task): State {
    s.(queue := s.queue + [t], added := s.added + [t])
  }

  function Become(s: State, w: nat, x: Worker): State
    requires w < |s.workers|
  {
    s.(workers := s.workers[w := x])
  }

  predicate Enabled(s: State, e: Event) {
    match e
    case Add(_) => !s.destroyed
    case AddBy(w, _) => w < |s.workers| && s.workers[w].Running?
    case Destroy => true
    case Dequeue(w) => w < |s.workers| && s.workers[w] == Idle && s.queue != []
    case Lower(w) => w < |s.workers| && s.workers[w].Taken?
    case Return(w) => w < |s.workers| && s.workers[w].Running?
    case Raise(w) => w < |s.workers| && s.workers[w] == Finished
    case Exit(w) => w < |s.workers| && s.workers[w] == Idle && s.queue == [] && s.destroyed
  }

  function Step(s: State, e: Event): State {
    if !Enabled(s, e) then s
    else match e
      case Add(t) => Push(s, t)
      case AddBy(w, t) => Push(s, t)
      case Destroy => s.(destroyed := true)
      case Dequeue(w) =>
        Become(s, w, Taken(s.queue[0])).(queue := s.queue[1..], taken := s.taken + [s.queue[0]])
      case Lower(w) => Become(s, w, Running(s.workers[w].task)).(available := s.available - 1)
      case Return(w) => Become(s, w, Finished).(completed := s.completed + multiset{s.workers[w].task})
      case Raise(w) => Become(s, w, Idle).(available := s.available + 1)
      case Exit(w) => Become(s, w, Exited)
  }

  function Run(count: nat, events: seq<Event>): State {
    if events == [] then Start(count) else Step(Run(count, events[..|events| - 1]), events[|events| - 1])
  }

  // Counting over the workers.

  predicate Holds(x: Worker, t: Task) {
    (x.Taken? || x.Running?) && x.task == t
  }

  /** Workers that have t in hand. */
  function InHand(ws: seq<Worker>, t: Task): nat {
    if ws == [] then 0 else One(Holds(ws[0], t)) + InHand(ws[1..], t)
  }

  predicate IsBusy(x: Worker) {
    x.Running? || x.Finished?
  }

  /** Workers between their decrement and their increment of the counter. */
  function Busy(ws: seq<Worker>): nat {
    if ws == [] then 0 else One(IsBusy(ws[0])) + Busy(ws[1..])
  }

  lemma {:induction false} UpdateInHand(ws: seq<Worker>, w: nat, x: Worker, t: Task)
    requires w < |ws|
    ensures InHand(ws[w := x], t) + One(Holds(ws[w], t)) == InHand(ws, t) + One(Holds(x, t))
    decreases |ws|
  {
    if w > 0 {
      UpdateInHand(ws[1..], w - 1, x, t);
      assert ws[w := x][1..] == ws[1..][w - 1 := x];
    } else {
      assert ws[w := x][1..] == ws[1..];
    }
  }

  lemma {:induction false} UpdateBusy(ws: seq<Worker>, w: nat, x: Worker)
    requires w < |ws|
    ensures Busy(ws[w := x]) + One(IsBusy(ws[w])) == Busy(ws) + One(IsBusy(x))
    decreases |ws|
  {
    if w > 0 {
      UpdateBusy(ws[1..], w - 1, x);
      assert ws[w := x][1..] == ws[1..][w - 1 := x];
    } else {
      assert ws[w := x][1..] == ws[1..];
    }
  }

  lemma {:induction false} AllIdle(ws: seq<Worker>, t: Task)
    requires forall w | 0 <= w < |ws| :: ws[w] == Idle || ws[w] == Exited
    ensures InHand(ws, t) == 0 && Busy(ws) == 0
  {
    if ws != [] {
      AllIdle(ws[1..], t);
    }
  }

  predicate AllExited(ws: seq<Worker>) {
    forall w | 0 <= w < |ws| :: ws[w] == Exited
  }

  /** Every dequeued task is completed or in one worker's hands. */
  predicate TaskInv(s: State, t: Task) {
    multiset(s.taken)[t] == s.completed[t] + InHand(s.workers, t)
  }

  ghost predicate Inv(s: State) {
    && |s.workers| >= 1
    && s.taken + s.queue == s.added
    && (forall t :: TaskInv(s, t))
    && s.available == |s.workers| - Busy(s.workers)
    && (forall w | 0 <= w < |s.workers| :: s.workers[w] == Exited ==> s.destroyed)
    && (AllExited(s.workers) ==> s.queue == [])
  }

  lemma PushKeepsInv(s: State, t: Task)
    requires Inv(s) && !AllExited(s.workers)
    ensures Inv(Push(s, t))
  {
    assert s.taken + (s.queue + [t]) == s.taken + s.queue + [t];
    forall u ensures TaskInv(Push(s, t), u) {
      assert TaskInv(s, u);
    }
  }

  lemma StepKeepsTask(s: State, e: Event, t: Task)
    requires TaskInv(s, t)
    ensures TaskInv(Step(s, e), t)
  {
    if Enabled(s, e) && !e.Add? && !e.AddBy? && !e.Destroy? {
      UpdateInHand(s.workers, e.w, Step(s, e).workers[e.w], t);
    }
  }

  /** What a worker's step does to the rest of the invariant. */
  lemma WorkerStepKeepsInv(s: State, e: Event)
    requires Inv(s) && Enabled(s, e) && !e.Add? && !e.AddBy? && !e.Destroy?
    ensures Inv(Step(s, e))
  {
    hide TaskInv;
    var s', w := Step(s, e), e.w;
    UpdateBusy(s.workers, w, s'.workers[w]);
    forall t ensures TaskInv(s', t) {
      assert TaskInv(s, t);
      StepKeepsTask(s, e, t);
    }
    if e.Dequeue? {
      assert s.taken + [s.queue[0]] + s.queue[1..] == s.taken + s.queue;
    }
    assert !e.Exit? ==> s'.workers[w] != Exited;
  }

  lemma StepKeepsInv(s: State, e: Event)
    requires Inv(s)
    ensures Inv(Step(s, e))
  {
    if Enabled(s, e) {
      match e
      case Add(t) =>
        assert s.workers[0] != Exited;
        PushKeepsInv(s, t);
      case AddBy(w, t) => PushKeepsInv(s, t);
      case Destroy =>
        forall t ensures TaskInv(Step(s, e), t) {
          assert TaskInv(s, t);
        }
      case _ => WorkerStepKeepsInv(s, e);
    }
  }

  lemma {:induction false} RunKeepsInv(count: nat, events: seq<Event>)
    ensures Inv(Run(count, events))
  {
    if events == [] {
      forall t ensures TaskInv(Start(count), t) {
        AllIdle(Start(count).workers, t);
      }
      AllIdle(Start(count).workers, 0);
      assert Start(count).workers[0] == Idle;
    } else {
      RunKeepsInv(count, events[..|events| - 1]);
      StepKeepsInv(Run(count, events[..|events| - 1]), events[|events| - 1]);
    }
  }

  /** In every interleaving the tasks dequeued, followed by the queue, are the tasks added, in
      order; each task is, as often as it was added, completed, in a worker's hands or
      queued; and the counter is the number of workers not between its two updates. */
  lemma TasksConserved(count: nat, events: seq<Event>, t: Task)
    ensures var s := Run(count, events);
      && s.taken + s.queue == s.added
      && multiset(s.added)[t] == s.completed[t] + InHand(s.workers, t) + multiset(s.queue)[t]
      && s.available == |s.workers| - Busy(s.workers)
  {
    RunKeepsInv(count, events);
    var s := Run(count, events);
    assert TaskInv(s, t);
    assert multiset(s.taken + s.queue)[t] == multiset(s.taken)[t] + multiset(s.queue)[t];
  }

  /** When all workers have gone, every task ever added has been completed, each as often as
      it was added. */
  lemma ShutdownRunsEverything(count: nat, events: seq<Event>)
    ensures var s := Run(count, events);
      AllExited(s.workers) ==> s.queue == [] && s.completed == multiset(s.added) && s.available == |s.workers|
  {
    RunKeepsInv(count, events);
    var s := Run(count, events);
    if AllExited(s.workers) {
      forall t: Task ensures s.completed[t] == multiset(s.added)[t] {
        TasksConserved(count, events, t);
        AllIdle(s.workers, t);
      }
      AllIdle(s.workers, 0);
    }
  }

  /** A task that was added once is, at any time, completed at most once and never both
      completed and in a worker's hands, nor in two workers' hands. */
  lemma RunAtMostOnce(count: nat, events: seq<Event>, t: Task)
    requires var s := Run(count, events); forall i, j | 0 <= i < j < |s.added| :: !(s.added[i] == t == s.added[j])
    ensures var s := Run(count, events); s.completed[t] + InHand(s.workers, t) <= 1
  {
    TasksConserved(count, events, t);
    DistinctOnce(Run(count, events).added, t);
  }

  lemma {:induction false} DistinctOnce(ts: seq<Task>, t: Task)
    requires forall i, j | 0 <= i < j < |ts| :: !(ts[i] == t == ts[j])
    ensures multiset(ts)[t] <= 1
  {
    if ts != [] {
      assert ts == [ts[0]] + ts[1..];
      if ts[0] == t {
        assert t !in ts[1..];
      } else {
        DistinctOnce(ts[1..], t);
      }
    }
  }

  lemma StepKeepsSize(s: State, e: Event)
    ensures |Step(s, e).workers| == |s.workers|
  {
  }

  lemma RunOneMore(count: nat, events: seq<Event>, e: Event)
    ensures Run(count, events + [e]) == Step(Run(count, events), e)
  {
    hide Step;
    assert (events + [e])[..|events|] == events;
  }

  /** Who adds a task: code outside the pool, or the task worker w is running. */
  datatype Caller = Outside | Inside(w: nat)

  function Adding(caller: Caller, task: Task): Event {
    match caller
    case Outside => Add(task)
    case Inside(w) => AddBy(w, task)
  }

  /** The pool's own fields. The methods are its atomic sections and the worker's loop over
      them; state is that of some run. */
  class ThreadPool {
    var taskQueue: seq<Task>
    var isDestroy: bool
    var availableThreadCount: int
    const count: nat
    ghost var state: State
    ghost var events: seq<Event>

    ghost predicate Valid()
      reads this
    {
      && Inv(state) && state == Run(count, events)
      && taskQueue == state.queue && isDestroy == state.destroyed
      && availableThreadCount == state.available && |state.workers| == count
    }

    ghost predicate Is(w: nat, x: Worker)
      reads this
    {
      w < |state.workers| && state.workers[w] == x
    }

    constructor (count: nat)
      ensures Valid() && state == Start(count) && availableThreadCount == this.count
      ensures this.count == (if count < 1 then 1 else count) && taskQueue == [] && !isDestroy
    {
      var n := if count < 1 then 1 else count;
      this.count := n;
      taskQueue, isDestroy, availableThreadCount := [], false, n;
      state, events := Start(count), [];
      new;
      RunKeepsInv(count, []);
    }

    method AddTask(task: Task, ghost caller: Caller)
      requires Valid() && Enabled(state, Adding(caller, task))
      modifies this
      ensures Valid() && state == Step(old(state), Adding(caller, task))
      ensures taskQueue == old(taskQueue) + [task]
    {
      hide Inv, Run;
      taskQueue := taskQueue + [task];
      Advance(Adding(caller, task));
    }

    /** The pool's run goes on by one event. */
    ghost method Advance(e: Event)
      requires Inv(state) && state == Run(count, events)
      modifies this`state, this`events
      ensures state == Step(old(state), e) && events == old(events) + [e]
      ensures Inv(state) && state == Run(count, events) && |state.workers| == old(|state.workers|)
    {
      hide Inv, Run;
      StepKeepsInv(state, e);
      StepKeepsSize(state, e);
      RunOneMore(count, events, e);
      state, events := Step(state, e), events + [e];
    }

    method Destroy()
      requires Valid()
      modifies this
      ensures Valid() && state == Step(old(state), Event.Destroy)
    {
      hide Inv, Run;
      isDestroy := true;
      Advance(Event.Destroy);
    }

    /** A worker's locked section. It waits (nothing happens) while the queue is empty and the
        pool alive; leaves for good only on an empty queue; else takes the oldest task. */
    method TakeSection(w: nat) returns (task: Task, got: bool, exit: bool)
      requires Valid() && Is(w, Idle)
      modifies this
      ensures Valid() && !(got && exit)
      ensures got <==> old(taskQueue) != []
      ensures got ==>
        && task == old(taskQueue)[0] && taskQueue == old(taskQueue)[1..] && Is(w, Taken(task))
        && state == Step(old(state), Dequeue(w))
      ensures exit <==> old(taskQueue) == [] && isDestroy
      ensures exit ==> state == Step(old(state), Exit(w)) && Is(w, Exited)
      ensures !got ==> taskQueue == old(taskQueue) && (!exit ==> state == old(state))
      ensures isDestroy == old(isDestroy) && availableThreadCount == old(availableThreadCount)
    {
      hide Inv, Run;
      task, got, exit := 0, false, false;
      if !(taskQueue != [] || isDestroy) {
        return;
      }
      if taskQueue == [] {
        if isDestroy {
          exit := true;
          Advance(Exit(w));
        }
        return;
      }
      Advance(Dequeue(w));
      task, got := taskQueue[0], true;
      taskQueue := taskQueue[1..];
    }

    /** --m_AvailableThreadCount, an atomic step of its own. */
    method LowerAvailable(w: nat, ghost task: Task)
      requires Valid() && Is(w, Taken(task))
      modifies this`availableThreadCount, this`state, this`events
      ensures Valid() && state == Step(old(state), Lower(w)) && Is(w, Running(task))
      ensures availableThreadCount == old(availableThreadCount) - 1
    {
      hide Inv, Run;
      availableThreadCount := availableThreadCount - 1;
      Advance(Lower(w));
    }

    /** The call of the task, which may add any number of others: more stands for them. It is
        completed when it returns. */
    method RunTask(w: nat, task: Task, more: seq<Task>)
      requires Valid() && Is(w, Running(task))
      modifies this`taskQueue, this`state, this`events
      ensures Valid() && Is(w, Finished)
      ensures taskQueue == old(taskQueue) + more
      ensures state.completed == old(state).completed + multiset{task}
      ensures state.added == old(state).added + more && state.taken == old(state).taken
      ensures isDestroy == old(isDestroy) && availableThreadCount == old(availableThreadCount)
    {
      hide Inv, Step, Run;
      AddAll(w, task, more);
      Returned(w, task);
      Advance(Return(w));
    }

    method AddAll(w: nat, ghost task: Task, more: seq<Task>)
      requires Valid() && Is(w, Running(task))
      modifies this`taskQueue, this`state, this`events
      ensures Valid() && Is(w, Running(task))
      ensures taskQueue == old(taskQueue) + more
      ensures state == old(state).(queue := old(state).queue + more, added := old(state).added + more)
    {
      hide Inv, Run;
      assert more[..0] == [];
      for i := 0 to |more|
        invariant Valid() && Is(w, Running(task))
        invariant taskQueue == old(taskQueue) + more[..i]
        invariant state == old(state).(queue := old(state).queue + more[..i], added := old(state).added + more[..i])
      {
        assert more[..i + 1] == more[..i] + [more[i]];
          taskQueue := taskQueue + [more[i]];
        Advance(AddBy(w, more[i]));
      }
      assert more[..|more|] == more;
    }

    lemma Returned(w: nat, task: Task)
      requires Is(w, Running(task))
      ensures Step(state, Return(w)) ==
        state.(workers := state.workers[w := Finished], completed := state.completed + multiset{task})
    {
    }

    method RaiseAvailable(w: nat)
      requires Valid() && Is(w, Finished)
      modifies this`availableThreadCount, this`state, this`events
      ensures Valid() && state == Step(old(state), Raise(w)) && Is(w, Idle)
      ensures availableThreadCount == old(availableThreadCount) + 1
    {
      hide Inv, Run;
      availableThreadCount := availableThreadCount + 1;
      Advance(Raise(w));
    }

    /** One round of Work: take, lower, call, raise. more is what the task adds, if one is
        taken. */
    method Round(w: nat, more: seq<Task>) returns (task: Task, got: bool, exit: bool)
      requires Valid() && Is(w, Idle)
      modifies this
      ensures Valid() && Is(w, if exit then Exited else Idle)
      ensures got <==> old(taskQueue) != []
      ensures exit <==> old(taskQueue) == [] && old(isDestroy)
      ensures isDestroy == old(isDestroy) && availableThreadCount == old(availableThreadCount)
      ensures got ==>
        && task == old(taskQueue)[0] && taskQueue == old(taskQueue)[1..] + more
        && state.completed == old(state).completed + multiset{task}
        && state.added == old(state).added + more
      ensures !got ==> taskQueue == [] && state.completed == old(state).completed && state.added == old(state).added
    {
      hide Inv, Run;
      task, got, exit := TakeSection(w);
      if got {
        LowerAvailable(w, task);
        RunTask(w, task, more);
        RaiseAvailable(w);
      }
    }

    /** Work, as long as there is something to do and the tasks add nothing: every task queued
        is completed, in order of the queue; then the worker is gone if the pool is being
        destroyed, and else waits. */
    method Work(w: nat) returns (exit: bool)
      requires Valid() && Is(w, Idle)
      modifies this
      ensures Valid() && taskQueue == [] && (exit <==> old(isDestroy)) && Is(w, if exit then Exited else Idle)
      ensures state.completed == old(state).completed + multiset(old(taskQueue))
      ensures state.added == old(state).added && availableThreadCount == old(availableThreadCount)
    {
      hide Inv, Run;
      var got := true;
      exit := false;
      ghost var done: seq<Task> := [];
      while got
        invariant Valid() && Is(w, if exit then Exited else Idle)
        invariant old(taskQueue) == done + taskQueue
        invariant state.completed == old(state).completed + multiset(done) && state.added == old(state).added
        invariant isDestroy == old(isDestroy) && availableThreadCount == old(availableThreadCount)
        invariant if got then !exit else taskQueue == [] && exit == isDestroy
        decreases got, |taskQueue|
      {
        ghost var before := taskQueue;
        var task;
        task, got, exit := Round(w, []);
        if got {
          assert before == [task] + taskQueue;
          assert done + before == (done + [task]) + taskQueue;
          done := done + [task];
        }
      }
      assert done + [] == done;
    }

    /** What holds of all runs holds of the object: once the workers are gone, no task is left. */
    lemma NothingLeft()
      requires Valid() && AllExited(state.workers)
      ensures taskQueue == [] && state.completed == multiset(state.added) && availableThreadCount == count
    {
      hide Run, Inv;
      ShutdownRunsEverything(count, events);
    }
  }
}
