// The handshake between Schedule, the executor thread and the pool, for a pool of at most one
// executor and no minimum: frameworks/native/include/executor_pool.h, executor.h and pool.h.
// Each transition is what one thread does between two points where another may run.
module Scheduler {
  import PriorityQueue
  import opened Options
  import opened Pool

  type Queue = PriorityQueue.Queue
  type Task = PriorityQueue.InnerTask
  type Exec = nat

  const INVALID_TASK := PriorityQueue.InnerTask(0, 0, PriorityQueue.UINT64_COUNT - 1, PriorityQueue.INVALID_TASK_ID)

  /** Where the executor's thread is in Run. */
  datatype Pc =
    | WaitForWork      // in the first wait: the executor's mutex is released
    | TestQueue        // at the test of the inner loop, with the mutex
    | Popping          // in Pop, which waits for a due task with the mutex held
    | Executing(task: Task)  // running a task, without the mutex
    | Finishing(task: Task)  // about to call Finish, with the mutex
    | CallIdle         // in idle_, waiting for mtx_
    | IdleTest         // in idle_ with mtx_, about to read the queue's size
    | ClearScheduler   // the size was 0
    | PoolIdle         // scheduler_ is null, about to call pool_.Idle
    | LeaveIdle        // about to release mtx_ and return true
    | ResetWaits       // about to set waits_ to null, with the mutex
    | TimedWait        // in wait_until: the mutex is released
    | CallRelease      // timed out, about to call release_, with the mutex
    | Stopped
  {
    predicate HoldsMutex() {
      TestQueue? || Popping? || Finishing? || CallIdle? || IdleTest? || ClearScheduler? || PoolIdle? || LeaveIdle?
      || ResetWaits? || CallRelease?
    }

    predicate HoldsMtx() {
      IdleTest? || ClearScheduler? || PoolIdle? || LeaveIdle?
    }
  }

  datatype Executor = Executor(pc: Pc, waits: bool)

  /** Who holds mtx_: nobody, an executor in its idle callback, or a Schedule call in its locked section. */
  datatype Mtx = Free | Idling(e: Exec) | Checking | Binding(e: Exec) | Unlocking

  datatype State = State(
    queue: Queue,
    pool: View<Exec>,
    scheduler: Option<Exec>,
    mtx: Mtx,
    execs: map<Exec, Executor>,
    pending: nat) // Schedule calls between their Push and the lock of mtx_
  {
    predicate InSchedule() {
      pending > 0 || mtx.Checking? || mtx.Binding? || mtx.Unlocking?
    }

    predicate At(e: Exec, pc: Pc) {
      e in execs && execs[e].pc == pc
    }

    function Go(e: Exec, pc: Pc): State
      requires e in execs
    {
      this.(execs := execs[e := execs[e].(pc := pc)])
    }
  }

  const INITIAL := State(PriorityQueue.Queue(map[], map[], 0), View([], []), None, Free, map[], 0)

  datatype Label =
    // a call of Schedule
    | Push(task: Task, due: int) | Lock | Check(got: Exec) | Bind | Unlock
    // other callers of the queue
    | Remove(id: nat, wait: bool) | Reset(id: nat, interval: int, now: int)
    // the executor's thread
    | Wake(e: Exec) | Test(e: Exec) | Pop(e: Exec, now: int, popped: PriorityQueue.PopStep)
    | Run(e: Exec, task: Task) | Finish(e: Exec, id: nat, now: int) | EnterIdle(e: Exec) | TestIdle(e: Exec) | Clear(e: Exec) | Idle(e: Exec) | Leave(e: Exec)
    | Forget(e: Exec) | Timeout(e: Exec) | Release(e: Exec)

  ghost predicate Next(s: State, l: Label, t: State) {
    match l
    case Push(task, due) =>
      && task.Valid() && s.queue.Fresh(task.taskId)
      && t == s.(queue := s.queue.Insert(task.taskId, task, due), pending := s.pending + 1)
    case Lock => s.pending > 0 && s.mtx == Free && t == s.(mtx := Checking, pending := s.pending - 1)
    case Check(e) =>
      && s.mtx == Checking
      && if s.scheduler.Some? then t == s.(mtx := Unlocking) else GetExecutor(s, e, t)
    case Bind =>
      && s.mtx.Binding? && s.mtx.e in s.execs && !s.execs[s.mtx.e].pc.HoldsMutex()
      && t == s.(mtx := Unlocking, execs := s.execs[s.mtx.e := s.execs[s.mtx.e].(waits := true)])
    case Unlock => s.mtx == Unlocking && t == s.(mtx := Free)
    case Remove(id, wait) => (wait ==> id !in s.queue.running) && t == s.(queue := s.queue.Remove(id))
    case Reset(id, interval, now) => t == s.(queue := s.queue.Reset(id, interval, now))
    case Wake(e) => (s.At(e, WaitForWork) || s.At(e, TimedWait)) && s.execs[e].waits && t == s.Go(e, TestQueue)
    case Test(e) =>
      && s.At(e, TestQueue)
      && t == s.Go(e, if s.execs[e].waits && s.queue.waiting != map[] then Popping else CallIdle)
    case Pop(e, now, r) => s.At(e, Popping) && PopTask(s, e, now, r, t)
    case Run(e, task) => s.At(e, Executing(task)) && t == s.Go(e, Finishing(task))
    case Finish(e, id, now) =>
      && e in s.execs && s.execs[e].pc.Finishing? && id == s.execs[e].pc.task.taskId
      && t == s.Go(e, TestQueue).(queue := s.queue.Finish(id, now))
    case EnterIdle(e) => s.At(e, CallIdle) && s.mtx == Free && t == s.Go(e, IdleTest).(mtx := Idling(e))
    case TestIdle(e) =>
      && s.At(e, IdleTest)
      && t == if s.queue.waiting != map[] then AfterRefusedIdle(s, e) else s.Go(e, ClearScheduler)
    case Clear(e) => s.At(e, ClearScheduler) && t == s.Go(e, PoolIdle).(scheduler := None)
    case Idle(e) => s.At(e, PoolIdle) && t == s.Go(e, LeaveIdle).(pool := s.pool.Idle(e))
    case Leave(e) => s.At(e, LeaveIdle) && t == s.Go(e, ResetWaits).(mtx := Free)
    case Forget(e) => s.At(e, ResetWaits) && t == s.(execs := s.execs[e := Executor(TimedWait, false)])
    case Timeout(e) => s.At(e, TimedWait) && !s.execs[e].waits && t == s.Go(e, CallRelease)
    case Release(e) =>
      && s.At(e, CallRelease)
      && t == if s.pool.CanRelease(e, false, 0) then s.Go(e, Stopped).(pool := s.pool.Release(e)) else s.Go(e, WaitForWork)
  }

  /** The refused callback releases mtx_; `continue` re-tests waits_ without giving up the mutex, and
      waits again only if it is null. */
  function AfterRefusedIdle(s: State, e: Exec): State
    requires e in s.execs
  {
    s.Go(e, if s.execs[e].waits then TestQueue else TimedWait).(mtx := Free)
  }

  /** pool_.Get(true) and the assignment of scheduler_; a new executor starts its thread at the first wait. */
  ghost predicate GetExecutor(s: State, e: Exec, t: State) {
    && (s.pool.idle == [] ==> e !in s.execs)
    && s.pool.CanGet(true, 1) && s.pool.GetTo(e, t.pool)
    && t == s.(pool := t.pool, scheduler := Some(e), mtx := Binding(e),
               execs := if e in s.execs then s.execs else s.execs[e := Executor(WaitForWork, false)])
  }

  ghost predicate PopTask(s: State, e: Exec, now: int, r: PriorityQueue.PopStep, t: State)
    requires e in s.execs
  {
    && s.queue.PopTo(now, r, t.queue)
    && match r
       case Empty => t == s.Go(e, Executing(INVALID_TASK))
       case WaitUntil(_) => t == s
       case Popped(entry) => t == s.Go(e, Executing(entry.task)).(queue := t.queue)
  }

  ghost predicate IsRun(labels: seq<Label>, ss: seq<State>) {
    && |ss| == |labels| + 1 && ss[0] == INITIAL
    && forall i :: 0 <= i < |labels| ==> Next(ss[i], labels[i], ss[i + 1])
  }

  // ----- the invariant

  /** The executor is attached to the queue: it has been bound, and unless it is about to clear the
      scheduler it will look at the queue again. */
  ghost predicate Attached(s: State, e: Exec) {
    e in s.execs && s.execs[e].waits && match s.execs[e].pc
      case WaitForWork | TimedWait | TestQueue | Popping | Executing(_) | Finishing(_) | CallIdle | IdleTest | ClearScheduler => true
      case _ => false
  }

  /** The executor has been taken from the pool and its Bind is about to happen. */
  ghost predicate AwaitsBind(s: State, e: Exec) {
    s.mtx == Binding(e) && e in s.execs && match s.execs[e].pc
      case WaitForWork | TimedWait | CallRelease => !s.execs[e].waits
      case ResetWaits => true
      case _ => false
  }

  /** The executor lies idle in the pool. */
  ghost predicate Resting(s: State, e: Exec) {
    e in s.execs && match s.execs[e].pc
      case LeaveIdle => s.mtx == Idling(e)
      case ResetWaits => true
      case TimedWait | CallRelease => !s.execs[e].waits
      case _ => false
  }

  function Live(s: State): Option<Exec> {
    if s.pool.idle != [] then Some(s.pool.idle[0]) else if s.pool.busy != [] then Some(s.pool.busy[0]) else None
  }

  /** The pool has at most one executor, and exactly that one is not stopped. */
  ghost predicate OneLive(s: State) {
    && s.pool.Size() <= 1
    && (forall e :: e in s.execs ==> (s.execs[e].pc.Stopped? <==> Live(s) != Some(e)))
    && (Live(s).Some? ==> Live(s).value in s.execs)
  }

  ghost predicate Phase(s: State) {
    match s.scheduler
    case Some(e) => s.pool == View([], [e]) && if s.mtx == Binding(e) then AwaitsBind(s, e) else Attached(s, e)
    case None => match Live(s)
      case None => true
      case Some(e) => if s.pool.busy != [] then s.At(e, PoolIdle) else Resting(s, e)
  }

  /** A waiting task without a scheduler has a Schedule call that will provide one. */
  ghost predicate Covered(s: State) {
    && (s.queue.waiting != map[] && s.scheduler.None? ==> s.pending > 0 || s.mtx.Checking?)
    && (Live(s).Some? && s.At(Live(s).value, ClearScheduler) && s.queue.waiting != map[] ==> s.pending > 0)
  }

  ghost predicate Locks(s: State) {
    && (Live(s).Some? && Live(s).value in s.execs ==>
          (s.execs[Live(s).value].pc.HoldsMtx() <==> s.mtx == Idling(Live(s).value)))
    && (s.mtx.Idling? ==> Live(s) == Some(s.mtx.e))
    && (s.mtx.Binding? ==> s.scheduler == Some(s.mtx.e))
    && (s.mtx.Unlocking? ==> s.scheduler.Some?)
  }

  ghost predicate Inv(s: State) {
    OneLive(s) && Phase(s) && Covered(s) && Locks(s)
  }

  lemma ScheduleKeepsInv(s: State, l: Label, t: State)
    requires Inv(s) && Next(s, l, t)
    requires l.Push? || l.Lock? || l.Unlock? || l.Remove? || l.Reset?
    ensures Inv(t)
  {
  }

  lemma ProvideKeepsInv(s: State, l: Label, t: State)
    requires Inv(s) && Next(s, l, t)
    requires l.Check? || l.Bind?
    ensures Inv(t)
  {
  }

  // The attached executor goes on working.
  lemma WorkKeepsInv(s: State, l: Label, t: State)
    requires Inv(s) && Next(s, l, t)
    requires l.Wake? || l.Test? || l.Pop? || l.Run? || l.Finish?
    ensures Inv(t)
  {
    WorkMoves(s, l, t);
    var e := l.e;
    var pc := t.execs[e].pc;
    hide Next;
    assert t == s.Go(e, pc).(queue := t.queue);
  }

  lemma WorkMoves(s: State, l: Label, t: State)
    requires Inv(s) && Next(s, l, t)
    requires l.Wake? || l.Test? || l.Pop? || l.Run? || l.Finish?
    ensures Live(s) == Some(l.e) && s.scheduler == Some(l.e) && s.mtx != Binding(l.e) && !s.execs[l.e].pc.HoldsMtx()
    ensures l.e in t.execs
    ensures var pc := t.execs[l.e].pc;
      && t == s.Go(l.e, pc).(queue := t.queue) && !pc.HoldsMtx() && Attached(t, l.e)
  {
    hide PopTask;
    assert Live(s) == Some(l.e);
    if l.Pop? {
      PopGoes(s, l.e, l.now, l.popped, t);
    }
  }

  lemma PopGoes(s: State, e: Exec, now: int, r: PriorityQueue.PopStep, t: State)
    requires s.At(e, Popping) && PopTask(s, e, now, r, t)
    ensures e in t.execs && (t.execs[e].pc == Popping || t.execs[e].pc.Executing?)
    ensures t == s.Go(e, t.execs[e].pc).(queue := t.queue)
  {
    assert s.Go(e, Popping) == s by {
      assert s.execs[e := s.execs[e]] == s.execs;
    }
    match r
    case Empty => assert t.queue == s.queue;
    case WaitUntil(_) =>
    case Popped(_) =>
  }

  lemma TestIdleKeepsInv(s: State, l: Label, t: State)
    requires Inv(s) && Next(s, l, t)
    requires l.EnterIdle? || l.TestIdle?
    ensures Inv(t)
  {
    assert Live(s) == Some(l.e);
  }

  lemma ClearKeepsInv(s: State, l: Label, t: State)
    requires Inv(s) && Next(s, l, t) && l.Clear?
    ensures Inv(t)
  {
    assert Live(s) == Some(l.e);
  }

  lemma IdleKeepsInv(s: State, l: Label, t: State)
    requires Inv(s) && Next(s, l, t)
    requires l.Idle? || l.Leave?
    ensures Inv(t)
  {
    assert Live(s) == Some(l.e);
  }

  lemma RestKeepsInv(s: State, l: Label, t: State)
    requires Inv(s) && Next(s, l, t)
    requires l.Forget? || l.Timeout?
    ensures Inv(t)
  {
    assert Live(s) == Some(l.e);
  }

  lemma ReleaseKeepsInv(s: State, l: Label, t: State)
    requires Inv(s) && Next(s, l, t) && l.Release?
    ensures Inv(t)
  {
    assert Live(s) == Some(l.e);
  }

  lemma NextKeepsInv(s: State, l: Label, t: State)
    requires Inv(s) && Next(s, l, t)
    ensures Inv(t)
  {
    hide Inv, Next;
    match l
    case Push(_, _) | Lock | Unlock | Remove(_, _) | Reset(_, _, _) => ScheduleKeepsInv(s, l, t);
    case Check(_) | Bind => ProvideKeepsInv(s, l, t);
    case Wake(_) | Test(_) | Pop(_, _, _) | Run(_, _) | Finish(_, _, _) => WorkKeepsInv(s, l, t);
    case EnterIdle(_) | TestIdle(_) => TestIdleKeepsInv(s, l, t);
    case Clear(_) => ClearKeepsInv(s, l, t);
    case Idle(_) | Leave(_) => IdleKeepsInv(s, l, t);
    case Forget(_) | Timeout(_) => RestKeepsInv(s, l, t);
    case Release(_) => ReleaseKeepsInv(s, l, t);
  }

  lemma {:induction false} RunKeepsInv(labels: seq<Label>, ss: seq<State>)
    requires IsRun(labels, ss)
    ensures Inv(ss[|labels|])
  {
    hide Next, Inv;
    if labels == [] {
      InitialInv();
    } else {
      var n := |labels| - 1;
      RunKeepsInv(labels[..n], ss[..n + 1]);
      NextKeepsInv(ss[n], labels[n], ss[n + 1]);
    }
  }

  lemma InitialInv()
    ensures Inv(INITIAL)
  {
  }

  // ----- what the handshake guarantees in every reachable state

  // If a task waits and no Schedule call is between its push and the end of its locked section, the
  // scheduler exists, is attached to the queue and will look at it again; and while a Bind is in progress, the executor it
  // is for has not been released and is not yet bound.
  lemma NoStrandedTask(labels: seq<Label>, ss: seq<State>)
    requires IsRun(labels, ss)
    ensures var s := ss[|labels|];
      && (s.queue.waiting != map[] && !s.InSchedule() ==>
            s.scheduler.Some? && Attached(s, s.scheduler.value) && !s.At(s.scheduler.value, ClearScheduler))
      && (s.queue.waiting != map[] && s.scheduler.None? ==> s.pending > 0 || s.mtx.Checking?)
      && (s.mtx.Binding? ==> s.scheduler == Some(s.mtx.e) && AwaitsBind(s, s.mtx.e))
  {
    RunKeepsInv(labels, ss);
  }

  // Two executors are never alive together, so two tasks never run at the same time; and outside the
  // idle callback a null scheduler means an empty busy list.
  lemma SerialExecution(labels: seq<Label>, ss: seq<State>, e: Exec, f: Exec)
    requires IsRun(labels, ss)
    ensures var s := ss[|labels|];
      && s.pool.Size() <= 1
      && (e in s.execs && f in s.execs && !s.execs[e].pc.Stopped? && !s.execs[f].pc.Stopped? ==> e == f)
      && (s.scheduler.None? && !s.mtx.Idling? ==> s.pool.busy == [])
  {
    RunKeepsInv(labels, ss);
  }

  // The three racing steps: setting waits_ to null never undoes a Bind, a Bind attaches an executor
  // that has not been released, and an executor is released only while it is not the scheduler.
  lemma HandshakeSteps(labels: seq<Label>, ss: seq<State>, i: nat)
    requires IsRun(labels, ss) && i < |labels|
    ensures labels[i].Forget? && ss[i].scheduler == Some(labels[i].e) ==> ss[i].mtx == Binding(labels[i].e)
    ensures labels[i].Bind? ==> ss[i].mtx.Binding? && ss[i].mtx.e in ss[i].pool.busy && Attached(ss[i + 1], ss[i].mtx.e)
    ensures labels[i].Release? ==>
      (ss[i + 1].At(labels[i].e, Stopped) <==> ss[i].scheduler.None?) && (ss[i].scheduler.None? <==> labels[i].e in ss[i].pool.idle)
  {
    assert IsRun(labels[..i], ss[..i + 1]);
    RunKeepsInv(labels[..i], ss[..i + 1]);
    assert Next(ss[i], labels[i], ss[i + 1]);
  }

  // ----- the three locks do not deadlock

  /** How far the holder of mtx_ is from giving it up. */
  function Rank(s: State): nat {
    match s.mtx
    case Free => 0
    case Unlocking => 1
    case Binding(e) => if e in s.execs && s.execs[e].pc.HoldsMutex() then 3 else 2
    case Checking => 4
    case Idling(e) =>
      if s.At(e, IdleTest) then 4 else if s.At(e, ClearScheduler) then 3 else if s.At(e, PoolIdle) then 2 else 1
  }

  lemma {:induction false} FreshExec(ids: set<Exec>) returns (e: Exec)
    ensures e !in ids && forall i :: i in ids ==> i < e
  {
    if ids == {} {
      e := 0;
    } else {
      var x :| x in ids;
      var f := FreshExec(ids - {x});
      e := if x < f then f else x + 1;
      assert forall i :: i in ids ==> i == x || i in ids - {x};
    }
  }

  // A Schedule call holds mtx_ while it waits for an executor's mutex, and an executor holds its mutex
  // while it waits for mtx_; yet in every reachable state the holder of mtx_, or the executor it waits
  // for, can take a step that brings the release of mtx_ closer.
  lemma SchedulerLockIsReleased(labels: seq<Label>, ss: seq<State>) returns (l: Label, t: State)
    requires IsRun(labels, ss) && ss[|labels|].mtx != Free
    ensures Next(ss[|labels|], l, t) && Rank(t) < Rank(ss[|labels|])
  {
    RunKeepsInv(labels, ss);
    l, t := HolderStep(ss[|labels|]);
  }

  lemma HolderStep(s: State) returns (l: Label, t: State)
    requires Inv(s) && s.mtx != Free
    ensures Next(s, l, t) && Rank(t) < Rank(s)
  {
    match s.mtx
    case Unlocking =>
      l, t := Unlock, s.(mtx := Free);
    case Checking =>
      l, t := CheckStep(s);
    case Binding(e) =>
      l, t := BindingStep(s, e);
    case Idling(e) =>
      l, t := IdlingStep(s, e);
  }

  lemma CheckStep(s: State) returns (l: Label, t: State)
    requires Inv(s) && s.mtx == Checking
    ensures Next(s, l, t) && Rank(t) < Rank(s)
  {
    if s.scheduler.Some? {
      l, t := Check(0), s.(mtx := Unlocking);
    } else if s.pool.idle != [] {
      var e := s.pool.idle[0];
      var pool := View(s.pool.idle[1..], [e] + s.pool.busy);
      l, t := Check(e), s.(pool := pool, scheduler := Some(e), mtx := Binding(e));
    } else {
      var e := FreshExec(s.execs.Keys);
      l := Check(e);
      t := s.(pool := View([], [e] + s.pool.busy), scheduler := Some(e), mtx := Binding(e),
              execs := s.execs[e := Executor(WaitForWork, false)]);
    }
  }

  lemma BindingStep(s: State, e: Exec) returns (l: Label, t: State)
    requires Inv(s) && s.mtx == Binding(e)
    ensures Next(s, l, t) && Rank(t) < Rank(s)
  {
    if !s.execs[e].pc.HoldsMutex() {
      l, t := Bind, s.(mtx := Unlocking, execs := s.execs[e := s.execs[e].(waits := true)]);
    } else if s.execs[e].pc.ResetWaits? {
      l, t := Forget(e), s.(execs := s.execs[e := Executor(TimedWait, false)]);
    } else {
      l, t := Label.Release(e), s.Go(e, WaitForWork);
    }
  }

  lemma IdlingPc(s: State, e: Exec)
    requires Inv(s) && s.mtx == Idling(e)
    ensures e in s.execs && (s.At(e, IdleTest) || s.At(e, ClearScheduler) || s.At(e, PoolIdle) || s.At(e, LeaveIdle))
  {
  }

  lemma IdlingStep(s: State, e: Exec) returns (l: Label, t: State)
    requires Inv(s) && s.mtx == Idling(e)
    ensures Next(s, l, t) && Rank(t) < Rank(s)
  {
    IdlingPc(s, e);
    hide Inv;
    if s.At(e, IdleTest) {
      l, t := IdleTestStep(s, e);
    } else if s.At(e, ClearScheduler) {
      l, t := Clear(e), s.Go(e, PoolIdle).(scheduler := None);
    } else {
      l, t := LastIdlingSteps(s, e);
    }
  }

  lemma IdleTestStep(s: State, e: Exec) returns (l: Label, t: State)
    requires s.mtx == Idling(e) && s.At(e, IdleTest)
    ensures Next(s, l, t) && Rank(t) < Rank(s)
  {
    l, t := TestIdle(e), if s.queue.waiting != map[] then AfterRefusedIdle(s, e) else s.Go(e, ClearScheduler);
  }

  lemma LastIdlingSteps(s: State, e: Exec) returns (l: Label, t: State)
    requires s.mtx == Idling(e) && (s.At(e, PoolIdle) || s.At(e, LeaveIdle))
    ensures Next(s, l, t) && Rank(t) < Rank(s)
  {
    if s.At(e, PoolIdle) {
      l, t := Label.Idle(e), s.Go(e, LeaveIdle).(pool := s.pool.Idle(e));
    } else {
      l, t := Leave(e), s.Go(e, ResetWaits).(mtx := Free);
    }
  }
}
