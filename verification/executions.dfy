// Which task an executor runs: the executions of executor.h over whole runs of the handshake, as the
// caller of Schedule sees them.
module Executions {
  import opened Options
  import PriorityQueue
  import TaskRuns
  import opened Scheduler
  import opened ScheduledTasks

  /** The task an executor has popped and not finished. */
  function Current(pc: Pc): Option<Task> {
    match pc
    case Executing(task) => Some(task)
    case Finishing(task) => Some(task)
    case _ => None
  }

  function Working(s: State): Option<Task> {
    if Live(s).Some? && Live(s).value in s.execs then Current(s.execs[Live(s).value].pc) else None
  }

  // ----- the running set

  ghost predicate RunningMatches(s: State) {
    s.queue.running.Keys ==
      if Working(s).Some? && Working(s).value.taskId != PriorityQueue.INVALID_TASK_ID then {Working(s).value.taskId} else {}
  }

  lemma StepKeepsRunning(s: State, l: Label, t: State)
    requires Inv(s) && TaskRuns.Labelled(s.queue) && RunningMatches(s) && Next(s, l, t)
    ensures RunningMatches(t)
  {
    if l.Pop? || l.Run? || l.Finish? {
      WorkKeepsRunning(s, l, t);
    } else {
      OthersKeepRunning(s, l, t);
    }
  }

  lemma WorkKeepsRunning(s: State, l: Label, t: State)
    requires Inv(s) && TaskRuns.Labelled(s.queue) && RunningMatches(s) && Next(s, l, t)
    requires l.Pop? || l.Run? || l.Finish?
    ensures RunningMatches(t)
  {
    hide TaskRuns.Labelled;
    assert Live(s) == Some(l.e);
    if l.Pop? && l.popped.Popped? {
      PoppedIsLabelled(s.queue, l.popped.entry);
    }
  }

  lemma PoppedIsLabelled(q: Queue, e: PriorityQueue.Entry)
    requires TaskRuns.Labelled(q) && q.First(e)
    ensures e.task.taskId == e.id != PriorityQueue.INVALID_TASK_ID
  {
  }

  lemma OthersKeepRunning(s: State, l: Label, t: State)
    requires Inv(s) && RunningMatches(s) && Next(s, l, t)
    requires !(l.Pop? || l.Run? || l.Finish?)
    ensures RunningMatches(t)
  {
    OthersKeepWorking(s, l, t);
    hide Inv, Next;
  }

  lemma OthersKeepWorking(s: State, l: Label, t: State)
    requires Inv(s) && Next(s, l, t)
    requires !(l.Pop? || l.Run? || l.Finish?)
    ensures Working(t) == Working(s) && t.queue.running.Keys == s.queue.running.Keys
    ensures forall id :: Uncalled(t, id) == Uncalled(s, id)
  {
    hide Inv, Next, Working, Uncalled;
    if l.Push? || l.Lock? || l.Check? || l.Bind? || l.Unlock? || l.Remove? || l.Reset? {
      CallersKeepWorking(s, l, t);
    } else if l.EnterIdle? || l.TestIdle? || l.Clear? || l.Idle? || l.Leave? {
      IdleKeepsWorking(s, l, t);
    } else {
      RestKeepsWorking(s, l, t);
    }
  }

  lemma CallersKeepWorking(s: State, l: Label, t: State)
    requires Inv(s) && Next(s, l, t)
    requires l.Push? || l.Lock? || l.Check? || l.Bind? || l.Unlock? || l.Remove? || l.Reset?
    ensures Working(t) == Working(s) && t.queue.running.Keys == s.queue.running.Keys
    ensures forall id :: Uncalled(t, id) == Uncalled(s, id)
  {
  }

  lemma IdleKeepsWorking(s: State, l: Label, t: State)
    requires Inv(s) && Next(s, l, t)
    requires l.EnterIdle? || l.TestIdle? || l.Clear? || l.Idle? || l.Leave?
    ensures Working(t) == Working(s) && t.queue.running.Keys == s.queue.running.Keys
    ensures forall id :: Uncalled(t, id) == Uncalled(s, id)
  {
    assert Live(s) == Some(l.e);
  }

  lemma RestKeepsWorking(s: State, l: Label, t: State)
    requires Inv(s) && Next(s, l, t)
    requires l.Wake? || l.Test? || l.Forget? || l.Timeout? || l.Release?
    ensures Working(t) == Working(s) && t.queue.running.Keys == s.queue.running.Keys
    ensures forall id :: Uncalled(t, id) == Uncalled(s, id)
  {
    assert Live(s) == Some(l.e);
  }

  lemma {:induction false} RunKeepsRunning(labels: seq<Label>, ss: seq<State>)
    requires IsRun(labels, ss)
    ensures RunningMatches(ss[|labels|])
  {
    hide Next, Inv, TaskRuns.Labelled, RunningMatches;
    var n := |labels| - 1;
    if labels != [] {
      RunKeepsRunning(labels[..n], ss[..n + 1]);
      RunKeepsInv(labels[..n], ss[..n + 1]);
      QueueIsSound(labels[..n], ss[..n + 1]);
      StepKeepsRunning(ss[n], labels[n], ss[n + 1]);
    } else {
      NothingRuns();
    }
  }

  lemma NothingRuns()
    ensures RunningMatches(INITIAL)
  {
  }

  /** An executor has popped the task with this id and not finished it. */
  ghost predicate Occupies(s: State, e: Exec, id: nat) {
    e in s.execs && Current(s.execs[e].pc).Some? && Current(s.execs[e].pc).value.taskId == id
  }

  // In every reachable state the running tasks are exactly those that an executor has popped and not
  // finished, and there is at most one.
  lemma RunningTasksAreExecuting(labels: seq<Label>, ss: seq<State>, id: nat)
    requires IsRun(labels, ss)
    ensures id in ss[|labels|].queue.running <==>
      id != PriorityQueue.INVALID_TASK_ID && exists e: Exec :: Occupies(ss[|labels|], e, id)
    ensures |ss[|labels|].queue.running| <= 1
  {
    RunKeepsRunning(labels, ss);
    RunKeepsInv(labels, ss);
    var s := ss[|labels|];
    if id in s.queue.running {
      assert Occupies(s, Live(s).value, id);
    }
    if e: Exec :| Occupies(s, e, id) {
      assert Live(s) == Some(e);
    }
    assert |s.queue.running| == |s.queue.running.Keys|;
  }

  // ----- from the pop to the finish

  /** How often the executor calls a task by the transitions from index i up to j. */
  function RunsBetween(labels: seq<Label>, i: nat, j: nat, e: Exec): nat
    requires j <= |labels|
    decreases j
  {
    if j <= i then 0 else RunsBetween(labels, i, j - 1, e) + if labels[j - 1].Run? && labels[j - 1].e == e then 1 else 0
  }

  ghost predicate Pops(l: Label, e: Exec, entry: PriorityQueue.Entry) {
    l.Pop? && l.e == e && l.popped == PriorityQueue.Popped(entry)
  }

  predicate Finishes(l: Label, e: Exec) {
    l.Finish? && l.e == e
  }

  // After a pop and until the next Finish the executor holds the task it popped: it calls that task, and
  // no other, at most once.
  lemma {:induction false} HoldsPoppedTask(labels: seq<Label>, ss: seq<State>, p: nat, n: nat, e: Exec, entry: PriorityQueue.Entry)
    requires IsRun(labels, ss) && p < n <= |labels| && Pops(labels[p], e, entry)
    requires forall i :: p < i < n ==> !Finishes(labels[i], e)
    ensures RunsBetween(labels, p + 1, n, e) <= 1
    ensures ss[n].At(e, if RunsBetween(labels, p + 1, n, e) == 0 then Executing(entry.task) else Finishing(entry.task))
    ensures forall i :: p < i < n && labels[i].Run? && labels[i].e == e ==> labels[i].task == entry.task
  {
    hide Next;
    assert Next(ss[n - 1], labels[n - 1], ss[n]);
    if p < n - 1 {
      HoldsPoppedTask(labels, ss, p, n - 1, e, entry);
      HoldsStep(ss[n - 1], labels[n - 1], ss[n], e, entry.task);
    } else {
      PopHolds(ss[p], labels[p], ss[n], e, entry);
    }
  }

  lemma PopHolds(s: State, l: Label, t: State, e: Exec, entry: PriorityQueue.Entry)
    requires Next(s, l, t) && Pops(l, e, entry)
    ensures t.At(e, Executing(entry.task))
  {
  }

  lemma HoldsStep(s: State, l: Label, t: State, e: Exec, task: Task)
    requires Next(s, l, t) && !Finishes(l, e)
    ensures s.At(e, Executing(task)) ==>
      if l.Run? && l.e == e then l.task == task && t.At(e, Finishing(task)) else t.At(e, Executing(task))
    ensures s.At(e, Finishing(task)) ==> t.At(e, Finishing(task)) && !(l.Run? && l.e == e)
  {
    hide Next;
    if s.At(e, Executing(task)) {
      HoldsExecuting(s, l, t, e, task);
    } else if s.At(e, Finishing(task)) {
      HoldsFinishing(s, l, t, e, task);
    }
  }

  lemma HoldsExecuting(s: State, l: Label, t: State, e: Exec, task: Task)
    requires Next(s, l, t) && s.At(e, Executing(task))
    ensures if l.Run? && l.e == e then l.task == task && t.At(e, Finishing(task)) else t.At(e, Executing(task))
  {
  }

  lemma HoldsFinishing(s: State, l: Label, t: State, e: Exec, task: Task)
    requires Next(s, l, t) && !Finishes(l, e) && s.At(e, Finishing(task))
    ensures t.At(e, Finishing(task)) && !(l.Run? && l.e == e)
  {
  }

  // The task an executor finishes is the one it popped last, and it has called it exactly once.
  lemma PoppedTaskIsCalledAndFinished(labels: seq<Label>, ss: seq<State>, p: nat, f: nat, e: Exec, entry: PriorityQueue.Entry)
    requires IsRun(labels, ss) && p < f < |labels| && Pops(labels[p], e, entry) && Finishes(labels[f], e)
    requires forall i :: p < i < f ==> !Finishes(labels[i], e)
    ensures labels[f].id == entry.id && RunsBetween(labels, p + 1, f, e) == 1
    ensures forall i :: p < i < f && labels[i].Run? && labels[i].e == e ==> labels[i].task == entry.task
  {
    HoldsPoppedTask(labels, ss, p, f, e, entry);
    assert Next(ss[f], labels[f], ss[f + 1]) && Next(ss[p], labels[p], ss[p + 1]);
    QueueIsSound(labels[..p], ss[..p + 1]);
    PoppedIsLabelled(ss[p].queue, entry);
  }

  // ----- how often a scheduled task is called

  predicate Calls(l: Label, id: nat) {
    l.Run? && l.task.taskId == id
  }

  function CallCount(labels: seq<Label>, from: nat, id: nat): nat {
    if |labels| <= from then 0
    else CallCount(labels[..|labels| - 1], from, id) + if Calls(labels[|labels| - 1], id) then 1 else 0
  }

  /** 1 while the task has been popped and not called. */
  function Uncalled(s: State, id: nat): nat {
    if Live(s).Some? && Live(s).value in s.execs && s.execs[Live(s).value].pc.Executing?
       && s.execs[Live(s).value].pc.task.taskId == id then 1 else 0
  }

  /** Wherever the task is, it is the function that was scheduled. */
  ghost predicate Carries(s: State, id: nat, exec: nat) {
    && (id in s.queue.waiting ==> s.queue.waiting[id].task.exec == exec)
    && (id in s.queue.running ==> s.queue.running[id].exec == exec)
    && (Working(s).Some? && Working(s).value.taskId == id ==> Working(s).value.exec == exec)
  }

  // A task that is scheduled with a valid id and then neither removed nor reset is called as often as it
  // is started, but for a start whose call is still to come; what is called is the function that was
  // scheduled; and once the task neither waits nor runs it has been called exactly as often as its
  // counter says.
  lemma {:induction false} ScheduledTaskIsCalledExactly(labels: seq<Label>, ss: seq<State>, p: nat, id: nat)
    requires IsRun(labels, ss) && p < |labels| && Schedules(labels[p], id)
    requires forall i :: p < i < |labels| ==> !Interferes(labels[i], id)
    ensures var s := ss[|labels|];
      && CallCount(labels, p + 1, id) + Uncalled(s, id) == StartCount(labels, p + 1, id)
      && Carries(s, id, labels[p].task.exec)
      && (forall i :: p < i < |labels| && Calls(labels[i], id) ==> labels[i].task.exec == labels[p].task.exec)
      && (s.queue.Fresh(id) ==> CallCount(labels, p + 1, id) == TaskRuns.Remaining(labels[p].task))
  {
    hide Next, Inv, TaskRuns.Labelled, TaskRuns.Remaining, Carries, Uncalled, RunningMatches;
    var n := |labels| - 1;
    RunKeepsRunning(labels[..n], ss[..n + 1]);
    RunKeepsInv(labels[..n], ss[..n + 1]);
    QueueIsSound(labels[..n], ss[..n + 1]);
    ScheduledIsValid(ss[p], labels[p], ss[p + 1]);
    if p == n {
      PushIsUncalled(ss[n], labels[n], ss[n + 1], id);
    } else {
      ScheduledTaskIsCalledExactly(labels[..n], ss[..n + 1], p, id);
      CallStep(ss[n], labels[n], ss[n + 1], id, labels[p].task.exec);
    }
    ScheduledTaskStartsExactly(labels, ss, p, id);
    RunKeepsRunning(labels, ss);
    RunKeepsInv(labels, ss);
    if ss[n + 1].queue.Fresh(id) {
      FreshIsNotUncalled(ss[n + 1], id);
    }
  }

  lemma ScheduledIsValid(s: State, l: Label, t: State)
    requires Next(s, l, t) && l.Push?
    ensures l.task.taskId != PriorityQueue.INVALID_TASK_ID
  {
  }

  lemma FreshIsNotUncalled(s: State, id: nat)
    requires RunningMatches(s) && s.queue.Fresh(id) && id != PriorityQueue.INVALID_TASK_ID
    ensures Uncalled(s, id) == 0
  {
  }

  lemma PushIsUncalled(s: State, l: Label, t: State, id: nat)
    requires Inv(s) && RunningMatches(s) && Next(s, l, t) && Schedules(l, id)
    ensures Uncalled(t, id) == 0 && Carries(t, id, l.task.exec)
  {
  }

  lemma CallStep(s: State, l: Label, t: State, id: nat, exec: nat)
    requires Inv(s) && TaskRuns.Labelled(s.queue) && RunningMatches(s) && Next(s, l, t) && Carries(s, id, exec)
    requires !Interferes(l, id) && id != PriorityQueue.INVALID_TASK_ID
    ensures Uncalled(t, id) + (if Calls(l, id) then 1 else 0) == Uncalled(s, id) + if Starts(l, id) then 1 else 0
    ensures Carries(t, id, exec) && (Calls(l, id) ==> l.task.exec == exec)
  {
    if l.Pop? || l.Run? || l.Finish? {
      WorkCallStep(s, l, t, id, exec);
    } else {
      OthersCallNothing(s, l, t, id, exec);
    }
  }

  lemma WorkCallStep(s: State, l: Label, t: State, id: nat, exec: nat)
    requires Inv(s) && TaskRuns.Labelled(s.queue) && RunningMatches(s) && Next(s, l, t) && Carries(s, id, exec)
    requires (l.Pop? || l.Run? || l.Finish?) && id != PriorityQueue.INVALID_TASK_ID
    ensures Uncalled(t, id) + (if Calls(l, id) then 1 else 0) == Uncalled(s, id) + if Starts(l, id) then 1 else 0
    ensures Carries(t, id, exec) && (Calls(l, id) ==> l.task.exec == exec)
  {
    hide TaskRuns.Labelled;
    assert Live(s) == Some(l.e);
    if l.Pop? && l.popped.Popped? {
      PoppedIsLabelled(s.queue, l.popped.entry);
    }
  }

  lemma OthersCallNothing(s: State, l: Label, t: State, id: nat, exec: nat)
    requires Inv(s) && Next(s, l, t) && Carries(s, id, exec) && !Interferes(l, id)
    requires !(l.Pop? || l.Run? || l.Finish?)
    ensures Uncalled(t, id) == Uncalled(s, id) && Carries(t, id, exec)
  {
    OthersKeepWorking(s, l, t);
    hide Inv, Uncalled, Working;
  }

  // ----- Schedule calls

  function Pushes(labels: seq<Label>): nat {
    if labels == [] then 0 else Pushes(labels[..|labels| - 1]) + if labels[|labels| - 1].Push? then 1 else 0
  }

  function LocksTaken(labels: seq<Label>): nat {
    if labels == [] then 0 else LocksTaken(labels[..|labels| - 1]) + if labels[|labels| - 1].Lock? then 1 else 0
  }

  // Each Schedule call enters its locked section once: the calls that have pushed and not locked are as
  // many as the pushes exceed the locks.
  lemma {:induction false} EveryScheduleCallLocksOnce(labels: seq<Label>, ss: seq<State>)
    requires IsRun(labels, ss)
    ensures Pushes(labels) == LocksTaken(labels) + ss[|labels|].pending
  {
    if labels != [] {
      var n := |labels| - 1;
      EveryScheduleCallLocksOnce(labels[..n], ss[..n + 1]);
      assert Next(ss[n], labels[n], ss[n + 1]);
    }
  }

  // ----- waiting tasks are reached

  /** How many steps the executor is away from a pop. */
  function Far(pc: Pc): nat {
    match pc
    case Popping => 0
    case TestQueue => 1
    case WaitForWork | TimedWait | Finishing(_) | IdleTest => 2
    case _ => 3
  }

  // While a task waits and no Schedule call is under way, the scheduler is at the pop, or can take a step
  // towards it by itself.
  lemma WaitingTaskIsReached(labels: seq<Label>, ss: seq<State>) returns (l: Label, t: State)
    requires IsRun(labels, ss) && ss[|labels|].queue.waiting != map[] && !ss[|labels|].InSchedule()
    ensures var s := ss[|labels|];
      && s.scheduler.Some? && s.scheduler.value in s.execs
      && var e := s.scheduler.value;
         s.At(e, Popping) ||
           (Next(s, l, t) && t.queue.waiting != map[] && !t.InSchedule() && t.scheduler == Some(e) && e in t.execs
            && Far(t.execs[e].pc) < Far(s.execs[e].pc))
  {
    RunKeepsInv(labels, ss);
    NoStrandedTask(labels, ss);
    l, t := StepTowardsPop(ss[|labels|]);
  }

  lemma StepTowardsPop(s: State) returns (l: Label, t: State)
    requires Inv(s) && s.scheduler.Some? && Attached(s, s.scheduler.value) && !s.At(s.scheduler.value, ClearScheduler)
    requires s.queue.waiting != map[] && !s.InSchedule()
    ensures var e := s.scheduler.value;
      s.At(e, Popping) ||
        (Next(s, l, t) && t.queue.waiting != map[] && !t.InSchedule() && t.scheduler == Some(e) && e in t.execs
         && Far(t.execs[e].pc) < Far(s.execs[e].pc))
  {
    var e := s.scheduler.value;
    l, t := Lock, s;
    hide Next, Inv;
    if s.At(e, WaitForWork) || s.At(e, TimedWait) || s.At(e, TestQueue) || s.At(e, CallIdle) || s.At(e, IdleTest) {
      l, t := QuietStep(s, e);
    } else if !s.At(e, Popping) {
      l, t := BusyStep(s, e);
    }
  }

  lemma BusyStep(s: State, e: Exec) returns (l: Label, t: State)
    requires e in s.execs && (s.execs[e].pc.Executing? || s.execs[e].pc.Finishing?)
    requires s.scheduler == Some(e) && s.queue.waiting != map[] && !s.InSchedule()
    ensures Next(s, l, t) && t.queue.waiting != map[] && !t.InSchedule() && t.scheduler == Some(e) && e in t.execs
    ensures Far(t.execs[e].pc) < Far(s.execs[e].pc)
  {
    var pc := s.execs[e].pc;
    if pc.Executing? {
      l, t := Run(e, pc.task), s.Go(e, Finishing(pc.task));
    } else {
      l := Label.Finish(e, pc.task.taskId, 0);
      t := s.Go(e, TestQueue).(queue := s.queue.Finish(pc.task.taskId, 0));
    }
  }

  lemma QuietStep(s: State, e: Exec) returns (l: Label, t: State)
    requires Inv(s) && s.scheduler == Some(e) && Attached(s, e) && s.queue.waiting != map[] && !s.InSchedule()
    requires s.At(e, WaitForWork) || s.At(e, TimedWait) || s.At(e, TestQueue) || s.At(e, CallIdle) || s.At(e, IdleTest)
    ensures Next(s, l, t) && t.queue == s.queue && !t.InSchedule() && t.scheduler == Some(e) && e in t.execs
    ensures Far(t.execs[e].pc) < Far(s.execs[e].pc)
  {
    if s.At(e, TestQueue) {
      l, t := Test(e), s.Go(e, Popping);
    } else if s.At(e, CallIdle) {
      l, t := EnterIdle(e), s.Go(e, IdleTest).(mtx := Idling(e));
    } else if s.At(e, IdleTest) {
      l, t := TestIdle(e), AfterRefusedIdle(s, e);
    } else {
      l, t := Wake(e), s.Go(e, TestQueue);
    }
  }

  ghost predicate CanPop(s: State, e: Exec, now: int, entry: PriorityQueue.Entry) {
    exists t :: Next(s, Pop(e, now, PriorityQueue.Popped(entry)), t)
  }

  // At the pop the task that is first can be popped as soon as it is due.
  lemma DueTaskIsPopped(labels: seq<Label>, ss: seq<State>, e: Exec) returns (entry: PriorityQueue.Entry)
    requires IsRun(labels, ss) && ss[|labels|].queue.waiting != map[] && ss[|labels|].At(e, Popping)
    ensures ss[|labels|].queue.First(entry)
    ensures forall now :: CanPop(ss[|labels|], e, now, entry) <==> now >= entry.due
  {
    hide Next;
    QueueIsSound(labels, ss);
    entry := TaskRuns.FirstExists(ss[|labels|].queue);
    forall now
      ensures CanPop(ss[|labels|], e, now, entry) <==> now >= entry.due
    {
      PopIsEnabled(ss[|labels|], e, now, entry);
    }
  }

  lemma PopIsEnabled(s: State, e: Exec, now: int, entry: PriorityQueue.Entry)
    requires s.At(e, Popping) && s.queue.First(entry)
    ensures CanPop(s, e, now, entry) <==> now >= entry.due
  {
    if now >= entry.due {
      var t := s.Go(e, Executing(entry.task)).(queue := s.queue.Start(entry));
      assert PopTask(s, e, now, PriorityQueue.Popped(entry), t);
      assert Next(s, Pop(e, now, PriorityQueue.Popped(entry)), t);
    }
  }
}
