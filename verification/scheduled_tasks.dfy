// The task queue inside the scheduler: how often a scheduled task starts, over whole runs of the
// handshake of executor_pool.h and executor.h.
module ScheduledTasks {
  import opened Options
  import PriorityQueue
  import TaskRuns
  import opened Scheduler

  /** What a transition of the scheduler does to the queue. */
  function QueueEvent(l: Label): Option<TaskRuns.Event> {
    match l
    case Push(task, due) => Some(TaskRuns.Push(task, due))
    case Pop(_, now, r) => Some(TaskRuns.Pop(now, r))
    case Finish(_, id, now) => Some(TaskRuns.Finish(id, now))
    case Remove(id, wait) => Some(TaskRuns.Remove(id, wait))
    case Reset(id, interval, now) => Some(TaskRuns.Reset(id, interval, now))
    case _ => None
  }

  lemma SchedulerStepsTheQueue(s: State, l: Label, t: State)
    requires Next(s, l, t)
    ensures if QueueEvent(l).None? then t.queue == s.queue else TaskRuns.Step(s.queue, QueueEvent(l).value, t.queue)
  {
  }

  predicate Starts(l: Label, id: nat) {
    l.Pop? && l.popped.Popped? && l.popped.entry.id == id
  }

  predicate Schedules(l: Label, id: nat) {
    l.Push? && l.task.taskId == id
  }

  predicate Interferes(l: Label, id: nat) {
    Schedules(l, id) || (l.Remove? && l.id == id) || (l.Reset? && l.id == id)
  }

  /** How often an executor takes the task, by the transitions from index `from` on. */
  function StartCount(labels: seq<Label>, from: nat, id: nat): nat {
    if |labels| <= from then 0
    else StartCount(labels[..|labels| - 1], from, id) + if Starts(labels[|labels| - 1], id) then 1 else 0
  }

  lemma {:induction false} QueueIsSound(labels: seq<Label>, ss: seq<State>)
    requires IsRun(labels, ss)
    ensures var q := ss[|labels|].queue; TaskRuns.Sound(q) && TaskRuns.Labelled(q) && TaskRuns.Numbered(q)
  {
    hide Next, TaskRuns.Step;
    if labels != [] {
      var n := |labels| - 1;
      QueueIsSound(labels[..n], ss[..n + 1]);
      SchedulerStepsTheQueue(ss[n], labels[n], ss[n + 1]);
      if QueueEvent(labels[n]).Some? {
        TaskRuns.StepKeepsSound(ss[n].queue, QueueEvent(labels[n]).value, ss[n + 1].queue);
        TaskRuns.StepKeepsLabelled(ss[n].queue, QueueEvent(labels[n]).value, ss[n + 1].queue);
        TaskRuns.StepKeepsNumbered(ss[n].queue, QueueEvent(labels[n]).value, ss[n + 1].queue);
      }
    }
  }

  // A task that is scheduled and then neither removed nor reset is started exactly as often as its
  // counter says: the starts so far and the counter of the waiting or running task always add up to
  // it, and once the task is neither waiting nor running the starts are that many.
  lemma {:induction false} ScheduledTaskStartsExactly(labels: seq<Label>, ss: seq<State>, p: nat, id: nat)
    requires IsRun(labels, ss) && p < |labels| && Schedules(labels[p], id)
    requires forall i :: p < i < |labels| ==> !Interferes(labels[i], id)
    ensures TaskRuns.Accounted(ss[|labels|].queue, id, StartCount(labels, p + 1, id), TaskRuns.Remaining(labels[p].task))
    ensures StartCount(labels, p + 1, id) <= TaskRuns.Remaining(labels[p].task)
  {
    hide Next, TaskRuns.Step, TaskRuns.Accounted, TaskRuns.Remaining;
    var n := |labels| - 1;
    var q, q' := ss[n].queue, ss[n + 1].queue;
    var total, starts := TaskRuns.Remaining(labels[p].task), StartCount(labels, p + 1, id);
    SchedulerStepsTheQueue(ss[n], labels[n], ss[n + 1]);
    if p == n {
      PushIsAccounted(q, labels[p].task, labels[p].due, q');
    } else {
      ScheduledTaskStartsExactly(labels[..n], ss[..n + 1], p, id);
      QueueIsSound(labels[..n], ss[..n + 1]);
      var event := QueueEvent(labels[n]);
      if event.Some? {
        TaskRuns.StepKeepsAccount(q, event.value, q', id, StartCount(labels[..n], p + 1, id), total);
      }
    }
    TaskRuns.AccountIsBounded(q', id, starts, total);
  }

  lemma PushIsAccounted(q: Queue, task: Task, due: int, after: Queue)
    requires TaskRuns.Step(q, TaskRuns.Push(task, due), after)
    ensures TaskRuns.Accounted(after, task.taskId, 0, TaskRuns.Remaining(task))
  {
  }

  // ----- ids

  const LAST_ID: nat := 0xFFFF_FFFF_FFFF_FFFF

  /** The counter after GenTaskId, which skips INVALID_TASK_ID when the 64-bit counter wraps. */
  function NextId(id: nat): (r: nat)
    requires id <= LAST_ID
    ensures 0 < r <= LAST_ID
  {
    if id == LAST_ID then 1 else id + 1
  }

  /** The nth id generated after `id`. */
  function NthId(id: nat, n: nat): (r: nat)
    requires id <= LAST_ID
    ensures r <= LAST_ID
  {
    if n == 0 then id else NextId(NthId(id, n - 1))
  }

  // Within 2^64 - 2 calls no id comes twice, and none is the invalid one.
  lemma {:induction false} IdsAreDistinct(id: nat, i: nat, j: nat)
    requires id <= LAST_ID && 0 < i < j && j - i < LAST_ID
    ensures NthId(id, i) != NthId(id, j) && NthId(id, i) != PriorityQueue.INVALID_TASK_ID
  {
    Distance(id, i, j);
  }

  lemma {:induction false} Distance(id: nat, i: nat, j: nat)
    requires id <= LAST_ID && 0 < i <= j && j - i < LAST_ID
    ensures 0 < NthId(id, i) && NthId(id, j) == if NthId(id, i) + (j - i) <= LAST_ID
      then NthId(id, i) + (j - i) else NthId(id, i) + (j - i) - LAST_ID
  {
    if i < j {
      Distance(id, i, j - 1);
    }
  }

  class TaskIds {
    var taskId: nat

    constructor ()
      ensures taskId == PriorityQueue.INVALID_TASK_ID
    {
      taskId := PriorityQueue.INVALID_TASK_ID;
    }

    method GenTaskId() returns (id: nat)
      requires taskId <= LAST_ID
      modifies this
      ensures id == taskId == NextId(old(taskId))
    {
      taskId := (taskId + 1) % PriorityQueue.UINT64_COUNT;
      if taskId == PriorityQueue.INVALID_TASK_ID {
        taskId := (taskId + 1) % PriorityQueue.UINT64_COUNT;
      }
      return taskId;
    }
  }
}
