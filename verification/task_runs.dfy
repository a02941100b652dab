// What whole runs of the task queue guarantee: priority_queue.h driven by executor_pool.h.
module TaskRuns {
  import opened Options
  import opened PriorityQueue

  datatype Event =
    | Push(task: InnerTask, due: Time)
    | Pop(popTime: Time, popped: PopStep)
    | Finish(finished: TaskId, finishTime: Time)
    | Remove(removed: TaskId, wait: bool)
    | Reset(reset: TaskId, interval: int, resetTime: Time)
  {
    predicate Pops(id: TaskId) {
      Pop? && popped.Popped? && popped.entry.id == id
    }

    predicate Pushes(id: TaskId) {
      Push? && task.taskId == id
    }

    predicate Interferes(id: TaskId) {
      Pushes(id) || (Remove? && removed == id) || (Reset? && reset == id)
    }
  }

  /** A push takes an id that is neither waiting nor running, which GenTaskId provides; a removal
      that waits completes only when the task is not running. */
  ghost predicate Step(q: Queue, e: Event, after: Queue) {
    match e
    case Push(task, due) => task.Valid() && q.Fresh(task.taskId) && after == q.Insert(task.taskId, task, due)
    case Pop(now, r) => q.PopTo(now, r, after)
    case Finish(id, now) => after == q.Finish(id, now)
    case Remove(id, wait) => (wait ==> id !in q.running) && after == q.Remove(id)
    case Reset(id, interval, now) => after == q.Reset(id, interval, now)
  }

  ghost predicate Steps(run: seq<Event>, qs: seq<Queue>)
    ensures Steps(run, qs) ==> |qs| == |run| + 1
  {
    |qs| == |run| + 1 && forall i :: 0 <= i < |run| ==> Step(qs[i], run[i], qs[i + 1])
  }

  ghost predicate IsRun(run: seq<Event>, qs: seq<Queue>) {
    Steps(run, qs) && qs[0] == Queue(map[], map[], 0)
  }

  lemma PrefixIsRun(run: seq<Event>, qs: seq<Queue>, n: nat)
    requires IsRun(run, qs) && n <= |run|
    ensures IsRun(run[..n], qs[..n + 1])
  {
  }

  ghost predicate Sound(q: Queue) {
    && (forall id :: id in q.waiting ==> q.waiting[id].id == id && q.waiting[id].node < q.nodes)
    && q.waiting.Keys !! q.running.Keys
  }

  lemma StepKeepsSound(q: Queue, e: Event, after: Queue)
    requires Sound(q) && Step(q, e, after)
    ensures Sound(after)
  {
  }

  lemma {:induction false} RunIsSound(run: seq<Event>, qs: seq<Queue>)
    requires IsRun(run, qs)
    ensures Sound(qs[|run|])
  {
    if run != [] {
      PrefixIsRun(run, qs, |run| - 1);
      RunIsSound(run[..|run| - 1], qs[..|run|]);
      StepKeepsSound(qs[|run| - 1], run[|run| - 1], qs[|run|]);
    }
  }

  /** Every task is filed under its own id. */
  ghost predicate Labelled(q: Queue) {
    && (forall id :: id in q.waiting ==> id != INVALID_TASK_ID && q.waiting[id].id == id && q.waiting[id].task.taskId == id)
    && (forall id :: id in q.running ==> id != INVALID_TASK_ID && q.running[id].taskId == id)
  }

  lemma StepKeepsLabelled(q: Queue, e: Event, after: Queue)
    requires Labelled(q) && Step(q, e, after)
    ensures Labelled(after)
  {
  }

  ghost predicate Numbered(q: Queue) {
    && (forall id :: id in q.waiting ==> q.waiting[id].id == id && q.waiting[id].node < q.nodes)
    && forall i, j :: i in q.waiting && j in q.waiting && q.waiting[i].node == q.waiting[j].node ==> i == j
  }

  lemma StepKeepsNumbered(q: Queue, e: Event, after: Queue)
    requires Numbered(q) && Step(q, e, after)
    ensures Numbered(after)
  {
  }

  // While tasks wait, one of them is the first.
  lemma {:induction false} FirstExists(q: Queue) returns (e: Entry)
    requires Numbered(q) && q.waiting != map[]
    ensures q.First(e)
    decreases |q.waiting|
  {
    var id :| id in q.waiting;
    var rest := q.Remove(id);
    if rest.waiting == map[] {
      e := q.waiting[id];
      assert forall other :: other in q.waiting ==> other == id || other in rest.waiting;
    } else {
      ShrunkBy(q.waiting, id);
      var f := FirstExists(rest);
      e := FirstOfTwo(q, id, f);
    }
  }

  lemma FirstOfTwo(q: Queue, id: TaskId, f: Entry) returns (e: Entry)
    requires Numbered(q) && id in q.waiting && q.Remove(id).First(f)
    ensures q.First(e)
  {
    e := if f.Before(q.waiting[id]) then f else q.waiting[id];
    forall other | other in q.waiting
      ensures q.waiting[other] == e || e.Before(q.waiting[other])
    {
      assert other == id || other in q.Remove(id).waiting;
    }
  }

  // ----- how often a task is popped

  /** How many times a task with this counter still starts; the counter wraps, so 0 means 2^64. */
  function Remaining(task: InnerTask): nat {
    if task.interval == 0 then 1 else if task.times == 0 then UINT64_COUNT else task.times
  }

  lemma TimerCountsDown(task: InnerTask, now: Time)
    ensures var t := NextTimer(task, now);
      && (t.repeats <==> Remaining(task) > 1)
      && (t.repeats ==> Remaining(t.task) == Remaining(task) - 1)
  {
  }

  /** How often id is popped by the events from index `from` on. */
  function Pops(run: seq<Event>, from: nat, id: TaskId): nat {
    if |run| <= from then 0
    else Pops(run[..|run| - 1], from, id) + if run[|run| - 1].Pops(id) then 1 else 0
  }

  /** After the push at p nothing but pops and finishes concerns the task again. */
  ghost predicate LeftAlone(run: seq<Event>, p: nat, id: TaskId) {
    forall i :: p < i < |run| ==> !run[i].Interferes(id)
  }

  /** `done` pops of a task whose counter allows `total`. */
  ghost predicate Accounted(q: Queue, id: TaskId, done: nat, total: nat) {
    if id in q.waiting then done + Remaining(q.waiting[id].task) == total
    else if id in q.running then done + Remaining(q.running[id]) == total + 1
    else done == total
  }

  // A task that is left alone is popped exactly as often as its counter says, and at every moment
  // the pops so far and the counter of the waiting or running task add up to that number.
  lemma {:induction false} ExactRunCount(run: seq<Event>, qs: seq<Queue>, p: nat, id: TaskId)
    requires IsRun(run, qs) && p < |run| && run[p].Pushes(id) && LeftAlone(run, p, id)
    ensures Accounted(qs[|run|], id, Pops(run, p + 1, id), Remaining(run[p].task))
    ensures Pops(run, p + 1, id) <= Remaining(run[p].task)
  {
    var last := |run| - 1;
    assert Step(qs[last], run[last], qs[|run|]);
    PrefixIsRun(run, qs, last);
    RunIsSound(run[..last], qs[..|run|]);
    if p < last {
      ExactRunCount(run[..last], qs[..|run|], p, id);
      StepKeepsAccount(qs[last], run[last], qs[|run|], id, Pops(run[..last], p + 1, id), Remaining(run[p].task));
    }
    AccountIsBounded(qs[|run|], id, Pops(run, p + 1, id), Remaining(run[p].task));
  }

  lemma StepKeepsAccount(q: Queue, e: Event, after: Queue, id: TaskId, done: nat, total: nat)
    requires Sound(q) && Step(q, e, after) && Accounted(q, id, done, total)
    requires !e.Interferes(id)
    ensures Accounted(after, id, done + if e.Pops(id) then 1 else 0, total)
  {
    if e.Finish? && e.finished == id && id in q.running {
      TimerCountsDown(q.running[id], e.finishTime);
    }
  }

  lemma AccountIsBounded(q: Queue, id: TaskId, done: nat, total: nat)
    requires Accounted(q, id, done, total)
    ensures done <= total
  {
  }

  // ----- the order of pops

  // A pop finds nothing exactly if no task waits, takes a task exactly if one is due, and otherwise waits
  // for the earliest due time.
  lemma PopAnswersExactly(q: Queue, now: Time, r: PopStep, after: Queue)
    requires Numbered(q) && q.PopTo(now, r, after)
    ensures r.Empty? <==> forall id :: id !in q.waiting
    ensures r.Popped? <==> exists id :: id in q.waiting && q.waiting[id].due <= now
    ensures r.WaitUntil? ==>
      && r.due > now
      && (exists id :: id in q.waiting && q.waiting[id].due == r.due) && forall id :: id in q.waiting ==> q.waiting[id].due >= r.due
    ensures r.Popped? ==>
      && r.entry.id in q.waiting && q.waiting[r.entry.id] == r.entry
      && after == Queue(q.waiting - {r.entry.id}, q.running[r.entry.id := r.entry.task], q.nodes)
    ensures !r.Popped? ==> after == q
  {
    if q.waiting != map[] {
      var e := FirstExists(q);
      assert e.id in q.waiting;
    }
  }

  /** The entry this event puts into the multimap: a push, a timer that repeats, or a reset. */
  function Inserted(q: Queue, e: Event): Option<Entry> {
    match e
    case Push(task, due) => Some(Entry(due, q.nodes, task.taskId, task))
    case Finish(id, now) =>
      if id in q.running && NextTimer(q.running[id], now).repeats
      then Some(Entry(NextTimer(q.running[id], now).due, q.nodes, id, NextTimer(q.running[id], now).task)) else None
    case Reset(id, interval, now) =>
      if id in q.waiting
      then Some(Entry(now + interval, q.nodes, id, WithInterval(q.waiting[id].task, interval))) else None
    case _ => None
  }

  /** The entry has waited without a break since the event at index j inserted it. */
  ghost predicate WaitsSince(run: seq<Event>, qs: seq<Queue>, j: nat, e: Entry) {
    && j < |run| < |qs| && Inserted(qs[j], run[j]) == Some(e)
    && forall m :: j < m <= |run| ==> e.id in qs[m].waiting && qs[m].waiting[e.id] == e
  }

  lemma {:induction false} WaitingWasInserted(run: seq<Event>, qs: seq<Queue>, id: TaskId) returns (j: nat)
    requires IsRun(run, qs) && id in qs[|run|].waiting
    ensures WaitsSince(run, qs, j, qs[|run|].waiting[id])
  {
    hide Queue.First;
    var n := |run| - 1;
    assert Step(qs[n], run[n], qs[|run|]);
    RunIsSound(run, qs);
    var e := qs[|run|].waiting[id];
    if Inserted(qs[n], run[n]) == Some(e) {
      j := n;
    } else {
      PrefixIsRun(run, qs, n);
      j := WaitingWasInserted(run[..n], qs[..|run|], id);
      assert qs[..|run|][j] == qs[j] && forall m :: j < m <= n ==> qs[..|run|][m] == qs[m];
    }
  }

  lemma InsertedGrows(q: Queue, e: Event, after: Queue)
    requires Step(q, e, after)
    ensures q.nodes <= after.nodes
    ensures Inserted(q, e).Some? ==> Inserted(q, e).value.node == q.nodes < after.nodes
  {
  }

  lemma {:induction false} NodesGrow(run: seq<Event>, qs: seq<Queue>, i: nat, j: nat)
    requires IsRun(run, qs) && i <= j <= |run|
    ensures qs[i].nodes <= qs[j].nodes
  {
    if i < j {
      NodesGrow(run, qs, i, j - 1);
      InsertedGrows(qs[j - 1], run[j - 1], qs[j]);
    }
  }

  // The order of insertion is the order of the nodes.
  lemma InsertedInOrder(run: seq<Event>, qs: seq<Queue>, i: nat, j: nat)
    requires IsRun(run, qs) && i < j < |run| && Inserted(qs[i], run[i]).Some? && Inserted(qs[j], run[j]).Some?
    ensures Inserted(qs[i], run[i]).value.node < Inserted(qs[j], run[j]).value.node
  {
    hide Inserted;
    InsertedGrows(qs[i], run[i], qs[i + 1]);
    NodesGrow(run, qs, i + 1, j);
    InsertedGrows(qs[j], run[j], qs[j + 1]);
  }

  // A popped task is due and has waited since one insertion, by a push, a repeating timer or a reset.
  // Every other task inserted so far that is due earlier, or at the same time but was inserted earlier,
  // no longer waits.
  lemma PopIsDueAndFirst(run: seq<Event>, qs: seq<Queue>, k: nat) returns (j: nat)
    requires IsRun(run, qs) && k < |run| && run[k].Pop? && run[k].popped.Popped?
    ensures var e := run[k].popped.entry;
      && e.due <= run[k].popTime && WaitsSince(run[..k], qs[..k + 1], j, e)
      && (forall i :: 0 <= i < k && i != j && Inserted(qs[i], run[i]).Some? ==> Inserted(qs[i], run[i]).value != e)
      && (forall i :: 0 <= i < k && i != j && Inserted(qs[i], run[i]).Some? ==>
            var f := Inserted(qs[i], run[i]).value;
            f.due < e.due || (f.due == e.due && i < j) ==> f !in qs[k].waiting.Values)
  {
    hide Inserted;
    var e := run[k].popped.entry;
    assert Step(qs[k], run[k], qs[k + 1]);
    PrefixIsRun(run, qs, k);
    j := WaitingWasInserted(run[..k], qs[..k + 1], e.id);
    assert Inserted(qs[j], run[j]) == Some(e);
    forall i | 0 <= i < k && i != j && Inserted(qs[i], run[i]).Some?
      ensures var f := Inserted(qs[i], run[i]).value;
        f != e && (f.due < e.due || (f.due == e.due && i < j) ==> f !in qs[k].waiting.Values)
    {
      InsertedInOrder(run, qs, if i < j then i else j, if i < j then j else i);
    }
  }

  // ----- when a periodic task comes back

  // A task that finishes with starts left waits for one interval from then, with the same function and
  // interval; otherwise it is gone.
  lemma FinishReschedules(q: Queue, id: TaskId, now: Time)
    requires id in q.running && id !in q.waiting
    ensures var after, task := q.Finish(id, now), q.running[id];
      && id !in after.running
      && (id in after.waiting <==> task.interval != 0 && task.times != 1)
      && (id in after.waiting ==>
            var e := after.waiting[id];
            e.due == now + task.interval && e.task.exec == task.exec && e.task.interval == task.interval
            && e.task.times == if task.times == 0 then 0xFFFF_FFFF_FFFF_FFFF else task.times - 1)
      && forall other :: other != id ==>
           (other in after.waiting <==> other in q.waiting) && (other in after.waiting ==> after.waiting[other] == q.waiting[other])
           && (other in after.running <==> other in q.running) && (other in after.running ==> after.running[other] == q.running[other])
  {
  }

  // A reset gives a periodic task a new interval, and puts a waiting one off to one interval from now; a
  // task that is to start once stays so, and a running one is not moved.
  lemma ResetReschedules(q: Queue, id: TaskId, interval: int, now: Time)
    ensures var after := q.Reset(id, interval, now);
      && after.waiting.Keys == q.waiting.Keys && after.running.Keys == q.running.Keys
      && (id in q.waiting ==>
            var e, task := after.waiting[id], q.waiting[id].task;
            e.due == now + interval && e.task.exec == task.exec && e.task.times == task.times
            && e.task.interval == if task.interval == 0 then 0 else interval)
      && (id !in q.waiting && id in q.running ==>
            after.running[id] == q.running[id].(interval := if q.running[id].interval == 0 then 0 else interval))
      && (id !in q.waiting && id !in q.running ==> after == q)
      && forall other :: other != id ==>
           (other in q.waiting ==> after.waiting[other] == q.waiting[other])
           && (other in q.running ==> after.running[other] == q.running[other])
  {
  }

  /** The task waits for this time or has been popped since. */
  lemma {:induction false} WaitsForItsTime(run: seq<Event>, qs: seq<Queue>, i: nat, k: nat, id: TaskId, due: Time)
    requires IsRun(run, qs) && i <= k <= |run| && id in qs[i].waiting && qs[i].waiting[id].due == due
    requires forall j :: i <= j < k ==> !run[j].Interferes(id) && !run[j].Pops(id)
    ensures id in qs[k].waiting && qs[k].waiting[id] == qs[i].waiting[id]
  {
    if i < k {
      WaitsForItsTime(run, qs, i, k - 1, id, due);
      assert Step(qs[k - 1], run[k - 1], qs[k]);
      PrefixIsRun(run, qs, k - 1);
      RunIsSound(run[..k - 1], qs[..k]);
    }
  }

  // In any run a periodic task that finishes is not popped again before one interval has passed, unless
  // it is reset or pushed anew meanwhile; and what is popped then is the same function.
  lemma PeriodicTaskKeepsItsInterval(run: seq<Event>, qs: seq<Queue>, f: nat, k: nat, id: TaskId)
    requires IsRun(run, qs) && f < k < |run| && run[f].Finish? && run[f].finished == id && id in qs[f].running
    requires run[k].Pops(id) && forall j :: f < j < k ==> !run[j].Interferes(id) && !run[j].Pops(id)
    ensures run[k].popTime >= run[f].finishTime + qs[f].running[id].interval
    ensures run[k].popped.entry.task.exec == qs[f].running[id].exec
  {
    PrefixIsRun(run, qs, f);
    RunIsSound(run[..f], qs[..f + 1]);
    assert Step(qs[f], run[f], qs[f + 1]) && Step(qs[k], run[k], qs[k + 1]);
    FinishReschedules(qs[f], id, run[f].finishTime);
    if id in qs[f + 1].waiting {
      WaitsForItsTime(run, qs, f + 1, k, id, qs[f + 1].waiting[id].due);
    } else {
      StaysOut(run, qs, f + 1, k, id);
    }
  }

  lemma {:induction false} StaysOut(run: seq<Event>, qs: seq<Queue>, i: nat, k: nat, id: TaskId)
    requires IsRun(run, qs) && i <= k <= |run| && qs[i].Fresh(id) && forall j :: i <= j < k ==> !run[j].Pushes(id)
    ensures qs[k].Fresh(id)
  {
    if i < k {
      StaysOut(run, qs, i, k - 1, id);
      assert Step(qs[k - 1], run[k - 1], qs[k]);
    }
  }

  // ----- removal

  // After a removal that found the task not running (which is what waiting brings about), the task
  // stays out of the queue and is never popped again unless its id is pushed again.
  lemma {:induction false} RemoveIsFinal(run: seq<Event>, qs: seq<Queue>, r: nat, id: TaskId)
    requires IsRun(run, qs) && r < |run| && run[r].Remove? && run[r].removed == id
    requires run[r].wait || id !in qs[r].running
    requires forall i :: r < i < |run| ==> !run[i].Pushes(id)
    ensures qs[|run|].Fresh(id)
    ensures forall i :: r < i < |run| ==> !run[i].Pops(id)
  {
    var last := |run| - 1;
    assert Step(qs[last], run[last], qs[|run|]);
    if r < last {
      PrefixIsRun(run, qs, last);
      RemoveIsFinal(run[..last], qs[..|run|], r, id);
    }
  }

  /** Whatever happens from here on, the task is not popped again without a new push. */
  ghost predicate IsGone(q: Queue, id: TaskId) {
    forall run, qs :: Steps(run, qs) && qs[0] == q && NeverPushed(run, id) ==> NeverPopped(run, id)
  }

  ghost predicate NeverPushed(run: seq<Event>, id: TaskId) {
    forall i :: 0 <= i < |run| ==> !run[i].Pushes(id)
  }

  ghost predicate NeverPopped(run: seq<Event>, id: TaskId) {
    forall i :: 0 <= i < |run| ==> !run[i].Pops(id)
  }

  // A removal that does not wait is final exactly if the task is not running or is in its last run.
  lemma RemoveIsFinalExactly(q: Queue, id: TaskId)
    requires Sound(q)
    ensures IsGone(q.Remove(id), id) <==> (id in q.running ==> Remaining(q.running[id]) == 1)
  {
    var r := q.Remove(id);
    assert Step(q, Remove(id, false), r);
    StepKeepsSound(q, Remove(id, false), r);
    if id in q.running && Remaining(q.running[id]) > 1 {
      var run, qs := ComesBack(r, id);
      assert !NeverPopped(run, id);
    } else {
      forall run, qs | Steps(run, qs) && qs[0] == r && NeverPushed(run, id)
        ensures NeverPopped(run, id)
      {
        StaysGone(run, qs, id);
      }
    }
  }

  lemma {:induction false} StaysGone(run: seq<Event>, qs: seq<Queue>, id: TaskId)
    requires Steps(run, qs) && Sound(qs[0]) && NeverPushed(run, id)
    requires id !in qs[0].waiting && (id in qs[0].running ==> Remaining(qs[0].running[id]) == 1)
    ensures NeverPopped(run, id) && Sound(qs[|run|])
    ensures var q := qs[|run|]; id !in q.waiting && (id in q.running ==> Remaining(q.running[id]) == 1)
  {
    if run != [] {
      var n := |run| - 1;
      StaysGone(run[..n], qs[..|run|], id);
      assert Step(qs[n], run[n], qs[|run|]);
      StepKeepsSound(qs[n], run[n], qs[|run|]);
      if id in qs[n].running && run[n].Finish? {
        TimerCountsDown(qs[n].running[id], run[n].finishTime);
      }
      assert forall i :: 0 <= i < n ==> !run[..n][i].Pops(id);
    }
  }

  /** A continuation in which the task is popped without having been pushed again. */
  ghost predicate PopsAgain(run: seq<Event>, qs: seq<Queue>, q: Queue, id: TaskId) {
    Steps(run, qs) && qs[0] == q && NeverPushed(run, id) && run != [] && run[|run| - 1].Pops(id)
  }

  // When all other tasks have been removed, the running task finishes, is put back and is popped.
  lemma {:induction false} ComesBack(q: Queue, id: TaskId) returns (run: seq<Event>, qs: seq<Queue>)
    requires Sound(q) && id in q.running && Remaining(q.running[id]) > 1
    ensures PopsAgain(run, qs, q, id)
    decreases |q.waiting|
  {
    hide PopsAgain;
    if other :| other in q.waiting {
      ShrunkBy(q.waiting, other);
      run, qs := ComesBack(q.Remove(other), id);
      Prepend(q, other, run, qs, id);
      run, qs := [Remove(other, false)] + run, [q] + qs;
    } else {
      run, qs := FinishesAndPops(q, id);
    }
  }

  lemma Prepend(q: Queue, other: TaskId, run: seq<Event>, qs: seq<Queue>, id: TaskId)
    requires PopsAgain(run, qs, q.Remove(other), id)
    ensures PopsAgain([Remove(other, false)] + run, [q] + qs, q, id)
  {
    hide Queue.Remove, Queue.Finish, Queue.Reset, Queue.First;
    var all, ps := [Remove(other, false)] + run, [q] + qs;
    forall i | 0 <= i < |all|
      ensures Step(ps[i], all[i], ps[i + 1]) && !all[i].Pushes(id)
    {
      if i > 0 {
        assert all[i] == run[i - 1] && ps[i] == qs[i - 1] && ps[i + 1] == qs[i];
        assert Step(qs[i - 1], run[i - 1], qs[i]);
      }
    }
    assert all[|all| - 1] == run[|run| - 1];
  }

  lemma FinishesAndPops(q: Queue, id: TaskId) returns (run: seq<Event>, qs: seq<Queue>)
    requires q.waiting == map[] && id in q.running && Remaining(q.running[id]) > 1
    ensures PopsAgain(run, qs, q, id)
  {
    TimerCountsDown(q.running[id], 0);
    var t := NextTimer(q.running[id], 0);
    var e := Entry(t.due, q.nodes, id, t.task);
    var back := q.Finish(id, 0);
    assert back.waiting == map[id := e] && back.First(e);
    run := [Finish(id, 0), Pop(t.due, Popped(e))];
    qs := [q, back, back.Start(e)];
    assert Step(qs[0], run[0], qs[1]) && Step(qs[1], run[1], qs[2]);
  }

  // Without waiting, a running periodic task comes back: it is put back by Finish and popped.
  lemma RemoveWithoutWaitIsNot()
    ensures exists run: seq<Event>, qs: seq<Queue> :: IsRun(run, qs) && |run| == 5 && run[2] == Remove(1, false) && run[4].Pops(1)
  {
    var task := InnerTask(0, 10, 2, 1);
    var first, again := Entry(0, 0, 1, task), Entry(10, 1, 1, task.(times := 1));
    var run := [Push(task, 0), Pop(0, Popped(first)), Remove(1, false), Finish(1, 0), Pop(10, Popped(again))];
    var q0 := Queue(map[], map[], 0);
    var q1 := q0.Insert(1, task, 0);
    var q2 := Queue(map[], map[1 := task], 1);
    var q4 := Queue(map[1 := again], map[], 2);
    var q5 := Queue(map[], map[1 := task.(times := 1)], 2);
    assert q1.First(first) && q1.waiting - {1} == map[] && Step(q0, run[0], q1) && Step(q1, run[1], q2);
    assert q2.waiting - {1} == map[] && Step(q2, run[2], q2);
    assert NextTimer(task, 0) == Timer(true, 10, task.(times := 1));
    assert q2.running - {1} == map[] && Step(q2, run[3], q4);
    assert q4.First(again) && q4.waiting - {1} == map[] && Step(q4, run[4], q5);
    assert IsRun(run, [q0, q1, q2, q2, q4, q5]);
  }

  // ----- nothing is lost

  /** This event finishes the task for good or removes it while it waits. */
  predicate Ends(q: Queue, e: Event, id: TaskId) {
    match e
    case Finish(f, now) => f == id && id in q.running && !NextTimer(q.running[id], now).repeats
    case Remove(f, _) => f == id && id in q.waiting
    case _ => false
  }

  ghost predicate NeverEnds(run: seq<Event>, qs: seq<Queue>, p: nat, id: TaskId) {
    |qs| == |run| + 1 && forall i :: p < i < |run| ==> !Ends(qs[i], run[i], id)
  }

  /** The event at e, and no other one after p, ends the task. */
  ghost predicate EndsOnce(run: seq<Event>, qs: seq<Queue>, p: nat, e: nat, id: TaskId) {
    && |qs| == |run| + 1 && p < e < |run| && Ends(qs[e], run[e], id)
    && forall i :: p < i < |run| && i != e ==> !Ends(qs[i], run[i], id)
  }

  /** Exactly one of: the task waits, it runs, or one event has ended it. */
  ghost predicate OneFate(run: seq<Event>, qs: seq<Queue>, p: nat, id: TaskId) {
    |qs| == |run| + 1 &&
      var q := qs[|run|];
      if id in q.waiting || id in q.running then (id in q.waiting <==> id !in q.running) && NeverEnds(run, qs, p, id)
      else HasEnded(run, qs, p, id)
  }

  ghost predicate HasEnded(run: seq<Event>, qs: seq<Queue>, p: nat, id: TaskId) {
    exists e: nat :: EndsOnce(run, qs, p, e, id)
  }

  // Every accepted task is, until its id is pushed again, in exactly one place: it waits, or it runs, or
  // exactly one later event has finished it for good or removed it.
  lemma {:induction false} EveryTaskHasOneFate(run: seq<Event>, qs: seq<Queue>, p: nat, id: TaskId)
    requires IsRun(run, qs) && p < |run| && run[p].Pushes(id) && forall i :: p < i < |run| ==> !run[i].Pushes(id)
    ensures OneFate(run, qs, p, id)
  {
    hide Ends;
    var n := |run| - 1;
    assert Step(qs[n], run[n], qs[|run|]);
    PrefixIsRun(run, qs, n);
    RunIsSound(run[..n], qs[..|run|]);
    FateOfStep(qs[n], run[n], qs[|run|], id);
    if p < n {
      var past, ps := run[..n], qs[..|run|];
      EveryTaskHasOneFate(past, ps, p, id);
      assert forall i :: 0 <= i < n ==> past[i] == run[i] && ps[i] == qs[i];
      if id !in qs[n].waiting && id !in qs[n].running {
        var e: nat :| EndsOnce(past, ps, p, e, id);
        assert Ends(ps[e], past[e], id);
        assert EndsOnce(run, qs, p, e, id);
      } else if Ends(qs[n], run[n], id) {
        assert EndsOnce(run, qs, p, n, id);
      }
    }
  }

  lemma FateOfStep(q: Queue, e: Event, after: Queue, id: TaskId)
    requires Sound(q) && Step(q, e, after)
    ensures !(id in after.waiting && id in after.running)
    ensures e.Pushes(id) ==> id in after.waiting
    ensures !e.Pushes(id) ==>
      (id in after.waiting || id in after.running <==> (id in q.waiting || id in q.running) && !Ends(q, e, id))
      && (Ends(q, e, id) ==> id in q.waiting || id in q.running)
  {
  }

  // A task whose id is pushed again has ended exactly once before.
  lemma EndedBeforePushedAgain(run: seq<Event>, qs: seq<Queue>, p: nat, r: nat, id: TaskId)
    requires IsRun(run, qs) && p < r < |run| && run[p].Pushes(id) && run[r].Pushes(id)
    requires forall i :: p < i < r ==> !run[i].Pushes(id)
    ensures HasEnded(run[..r], qs[..r + 1], p, id)
  {
    hide Ends;
    PrefixIsRun(run, qs, r);
    EveryTaskHasOneFate(run[..r], qs[..r + 1], p, id);
    assert Step(qs[r], run[r], qs[r + 1]);
  }

  function Accepted(run: seq<Event>): nat {
    if run == [] then 0 else Accepted(run[..|run| - 1]) + if run[|run| - 1].Push? then 1 else 0
  }

  /** Whether this event finishes a task for good or removes a waiting one. */
  function EndedBy(q: Queue, e: Event): nat {
    match e
    case Finish(id, now) => if id in q.running && !NextTimer(q.running[id], now).repeats then 1 else 0
    case Remove(id, _) => if id in q.waiting then 1 else 0
    case _ => 0
  }

  function Ended(run: seq<Event>, qs: seq<Queue>): nat
    requires |qs| == |run| + 1
  {
    if run == [] then 0
    else Ended(run[..|run| - 1], qs[..|run|]) + EndedBy(qs[|run| - 1], run[|run| - 1])
  }

  // Over the whole queue: the accepted tasks are as many as those that wait, run or have ended.
  lemma {:induction false} TasksAreConserved(run: seq<Event>, qs: seq<Queue>)
    requires IsRun(run, qs)
    ensures Accepted(run) == Size(qs[|run|]) + Ended(run, qs)
    ensures qs[|run|].waiting.Keys !! qs[|run|].running.Keys
  {
    hide Step, EndedBy;
    RunIsSound(run, qs);
    if run != [] {
      var last := |run| - 1;
      PrefixIsRun(run, qs, last);
      RunIsSound(run[..last], qs[..|run|]);
      TasksAreConserved(run[..last], qs[..|run|]);
      assert Step(qs[last], run[last], qs[|run|]);
      StepConserves(qs[last], run[last], qs[|run|]);
    }
  }

  function Size(q: Queue): nat {
    |q.waiting| + |q.running|
  }

  lemma StepConserves(q: Queue, e: Event, after: Queue)
    requires Sound(q) && Step(q, e, after)
    ensures Size(after) + EndedBy(q, e) == Size(q) + if e.Push? then 1 else 0
  {
    hide Queue.First, Size, Queue.Finish, Queue.Reset;
    match e
    case Push(task, due) => PushGrows(q, task, due);
    case Pop(now, r) =>
      if r.Popped? {
        PopMoves(q, now, r.entry, after);
      }
    case Finish(id, now) => FinishMoves(q, id, now);
    case Remove(id, _) => RemoveShrinks(q, id);
    case Reset(id, interval, now) => ResetKeeps(q, id, interval, now);
  }

  lemma PushGrows(q: Queue, task: InnerTask, due: Time)
    requires q.Fresh(task.taskId)
    ensures Size(q.Insert(task.taskId, task, due)) == Size(q) + 1
  {
    GrownBy(q.waiting, task.taskId, Entry(due, q.nodes, task.taskId, task));
  }

  lemma FinishMoves(q: Queue, id: TaskId, now: Time)
    requires Sound(q)
    ensures Size(q.Finish(id, now)) ==
      Size(q) - if id in q.running && !NextTimer(q.running[id], now).repeats then 1 else 0
  {
    if id in q.running {
      ShrunkBy(q.running, id);
      var t := NextTimer(q.running[id], now);
      GrownBy(q.waiting, id, Entry(t.due, q.nodes, id, t.task));
    }
  }

  lemma RemoveShrinks(q: Queue, id: TaskId)
    ensures Size(q.Remove(id)) == Size(q) - if id in q.waiting then 1 else 0
  {
    if id in q.waiting {
      ShrunkBy(q.waiting, id);
    } else {
      assert q.waiting - {id} == q.waiting;
    }
  }

  lemma ResetKeeps(q: Queue, id: TaskId, interval: int, now: Time)
    requires Sound(q)
    ensures Size(q.Reset(id, interval, now)) == Size(q)
  {
    if id in q.waiting {
      GrownBy(q.waiting, id, q.Reset(id, interval, now).waiting[id]);
    } else if id in q.running {
      GrownBy(q.running, id, q.Reset(id, interval, now).running[id]);
    }
  }

  lemma PopMoves(q: Queue, now: Time, e: Entry, after: Queue)
    requires Sound(q) && q.PopTo(now, Popped(e), after)
    ensures Size(after) == Size(q)
  {
    ShrunkBy(q.waiting, e.id);
    GrownBy(q.running, e.id, e.task);
  }

  lemma GrownBy<V>(m: map<TaskId, V>, id: TaskId, v: V)
    ensures |m[id := v]| == |m| + if id in m then 0 else 1
  {
    assert m[id := v].Keys == m.Keys + {id};
  }

  lemma ShrunkBy<V>(m: map<TaskId, V>, id: TaskId)
    requires id in m
    ensures |m - {id}| == |m| - 1
  {
    assert (m - {id}).Keys == m.Keys - {id};
  }
}
