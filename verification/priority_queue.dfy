// The timed task queue of frameworks/native/include/priority_queue.h, as executor_pool.h uses it:
// a multimap ordered by due time, an index from task id to its node, and the set of running tasks.
module PriorityQueue {

  type TaskId = nat
  type Time = int

  const INVALID_TASK_ID: TaskId := 0
  const UINT64_COUNT: nat := 0x1_0000_0000_0000_0000

  type Times = n: nat | n < UINT64_COUNT

  datatype InnerTask = InnerTask(exec: nat, interval: int, times: Times, taskId: TaskId) {
    predicate Valid() {
      taskId != INVALID_TASK_ID
    }
  }

  /** A node of the multimap; `node` numbers the nodes in the order they were inserted. */
  datatype Entry = Entry(due: Time, node: nat, id: TaskId, task: InnerTask) {
    predicate Before(other: Entry) {
      due < other.due || (due == other.due && node < other.node)
    }
  }

  datatype Timer = Timer(repeats: bool, due: Time, task: InnerTask)

  /** ExecutorPool::NextTimer, with the wrap-around of the unsigned counter. */
  function NextTimer(task: InnerTask, now: Time): Timer {
    if task.interval == 0 then Timer(false, 0, task)
    else
      var left := if task.times == 0 then UINT64_COUNT - 1 else task.times - 1;
      Timer(left > 0, now + task.interval, task.(times := left))
  }

  /** One pass of Pop's loop: the wait releases the lock, so other operations fall between passes. */
  datatype PopStep = Empty | WaitUntil(due: Time) | Popped(entry: Entry)

  // ----- the queue as a map of waiting tasks and a map of running ones

  datatype Queue = Queue(waiting: map<TaskId, Entry>, running: map<TaskId, InnerTask>, nodes: nat) {
    predicate Fresh(id: TaskId) {
      id !in waiting && id !in running
    }

    /** e is the waiting task that is due first and, among those, the one inserted first. */
    ghost predicate First(e: Entry) {
      e.id in waiting && waiting[e.id] == e
      && forall id :: id in waiting ==> waiting[id] == e || e.Before(waiting[id])
    }

    function Insert(id: TaskId, task: InnerTask, due: Time): Queue {
      Queue(waiting[id := Entry(due, nodes, id, task)], running, nodes + 1)
    }

    ghost predicate PopTo(now: Time, r: PopStep, after: Queue) {
      match r
      case Empty => waiting == map[] && after == this
      case WaitUntil(due) => after == this && exists e :: First(e) && e.due == due && due > now
      case Popped(e) => First(e) && e.due <= now && after == Start(e)
    }

    function Start(e: Entry): Queue {
      Queue(waiting - {e.id}, running[e.id := e.task], nodes)
    }

    function Finish(id: TaskId, now: Time): Queue {
      if id !in running then this
      else
        var t := NextTimer(running[id], now);
        var q := Queue(waiting, running - {id}, nodes);
        if t.repeats then q.Insert(id, t.task, t.due) else q
    }

    function Remove(id: TaskId): Queue {
      Queue(waiting - {id}, running, nodes)
    }

    /** ExecutorPool::Reset: a running task only has its interval changed. */
    function Reset(id: TaskId, interval: int, now: Time): Queue {
      if id in waiting then
        Insert(id, WithInterval(waiting[id].task, interval), now + interval)
      else if id in running then
        Queue(waiting, running[id := WithInterval(running[id], interval)], nodes)
      else this
    }
  }

  function WithInterval(task: InnerTask, interval: int): InnerTask {
    if task.interval != 0 then task.(interval := interval) else task
  }

  // ----- the multimap and the map it stands for

  ghost predicate Ordered(tasks: seq<Entry>) {
    forall i, j :: 0 <= i < j < |tasks| ==> tasks[i].Before(tasks[j])
  }

  ghost predicate DistinctNodes(tasks: seq<Entry>, nodes: nat) {
    && (forall i :: 0 <= i < |tasks| ==> tasks[i].node < nodes)
    && (forall i, j :: 0 <= i < j < |tasks| ==> tasks[i].node != tasks[j].node)
  }

  ghost predicate SameEntries(tasks: seq<Entry>, waiting: map<TaskId, Entry>) {
    && (forall i :: 0 <= i < |tasks| ==> tasks[i].id in waiting && waiting[tasks[i].id] == tasks[i])
    && (forall id :: id in waiting ==> waiting[id].id == id && waiting[id] in tasks)
  }

  ghost predicate Represents(tasks: seq<Entry>, waiting: map<TaskId, Entry>, nodes: nat) {
    Ordered(tasks) && DistinctNodes(tasks, nodes) && SameEntries(tasks, waiting)
  }

  /** The iterators of the index refer to the nodes of the waiting tasks. */
  ghost predicate Indexed(indexes: map<TaskId, nat>, waiting: map<TaskId, Entry>) {
    indexes.Keys == waiting.Keys && forall id :: id in indexes ==> indexes[id] == waiting[id].node
  }

  function UpperBound(tasks: seq<Entry>, due: Time): (k: nat)
    ensures k <= |tasks|
    ensures k > 0 ==> tasks[k - 1].due <= due
    ensures k < |tasks| ==> tasks[k].due > due
  {
    if tasks == [] then 0
    else if tasks[|tasks| - 1].due <= due then |tasks|
    else UpperBound(tasks[..|tasks| - 1], due)
  }

  lemma InsertAt(tasks: seq<Entry>, k: nat, e: Entry, waiting: map<TaskId, Entry>)
    requires Represents(tasks, waiting, e.node) && k == UpperBound(tasks, e.due)
    ensures var after := tasks[..k] + [e] + tasks[k..];
      && Ordered(after) && DistinctNodes(after, e.node + 1)
      && (SameEntries(after, waiting[e.id := e]) <==> e.id !in waiting)
  {
    hide Ordered, DistinctNodes, SameEntries;
    InsertOrdered(tasks, k, e);
    InsertDistinct(tasks, k, e);
    if e.id in waiting {
      InsertDuplicate(tasks, k, e, waiting);
    } else {
      InsertSameEntries(tasks, k, e, waiting);
    }
  }

  lemma InsertOrdered(tasks: seq<Entry>, k: nat, e: Entry)
    requires Ordered(tasks) && DistinctNodes(tasks, e.node) && k == UpperBound(tasks, e.due)
    ensures Ordered(tasks[..k] + [e] + tasks[k..])
  {
    var after := tasks[..k] + [e] + tasks[k..];
    assert |after| == |tasks| + 1;
    forall i: nat, j: nat | i < j < |after|
      ensures after[i].Before(after[j])
    {
      AfterInsertion(tasks, k, e, i);
      AfterInsertion(tasks, k, e, j);
      if j == k {
        assert i == k - 1 || tasks[i].Before(tasks[k - 1]);
      } else if i == k {
        assert j - 1 == k || tasks[k].Before(tasks[j - 1]);
      }
    }
  }

  lemma AfterInsertion(tasks: seq<Entry>, k: nat, e: Entry, i: nat)
    requires k <= |tasks| && i <= |tasks|
    ensures (tasks[..k] + [e] + tasks[k..])[i] == if i < k then tasks[i] else if i == k then e else tasks[i - 1]
  {
  }

  lemma InsertDistinct(tasks: seq<Entry>, k: nat, e: Entry)
    requires DistinctNodes(tasks, e.node) && k <= |tasks|
    ensures DistinctNodes(tasks[..k] + [e] + tasks[k..], e.node + 1)
  {
    var after := tasks[..k] + [e] + tasks[k..];
    assert forall i :: 0 <= i < |after| && i != k ==> after[i] == tasks[if i < k then i else i - 1];
  }

  lemma InsertDuplicate(tasks: seq<Entry>, k: nat, e: Entry, waiting: map<TaskId, Entry>)
    requires SameEntries(tasks, waiting) && DistinctNodes(tasks, e.node) && k <= |tasks| && e.id in waiting
    ensures !SameEntries(tasks[..k] + [e] + tasks[k..], waiting[e.id := e])
  {
    var after := tasks[..k] + [e] + tasks[k..];
    hide SameEntries, DistinctNodes;
    var i := EntryOfId(tasks, e, waiting);
    var j := if i < k then i else i + 1;
    assert after[j] == tasks[i];
    WrongEntry(after, j, waiting[e.id := e]);
  }

  lemma EntryOfId(tasks: seq<Entry>, e: Entry, waiting: map<TaskId, Entry>) returns (i: nat)
    requires SameEntries(tasks, waiting) && DistinctNodes(tasks, e.node) && e.id in waiting
    ensures i < |tasks| && tasks[i].id == e.id && tasks[i].node != e.node
  {
    i :| 0 <= i < |tasks| && tasks[i] == waiting[e.id];
  }

  lemma WrongEntry(tasks: seq<Entry>, j: nat, waiting: map<TaskId, Entry>)
    requires j < |tasks| && tasks[j].id in waiting && waiting[tasks[j].id] != tasks[j]
    ensures !SameEntries(tasks, waiting)
  {
  }

  lemma InsertSameEntries(tasks: seq<Entry>, k: nat, e: Entry, waiting: map<TaskId, Entry>)
    requires SameEntries(tasks, waiting) && k <= |tasks| && e.id !in waiting
    ensures SameEntries(tasks[..k] + [e] + tasks[k..], waiting[e.id := e])
  {
    var after := tasks[..k] + [e] + tasks[k..];
    assert after[k] == e;
    assert forall i :: 0 <= i < |tasks| ==> after[if i < k then i else i + 1] == tasks[i];
  }

  lemma EraseAt(tasks: seq<Entry>, k: nat, waiting: map<TaskId, Entry>, nodes: nat)
    requires Represents(tasks, waiting, nodes) && k < |tasks|
    ensures Represents(tasks[..k] + tasks[k + 1..], waiting - {tasks[k].id}, nodes)
  {
    hide Ordered, DistinctNodes, SameEntries;
    EraseOrdered(tasks, k, nodes);
    EraseSameEntries(tasks, k, waiting);
  }

  lemma EraseOrdered(tasks: seq<Entry>, k: nat, nodes: nat)
    requires Ordered(tasks) && DistinctNodes(tasks, nodes) && k < |tasks|
    ensures Ordered(tasks[..k] + tasks[k + 1..]) && DistinctNodes(tasks[..k] + tasks[k + 1..], nodes)
  {
    var after := tasks[..k] + tasks[k + 1..];
    forall i, j | 0 <= i < j < |after|
      ensures after[i].Before(after[j]) && after[i].node != after[j].node
    {
      var i', j' := if i < k then i else i + 1, if j < k then j else j + 1;
      assert after[i] == tasks[i'] && after[j] == tasks[j'];
    }
  }

  lemma EraseSameEntries(tasks: seq<Entry>, k: nat, waiting: map<TaskId, Entry>)
    requires Ordered(tasks) && SameEntries(tasks, waiting) && k < |tasks|
    ensures SameEntries(tasks[..k] + tasks[k + 1..], waiting - {tasks[k].id})
  {
    var after, left := tasks[..k] + tasks[k + 1..], waiting - {tasks[k].id};
    forall i | 0 <= i < |after|
      ensures after[i].id in left && left[after[i].id] == after[i]
    {
      var i' := if i < k then i else i + 1;
      assert after[i] == tasks[i'] && (tasks[i'].Before(tasks[k]) || tasks[k].Before(tasks[i']));
    }
    forall id | id in left
      ensures left[id].id == id && left[id] in after
    {
      var i :| 0 <= i < |tasks| && tasks[i] == waiting[id];
      assert after[if i < k then i else i - 1] == tasks[i];
    }
  }

  lemma FrontIsFirst(tasks: seq<Entry>, q: Queue)
    requires Represents(tasks, q.waiting, q.nodes)
    ensures tasks == [] <==> q.waiting == map[]
    ensures tasks != [] ==> q.First(tasks[0]) && tasks[0].id in q.waiting && q.waiting[tasks[0].id] == tasks[0]
  {
    if tasks == [] {
      assert forall id :: id !in q.waiting;
    } else {
      assert tasks[0].id in q.waiting;
    }
  }

  // ----- the program

  class TaskQueue {
    var tasks: seq<Entry>           // the multimap, in iteration order
    var indexes: map<TaskId, nat>   // the node of each waiting task
    var running: map<TaskId, InnerTask>
    var nodes: nat                  // nodes allocated so far
    ghost var waiting: map<TaskId, Entry>

    ghost predicate Valid()
      reads this
    {
      Represents(tasks, waiting, nodes) && Indexed(indexes, waiting) && waiting.Keys !! running.Keys
    }

    ghost function View(): Queue
      reads this
    {
      Queue(waiting, running, nodes)
    }

    constructor ()
      ensures Valid() && View() == Queue(map[], map[], 0)
    {
      tasks, indexes, running, nodes, waiting := [], map[], map[], 0, map[];
    }

    /** multimap::emplace: after the entries that are due no later. */
    method Emplace(due: Time, task: InnerTask, id: TaskId) returns (node: nat)
      requires Represents(tasks, waiting, nodes)
      modifies this`tasks, this`nodes, this`waiting
      ensures node == old(nodes) && nodes == node + 1
      ensures waiting == old(waiting)[id := Entry(due, node, id, task)]
      ensures id !in old(waiting) ==> Represents(tasks, waiting, nodes)
      ensures id in old(waiting) ==> !SameEntries(tasks, waiting)
    {
      hide Represents, Ordered, DistinctNodes, SameEntries;
      node := nodes;
      var e := Entry(due, node, id, task);
      var k := UpperBound(tasks, due);
      InsertAt(tasks, k, e, waiting);
      RepresentsFromParts(tasks[..k] + [e] + tasks[k..], waiting[id := e], nodes + 1);
      tasks := tasks[..k] + [e] + tasks[k..];
      nodes := nodes + 1;
      waiting := waiting[id := e];
    }

    static lemma RepresentsFromParts(tasks: seq<Entry>, waiting: map<TaskId, Entry>, nodes: nat)
      ensures Represents(tasks, waiting, nodes) <==>
        Ordered(tasks) && DistinctNodes(tasks, nodes) && SameEntries(tasks, waiting)
    {
    }

    /** multimap::erase of the node an iterator refers to. */
    method Erase(node: nat, id: TaskId)
      requires Represents(tasks, waiting, nodes) && id in waiting && waiting[id].node == node
      modifies this`tasks, this`waiting
      ensures waiting == old(waiting) - {id} && Represents(tasks, waiting, nodes)
    {
      var k :| 0 <= k < |tasks| && tasks[k].node == node;
      NodeOf(tasks, k, waiting, nodes, id);
      EraseAt(tasks, k, waiting, nodes);
      tasks := tasks[..k] + tasks[k + 1..];
      waiting := waiting - {id};
    }

    static lemma NodeOf(tasks: seq<Entry>, k: nat, waiting: map<TaskId, Entry>, nodes: nat, id: TaskId)
      requires Represents(tasks, waiting, nodes) && k < |tasks|
      requires id in waiting && waiting[id].node == tasks[k].node
      ensures tasks[k] == waiting[id] && tasks[k].id == id
    {
      var i :| 0 <= i < |tasks| && tasks[i] == waiting[id];
      assert i == k;
    }

    method Push(task: InnerTask, id: TaskId, due: Time) returns (ok: bool)
      requires Valid()
      modifies this
      ensures ok <==> task.Valid()
      ensures !ok ==> Valid() && View() == old(View())
      ensures ok && old(View()).Fresh(id) ==> Valid() && View() == old(View()).Insert(id, task, due)
      ensures ok && !old(View()).Fresh(id) ==> !Valid()
    {
      hide Ordered, DistinctNodes, SameEntries;
      if !task.Valid() {
        return false;
      }
      var node := Emplace(due, task, id);
      if id !in indexes {
        indexes := indexes[id := node];
      }
      return true;
    }

    method Size() returns (n: nat)
      requires Valid()
      ensures n == 0 <==> View().waiting == map[]
    {
      FrontIsFirst(tasks, View());
      n := |tasks|;
    }

    method Find(id: TaskId) returns (task: InnerTask)
      requires Valid()
      ensures task == if id in View().waiting then View().waiting[id].task else InnerTask(0, 0, UINT64_COUNT - 1, INVALID_TASK_ID)
    {
      if id in indexes {
        var k :| 0 <= k < |tasks| && tasks[k].node == indexes[id];
        NodeOf(tasks, k, waiting, nodes, id);
        return tasks[k].task;
      }
      return InnerTask(0, 0, UINT64_COUNT - 1, INVALID_TASK_ID);
    }

    method TryPop(now: Time) returns (r: PopStep)
      requires Valid()
      modifies this
      ensures Valid() && old(View()).PopTo(now, r, View())
    {
      hide Represents, Queue.First;
      FrontIsFirst(tasks, View());
      if tasks == [] {
        return Empty;
      }
      var top := tasks[0];
      if top.due > now {
        return WaitUntil(top.due);
      }
      EraseAt(tasks, 0, waiting, nodes);
      assert tasks[..0] + tasks[1..] == tasks[1..];
      if top.id !in running {
        running := running[top.id := top.task];
      }
      tasks := tasks[1..];
      indexes := indexes - {top.id};
      waiting := waiting - {top.id};
      return Popped(top);
    }

    method Update(id: TaskId, interval: int, now: Time) returns (updated: bool)
      requires Valid()
      modifies this
      ensures Valid() && View() == old(View()).Reset(id, interval, now)
      ensures updated <==> !old(View()).Fresh(id)
    {
      hide Represents;
      if id in indexes {
        var task := Find(id);
        Erase(indexes[id], id);
        var node := Emplace(now + interval, WithInterval(task, interval), id);
        indexes := indexes[id := node];
        return true;
      }
      if id in running {
        running := running[id := WithInterval(running[id], interval)];
        return true;
      }
      return false;
    }

    /** One pass of the waiting loop of Remove: `blocked` while the task runs and `wait` is set. */
    method TryRemove(id: TaskId, wait: bool) returns (blocked: bool, removed: bool)
      requires Valid()
      modifies this
      ensures Valid() && View() == if blocked then old(View()) else old(View()).Remove(id)
      ensures blocked <==> wait && id in old(View()).running
      ensures removed <==> !blocked && id in old(View()).waiting
      ensures !blocked && wait ==> View().Fresh(id)
    {
      hide Represents;
      if wait && id in running {
        return true, false;
      }
      if id !in indexes {
        assert waiting - {id} == waiting;
        return false, false;
      }
      Erase(indexes[id], id);
      indexes := indexes - {id};
      return false, true;
    }

    method Finish(id: TaskId, now: Time)
      requires Valid()
      modifies this
      ensures Valid() && View() == old(View()).Finish(id, now)
    {
      hide Represents;
      if id !in running {
        return;
      }
      var timer := NextTimer(running[id], now);
      if timer.repeats {
        var node := Emplace(timer.due, timer.task, id);
        if id !in indexes {
          indexes := indexes[id := node];
        }
      }
      running := running - {id};
    }
  }
}
