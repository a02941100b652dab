// The executor pool of frameworks/native/include/pool.h: idle and busy nodes on two doubly linked
// lists with one counter.
module Pool {

  /** The pool as a caller sees it: the executors on its two lists, front first. */
  datatype View<T(==)> = View(idle: seq<T>, busy: seq<T>) {
    function Size(): nat {
      |idle| + |busy|
    }

    predicate CanGet(force: bool, capability: nat) {
      idle != [] || force || Size() < capability
    }

    /** x is the executor handed out: the front idle one, or a new one when none is idle. */
    predicate GetTo(x: T, after: View<T>) {
      if idle != [] then x == idle[0] && after == View(idle[1..], [x] + busy)
      else x !in busy && after == View([], [x] + busy)
    }

    predicate CanRelease(x: T, force: bool, min: nat) {
      x in idle && (force || Size() > min)
    }

    function Release(x: T): View<T> {
      View(Without(idle, x), busy)
    }

    function Idle(x: T): View<T> {
      if x in busy then View([x] + idle, Without(busy, x)) else this
    }
  }

  ghost predicate Injective<T>(s: seq<T>) {
    forall i, j :: 0 <= i < j < |s| ==> s[i] != s[j]
  }

  ghost predicate Separate<T>(a: seq<T>, b: seq<T>) {
    Injective(a) && Injective(b) && forall i, j :: 0 <= i < |a| && 0 <= j < |b| ==> a[i] != b[j]
  }

  function Without<T(==)>(s: seq<T>, x: T): seq<T> {
    if s == [] then []
    else if s[0] == x then s[1..]
    else [s[0]] + Without(s[1..], x)
  }

  lemma {:induction false} WithoutAt<T>(s: seq<T>, k: nat)
    requires k < |s| && forall i :: 0 <= i < k ==> s[i] != s[k]
    ensures Without(s, s[k]) == s[..k] + s[k + 1..]
  {
    if k > 0 {
      WithoutAt(s[1..], k - 1);
      assert s[1..][..k - 1] == s[1..k] && s[1..][k..] == s[k + 1..];
      assert [s[0]] + s[1..k] == s[..k];
    }
  }

  // ----- the heap

  class Executor {
    constructor () {}
  }

  class Node {
    var prev: Node?
    var next: Node?
    const data: Executor

    constructor ()
      ensures prev == null && next == null && fresh(data)
    {
      prev, next := null, null;
      data := new Executor();
    }
  }

  /** The executors of a run of nodes. */
  ghost function Data(nodes: seq<Node>): (d: seq<Executor>)
    ensures |d| == |nodes| && forall i :: 0 <= i < |d| ==> d[i] == nodes[i].data
  {
    seq(|nodes|, i requires 0 <= i < |nodes| => nodes[i].data)
  }

  ghost function NodeAt(nodes: seq<Node>, i: int): Node? {
    if 0 <= i < |nodes| then nodes[i] else null
  }

  /** The nodes form the doubly linked list that starts at head. */
  ghost predicate Linked(head: Node?, nodes: seq<Node>)
    reads nodes
  {
    && head == NodeAt(nodes, 0)
    && (forall i {:trigger nodes[i].next} :: 0 <= i < |nodes| ==> nodes[i].next == NodeAt(nodes, i + 1))
    && (forall i {:trigger nodes[i].prev} :: 0 <= i < |nodes| ==> nodes[i].prev == NodeAt(nodes, i - 1))
  }

  // The pointer updates on one list, `nodes` before the update; the list `other` is not touched.

  ghost predicate Outside(other: seq<Node>, changed: seq<Node>) {
    forall i :: 0 <= i < |other| ==> other[i] !in changed
  }

  ghost predicate Untouched(head: Node?, other: seq<Node>, changed: seq<Node>)
    reads other
  {
    Linked(head, other) && Outside(other, changed)
  }

  method DetachFront(head: Node, ghost nodes: seq<Node>, ghost o: Node?, ghost other: seq<Node>) returns (rest: Node?)
    requires Linked(head, nodes) && Injective(nodes) && Untouched(o, other, nodes)
    modifies nodes
    ensures Linked(rest, nodes[1..]) && head.prev == null && Linked(o, other)
  {
    rest := head.next;
    if rest != null {
      assert rest == nodes[1];
      rest.prev := null;
    }
    forall i | 0 <= i < |nodes| - 1
      ensures nodes[1..][i].next == NodeAt(nodes[1..], i + 1) && nodes[1..][i].prev == NodeAt(nodes[1..], i - 1)
    {
      assert nodes[1..][i] == nodes[i + 1];
    }
  }

  method AttachBusy(cur: Node, busy: Node?, ghost nodes: seq<Node>, ghost o: Node?, ghost other: seq<Node>)
    requires Linked(busy, nodes) && Injective(nodes) && cur !in nodes && cur.prev == null
    requires Untouched(o, other, [cur] + nodes)
    modifies cur, nodes
    ensures Linked(cur, [cur] + nodes) && Linked(o, other)
  {
    cur.next := busy;
    if busy != null {
      cur.prev := busy.prev;
      busy.prev := cur;
    }
    Attached(cur, nodes);
  }

  method AttachIdle(cur: Node, idle: Node?, ghost nodes: seq<Node>, ghost o: Node?, ghost other: seq<Node>)
    requires Linked(idle, nodes) && Injective(nodes) && cur !in nodes
    requires Untouched(o, other, [cur] + nodes)
    modifies cur, nodes
    ensures Linked(cur, [cur] + nodes) && Linked(o, other)
  {
    cur.prev := null;
    cur.next := idle;
    if idle != null {
      idle.prev := cur;
    }
    Attached(cur, nodes);
  }

  lemma Attached(cur: Node, nodes: seq<Node>)
    requires cur.next == NodeAt(nodes, 0) && cur.prev == null
    requires forall i {:trigger nodes[i].next} :: 0 <= i < |nodes| ==> nodes[i].next == NodeAt(nodes, i + 1)
    requires forall i {:trigger nodes[i].prev} :: 0 <= i < |nodes| ==> nodes[i].prev == if i == 0 then cur else nodes[i - 1]
    ensures Linked(cur, [cur] + nodes)
  {
    var after := [cur] + nodes;
    forall i | 1 <= i < |after|
      ensures after[i].next == NodeAt(after, i + 1) && after[i].prev == NodeAt(after, i - 1)
    {
      assert after[i] == nodes[i - 1];
      assert i > 1 ==> after[i - 1] == nodes[i - 2];
    }
  }

  method Unlink(head: Node, cur: Node, ghost nodes: seq<Node>, ghost k: nat, ghost o: Node?, ghost other: seq<Node>)
    returns (rest: Node?)
    requires Linked(head, nodes) && Injective(nodes) && k < |nodes| && nodes[k] == cur && Untouched(o, other, nodes)
    modifies nodes
    ensures Linked(rest, nodes[..k] + nodes[k + 1..]) && Linked(o, other)
  {
    rest := if cur == head then cur.next else head;
    if cur.next != null {
      assert cur.next == nodes[k + 1];
      cur.next.prev := cur.prev;
    }
    if cur.prev != null {
      assert cur.prev == nodes[k - 1];
      cur.prev.next := cur.next;
    }
    Unlinked(nodes, k);
  }

  lemma Unlinked(nodes: seq<Node>, k: nat)
    requires k < |nodes|
    requires forall i {:trigger nodes[i].next} :: 0 <= i < |nodes| && i != k ==> nodes[i].next == NodeAt(nodes, if i == k - 1 then k + 1 else i + 1)
    requires forall i {:trigger nodes[i].prev} :: 0 <= i < |nodes| && i != k ==> nodes[i].prev == NodeAt(nodes, if i == k + 1 then k - 1 else i - 1)
    ensures var after := nodes[..k] + nodes[k + 1..]; Linked(NodeAt(after, 0), after)
  {
    var after := nodes[..k] + nodes[k + 1..];
    forall i | 0 <= i < |after|
      ensures after[i].next == NodeAt(after, i + 1) && after[i].prev == NodeAt(after, i - 1)
    {
      assert after[i] == nodes[if i < k then i else i + 1];
      assert i > 0 ==> after[i - 1] == nodes[if i - 1 < k then i - 1 else i];
      assert i + 1 < |after| ==> after[i + 1] == nodes[if i + 1 < k then i + 1 else i + 2];
    }
  }

  lemma MoveSeparate<T>(from: seq<T>, k: nat, to: seq<T>)
    requires Separate(from, to) && k < |from|
    ensures Separate(from[..k] + from[k + 1..], [from[k]] + to)
    ensures Separate([from[k]] + to, from[..k] + from[k + 1..])
  {
    var left, right := from[..k] + from[k + 1..], [from[k]] + to;
    forall i, j | 0 <= i < j < |left|
      ensures left[i] != left[j]
    {
      assert left[i] == from[if i < k then i else i + 1] && left[j] == from[if j < k then j else j + 1];
    }
    forall i, j | 0 <= i < |left| && 0 <= j < |right|
      ensures left[i] != right[j]
    {
      assert left[i] == from[if i < k then i else i + 1];
    }
  }

  lemma SwapSeparate<T>(a: seq<T>, b: seq<T>)
    ensures Separate(a, b) <==> Separate(b, a)
  {
    assert (forall i, j :: 0 <= i < |a| && 0 <= j < |b| ==> a[i] != b[j]) <==>
           (forall i, j :: 0 <= i < |b| && 0 <= j < |a| ==> b[i] != a[j]);
  }

  /** Two runs of nodes with no node and no executor in common. */
  ghost predicate Apart(idleNodes: seq<Node>, busyNodes: seq<Node>) {
    && Separate(idleNodes, busyNodes)
    && Separate(Data(idleNodes), Data(busyNodes))
  }

  // The node at k and the rest of its list, seen from the other list.
  lemma ApartNodes(a: seq<Node>, k: nat, b: seq<Node>)
    requires (Apart(a, b) || Apart(b, a)) && k < |a|
    ensures Injective(a) && Injective(b) && a[k] !in b
    ensures Outside(b, a) && Outside(a[..k] + a[k + 1..], [a[k]] + b)
  {
    hide Data;
    SwapSeparate(a, b);
    var rest := a[..k] + a[k + 1..];
    forall i | 0 <= i < |rest|
      ensures rest[i] !in [a[k]] + b
    {
      assert rest[i] == a[if i < k then i else i + 1];
    }
  }

  // A node moves from one list to the front of the other.
  lemma Move(from: seq<Node>, k: nat, to: seq<Node>)
    requires (Apart(from, to) || Apart(to, from)) && k < |from|
    requires forall i :: 0 <= i < k ==> from[i].data != from[k].data
    ensures var left, right := from[..k] + from[k + 1..], [from[k]] + to;
      && Apart(left, right) && Apart(right, left)
      && Data(left) == Without(Data(from), from[k].data) && Data(right) == [from[k].data] + Data(to)
  {
    hide Separate, Without;
    SwapSeparate(from, to);
    SwapSeparate(Data(from), Data(to));
    MoveSeparate(from, k, to);
    MoveSeparate(Data(from), k, Data(to));
    WithoutAt(Data(from), k);
    assert Data(from[..k] + from[k + 1..]) == Data(from)[..k] + Data(from)[k + 1..];
    assert Data([from[k]] + to) == [from[k].data] + Data(to);
  }

  lemma MoveFront(from: seq<Node>, to: seq<Node>)
    requires Apart(from, to) && from != []
    ensures Injective(from) && Injective(to) && from[0] !in to
    ensures Outside(to, from) && Outside(from[1..], [from[0]] + to) && Apart(from[1..], [from[0]] + to)
    ensures |Data(from)| == |from| && Data(from[1..]) == Data(from)[1..] && Data([from[0]] + to) == [from[0].data] + Data(to)
  {
    hide Separate, Apart, Outside, Injective;
    ApartNodes(from, 0, to);
    Move(from, 0, to);
    assert from[..0] + from[1..] == from[1..];
  }

  lemma MoveFound(from: seq<Node>, k: nat, to: seq<Node>)
    requires Apart(to, from) && k < |from|
    requires forall i :: 0 <= i < k ==> from[i].data != from[k].data
    ensures Injective(from) && Injective(to) && from[k] !in to && from[k].data in Data(from)
    ensures var left, right := from[..k] + from[k + 1..], [from[k]] + to;
      && Outside(to, from) && Outside(left, right) && Apart(right, left)
      && Data(left) == Without(Data(from), from[k].data) && Data(right) == [from[k].data] + Data(to)
  {
    hide Separate, Apart, Outside, Injective, Without;
    ApartNodes(from, k, to);
    Move(from, k, to);
    assert Data(from)[k] == from[k].data;
  }

  lemma NotFound(nodes: seq<Node>, data: Executor)
    requires forall i :: 0 <= i < |nodes| ==> nodes[i].data != data
    ensures data !in Data(nodes)
  {
  }

  // A node is dropped.
  lemma Drop(from: seq<Node>, k: nat, other: seq<Node>)
    requires Apart(from, other) && k < |from|
    requires forall i :: 0 <= i < k ==> from[i].data != from[k].data
    ensures Apart(from[..k] + from[k + 1..], other)
    ensures Data(from[..k] + from[k + 1..]) == Without(Data(from), from[k].data)
  {
    hide Without;
    Move(from, k, other);
    var left, right := from[..k] + from[k + 1..], [from[k]] + other;
    assert right[1..] == other && Data(right)[1..] == Data(other);
    TailSeparate(left, right);
    TailSeparate(Data(left), Data(right));
  }

  lemma TailSeparate<T>(a: seq<T>, b: seq<T>)
    requires Separate(a, b) && b != []
    ensures Separate(a, b[1..])
  {
  }

  lemma LinkedHead(head: Node?, nodes: seq<Node>)
    requires Linked(head, nodes)
    ensures head == NodeAt(nodes, 0)
  {
  }

  lemma LinkedAt(head: Node?, nodes: seq<Node>, k: nat)
    requires Linked(head, nodes) && k < |nodes|
    ensures head == nodes[0] && nodes[k].next == NodeAt(nodes, k + 1)
  {
  }

  class ExecutorPool {
    const capability: nat
    var min: nat
    var current: nat
    var idle: Node?
    var busy: Node?
    ghost var idleNodes: seq<Node>
    ghost var busyNodes: seq<Node>

    ghost function Contents(): View<Executor>
      reads this
    {
      View(Data(idleNodes), Data(busyNodes))
    }

    ghost predicate Valid()
      reads this, idleNodes, busyNodes
    {
      && Linked(idle, idleNodes) && Linked(busy, busyNodes)
      && Apart(idleNodes, busyNodes)
      && current == |idleNodes| + |busyNodes|
    }

    constructor (capability: nat, min: nat)
      ensures Valid() && Contents() == View([], []) && this.capability == capability && this.min == min
    {
      this.capability, this.min, current, idle, busy, idleNodes, busyNodes := capability, min, 0, null, null, [], [];
    }

    /** The part of Get that makes sure an idle node is at the front. */
    method EnsureIdle(force: bool) returns (ok: bool)
      requires Valid()
      modifies this
      ensures Valid() && min == old(min) && busyNodes == old(busyNodes)
      ensures ok <==> old(Contents()).CanGet(force, capability)
      ensures !ok || old(idleNodes) != [] ==> idleNodes == old(idleNodes)
      ensures ok ==> idle != null && idleNodes != [] && idle == idleNodes[0]
      ensures ok && old(idleNodes) == [] ==> |idleNodes| == 1 && fresh(idle) && idle.data !in Data(busyNodes)
    {
      if idle == null {
        if !force && current >= capability {
          return false;
        }
        var cur := new Node();
        idle := cur;
        idleNodes := [cur];
        current := current + 1;
      }
      return true;
    }

    /** The part of Get that moves the front idle node to the front of the busy list. */
    method TakeIdle() returns (r: Executor)
      requires Valid() && idleNodes != []
      modifies this, idleNodes, busyNodes
      ensures Valid() && min == old(min) && current == old(current)
      ensures r == old(idleNodes)[0].data
      ensures Contents() == View(old(Contents()).idle[1..], [r] + old(Contents()).busy)
    {
      hide Separate, Linked, Apart, Injective, Outside, Data;
      LinkedAt(idle, idleNodes, 0);
      var cur := idle;
      MoveFront(idleNodes, busyNodes);
      var rest := DetachFront(cur, idleNodes, busy, busyNodes);
      AttachBusy(cur, busy, busyNodes, rest, idleNodes[1..]);
      idle, busy := rest, cur;
      idleNodes, busyNodes := idleNodes[1..], [cur] + busyNodes;
      return cur.data;
    }

    method Get(force: bool) returns (r: Executor?)
      requires Valid()
      modifies this, idleNodes, busyNodes
      ensures Valid() && min == old(min)
      ensures r != null <==> old(Contents()).CanGet(force, capability)
      ensures if r == null then Contents() == old(Contents()) else old(Contents()).GetTo(r, Contents())
    {
      hide Separate, Without, Linked, Apart;
      var ok := EnsureIdle(force);
      if !ok {
        return null;
      }
      r := TakeIdle();
    }

    method Release(data: Executor, force: bool) returns (released: bool)
      requires Valid()
      modifies this, idleNodes, busyNodes
      ensures Valid() && min == old(min)
      ensures released <==> old(Contents()).CanRelease(data, force, min)
      ensures Contents() == if released then old(Contents()).Release(data) else old(Contents())
    {
      hide Separate, Apart, Without, Linked, Injective, Outside;
      var cur := idle;
      if !force && current <= min {
        return false;
      }
      ghost var k := 0;
      LinkedHead(idle, idleNodes);
      while cur != null
        modifies {}
        invariant 0 <= k <= |idleNodes| && cur == NodeAt(idleNodes, k)
        invariant forall i :: 0 <= i < k ==> idleNodes[i].data != data
        decreases |idleNodes| - k
      {
        LinkedAt(idle, idleNodes, k);
        if cur.data == data {
          break;
        }
        cur := cur.next;
        k := k + 1;
      }
      if cur == null {
        return false;
      }
      ApartNodes(idleNodes, k, busyNodes);
      Drop(idleNodes, k, busyNodes);
      assert Data(idleNodes)[k] == data;
      var rest := Unlink(idle, cur, idleNodes, k, busy, busyNodes);
      idle := rest;
      current := current - 1;
      idleNodes := idleNodes[..k] + idleNodes[k + 1..];
      return true;
    }

    method Idle(data: Executor)
      requires Valid()
      modifies this, idleNodes, busyNodes
      ensures Valid() && min == old(min)
      ensures Contents() == old(Contents()).Idle(data)
    {
      hide Separate, Apart, Without, Linked, Injective, Outside, Data;
      var cur := busy;
      ghost var k := 0;
      LinkedHead(busy, busyNodes);
      while cur != null && cur.data != data
        modifies {}
        invariant 0 <= k <= |busyNodes| && cur == NodeAt(busyNodes, k)
        invariant forall i :: 0 <= i < k ==> busyNodes[i].data != data
        decreases |busyNodes| - k
      {
        LinkedAt(busy, busyNodes, k);
        cur := cur.next;
        k := k + 1;
      }
      if cur == null {
        NotFound(busyNodes, data);
        return;
      }
      LinkedAt(busy, busyNodes, k);
      MoveFound(busyNodes, k, idleNodes);
      var rest := Unlink(busy, cur, busyNodes, k, idle, idleNodes);
      AttachIdle(cur, idle, idleNodes, rest, busyNodes[..k] + busyNodes[k + 1..]);
      busy, idle := rest, cur;
      idleNodes, busyNodes := [cur] + idleNodes, busyNodes[..k] + busyNodes[k + 1..];
    }
  }

  // ----- whole runs of the pool

  datatype Event<T> = Get(forceGet: bool, got: T) | Release(released: T, forceRelease: bool) | Idle(idled: T)

  ghost predicate Step<T>(v: View<T>, e: Event<T>, after: View<T>, capability: nat, min: nat) {
    match e
    case Get(force, x) =>
      if v.CanGet(force, capability) then v.GetTo(x, after) else after == v
    case Release(x, force) =>
      after == if v.CanRelease(x, force, min) then v.Release(x) else v
    case Idle(x) => after == v.Idle(x)
  }

  ghost predicate IsRun<T>(run: seq<Event<T>>, vs: seq<View<T>>, capability: nat, min: nat) {
    && |vs| == |run| + 1 && vs[0] == View([], [])
    && forall i :: 0 <= i < |run| ==> Step(vs[i], run[i], vs[i + 1], capability, min)
  }

  predicate Forced<T>(e: Event<T>) {
    (e.Get? && e.forceGet) || (e.Release? && e.forceRelease)
  }

  lemma {:induction false} WithoutSize<T>(s: seq<T>, x: T)
    ensures |Without(s, x)| == |s| - if x in s then 1 else 0
  {
    if s != [] && s[0] != x {
      WithoutSize(s[1..], x);
    }
  }

  // Without forced calls the pool never grows past its capability, and once it has reached its
  // minimum it never shrinks below it.
  lemma {:induction false} PoolStaysInBounds<T>(run: seq<Event<T>>, vs: seq<View<T>>, capability: nat, min: nat, i: nat, j: nat)
    requires IsRun(run, vs, capability, min) && i <= j <= |run|
    requires forall k :: 0 <= k < |run| ==> !Forced(run[k])
    ensures vs[j].Size() <= capability
    ensures vs[i].Size() >= min ==> vs[j].Size() >= min
  {
    if i < j {
      PoolStaysInBounds(run, vs, capability, min, i, j - 1);
      SizeOfStep(vs[j - 1], run[j - 1], vs[j], capability, min);
    } else if j > 0 {
      PoolStaysInBounds(run, vs, capability, min, j - 1, j - 1);
      SizeOfStep(vs[j - 1], run[j - 1], vs[j], capability, min);
    }
  }

  lemma SizeOfStep<T>(v: View<T>, e: Event<T>, after: View<T>, capability: nat, min: nat)
    requires Step(v, e, after, capability, min)
    ensures e.Get? ==> after.Size() == v.Size() + if v.idle == [] && (e.forceGet || v.Size() < capability) then 1 else 0
    ensures e.Release? ==>
      after.Size() == v.Size() - if e.released in v.idle && (e.forceRelease || v.Size() > min) then 1 else 0
    ensures e.Release? ==> after.busy == v.busy
    ensures e.Idle? ==> after.Size() == v.Size()
  {
    match e
    case Get(_, _) =>
    case Release(x, _) => WithoutSize(v.idle, x);
    case Idle(x) => WithoutSize(v.busy, x);
  }

  // ----- who holds an executor

  /** This event takes the executor from the idle list, or makes it. */
  predicate Hands<T(==)>(v: View<T>, e: Event<T>, capability: nat, x: T) {
    e.Get? && v.CanGet(e.forceGet, capability) && e.got == x
  }

  predicate GivesBack<T(==)>(e: Event<T>, x: T) {
    e.Idle? && e.idled == x
  }

  lemma StepKeepsSeparate<T>(v: View<T>, e: Event<T>, after: View<T>, capability: nat, min: nat)
    requires Separate(v.idle, v.busy) && Step(v, e, after, capability, min)
    ensures Separate(after.idle, after.busy)
  {
    hide Separate, Without;
    match e
    case Get(_, x) =>
      if v.idle != [] {
        MoveSeparate(v.idle, 0, v.busy);
        assert v.idle[..0] + v.idle[1..] == v.idle[1..];
      } else if after != v {
        NewIsSeparate(v.busy, x);
      }
    case Release(x, _) =>
      if x in v.idle {
        DropSeparate(v.idle, x, v.busy);
      }
    case Idle(x) =>
      if x in v.busy {
        var k := FirstOf(v.busy, x);
        WithoutAt(v.busy, k);
        MoveSeparate2(v.busy, k, v.idle);
      }
  }

  lemma NewIsSeparate<T>(busy: seq<T>, x: T)
    requires Separate([], busy) && x !in busy
    ensures Separate([], [x] + busy)
  {
  }

  lemma {:induction false} FirstOf<T>(s: seq<T>, x: T) returns (k: nat)
    requires x in s
    ensures k < |s| && s[k] == x && forall i :: 0 <= i < k ==> s[i] != x
  {
    if s[0] == x {
      k := 0;
    } else {
      k := FirstOf(s[1..], x);
      assert forall i :: 1 <= i < k + 1 ==> s[i] == s[1..][i - 1];
      k := k + 1;
    }
  }

  lemma DropSeparate<T>(idle: seq<T>, x: T, busy: seq<T>)
    requires Separate(idle, busy) && x in idle
    ensures Separate(Without(idle, x), busy)
  {
    hide Without;
    var k := FirstOf(idle, x);
    WithoutAt(idle, k);
    var left := idle[..k] + idle[k + 1..];
    assert forall i :: 0 <= i < |left| ==> left[i] == idle[if i < k then i else i + 1];
  }

  lemma MoveSeparate2<T>(from: seq<T>, k: nat, to: seq<T>)
    requires Separate(to, from) && k < |from|
    ensures Separate([from[k]] + to, from[..k] + from[k + 1..])
  {
    hide Separate;
    SwapSeparate(to, from);
    MoveSeparate(from, k, to);
  }

  lemma {:induction false} RunKeepsSeparate<T>(run: seq<Event<T>>, vs: seq<View<T>>, capability: nat, min: nat, n: nat)
    requires IsRun(run, vs, capability, min) && n <= |run|
    ensures Separate(vs[n].idle, vs[n].busy)
  {
    hide Step;
    if n > 0 {
      RunKeepsSeparate(run, vs, capability, min, n - 1);
      StepKeepsSeparate(vs[n - 1], run[n - 1], vs[n], capability, min);
    }
  }

  lemma HandedIsBusy<T>(v: View<T>, e: Event<T>, after: View<T>, capability: nat, min: nat, x: T)
    requires Separate(v.idle, v.busy) && Step(v, e, after, capability, min)
    ensures Hands(v, e, capability, x) ==> x !in v.busy && x in after.busy
    ensures x in v.busy && !GivesBack(e, x) ==> x in after.busy
  {
    if e.Idle? && x in v.busy && x != e.idled {
      WithoutKeeps(v.busy, e.idled, x);
    } else if e.Get? && x in v.busy {
      assert x in [e.got] + v.busy;
    } else if e.Get? {
      assert ([e.got] + v.busy)[0] == e.got;
    }
  }

  lemma {:induction false} WithoutKeeps<T>(s: seq<T>, x: T, y: T)
    requires y in s && y != x
    ensures y in Without(s, x)
  {
    if s[0] != x && s[0] != y {
      WithoutKeeps(s[1..], x, y);
    }
  }

  // An executor that was handed out is busy until it is given back, and meanwhile nobody else gets it.
  lemma {:induction false} HandedToOneCaller<T>(run: seq<Event<T>>, vs: seq<View<T>>, capability: nat, min: nat, i: nat, j: nat, x: T)
    requires IsRun(run, vs, capability, min) && i < j <= |run| && Hands(vs[i], run[i], capability, x)
    requires forall k :: i < k < j ==> !GivesBack(run[k], x)
    ensures x in vs[j].busy
    ensures j < |run| ==> !Hands(vs[j], run[j], capability, x)
  {
    hide Step, Hands;
    RunKeepsSeparate(run, vs, capability, min, j - 1);
    HandedIsBusy(vs[j - 1], run[j - 1], vs[j], capability, min, x);
    if i < j - 1 {
      HandedToOneCaller(run, vs, capability, min, i, j - 1, x);
    }
    if j < |run| {
      RunKeepsSeparate(run, vs, capability, min, j);
      HandedIsBusy(vs[j], run[j], vs[j + 1], capability, min, x);
    }
  }

  // The executor that was given back last is handed out first, and its place is as before.
  lemma LastIdleIsFirst<T>(v: View<T>, x: T, force: bool, capability: nat)
    requires x in v.busy
    ensures v.Idle(x).CanGet(force, capability)
    ensures forall y, after :: v.Idle(x).GetTo(y, after) ==> y == x && after == View(v.idle, [x] + Without(v.busy, x))
    ensures multiset([x] + Without(v.busy, x)) == multiset(v.busy)
  {
    assert ([x] + v.idle)[1..] == v.idle;
    WithoutOnce(v.busy, x);
  }

  lemma {:induction false} WithoutOnce<T>(s: seq<T>, x: T)
    requires x in s
    ensures multiset(Without(s, x)) == multiset(s) - multiset{x}
  {
    assert s == [s[0]] + s[1..];
    if s[0] != x {
      WithoutOnce(s[1..], x);
    }
  }
}
