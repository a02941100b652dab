// Whole runs of the write-back cache: readers, updates, loads and flushes of any number of threads.
// preferences_impl.cpp holds mutex_ from the pop of a flush to the end of its write.
module CacheRuns {
  import opened Options
  import opened Values
  import opened WriteBackCache
  import opened XmlFile

  datatype World = World(
    store: State,
    baseline: ValueMap,          // the map last loaded or handed to a write, above what was merged since
    writing: Option<Snapshot>,   // handed to WriteSettingXml, which has not returned
    failed: bool,                // the last write that returned has failed
    tokens: nat,                 // in queue_, whose capacity is 1
    pushed: nat,                 // flush callers between their push and the end of their PreLoad
    early: nat,                  // flush callers whose PreLoad found the store not loaded yet
    passed: nat,                 // flush callers whose PreLoad succeeded after that
    updates: nat,                // operations of callers and flushes so far, in the serial order
    requested: nat,              // operations before the last call of Flush or FlushSync
    snapped: nat)                // operations before the last snapshot of a flush
  {
    /** Flush callers that are still going to pop. */
    function Poppers(): nat {
      pushed + early + passed
    }
  }

  function Initial(files: Disk<ValueMap>): World {
    World(State(map[], {}, false, false, false, false, files), map[], None, false, 0, 0, 0, 0, 0, 0, 0)
  }

  datatype Event =
    | Put(key: Key, value: Value, gaps: Gaps, code: Code, order: seq<MapOp>)
    | Delete(key: Key, gaps: Gaps, code: Code, order: seq<MapOp>)
    | Clear
    | Get(key: Key, gaps: Gaps, found: Option<Value>, order: seq<MapOp>)
    | GetAll(gaps: Gaps, all: ValueMap, order: seq<MapOp>)
    | Load(fates: ReadFates, read: bool, folder: bool)
    | Await(stale: bool, fates: ReadFates, read: bool, ok: bool)    // PreLoad in a reader or writer
    | Flush                                                         // Flush or FlushSync up to the push
    | PreLoad(stale: bool, fates: ReadFates, read: bool, ok: bool)  // PreLoad in a flush
    | Snap(fromEarly: bool, gaps: Gaps, taken: Option<Snapshot>, order: seq<MapOp>)
    | Commit(saveFates: SaveFates, written: bool, code: Code)
  {
    function Ops(): seq<MapOp> {
      match this
      case Put(_, _, _, _, order) => order
      case Delete(_, _, _, order) => order
      case Clear => [ClearOp]
      case Get(_, _, _, order) => order
      case GetAll(_, _, order) => order
      case Snap(_, _, _, order) => order
      case _ => []
    }

    predicate Reads() {
      Load? || Await? || PreLoad?
    }
  }

  /** An operation on the cache alone. */
  ghost predicate CacheOp(s: State, e: Event, t: State) {
    match e
    case Put(key, value, gaps, code, order) => PutPromise(s, key, value, gaps, code, order, t)
    case Delete(key, gaps, code, order) => DeletePromise(s, key, gaps, code, order, t)
    case Clear => t == s.(cleared := true)
    case Get(key, gaps, found, order) => GetPromise(s, key, gaps, found, order, t)
    case GetAll(gaps, all, order) => GetAllPromise(s, gaps, all, order, t)
    case _ => false
  }

  ghost predicate Step(w: World, e: Event, x: World) {
    match e
    case Put(_, _, _, _, _) | Delete(_, _, _, _) | Clear | Get(_, _, _, _) | GetAll(_, _, _) =>
      CacheOp(w.store, e, x.store) && x == w.(store := x.store, updates := w.updates + |e.Ops()|)
    case Load(fates, read, folder) =>
      && w.writing.None? && LoadPromise(w.store, fates, read, folder, x.store)
      && x == w.(store := x.store, baseline := if read && !w.store.loaded && w.store.OnDisk().Some?
                                               then w.store.OnDisk().value else w.baseline)
    case Await(stale, fates, read, ok) => PreLoadStep(w, stale, fates, read, ok, x) && x == w.(store := x.store, baseline := x.baseline)
    case Flush =>
      x == w.(requested := w.updates, tokens := 1, pushed := if w.tokens == 0 then w.pushed + 1 else w.pushed)
    case PreLoad(stale, fates, read, ok) =>
      && w.pushed > 0 && PreLoadStep(w, stale, fates, read, ok, x)
      && x == w.(store := x.store, baseline := x.baseline, pushed := w.pushed - 1,
                 early := if ok && !w.store.loaded then w.early + 1 else w.early,
                 passed := if ok && w.store.loaded then w.passed + 1 else w.passed)
    case Snap(fromEarly, gaps, r, order) =>
      && w.writing.None? && (if fromEarly then w.early > 0 else w.passed > 0) && w.tokens > 0
      && SnapshotPromise(w.store, gaps, r, order, x.store)
      && x == w.(store := x.store, tokens := w.tokens - 1, writing := r,
                 early := if fromEarly then w.early - 1 else w.early,
                 passed := if fromEarly then w.passed else w.passed - 1,
                 baseline := if r.Some? then r.value.data else w.baseline,
                 updates := w.updates + |order|, snapped := w.updates + |order|)
    case Commit(fates, written, code) =>
      && w.writing.Some? && CommitPromise(w.store, w.writing.value, fates, written, code, x.store)
      && x == w.(store := x.store, writing := None, failed := !written)
  }

  /** PreLoad returns at once from a store that has been read or written, and otherwise takes mutex_; a
      reload puts the file below the baseline too. */
  ghost predicate PreLoadStep(w: World, stale: bool, fates: ReadFates, read: bool, ok: bool, x: World) {
    && PreLoadPromise(w.store, stale, fates, read, ok, x.store)
    && (w.writing.Some? ==> w.store.loadResult && !stale)
    && x.baseline == if x.store.loadResult && !w.store.loadResult && w.store.OnDisk().Some?
                     then w.store.OnDisk().value + w.baseline else w.baseline
  }

  ghost predicate Steps(run: seq<Event>, ws: seq<World>)
    ensures Steps(run, ws) ==> |ws| == |run| + 1
  {
    |ws| == |run| + 1 && forall i :: 0 <= i < |run| ==> Step(ws[i], run[i], ws[i + 1])
  }

  ghost predicate IsRun(run: seq<Event>, ws: seq<World>) {
    Steps(run, ws) && ws[0] == Initial(ws[0].store.files)
  }

  // ----- the dirty set

  /** A key that is not marked has its binding in the baseline. */
  ghost predicate DirtySound(w: World) {
    forall k :: k !in w.store.modified ==> Lookup(w.store.values, k) == Lookup(w.baseline, k)
  }

  /** What the store knows of its files: nothing until they have been read or written. */
  function Known(s: State): ValueMap {
    if s.loadResult && s.OnDisk().Some? then s.OnDisk().value else map[]
  }

  ghost predicate DiskSound(w: World) {
    && (w.writing.Some? ==> w.baseline == w.writing.value.data)
    && (!w.failed && w.writing.None? ==> (w.store.loadResult ==> w.store.OnDisk().Some?) && w.baseline == Known(w.store))
  }

  lemma StepKeepsDirtySet(w: World, e: Event, x: World)
    requires DirtySound(w) && DiskSound(w) && Step(w, e, x)
    ensures DirtySound(x) && DiskSound(x)
  {
    hide Step, DirtySound, DiskSound;
    if e.Reads() {
      LoadKeepsDirtySet(w, e, x);
    } else {
      OperationKeepsDirtySet(w, e, x);
    }
  }

  lemma LoadKeepsDirtySet(w: World, e: Event, x: World)
    requires DirtySound(w) && DiskSound(w) && Step(w, e, x) && e.Reads()
    ensures DirtySound(x) && DiskSound(x)
  {
    hide CacheOp, SnapshotPromise;
    if w.store.OnDisk().Some? {
      assert w.store.OnDisk().value + map[] == w.store.OnDisk().value;
    }
  }

  lemma OperationKeepsDirtySet(w: World, e: Event, x: World)
    requires DirtySound(w) && DiskSound(w) && Step(w, e, x) && !e.Reads()
    ensures DirtySound(x) && DiskSound(x)
  {
    hide Serial, Equal, CheckPut, CheckKey, LoadPromise, PreLoadStep;
  }

  lemma PrefixIsRun(run: seq<Event>, ws: seq<World>, n: nat)
    requires IsRun(run, ws) && n <= |run|
    ensures IsRun(run[..n], ws[..n + 1])
    ensures n < |run| ==> Step(ws[n], run[n], ws[n + 1])
  {
  }

  // In every reachable state every unmarked key has in the cache the binding of the baseline. Unless
  // the last write that returned has failed, whatever failed before it, that is between writes the map
  // on disk, or the empty map as long as nothing has been read or written.
  lemma {:induction false} DirtySetIsSound(run: seq<Event>, ws: seq<World>)
    requires IsRun(run, ws)
    ensures DirtySound(ws[|run|]) && DiskSound(ws[|run|])
  {
    hide Step;
    if run != [] {
      var n := |run| - 1;
      PrefixIsRun(run, ws, n);
      DirtySetIsSound(run[..n], ws[..n + 1]);
      StepKeepsDirtySet(ws[n], run[n], ws[n + 1]);
    }
  }

  lemma SoundBefore(run: seq<Event>, ws: seq<World>, i: nat)
    requires IsRun(run, ws) && i < |run|
    ensures DirtySound(ws[i]) && DiskSound(ws[i]) && Step(ws[i], run[i], ws[i + 1])
  {
    PrefixIsRun(run, ws, i);
    DirtySetIsSound(run[..i], ws[..i + 1]);
  }

  /** A write has been handed out since, or everything is as the commit of `data` left it. */
  ghost predicate AsCommitted(w: World, data: ValueMap, left: ValueMap) {
    || w.writing.Some?
    || (w.baseline == data && Known(w.store) == left && Settled(w.store))
  }

  /** No read will change what the store knows of its files. */
  ghost predicate Settled(s: State) {
    s.loaded && (s.loadResult || s.OnDisk().None?)
  }

  lemma {:induction false} CommitStays(run: seq<Event>, ws: seq<World>, c: nat)
    requires IsRun(run, ws) && c < |run| && run[c].Commit? && Settled(ws[c + 1].store)
    requires forall k :: c < k < |run| ==> !run[k].Commit?
    ensures ws[c].writing.Some?
    ensures AsCommitted(ws[|run|], ws[c].writing.value.data, Known(ws[c + 1].store))
  {
    hide Step, AsCommitted, Settled;
    var n := |run| - 1;
    SoundBefore(run, ws, n);
    if c < n {
      PrefixIsRun(run, ws, n);
      CommitStays(run[..n], ws[..n + 1], c);
      StepKeepsCommit(ws[n], run[n], ws[n + 1], ws[c].writing.value.data, Known(ws[c + 1].store));
    } else {
      CommitStarts(ws[n], run[n], ws[n + 1]);
    }
  }

  lemma CommitStarts(w: World, e: Event, x: World)
    requires Step(w, e, x) && DiskSound(w) && e.Commit? && Settled(x.store)
    ensures w.writing.Some? && AsCommitted(x, w.writing.value.data, Known(x.store))
  {
  }

  lemma StepKeepsCommit(w: World, e: Event, x: World, data: ValueMap, left: ValueMap)
    requires Step(w, e, x) && !e.Commit? && AsCommitted(w, data, left)
    ensures AsCommitted(x, data, left)
  {
    hide PutPromise, DeletePromise, GetPromise, GetAllPromise, Serial;
    StoreOfCacheOp(w, e, x);
  }

  // After a write of a store that has been loaded, unless its files have not been read, and until the
  // next write: an unmarked key has in the files the binding it has in the cache exactly if the write
  // succeeded or what it left there already had that binding. A write that fails leaves what was there,
  // unless it renamed a torn file over a readable backup.
  lemma LastWriteDecides(run: seq<Event>, ws: seq<World>, c: nat, key: Key)
    requires IsRun(run, ws) && c < |run| && run[c].Commit? && Settled(ws[c + 1].store)
    requires (forall k :: c < k < |run| ==> !run[k].Commit?) && ws[|run|].writing.None?
    ensures ws[c].writing.Some?
    ensures var w, data, left := ws[|run|], ws[c].writing.value.data, Known(ws[c + 1].store);
      && (run[c].written ==> left == data)
      && (!run[c].written && !(ws[c].store.files.Exposed() && run[c].saveFates.backup.TakesEffect()) ==>
            left == Known(ws[c].store))
      && (w.baseline == Known(w.store) <==> left == data)
      && (key !in w.store.modified ==>
            (Lookup(w.store.values, key) == Lookup(Known(w.store), key) <==> Lookup(left, key) == Lookup(data, key)))
  {
    hide Step, PutPromise, DeletePromise, GetPromise, GetAllPromise, SnapshotPromise, PreLoadPromise, LoadPromise;
    CommitStays(run, ws, c);
    SoundBefore(run, ws, c);
    CommitLeaves(ws[c], run[c], ws[c + 1]);
    DirtySetIsSound(run, ws);
  }

  lemma CommitLeaves(w: World, e: Event, x: World)
    requires Step(w, e, x) && e.Commit?
    ensures w.writing.Some? && (e.written ==> Known(x.store) == w.writing.value.data)
    ensures !e.written && !(w.store.files.Exposed() && e.saveFates.backup.TakesEffect()) ==> Known(x.store) == Known(w.store)
  {
    RollbackLosesOnlyExposedBackup(w.store.files, e.saveFates);
  }

  // A flush that finds nothing marked may return without writing exactly when the baseline is on disk:
  // it is what the flush found in the cache. It is on disk unless the last write failed.
  lemma SkippedWriteLosesNothing(run: seq<Event>, ws: seq<World>, i: nat)
    requires IsRun(run, ws) && i < |run| && run[i].Snap? && run[i].taken.None?
    ensures ws[i + 1].store.values == ws[i].baseline
    ensures ws[i + 1].store.values == Known(ws[i].store) <==> ws[i].baseline == Known(ws[i].store)
    ensures !ws[i].failed ==> ws[i + 1].store.values == Known(ws[i].store)
  {
    SoundBefore(run, ws, i);
    var now, last := ws[i + 1].store.values, ws[i].baseline;
    assert forall k :: Lookup(now, k) == Lookup(last, k);
    SameLookups(now, last);
  }

  lemma SameLookups(m: ValueMap, n: ValueMap)
    requires forall k :: Lookup(m, k) == Lookup(n, k)
    ensures m == n
  {
    assert forall k :: k in m <==> k in n by {
      forall k
        ensures k in m <==> k in n
      {
        assert Lookup(m, k) == Lookup(n, k);
      }
    }
    forall k | k in m
      ensures m[k] == n[k]
    {
      assert Lookup(m, k) == Lookup(n, k);
    }
  }

  // The keys a write reports to the observers include every key whose binding differs from what the
  // store knew of the file, unless the last write failed; then a change is missed exactly if it was
  // already missing in the file.
  lemma ChangedKeysAreReported(run: seq<Event>, ws: seq<World>, i: nat, key: Key)
    requires IsRun(run, ws) && i < |run| && run[i].Snap? && run[i].taken.Some?
    ensures var data, keys, file := run[i].taken.value.data, run[i].taken.value.keys, Known(ws[i].store);
      && (!ws[i].failed && Lookup(data, key) != Lookup(file, key) ==> key in keys)
      && (key !in keys ==> (Lookup(data, key) != Lookup(file, key) <==> Lookup(ws[i].baseline, key) != Lookup(file, key)))
  {
    SoundBefore(run, ws, i);
  }

  /** This operation marks the key: a put or deletion of it, or a put that carries out a pending Clear. */
  ghost predicate MarksKey(w: World, e: Event, key: Key) {
    match e
    case Put(k, _, gaps, code, _) =>
      code == E_OK && (k == key || ((w.store.cleared || gaps.before) && key in w.store.values))
    case Delete(k, _, code, _) => code == E_OK && k == key && key in w.store.values
    case _ => false
  }

  ghost predicate NoSnapBetween(run: seq<Event>, i: nat, j: nat)
    requires j <= |run|
  {
    forall k :: i < k < j ==> !run[k].Snap?
  }

  lemma {:induction false} MarkedKeyWasTouched(run: seq<Event>, ws: seq<World>, key: Key) returns (j: nat)
    requires IsRun(run, ws) && key in ws[|run|].store.modified
    ensures j < |run| && MarksKey(ws[j], run[j], key) && NoSnapBetween(run, j, |run|)
  {
    hide Step, MarksKey;
    var n := |run| - 1;
    PrefixIsRun(run, ws, n);
    OnlyThatMarks(ws[n], run[n], ws[n + 1], key);
    if MarksKey(ws[n], run[n], key) {
      j := n;
    } else {
      j := MarkedKeyWasTouched(run[..n], ws[..n + 1], key);
    }
  }

  lemma OnlyThatMarks(w: World, e: Event, x: World, key: Key)
    requires Step(w, e, x) && key in x.store.modified
    ensures MarksKey(w, e, key) || (key in w.store.modified && !e.Snap?)
  {
    hide Serial, CheckPut, CheckKey, ReadTo, SavePromise, Equal;
  }

  /** A Clear is called, or lands inside this operation. */
  predicate HasClear(e: Event) {
    match e
    case Put(_, _, gaps, _, _) => gaps.before || gaps.inside
    case Delete(_, gaps, _, _) => gaps.before || gaps.inside
    case Clear => true
    case Get(_, gaps, _, _) => gaps.before || gaps.inside
    case GetAll(gaps, _, _) => gaps.before || gaps.inside
    case Snap(_, gaps, _, _) => gaps.before || gaps.inside
    case _ => false
  }

  lemma {:induction false} PendingClearWasCalled(run: seq<Event>, ws: seq<World>) returns (j: nat)
    requires IsRun(run, ws) && ws[|run|].store.cleared
    ensures j < |run| && HasClear(run[j]) && NoSnapBetween(run, j, |run|)
  {
    hide Step, HasClear;
    var n := |run| - 1;
    PrefixIsRun(run, ws, n);
    OnlyThatClears(ws[n], run[n], ws[n + 1]);
    if HasClear(run[n]) {
      j := n;
    } else {
      j := PendingClearWasCalled(run[..n], ws[..n + 1]);
    }
  }

  lemma OnlyThatClears(w: World, e: Event, x: World)
    requires Step(w, e, x) && x.store.cleared
    ensures HasClear(e) || (w.store.cleared && !e.Snap?)
  {
    hide Serial, CheckPut, CheckKey, ReadTo, SavePromise, Equal, CacheStep, PutMarks, DeleteMarks;
  }

  // Only what was touched is reported: every key that a write reports has been put or deleted since the
  // snapshot before, or was cached when a Clear called since then was carried out.
  lemma ReportedKeysWereTouched(run: seq<Event>, ws: seq<World>, i: nat, key: Key) returns (j: nat)
    requires IsRun(run, ws) && i < |run| && run[i].Snap? && run[i].taken.Some? && key in run[i].taken.value.keys
    ensures j <= i && NoSnapBetween(run, j, i)
    ensures (j < i && MarksKey(ws[j], run[j], key)) || (HasClear(run[j]) && key in ws[i].store.values)
  {
    hide Serial;
    SoundBefore(run, ws, i);
    PrefixIsRun(run, ws, i);
    if key in ws[i].store.modified {
      j := MarkedKeyWasTouched(run[..i], ws[..i + 1], key);
    } else if ws[i].store.cleared {
      j := PendingClearWasCalled(run[..i], ws[..i + 1]);
    } else {
      j := i;
    }
  }

  // A write that succeeds leaves on disk the map the flush found in the cache, whatever was put,
  // deleted or cleared while it was writing.
  lemma {:induction false} SuccessfulWriteSavesTheMap(run: seq<Event>, ws: seq<World>, i: nat, j: nat)
    requires IsRun(run, ws) && i < j < |run| && run[i].Snap? && run[i].taken.Some?
    requires run[j].Commit? && run[j].written && forall k :: i < k < j ==> !run[k].Commit?
    ensures ws[j + 1].store.OnDisk() == Some(ws[i + 1].store.values)
  {
    assert Step(ws[i], run[i], ws[i + 1]);
    WritingStays(run, ws, i + 1, j);
    assert Step(ws[j], run[j], ws[j + 1]);
  }

  lemma {:induction false} WritingStays(run: seq<Event>, ws: seq<World>, i: nat, j: nat)
    requires IsRun(run, ws) && i <= j <= |run| && ws[i].writing.Some?
    requires forall k :: i <= k < j ==> !run[k].Commit?
    ensures ws[j].writing == ws[i].writing
  {
    if i < j {
      WritingStays(run, ws, i, j - 1);
      assert Step(ws[j - 1], run[j - 1], ws[j]);
    }
  }

  // ----- the plain map

  /** A load that changes the cache is an operation on the plain map too, unless a Clear hides it. */
  function Ops(w: World, e: Event, x: World): seq<MapOp> {
    if e.Reads() then
      if w.store.cleared || w.store.OnDisk().None? || x.store.values == w.store.values then []
      else [if w.store.loaded then MergeOp(w.store.OnDisk().value) else ReplaceOp(w.store.OnDisk().value)]
    else e.Ops()
  }

  /** The serial order of a stretch of a run. */
  function Orders(run: seq<Event>, ws: seq<World>, i: nat, j: nat): seq<MapOp>
    requires i <= j <= |run| < |ws|
    decreases j - i
  {
    if i == j then [] else Orders(run, ws, i, j - 1) + Ops(ws[j - 1], run[j - 1], ws[j])
  }

  // All threads together see one plain map: there is one serial order of everything they did, Clears
  // and loads included, in which every read returns what the map holds and which ends in the map the
  // store shows. A flush only reads.
  lemma {:induction false} RunIsSerial(run: seq<Event>, ws: seq<World>, i: nat, j: nat)
    requires IsRun(run, ws) && i <= j <= |run|
    ensures Legal(ws[i].store.Visible(), Orders(run, ws, i, j))
    ensures ws[j].store.Visible() == Apply(ws[i].store.Visible(), Orders(run, ws, i, j))
    decreases j - i
  {
    hide Step, Ops, ApplyOne, LegalOne, Apply, Legal;
    if i < j {
      RunIsSerial(run, ws, i, j - 1);
      assert Step(ws[j - 1], run[j - 1], ws[j]);
      StepIsSerial(ws[j - 1], run[j - 1], ws[j]);
      Concatenated(ws[i].store.Visible(), Orders(run, ws, i, j - 1), Ops(ws[j - 1], run[j - 1], ws[j]));
    } else {
      Nothing(ws[i].store.Visible());
    }
  }

  lemma Nothing(m: ValueMap)
    ensures Legal(m, []) && Apply(m, []) == m
  {
  }

  lemma StepIsSerial(w: World, e: Event, x: World)
    requires Step(w, e, x)
    ensures Legal(w.store.Visible(), Ops(w, e, x)) && x.store.Visible() == Apply(w.store.Visible(), Ops(w, e, x))
  {
    hide Step;
    if e.Reads() {
      LoadIsSerial(w, e, x);
    } else {
      OperationIsSerial(w, e, x);
    }
  }

  lemma LoadIsSerial(w: World, e: Event, x: World)
    requires Step(w, e, x) && e.Reads()
    ensures Legal(w.store.Visible(), Ops(w, e, x)) && x.store.Visible() == Apply(w.store.Visible(), Ops(w, e, x))
  {
    hide CacheOp, Apply, Legal, SnapshotPromise;
    Nothing(w.store.Visible());
    if w.store.OnDisk().Some? {
      Single(w.store.Visible(), MergeOp(w.store.OnDisk().value));
      Single(w.store.Visible(), ReplaceOp(w.store.OnDisk().value));
    }
  }

  lemma OperationIsSerial(w: World, e: Event, x: World)
    requires Step(w, e, x) && !e.Reads()
    ensures Legal(w.store.Visible(), Ops(w, e, x)) && x.store.Visible() == Apply(w.store.Visible(), Ops(w, e, x))
  {
    hide CheckPut, CheckKey, Equal, Apply, Legal, ApplyOne, LegalOne, LoadPromise, PreLoadStep, CacheStep;
    Nothing(w.store.Visible());
    if e.Clear? {
      Single(w.store.Visible(), ClearOp);
      ClearsAll(w.store.Visible());
    }
  }

  // Once the file has been read no load changes anything: the order holds only what the callers did.
  lemma {:induction false} ReadStoreLoadsNothing(run: seq<Event>, ws: seq<World>, i: nat, j: nat)
    requires IsRun(run, ws) && i <= j <= |run| && ws[i].store.loaded && ws[i].store.loadResult
    ensures ws[j].store.loaded && ws[j].store.loadResult
    ensures forall k :: i <= k < j && run[k].Reads() ==>
      ws[k + 1].store == ws[k].store && Ops(ws[k], run[k], ws[k + 1]) == []
    decreases j - i
  {
    hide Step, Ops;
    if i < j {
      ReadStoreLoadsNothing(run, ws, i, j - 1);
      assert Step(ws[j - 1], run[j - 1], ws[j]);
      ReadStoreStep(ws[j - 1], run[j - 1], ws[j]);
    }
  }

  lemma ReadStoreStep(w: World, e: Event, x: World)
    requires Step(w, e, x) && w.store.loaded && w.store.loadResult
    ensures x.store.loaded && x.store.loadResult
    ensures e.Reads() ==> x.store == w.store && Ops(w, e, x) == []
  {
    hide PutPromise, DeletePromise, GetPromise, GetAllPromise;
    StoreOfCacheOp(w, e, x);
  }

  // ----- coalescing

  predicate GivesUp(e: Event) {
    e.PreLoad? && !e.ok
  }

  ghost predicate TokensMatch(w: World) {
    w.tokens == w.Poppers() <= 1 && (w.requested > w.snapped ==> w.Poppers() == 1)
  }

  // While no flush gives up in PreLoad, the queue holds one token for each flush that will still pop,
  // and never two; so every operation made before a call of Flush or FlushSync is either in the last
  // snapshot or before the snapshot of a flush that is still pending, also when the call itself found
  // the queue full.
  lemma {:induction false} FlushLosesNothing(run: seq<Event>, ws: seq<World>)
    requires IsRun(run, ws) && forall k :: 0 <= k < |run| ==> !GivesUp(run[k])
    ensures TokensMatch(ws[|run|]) && ws[|run|].requested <= ws[|run|].updates
  {
    hide PutPromise, DeletePromise, GetPromise, GetAllPromise, SnapshotPromise, PreLoadPromise, LoadPromise;
    if run != [] {
      var n := |run| - 1;
      PrefixIsRun(run, ws, n);
      FlushLosesNothing(run[..n], ws[..n + 1]);
    }
  }

  ghost predicate Stuck(w: World) {
    w.tokens > 0 && w.Poppers() == 0
  }

  // A flush that gives up leaves its token in the queue, and then no flush ever writes again.
  lemma {:induction false} GivingUpStopsAllFlushes(run: seq<Event>, ws: seq<World>, i: nat, j: nat)
    requires IsRun(run, ws) && i < j <= |run|
    requires GivesUp(run[i]) && forall k :: 0 <= k < i ==> !GivesUp(run[k])
    ensures Stuck(ws[j]) && forall k :: i < k < j ==> !run[k].Snap?
  {
    hide PutPromise, DeletePromise, GetPromise, GetAllPromise, SnapshotPromise, PreLoadPromise, LoadPromise;
    assert Step(ws[j - 1], run[j - 1], ws[j]);
    if i + 1 < j {
      GivingUpStopsAllFlushes(run, ws, i, j - 1);
    } else {
      PrefixIsRun(run, ws, i);
      FlushLosesNothing(run[..i], ws[..i + 1]);
    }
  }

  // ----- files that could not be read

  /** This load found the directory inaccessible and did not read the files. */
  ghost predicate Locks(w: World, e: Event) {
    e.Load? && !w.store.loaded && !e.folder && !e.read
  }

  /** This operation has read or written the files. */
  ghost predicate Unlocks(w: World, e: Event, x: World) {
    (e.Commit? && e.written) || (!w.store.loadResult && x.store.loadResult)
  }

  /** The event at j locked the store, and nothing has unlocked it since. */
  ghost predicate LockedAt(run: seq<Event>, ws: seq<World>, j: nat) {
    j < |run| < |ws| && Locks(ws[j], run[j]) && forall k :: j < k < |run| ==> !Unlocks(ws[k], run[k], ws[k + 1])
  }

  ghost predicate IsLocked(run: seq<Event>, ws: seq<World>) {
    exists j: nat :: LockedAt(run, ws, j)
  }

  // isNeverUnlock_ is set exactly if the load found the directory inaccessible and nothing has been read
  // or written since; a write before that load does not count.
  lemma {:induction false} NeverUnlockedExactly(run: seq<Event>, ws: seq<World>)
    requires IsRun(run, ws)
    ensures ws[|run|].store.neverUnlock <==> IsLocked(run, ws)
    ensures ws[|run|].store.neverUnlock ==> ws[|run|].store.loaded
  {
    hide Step, Locks, Unlocks;
    if run != [] {
      var n := |run| - 1;
      PrefixIsRun(run, ws, n);
      NeverUnlockedExactly(run[..n], ws[..n + 1]);
      UnlockStep(ws[n], run[n], ws[n + 1]);
      LockedLater(run, ws);
    }
  }

  lemma LockedLater(run: seq<Event>, ws: seq<World>)
    requires run != [] && |ws| == |run| + 1
    ensures var n := |run| - 1;
      IsLocked(run, ws) <==>
        Locks(ws[n], run[n]) || (IsLocked(run[..n], ws[..n + 1]) && !Unlocks(ws[n], run[n], ws[n + 1]))
  {
    hide Locks, Unlocks;
    var n := |run| - 1;
    var past, ps := run[..n], ws[..n + 1];
    if j: nat :| LockedAt(run, ws, j) {
      assert j < n ==> LockedAt(past, ps, j);
    }
    if Locks(ws[n], run[n]) {
      assert LockedAt(run, ws, n);
    } else if IsLocked(past, ps) && !Unlocks(ws[n], run[n], ws[n + 1]) {
      var j: nat :| LockedAt(past, ps, j);
      forall k | j < k < |run|
        ensures !Unlocks(ws[k], run[k], ws[k + 1])
      {
        assert k < n ==> !Unlocks(ps[k], past[k], ps[k + 1]);
      }
      assert LockedAt(run, ws, j);
    }
  }

  lemma UnlockStep(w: World, e: Event, x: World)
    requires Step(w, e, x) && (w.store.neverUnlock ==> w.store.loaded)
    ensures x.store.neverUnlock <==> Locks(w, e) || (w.store.neverUnlock && !Unlocks(w, e, x))
    ensures x.store.neverUnlock ==> x.store.loaded
  {
    hide PutPromise, DeletePromise, GetPromise, GetAllPromise, Serial, ReadTo, SavePromise;
    StoreOfCacheOp(w, e, x);
  }

  /** A flush that has passed PreLoad comes to a store that has been read, or has no main file; the
      flushes that are still to pop never exceed the tokens. */
  ghost predicate FileIsSafe(w: World) {
    && w.Poppers() <= w.tokens <= 1
    && (w.passed > 0 ==> w.store.loaded && (w.store.loadResult || w.store.files.main == Absent))
    && (w.writing.Some? && !w.store.loadResult ==> w.passed == 0)
  }

  lemma {:induction false} FileStaysSafe(run: seq<Event>, ws: seq<World>)
    requires IsRun(run, ws)
    ensures FileIsSafe(ws[|run|])
  {
    hide Step, FileIsSafe;
    if run != [] {
      var n := |run| - 1;
      PrefixIsRun(run, ws, n);
      FileStaysSafe(run[..n], ws[..n + 1]);
      StepKeepsFileSafe(ws[n], run[n], ws[n + 1]);
    } else {
      NoFlushIsSafe(ws[0]);
    }
  }

  lemma NoFlushIsSafe(w: World)
    requires w.Poppers() == w.tokens == 0 && w.writing.None?
    ensures FileIsSafe(w)
  {
  }

  lemma StepKeepsFileSafe(w: World, e: Event, x: World)
    requires FileIsSafe(w) && Step(w, e, x)
    ensures FileIsSafe(x)
  {
    hide PutPromise, DeletePromise, GetPromise, GetAllPromise, Serial, ReadTo, SavePromise;
    StoreOfCacheOp(w, e, x);
  }

  lemma StoreOfCacheOp(w: World, e: Event, x: World)
    requires Step(w, e, x)
    ensures e.Put? || e.Delete? || e.Clear? || e.Get? || e.GetAll? ==>
      x.store == w.store.(values := x.store.values, modified := x.store.modified, cleared := x.store.cleared)
  {
    hide Serial, Equal, CheckPut, CheckKey;
  }

  // A flush whose PreLoad found the store loaded reaches its write only if the files have been read into
  // the cache or there is no main file.
  lemma FailedLoadKeepsFile(run: seq<Event>, ws: seq<World>, i: nat)
    requires IsRun(run, ws) && i < |run| && run[i].Snap?
    ensures run[i].fromEarly || ws[i].store.loadResult || ws[i].store.files.main == Absent
  {
    PrefixIsRun(run, ws, i);
    FileStaysSafe(run[..i], ws[..i + 1]);
    assert Step(ws[i], run[i], ws[i + 1]);
  }

  /** The next step can take a snapshot that will be written. */
  ghost predicate CanWrite(w: World, gaps: Gaps) {
    exists fromEarly, r, order, x :: Step(w, Snap(fromEarly, gaps, r, order), x) && r.Some?
  }

  // As long as there is a map on disk that has not been read, whether or not the store counts as loaded,
  // the next step can lead to a write over it exactly if a flush is on its way whose PreLoad found the
  // store not loaded, or found the backup alone (with its token, no write in progress and something to
  // write).
  lemma UnreadFileIsAtRiskExactly(run: seq<Event>, ws: seq<World>, gaps: Gaps)
    requires IsRun(run, ws) && ws[|run|].store.OnDisk().Some? && !ws[|run|].store.loadResult
    ensures var w := ws[|run|];
      CanWrite(w, gaps) <==>
        && (w.early > 0 || (w.passed > 0 && w.store.files.main == Absent))
        && w.tokens > 0 && w.writing.None? && Marks(w.store, gaps) != {}
  {
    hide Serial;
    FileStaysSafe(run, ws);
    var w := ws[|run|];
    var fromEarly := w.early > 0;
    if (fromEarly || w.passed > 0) && w.tokens > 0 && w.writing.None? && Marks(w.store, gaps) != {} {
      var r, order, t := SnapshotExists(w.store, gaps);
      var x := w.(store := t, tokens := w.tokens - 1, writing := r,
                  early := if fromEarly then w.early - 1 else w.early, passed := if fromEarly then w.passed else w.passed - 1,
                  baseline := r.value.data, updates := w.updates + |order|, snapped := w.updates + |order|);
      assert Step(w, Snap(fromEarly, gaps, r, order), x);
    }
  }

  // Once the store counts as loaded and no flush is left whose PreLoad came before that, no flush ever
  // again writes over a main file that has not been read.
  lemma {:induction false} LoadedStoreKeepsUnreadFile(run: seq<Event>, ws: seq<World>, i: nat, j: nat)
    requires IsRun(run, ws) && i <= j <= |run| && ws[i].store.loaded && ws[i].early == 0
    ensures ws[j].store.loaded && ws[j].early == 0
    ensures forall k :: i <= k < j && run[k].Snap? ==> ws[k].store.loadResult || ws[k].store.files.main == Absent
    decreases j - i
  {
    hide Step;
    if i < j {
      LoadedStoreKeepsUnreadFile(run, ws, i, j - 1);
      assert Step(ws[j - 1], run[j - 1], ws[j]);
      NoFlushIsEarly(ws[j - 1], run[j - 1], ws[j]);
      if run[j - 1].Snap? {
        FailedLoadKeepsFile(run, ws, j - 1);
      }
    }
  }

  lemma NoFlushIsEarly(w: World, e: Event, x: World)
    requires Step(w, e, x) && w.store.loaded && w.early == 0
    ensures x.store.loaded && x.early == 0 && (e.Snap? ==> !e.fromEarly)
  {
    hide PutPromise, DeletePromise, GetPromise, GetAllPromise, Serial, ReadTo, SavePromise;
    StoreOfCacheOp(w, e, x);
  }

  // What a cache does to its files are reads and saves of the protocol, or nothing.
  lemma CacheKeepsToTheProtocol(w: World, e: Event, x: World)
    requires Step(w, e, x)
    ensures x.store.files == w.store.files
      || (e.Reads() && ReadTo(w.store.files, e.fates, e.read, x.store.files))
      || (e.Commit? && w.writing.Some? &&
            SavePromise(w.store.files, w.writing.value.data, e.saveFates, if e.written then SaveOutcome.Saved else NotSaved, x.store.files))
  {
    hide PutPromise, DeletePromise, GetPromise, GetAllPromise, Serial, ReadTo, SavePromise;
    StoreOfCacheOp(w, e, x);
  }

  /** A read that the protocol does not bear, or a write that fails. */
  ghost predicate Harms(w: World, e: Event) {
    (e.Reads() && !Answers(w.store.files, e.fates)) || (e.Commit? && !e.written)
  }

  /** The store counts as loaded, and the only file that can be read is a backup it has not read. */
  ghost predicate BackupForgotten(s: State) {
    s.loaded && !s.loadResult && s.files.main == Absent && s.OnDisk().Some?
  }

  // A store comes to that only by a read that the protocol does not bear, one that could have returned
  // the map and did not, or by a write that fails.
  lemma {:induction false} BackupIsForgottenByHarm(run: seq<Event>, ws: seq<World>) returns (i: nat)
    requires IsRun(run, ws) && BackupForgotten(ws[|run|].store)
    ensures i < |run| && Harms(ws[i], run[i])
  {
    hide Step, Harms;
    var n := |run| - 1;
    PrefixIsRun(run, ws, n);
    if Harms(ws[n], run[n]) {
      i := n;
    } else {
      HarmlessStep(ws[n], run[n], ws[n + 1]);
      i := BackupIsForgottenByHarm(run[..n], ws[..n + 1]);
    }
  }

  lemma HarmlessStep(w: World, e: Event, x: World)
    requires Step(w, e, x) && !Harms(w, e) && BackupForgotten(x.store)
    ensures BackupForgotten(w.store)
  {
    hide PutPromise, DeletePromise, GetPromise, GetAllPromise, Serial;
    StoreOfCacheOp(w, e, x);
  }

  // ----- where the guarantees stop

  const NO_GAPS := Gaps(false, false)
  const EMPTY: Disk<ValueMap> := Disk(Absent, Absent, Absent)
  const OPEN_FAILS := ALL_WORK.(open := Fails)
  const RESTORE_FAILS := READS.(restore := Fails)

  function OneFile(m: ValueMap): Disk<ValueMap> {
    Disk(Synced(m), Absent, Absent)
  }

  /** A put of a first key, a flush, and the snapshot it takes. */
  function PutAndFlush(key: Key, value: Value, early: bool): seq<Event> {
    [Put(key, value, NO_GAPS, E_OK, [PutOp(key, value)]), Flush, PreLoad(false, READS, false, true),
     Snap(early, NO_GAPS, Some(Snapshot({key}, map[key := value])), [GetAllOp(map[key := value])])]
  }

  function FlushedWorlds(w: World, key: Key, value: Value): seq<World> {
    var m := map[key := value];
    var w1 := w.(store := w.store.(values := m, modified := {key}), updates := w.updates + 1);
    var w2 := w1.(requested := w1.updates, tokens := 1, pushed := 1);
    var w3 := w2.(pushed := 0, early := if w.store.loaded then 0 else 1, passed := if w.store.loaded then 1 else 0);
    var w4 := w3.(store := w3.store.(modified := {}), tokens := 0, writing := Some(Snapshot({key}, m)), early := 0, passed := 0,
                  baseline := m, updates := w3.updates + 1, snapped := w3.updates + 1);
    [w, w1, w2, w3, w4]
  }

  lemma Join(run: seq<Event>, ws: seq<World>, next: seq<Event>, xs: seq<World>)
    requires Steps(run, ws) && Steps(next, xs) && ws[|run|] == xs[0]
    ensures Steps(run + next, ws + xs[1..]) && |ws + xs[1..]| == |run + next| + 1
    ensures (ws + xs[1..])[0] == ws[0] && (ws + xs[1..])[|run + next|] == xs[|next|]
  {
    hide Step;
    var all, zs := run + next, ws + xs[1..];
    forall i | 0 <= i < |all|
      ensures Step(zs[i], all[i], zs[i + 1])
    {
      if i >= |run| {
        var j := i - |run|;
        assert zs[i] == xs[j] && zs[i + 1] == xs[j + 1] && all[i] == next[j];
      }
    }
  }

  ghost predicate Untouched(w: World) {
    exists files, loaded :: w == Initial(files).(store := Initial(files).store.(loaded := loaded)) && (loaded ==> files.main == Absent)
  }

  lemma FlushedSteps(w: World, key: Key, value: Value)
    requires CheckPut(key, value) == E_OK && Untouched(w)
    ensures Steps(PutAndFlush(key, value, !w.store.loaded), FlushedWorlds(w, key, value))
  {
    hide Step, CheckPut;
    PutAndFlushSteps(w, key, value);
    SnapStep(w, key, value);
  }

  lemma PutAndFlushSteps(w: World, key: Key, value: Value)
    requires CheckPut(key, value) == E_OK && Untouched(w)
    ensures var run, ws := PutAndFlush(key, value, !w.store.loaded), FlushedWorlds(w, key, value);
      Step(ws[0], run[0], ws[1]) && Step(ws[1], run[1], ws[2]) && Step(ws[2], run[2], ws[3])
  {
    hide CheckPut, Equal;
    Single(map[], PutOp(key, value));
    assert NO_GAPS.Clears() == multiset{};
  }

  lemma SnapStep(w: World, key: Key, value: Value)
    requires Untouched(w)
    ensures Step(FlushedWorlds(w, key, value)[3], PutAndFlush(key, value, !w.store.loaded)[3], FlushedWorlds(w, key, value)[4])
  {
    Single(map[key := value], GetAllOp(map[key := value]));
    assert NO_GAPS.Clears() == multiset{} && Marks(FlushedWorlds(w, key, value)[3].store, NO_GAPS) == {key};
  }

  // A flush that runs before the load has finished overwrites the file with the little that is cached.
  lemma EarlyFlushOverwrites(file: ValueMap, key: Key, value: Value) returns (run: seq<Event>, ws: seq<World>)
    requires CheckPut(key, value) == E_OK
    ensures IsRun(run, ws) && ws[0].store.files == OneFile(file) && ws[|run|].store.files == OneFile(map[key := value])
  {
    hide Step, Steps, CheckPut, PutAndFlush, FlushedWorlds, Untouched;
    var w := Initial(OneFile(file));
    IsUntouched(w, OneFile(file), false);
    run, ws := FlushedAndWritten(w, key, value);
  }

  lemma FlushedAndWritten(w: World, key: Key, value: Value) returns (run: seq<Event>, ws: seq<World>)
    requires CheckPut(key, value) == E_OK && Untouched(w)
    ensures Steps(run, ws) && ws[0] == w
    ensures ws[|run|].store.files == Disk(Synced(map[key := value]), Absent, w.store.files.broken)
  {
    hide Step, Steps, CheckPut, PutAndFlush, FlushedWorlds, Untouched;
    FlushedSteps(w, key, value);
    FlushedEnd(w, key, value);
    run, ws := PutAndFlush(key, value, !w.store.loaded), FlushedWorlds(w, key, value);
    var x := ws[4];
    var last := x.(store := Committed(x.store, map[key := value]), writing := None, failed := false);
    CommitSteps(x, last);
    Join(run, ws, [Commit(ALL_WORK, true, E_OK)], [x, last]);
    run, ws := run + [Commit(ALL_WORK, true, E_OK)], ws + [x, last][1..];
  }

  // A load that finds a corrupt main file, moves it away and cannot restore the backup leaves a store in
  // which every later flush takes the missing main file for a store without a file: the next save
  // removes the backup unread.
  lemma ForgottenBackupIsOverwritten(file: ValueMap, key: Key, value: Value) returns (run: seq<Event>, ws: seq<World>)
    requires CheckPut(key, value) == E_OK
    ensures IsRun(run, ws) && |run| > 1 && ws[0].store.files == Disk(Torn, Synced(file), Absent)
    ensures run[0] == Load(RESTORE_FAILS, false, true) && BackupForgotten(ws[1].store) && ws[1].store.OnDisk() == Some(file)
    ensures ws[|run|].store.files == Disk(Synced(map[key := value]), Absent, Torn)
  {
    hide Step, Steps, CheckPut, Untouched;
    var w0, quarantined: Disk<ValueMap> := Initial(Disk(Torn, Synced(file), Absent)), Disk(Absent, Synced(file), Torn);
    var w := Initial(quarantined).(store := Initial(quarantined).store.(loaded := true));
    QuarantineSteps(w0, w, file);
    IsUntouched(w, quarantined, true);
    var next, xs := FlushedAndWritten(w, key, value);
    Join([Load(RESTORE_FAILS, false, true)], [w0, w], next, xs);
    run, ws := [Load(RESTORE_FAILS, false, true)] + next, [w0, w] + xs[1..];
  }

  lemma QuarantineSteps(w: World, x: World, file: ValueMap)
    requires w == Initial(Disk(Torn, Synced(file), Absent))
    requires x == w.(store := w.store.(loaded := true, files := Disk(Absent, Synced(file), Torn)))
    ensures Steps([Load(RESTORE_FAILS, false, true)], [w, x])
  {
  }

  /** The same with a load that fails between the PreLoad of the flush and its snapshot. */
  function LateFlush(key: Key, value: Value): seq<Event> {
    var m := map[key := value];
    [Put(key, value, NO_GAPS, E_OK, [PutOp(key, value)]), Flush, PreLoad(false, READS, false, true), Load(READS, false, true),
     Snap(true, NO_GAPS, Some(Snapshot({key}, m)), [GetAllOp(m)]), Commit(ALL_WORK, true, E_OK)]
  }

  function LateFlushWorlds(file: ValueMap, key: Key, value: Value): seq<World> {
    var m := map[key := value];
    var w0 := Initial(OneFile(file));
    var w1 := w0.(store := w0.store.(values := m, modified := {key}), updates := 1);
    var w2 := w1.(requested := 1, tokens := 1, pushed := 1);
    var w3 := w2.(pushed := 0, early := 1);
    var w4 := w3.(store := w3.store.(loaded := true));
    var w5 := w4.(store := w4.store.(modified := {}), tokens := 0, writing := Some(Snapshot({key}, m)), early := 0,
                  baseline := m, updates := 2, snapped := 2);
    [w0, w1, w2, w3, w4, w5, w5.(store := Committed(w5.store, m), writing := None)]
  }

  // A PreLoad that finds the store not loaded lets its flush go on, and a load that fails before the
  // flush takes mutex_ again does not stop it: the unread file of a loaded store is overwritten.
  lemma LateFlushOverwrites(file: ValueMap, key: Key, value: Value)
    requires CheckPut(key, value) == E_OK
    ensures var run, ws := LateFlush(key, value), LateFlushWorlds(file, key, value);
      && IsRun(run, ws)
      && ws[4].store.loaded && !ws[4].store.loadResult && ws[4].store.files == OneFile(file)
      && ws[6].store.files == OneFile(map[key := value])
  {
    hide Step, CheckPut;
    LateFlushBegins(file, key, value);
    LateFlushEnds(file, key, value);
  }

  lemma LateFlushBegins(file: ValueMap, key: Key, value: Value)
    requires CheckPut(key, value) == E_OK
    ensures var run, ws := LateFlush(key, value), LateFlushWorlds(file, key, value);
      Step(ws[0], run[0], ws[1]) && Step(ws[1], run[1], ws[2]) && Step(ws[2], run[2], ws[3]) && Step(ws[3], run[3], ws[4])
  {
    hide CheckPut, PutPromise, Untouched;
    var w := Initial(OneFile(file));
    IsUntouched(w, OneFile(file), false);
    PutAndFlushSteps(w, key, value);
  }

  lemma LateFlushEnds(file: ValueMap, key: Key, value: Value)
    ensures var run, ws := LateFlush(key, value), LateFlushWorlds(file, key, value);
      Step(ws[4], run[4], ws[5]) && Step(ws[5], run[5], ws[6])
  {
    Single(map[key := value], GetAllOp(map[key := value]));
    assert NO_GAPS.Clears() == multiset{} && Marks(LateFlushWorlds(file, key, value)[4].store, NO_GAPS) == {key};
  }

  lemma IsUntouched(w: World, files: Disk<ValueMap>, loaded: bool)
    requires w == Initial(files).(store := Initial(files).store.(loaded := loaded)) && (loaded ==> files.main == Absent)
    ensures Untouched(w)
  {
  }

  /** A save without a fault. */
  function Committed(s: State, m: ValueMap): State {
    s.(files := Disk(Synced(m), Absent, s.files.broken), loadResult := true, neverUnlock := false)
  }

  lemma CommitSteps(w: World, x: World)
    requires w.writing.Some?
    requires x == w.(writing := None, failed := false, store := Committed(w.store, w.writing.value.data))
    ensures Steps([Commit(ALL_WORK, true, E_OK)], [w, x])
  {
  }

  // A write that fails has already unmarked its keys, so the next flush writes nothing and the update
  // stays off the disk.
  lemma FailedWriteForgets(key: Key, value: Value) returns (run: seq<Event>, ws: seq<World>)
    requires CheckPut(key, value) == E_OK
    ensures IsRun(run, ws) && |run| == 9
    ensures run[5] == Commit(OPEN_FAILS, false, E_ERROR) && run[8] == Snap(false, NO_GAPS, None, [GetAllOp(map[key := value])])
    ensures ws[9].store.files == EMPTY && ws[9].store.Visible() == map[key := value]
  {
    hide Step, Steps, CheckPut, PutAndFlush, FlushedWorlds, Untouched;
    var w := LoadedAndFlushed(key, value);
    run, ws := w.0, w.1;
    var run2, ws2 := EmptyFlush(ws[5], key, value);
    Join(run, ws, run2, ws2);
    run, ws := run + run2, ws + ws2[1..];
  }

  lemma LoadedAndFlushed(key: Key, value: Value) returns (r: (seq<Event>, seq<World>))
    requires CheckPut(key, value) == E_OK
    ensures Steps(r.0, r.1) && |r.0| == 5 && r.1[0] == Initial(EMPTY)
    ensures Flushed(r.1[5], key, value)
  {
    hide Step, Steps, CheckPut, PutAndFlush, FlushedWorlds, Untouched;
    var w0 := Initial(EMPTY);
    var w := w0.(store := w0.store.(loaded := true));
    LoadSteps(w0, w);
    IsUntouched(w, EMPTY, true);
    FlushedSteps(w, key, value);
    FlushedEnd(w, key, value);
    var run, ws := PutAndFlush(key, value, false), FlushedWorlds(w, key, value);
    Join([Load(READS, false, true)], [w0, w], run, ws);
    r := ([Load(READS, false, true)] + run, [w0, w] + ws[1..]);
  }

  /** A loaded store without a file, its one update in the hands of a write. */
  ghost predicate Flushed(w: World, key: Key, value: Value) {
    && w.writing.Some? && w.tokens == 0 && w.Poppers() == 0
    && w.store == State(map[key := value], {}, false, true, false, false, EMPTY)
  }

  lemma FlushedEnd(w: World, key: Key, value: Value)
    ensures |FlushedWorlds(w, key, value)| == 5 && FlushedWorlds(w, key, value)[0] == w
    ensures |PutAndFlush(key, value, !w.store.loaded)| == 4
    ensures var x := FlushedWorlds(w, key, value)[4];
      && x.writing == Some(Snapshot({key}, map[key := value])) && x.tokens == 0 && x.Poppers() == 0 && x.failed == w.failed
      && x.store == w.store.(values := map[key := value], modified := {})
  {
  }

  lemma LoadSteps(w: World, x: World)
    requires w == Initial(EMPTY) && x == w.(store := w.store.(loaded := true))
    ensures Steps([Load(READS, false, true)], [w, x])
  {
  }

  lemma EmptyFlush(w: World, key: Key, value: Value) returns (run: seq<Event>, ws: seq<World>)
    requires Flushed(w, key, value)
    ensures Steps(run, ws) && |run| == 4 && ws[0] == w && ws[4].store == w.store
    ensures run[0] == Commit(OPEN_FAILS, false, E_ERROR) && run[3] == Snap(false, NO_GAPS, None, [GetAllOp(map[key := value])])
  {
    var m := map[key := value];
    Single(m, GetAllOp(m));
    assert NO_GAPS.Clears() == multiset{};
    var w5 := w.(writing := None, failed := true);
    var w6 := w5.(requested := w5.updates, tokens := 1, pushed := 1);
    var w7 := w6.(pushed := 0, passed := 1);
    var w8 := w7.(passed := 0, tokens := 0, updates := w7.updates + 1, snapped := w7.updates + 1);
    run := [Commit(OPEN_FAILS, false, E_ERROR), Flush, PreLoad(false, READS, false, true), Snap(false, NO_GAPS, None, [GetAllOp(m)])];
    ws := [w, w5, w6, w7, w8];
    assert Step(ws[0], run[0], ws[1]);
    assert Step(ws[1], run[1], ws[2]);
    assert Step(ws[2], run[2], ws[3]);
    assert Step(ws[3], run[3], ws[4]);
  }
}
