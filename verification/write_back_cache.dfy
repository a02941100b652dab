// The write-back cache of frameworks/native/src/preferences_impl.cpp. Clear stores its flag without a
// lock, so each locked section is told at which of its gaps another thread's Clear lands.
module WriteBackCache {
  import opened Options
  import opened Values
  import opened XmlFile
  import opened XmlValues

  // ----- the plain map the cache stands for

  datatype MapOp =
    | PutOp(key: Key, value: Value)
    | DeleteOp(key: Key)
    | ClearOp
    | GetOp(key: Key, found: Option<Value>)
    | GetAllOp(all: ValueMap)
    | ReplaceOp(file: ValueMap) // the first load
    | MergeOp(file: ValueMap)   // a later one

  function Lookup(m: ValueMap, key: Key): Option<Value> {
    if key in m then Some(m[key]) else None
  }

  /** A put of an equal value changes nothing, which shows only for the two floating-point zeros. */
  function PutInto(m: ValueMap, key: Key, value: Value): ValueMap {
    if key in m && Equal(m[key], value) then m else m[key := value]
  }

  function ApplyOne(m: ValueMap, op: MapOp): ValueMap {
    match op
    case PutOp(key, value) => PutInto(m, key, value)
    case DeleteOp(key) => m - {key}
    case ClearOp => map[]
    case ReplaceOp(file) => file
    case MergeOp(file) => file + m
    case _ => m
  }

  predicate LegalOne(m: ValueMap, op: MapOp) {
    match op
    case GetOp(key, found) => found == Lookup(m, key)
    case GetAllOp(all) => all == m
    case _ => true
  }

  /** The map after the operations, in this order. */
  function Apply(m: ValueMap, ops: seq<MapOp>): ValueMap
    decreases |ops|
  {
    if ops == [] then m else Apply(ApplyOne(m, ops[0]), ops[1..])
  }

  /** Every read returned what the map held at its place in the order. */
  predicate Legal(m: ValueMap, ops: seq<MapOp>)
    decreases |ops|
  {
    ops == [] || (LegalOne(m, ops[0]) && Legal(ApplyOne(m, ops[0]), ops[1..]))
  }

  lemma {:induction false} Concatenated(m: ValueMap, a: seq<MapOp>, b: seq<MapOp>)
    ensures Apply(m, a + b) == Apply(Apply(m, a), b)
    ensures Legal(m, a + b) <==> Legal(m, a) && Legal(Apply(m, a), b)
    decreases |a|
  {
    if a == [] {
      assert a + b == b;
    } else {
      assert (a + b)[1..] == a[1..] + b;
      Concatenated(ApplyOne(m, a[0]), a[1..], b);
    }
  }

  lemma Single(m: ValueMap, op: MapOp)
    ensures Apply(m, [op]) == ApplyOne(m, op)
    ensures Legal(m, [op]) <==> LegalOne(m, op)
  {
    assert [op][1..] == [];
  }

  // ----- the plain map behaves like a map

  /** Whether this operation may change the binding of the key. */
  predicate Touches(m: ValueMap, op: MapOp, key: Key) {
    match op
    case PutOp(k, _) => k == key
    case DeleteOp(k) => k == key
    case ClearOp | ReplaceOp(_) => true
    case MergeOp(_) => key !in m
    case _ => false
  }

  /** The binding of the key after an operation that may change it. */
  ghost predicate Binds(op: MapOp, key: Key, found: Option<Value>) {
    match op
    case PutOp(_, value) => found.Some? && SameUpToZeros(found.value, value)
    case ReplaceOp(file) => found == Lookup(file, key)
    case MergeOp(file) => found == Lookup(file, key)
    case _ => found == None
  }

  ghost predicate NeverTouches(m: ValueMap, ops: seq<MapOp>, key: Key)
    decreases |ops|
  {
    ops == [] || (!Touches(m, ops[0], key) && NeverTouches(ApplyOne(m, ops[0]), ops[1..], key))
  }

  lemma {:induction false} UntouchedKeyKeepsBinding(m: ValueMap, ops: seq<MapOp>, key: Key)
    requires NeverTouches(m, ops, key)
    ensures Lookup(Apply(m, ops), key) == Lookup(m, key)
    decreases |ops|
  {
    if ops != [] {
      UntouchedKeyKeepsBinding(ApplyOne(m, ops[0]), ops[1..], key);
    }
  }

  lemma TouchedKeyIsBound(m: ValueMap, op: MapOp, key: Key)
    requires Touches(m, op, key)
    ensures Binds(op, key, Lookup(ApplyOne(m, op), key))
  {
    hide Equal, SameUpToZeros;
    match op
    case PutOp(_, value) =>
      EqualExactly(value, value);
      if key in m {
        EqualExactly(m[key], value);
      }
      SameAsItself(value);
    case _ =>
  }

  // A get after any operations, whatever came before them, finds what the last one to touch its key
  // bound it to: the value that was put, up to the sign of floating-point zeros, nothing after a
  // deletion or a Clear, and the binding of the file after a load. Without one it finds the old binding.
  lemma GetFindsLastBinding(m: ValueMap, before: seq<MapOp>, op: MapOp, after: seq<MapOp>, key: Key, found: Option<Value>)
    requires Legal(m, before + [op] + after + [GetOp(key, found)])
    requires NeverTouches(Apply(m, before + [op]), after, key)
    ensures if Touches(Apply(m, before), op, key) then Binds(op, key, found) else found == Lookup(Apply(m, before), key)
  {
    hide ApplyOne, Apply, Legal, NeverTouches, Binds;
    var past, x := before + [op] + after, Apply(m, before);
    Concatenated(m, past, [GetOp(key, found)]);
    Concatenated(m, before + [op], after);
    Concatenated(m, before, [op]);
    Single(Apply(m, past), GetOp(key, found));
    Single(x, op);
    UntouchedKeyKeepsBinding(Apply(m, before + [op]), after, key);
    if Touches(x, op, key) {
      TouchedKeyIsBound(x, op, key);
    } else {
      UntouchedByOne(x, op, key);
    }
  }

  lemma UntouchedByOne(m: ValueMap, op: MapOp, key: Key)
    requires !Touches(m, op, key)
    ensures Lookup(ApplyOne(m, op), key) == Lookup(m, key)
  {
  }

  // A read is legal exactly if it returns the bindings of the map.
  lemma ReadsAreLegalExactly(m: ValueMap, key: Key, found: Option<Value>, all: ValueMap)
    ensures Legal(m, [GetOp(key, found)]) <==> if key in m then found == Some(m[key]) else found == None
    ensures Legal(m, [GetAllOp(all)]) <==> all == m
  {
    Single(m, GetOp(key, found));
    Single(m, GetAllOp(all));
  }

  // ----- interference

  /** Where a Clear of another thread stores its flag: before a section loads it, or after. */
  datatype Gaps = Gaps(before: bool, inside: bool) {
    function Clears(): multiset<MapOp> {
      (if before then multiset{ClearOp} else multiset{}) + (if inside then multiset{ClearOp} else multiset{})
    }
  }

  // ----- the state

  /** The fields of PreferencesImpl and the files of the store. */
  datatype State = State(
    values: ValueMap,
    modified: set<Key>,
    cleared: bool,
    loaded: bool,
    loadResult: bool,
    neverUnlock: bool,
    files: Disk<ValueMap>)
  {
    /** The map a read of the files should return. */
    function OnDisk(): Option<ValueMap> {
      files.Recoverable()
    }

    /** What readers see. */
    function Visible(): ValueMap {
      if cleared then map[] else values
    }
  }

  /** What a write takes from the cache. */
  datatype Snapshot = Snapshot(keys: set<Key>, data: ValueMap)

  // ----- what the operations promise

  /** Only the cache changes; a key that is not marked afterwards was not marked and kept its binding. */
  ghost predicate CacheStep(s: State, t: State) {
    && t == s.(values := t.values, modified := t.modified, cleared := t.cleared)
    && forall k :: k !in t.modified ==> k !in s.modified && Lookup(t.values, k) == Lookup(s.values, k)
  }

  /** The outcome is that of the plain map under some serial order of the operation and the Clears. */
  ghost predicate Serial(s: State, op: MapOp, gaps: Gaps, order: seq<MapOp>, t: State) {
    && multiset(order) == multiset{op} + gaps.Clears()
    && Legal(s.Visible(), order) && t.Visible() == Apply(s.Visible(), order)
  }

  ghost predicate Updated(s: State, op: MapOp, gaps: Gaps, code: Code, order: seq<MapOp>, t: State) {
    if code != E_OK then t == s && order == [] else CacheStep(s, t) && Serial(s, op, gaps, order, t)
  }

  /** The flag after a section that carries out a pending Clear; one that lands inside the section is lost
      with it, as if it came before. */
  ghost predicate FlagTaken(s: State, gaps: Gaps) {
    gaps.inside && !s.cleared && !gaps.before
  }

  /** The flag after a section that leaves it alone. */
  ghost predicate FlagLeft(s: State, gaps: Gaps) {
    s.cleared || gaps.before || gaps.inside
  }

  /** The keys that are marked when a pending Clear has been carried out. */
  ghost function Marks(s: State, gaps: Gaps): set<Key> {
    s.modified + if s.cleared || gaps.before then s.values.Keys else {}
  }

  /** A put marks its key, unless it finds an equal value, and carries out a pending Clear. */
  ghost function PutMarks(s: State, key: Key, value: Value, gaps: Gaps): set<Key> {
    if !s.cleared && !gaps.before && key in s.values && Equal(s.values[key], value) then s.modified
    else Marks(s, gaps) + {key}
  }

  /** A deletion marks its key if it finds it, and leaves a pending Clear pending. */
  ghost function DeleteMarks(s: State, key: Key, gaps: Gaps): set<Key> {
    s.modified + if !s.cleared && !gaps.before && key in s.values then {key} else {}
  }

  ghost predicate PutPromise(s: State, key: Key, value: Value, gaps: Gaps, code: Code, order: seq<MapOp>, t: State) {
    && code == CheckPut(key, value)
    && Updated(s, PutOp(key, value), gaps, code, order, t)
    && (code == E_OK ==> t.modified == PutMarks(s, key, value, gaps) && t.cleared == FlagTaken(s, gaps))
  }

  ghost predicate DeletePromise(s: State, key: Key, gaps: Gaps, code: Code, order: seq<MapOp>, t: State) {
    && code == CheckKey(key)
    && Updated(s, DeleteOp(key), gaps, code, order, t)
    && (code == E_OK ==> t.modified == DeleteMarks(s, key, gaps) && t.cleared == FlagLeft(s, gaps))
  }

  ghost predicate GetPromise(s: State, key: Key, gaps: Gaps, found: Option<Value>, order: seq<MapOp>, t: State) {
    if CheckKey(key) != E_OK then t == s && order == [] && found == None
    else t == s.(cleared := FlagLeft(s, gaps)) && Serial(s, GetOp(key, found), gaps, order, t)
  }

  ghost predicate GetAllPromise(s: State, gaps: Gaps, all: ValueMap, order: seq<MapOp>, t: State) {
    t == s.(cleared := FlagLeft(s, gaps)) && Serial(s, GetAllOp(all), gaps, order, t)
  }

  /** The locked part of a write is a read of the whole map that leaves it as it is; the keys handed to
      the write are all the marked ones, and no keys means that nothing is written. */
  ghost predicate SnapshotPromise(s: State, gaps: Gaps, r: Option<Snapshot>, order: seq<MapOp>, t: State) {
    && t == s.(values := if s.cleared || gaps.before then map[] else s.values, modified := {}, cleared := FlagTaken(s, gaps))
    && Serial(s, GetAllOp(t.values), gaps, order, t)
    && r == (if Marks(s, gaps) == {} then None else Some(Snapshot(Marks(s, gaps), t.values)))
    && forall k :: k !in Marks(s, gaps) ==> Lookup(t.values, k) == Lookup(s.values, k)
  }

  /** WriteSettingXml fails before it touches a file, or as SaveXmlFile does. */
  ghost predicate CommitPromise(s: State, snapshot: Snapshot, fates: SaveFates, written: bool, code: Code, t: State) {
    && code == (if written then E_OK else E_ERROR)
    && if written then
         && SavePromise(s.files, snapshot.data, fates, SaveOutcome.Saved, t.files)
         && t == s.(files := t.files, loadResult := true, neverUnlock := false)
       else t == s || (SavePromise(s.files, snapshot.data, fates, NotSaved, t.files) && t == s.(files := t.files))
  }

  /** A whole write: the snapshot leads to `between`, and what it took is committed from there. */
  ghost predicate WritePromise(s: State, gaps: Gaps, fates: SaveFates, taken: Option<Snapshot>, between: State, code: Code, t: State) {
    && (exists order :: SnapshotPromise(s, gaps, taken, order, between))
    && if taken.None? then code == E_OK && t == between
       else CommitPromise(between, taken.value, fates, code == E_OK, code, t)
  }

  type Document = seq<Node>

  /** One read of the files. `locked`: an intact main file cannot be opened now; `doc`: what libxml2 makes of
      the file that is read. */
  datatype Attempt = Attempt(locked: bool, fates: ReadFates, doc: Document, env: Env)

  /** The process lives on, and a document whose elements can be parsed holds the map of its file. */
  ghost predicate Possible(files: Disk<ValueMap>, a: Attempt) {
    && !a.fates.Kills()
    && (files.Recoverable().Some? && Reading(a.doc, map[], a.env).0 ==>
          Reading(a.doc, map[], a.env).1 == files.Recoverable().value)
  }

  ghost predicate Reads(files: Disk<ValueMap>, a: Attempt) {
    (a.locked ==> files.main.Read().None?) && Answers(files, a.fates) && files.Recoverable().Some? && Reading(a.doc, map[], a.env).0
  }

  /** A read of the files. One that fails may have moved a torn file away; one that succeeds gives the
      recoverable map. */
  ghost predicate ReadTo(f: Disk<ValueMap>, fates: ReadFates, read: bool, g: Disk<ValueMap>) {
    || (!read && f.main.Read().Some? && g == f)
    || (ReadPromise(f, fates, Returned(if Answers(f, fates) then f.Recoverable() else None), g)
        && (read ==> Answers(f, fates) && f.Recoverable().Some?))
  }

  /** A load replaces the cache and leaves the marks. */
  ghost predicate LoadPromise(s: State, fates: ReadFates, read: bool, folder: bool, t: State) {
    if s.loaded then t == s
    else
      && ReadTo(s.files, fates, read, t.files)
      && t == if read
              then s.(values := s.OnDisk().value, loaded := true, loadResult := true, neverUnlock := false, files := t.files)
              else s.(loaded := true, neverUnlock := s.neverUnlock || !folder, files := t.files)
  }

  /** A later load, if it is needed and there is a main file, merges the file below the cache. `stale`: the
      test of loadResult_ without the lock comes before another thread sets it. */
  ghost predicate PreLoadPromise(s: State, stale: bool, fates: ReadFates, read: bool, ok: bool, t: State) {
    if !s.loaded || s.files.main == Absent then ok && t == s
    else if s.loadResult then ok == !(stale && s.neverUnlock) && t == s
    else
      && ReadTo(s.files, fates, read, t.files) && ok == read
      && t == if read
              then s.(values := s.OnDisk().value + s.values, loadResult := true, neverUnlock := false, files := t.files)
              else s.(files := t.files)
  }

  // ----- the program

  class PreferencesImpl {
    var valuesCache: ValueMap
    var modifiedKeys: set<Key>
    var isCleared: bool
    var loaded: bool
    var loadResult: bool
    var isNeverUnlock: bool
    const store: Store<ValueMap>
    var tokens: nat // in queue_, whose capacity is 1

    ghost function View(): State
      reads this, store
    {
      State(valuesCache, modifiedKeys, isCleared, loaded, loadResult, isNeverUnlock, store.Contents())
    }

    constructor (store: Store<ValueMap>)
      ensures View() == State(map[], {}, false, false, false, false, store.Contents()) && tokens == 0
    {
      tokens := 0;
      valuesCache, modifiedKeys, isCleared, loaded, loadResult, isNeverUnlock := map[], {}, false, false, false, false;
      this.store := store;
    }

    method Clear()
      modifies this`isCleared
      ensures View() == old(View()).(cleared := true)
    {
      isCleared := true;
    }

    /** The Clear of another thread, if there is one in this gap. */
    method Interfere(gap: bool)
      modifies this`isCleared
      ensures isCleared == (gap || old(isCleared))
    {
      if gap {
        isCleared := true;
      }
    }

    /** Every cached key is marked, one by one. */
    method MarkAll()
      modifies this`modifiedKeys
      ensures modifiedKeys == old(modifiedKeys) + valuesCache.Keys
    {
      var rest := valuesCache.Keys;
      while rest != {}
        invariant rest <= valuesCache.Keys
        invariant modifiedKeys == old(modifiedKeys) + (valuesCache.Keys - rest)
        decreases rest
      {
        var key :| key in rest;
        modifiedKeys := modifiedKeys + {key};
        rest := rest - {key};
      }
    }

    method Put(key: Key, value: Value, gaps: Gaps) returns (code: Code, ghost order: seq<MapOp>)
      modifies this
      ensures tokens == old(tokens)
      ensures PutPromise(old(View()), key, value, gaps, code, order, View())
    {
      hide Equal, CheckPut, PutPromise, OrderOf;
      code := CheckPut(key, value);
      if code != E_OK {
        PutIsRefused(old(View()), key, value, gaps);
        return code, [];
      }
      Interfere(gaps.before);
      var cleared := isCleared;
      Interfere(gaps.inside);
      order := OrderOf(PutOp(key, value), gaps, cleared);
      if cleared {
        MarkAll();
        valuesCache := map[];
        valuesCache := valuesCache[key := value];
        modifiedKeys := modifiedKeys + {key};
        isCleared := false;
      } else {
        if key in valuesCache {
          if Equal(valuesCache[key], value) {
            PutKeepsPromise(old(View()), key, value, gaps, View());
            return E_OK, order;
          }
        }
        valuesCache := valuesCache[key := value];
        modifiedKeys := modifiedKeys + {key};
      }
      PutKeepsPromise(old(View()), key, value, gaps, View());
      return E_OK, order;
    }

    method Delete(key: Key, gaps: Gaps) returns (code: Code, ghost order: seq<MapOp>)
      modifies this
      ensures tokens == old(tokens)
      ensures DeletePromise(old(View()), key, gaps, code, order, View())
    {
      hide Apply, Legal, OrderOf;
      code := CheckKey(key);
      if code != E_OK {
        return code, [];
      }
      Interfere(gaps.before);
      var cleared := isCleared;
      Interfere(gaps.inside);
      order := OrderOf(DeleteOp(key), gaps, cleared);
      OrderApplies(old(View()).Visible(), DeleteOp(key), gaps, cleared);
      if cleared {
        return E_OK, order;
      }
      if key in valuesCache {
        valuesCache := valuesCache - {key};
        modifiedKeys := modifiedKeys + {key};
      }
      return E_OK, order;
    }

    method Get(key: Key, gaps: Gaps) returns (found: Option<Value>, ghost order: seq<MapOp>)
      modifies this
      ensures tokens == old(tokens)
      ensures GetPromise(old(View()), key, gaps, found, order, View())
    {
      hide Apply, Legal, OrderOf;
      if CheckKey(key) != E_OK {
        return None, [];
      }
      Interfere(gaps.before);
      var cleared := isCleared;
      Interfere(gaps.inside);
      found := None;
      if !cleared {
        if key in valuesCache {
          found := Some(valuesCache[key]);
        }
      }
      order := OrderOf(GetOp(key, found), gaps, cleared);
      OrderApplies(old(View()).Visible(), GetOp(key, found), gaps, cleared);
    }

    method GetAll(gaps: Gaps) returns (all: ValueMap, ghost order: seq<MapOp>)
      modifies this
      ensures tokens == old(tokens)
      ensures GetAllPromise(old(View()), gaps, all, order, View())
    {
      hide Apply, Legal, OrderOf;
      Interfere(gaps.before);
      var cleared := isCleared;
      Interfere(gaps.inside);
      all := map[];
      if !cleared {
        var rest := valuesCache.Keys;
        while rest != {}
          modifies {}
          invariant rest <= valuesCache.Keys
          invariant all == map k | k in valuesCache && k !in rest :: valuesCache[k]
          decreases rest
        {
          var key :| key in rest;
          all := all[key := valuesCache[key]];
          rest := rest - {key};
        }
        assert all == valuesCache;
      }
      order := OrderOf(GetAllOp(all), gaps, cleared);
      OrderApplies(old(View()).Visible(), GetAllOp(all), gaps, cleared);
    }

    /** The part of WriteToDiskFile under cacheMutex_. */
    method TakeSnapshot(gaps: Gaps) returns (r: Option<Snapshot>, ghost order: seq<MapOp>)
      modifies this
      ensures tokens == old(tokens)
      ensures SnapshotPromise(old(View()), gaps, r, order, View())
    {
      hide Apply, Legal, OrderOf;
      Interfere(gaps.before);
      var cleared := isCleared;
      Interfere(gaps.inside);
      if cleared {
        MarkAll();
        valuesCache := map[];
        isCleared := false;
      }
      order := OrderOf(GetAllOp(valuesCache), gaps, cleared);
      OrderApplies(old(View()).Visible(), GetAllOp(valuesCache), gaps, cleared);
      assert modifiedKeys == Marks(old(View()), gaps);
      if modifiedKeys != {} {
        r := Some(Snapshot(modifiedKeys, valuesCache));
        modifiedKeys := {};
      } else {
        r := None;
      }
    }

    /** The rest of WriteToDiskFile; `built`: the document could be built in memory. */
    method CommitSnapshot(snapshot: Snapshot, built: bool, fates: SaveFates) returns (code: Code)
      requires !fates.Kills()
      modifies this, store
      ensures tokens == old(tokens)
      ensures CommitPromise(old(View()), snapshot, fates, code == E_OK, code, View())
    {
      hide SavePromise;
      if !built {
        return E_ERROR;
      }
      var saved := store.SaveXmlFile(snapshot.data, fates);
      NotKilled(old(store.Contents()), snapshot.data, fates, saved, store.Contents());
      if saved != SaveOutcome.Saved {
        return E_ERROR;
      }
      if isNeverUnlock {
        isNeverUnlock := false;
      }
      if !loadResult {
        loadResult := true;
      }
      return E_OK;
    }

    /** PreferencesImpl::ReadSettingXml: the elements are inserted into conMap. */
    method ReadFile(a: Attempt, conMap: ValueMap) returns (read: bool, values: ValueMap)
      requires Possible(store.Contents(), a)
      modifies store
      ensures ReadTo(old(store.Contents()), a.fates, read, store.Contents())
      ensures read == old(Reads(store.Contents(), a))
      ensures read ==> values == old(store.Contents()).Recoverable().value + conMap
    {
      hide Reading;
      if a.locked && store.main.Read().Some? {
        return false, conMap;
      }
      var r := store.XmlReadFile(a.fates);
      if r.doc.None? {
        return false, conMap;
      }
      read, values := XmlValues.ReadSettingXml(a.doc, conMap, a.env);
      ReadingMerges(a.doc, map[], conMap, a.env);
      assert map[] + conMap == conMap;
    }

    /** `folder`: the directory of the file is accessible. */
    method LoadFromDisk(a: Attempt, folder: bool) returns (ghost read: bool)
      requires Possible(store.Contents(), a)
      modifies this, store
      ensures tokens == old(tokens)
      ensures LoadPromise(old(View()), a.fates, read, folder, View())
      ensures !old(loaded) ==> read == old(Reads(store.Contents(), a))
    {
      hide ReadTo, Possible, Reads;
      if loaded {
        return false;
      }
      if !folder {
        isNeverUnlock := true;
      }
      var found, values := ReadFile(a, map[]);
      if found {
        valuesCache := values;
        loadResult := true;
        isNeverUnlock := false;
      }
      loaded := true;
      return found;
    }

    method ReloadFromDisk(a: Attempt) returns (ok: bool)
      requires Possible(store.Contents(), a)
      modifies this, store
      ensures tokens == old(tokens)
      ensures old(loadResult) ==> !ok && View() == old(View())
      ensures !old(loadResult) ==> ReadTo(old(store.Contents()), a.fates, ok, store.Contents())
      ensures !old(loadResult) ==> ok == old(Reads(store.Contents(), a))
      ensures var after := old(View()).(files := store.Contents());
        View() == if old(loadResult) || !ok then after
                  else after.(values := old(View()).OnDisk().value + old(valuesCache), loadResult := true, neverUnlock := false)
    {
      hide ReadTo, Possible, Reads;
      if loadResult {
        return false;
      }
      var values;
      ok, values := ReadFile(a, valuesCache);
      if ok {
        valuesCache := values;
        isNeverUnlock := false;
        loadResult := true;
      }
    }

    method PreLoad(stale: bool, a: Attempt) returns (ok: bool, ghost read: bool)
      requires Possible(store.Contents(), a)
      modifies this, store
      ensures tokens == old(tokens)
      ensures PreLoadPromise(old(View()), stale, a.fates, read, ok, View())
    {
      hide ReadTo, Possible, Reads;
      read := false;
      if loadResult && !stale {
        return true, read;
      }
      if !loaded {
        return true, read;
      }
      if isNeverUnlock || !loadResult {
        if store.main != Absent {
          ok := ReloadFromDisk(a);
          return ok, ok;
        }
      }
      return true, read;
    }

    /** One whole write: the snapshot, and the files if anything is marked. */
    method WriteToDiskFile(gaps: Gaps, built: bool, fates: SaveFates)
      returns (code: Code, ghost taken: Option<Snapshot>, ghost order: seq<MapOp>, ghost between: State)
      requires !fates.Kills()
      modifies this, store
      ensures WritePromise(old(View()), gaps, fates, taken, between, code, View())
      ensures tokens == old(tokens)
    {
      hide SnapshotPromise, CommitPromise;
      var r, o := TakeSnapshot(gaps);
      taken, order, between := r, o, View();
      if r.None? {
        return E_OK, taken, order, between;
      }
      code := CommitSnapshot(r.value, built, fates);
    }

    /** PushNoWait(1): a flush that finds the queue full leaves its work to the one that filled it. */
    method Flush() returns (pushed: bool)
      modifies this`tokens
      ensures pushed <==> old(tokens) == 0
      ensures tokens == if pushed then 1 else old(tokens)
    {
      pushed := tokens == 0;
      if pushed {
        tokens := 1;
      }
    }

    /** What a flush that pushed its token goes on to do, later in the pool or at once in FlushSync. */
    method FlushTask(stale: bool, a: Attempt, gaps: Gaps, built: bool, fates: SaveFates)
      returns (code: Code, ghost read: bool, ghost ok: bool, ghost ready: State, ghost taken: Option<Snapshot>, ghost between: State)
      requires Possible(store.Contents(), a) && !fates.Kills()
      modifies this, store
      ensures PreLoadPromise(old(View()), stale, a.fates, read, ok, ready)
      ensures if ok && old(tokens) > 0 then WritePromise(ready, gaps, fates, taken, between, code, View())
              else code == E_OK && View() == ready
      ensures tokens == if ok && old(tokens) > 0 then old(tokens) - 1 else old(tokens)
    {
      hide SnapshotPromise, CommitPromise, PreLoadPromise, Possible, WritePromise;
      taken, between := None, View();
      var loadOk;
      loadOk, read := PreLoad(stale, a);
      ok, ready := loadOk, View();
      if !loadOk {
        return E_OK, read, ok, ready, taken, between;
      }
      if tokens > 0 {
        tokens := tokens - 1;
        ghost var order;
        code, taken, order, between := WriteToDiskFile(gaps, built, fates);
      } else {
        code := E_OK;
      }
    }

    /** A call that finds the queue full does nothing; one whose PreLoad fails leaves its token there. */
    method FlushSync(stale: bool, a: Attempt, gaps: Gaps, built: bool, fates: SaveFates)
      returns (code: Code, ghost read: bool, ghost ok: bool, ghost ready: State, ghost taken: Option<Snapshot>, ghost between: State)
      requires Possible(store.Contents(), a) && !fates.Kills()
      modifies this, store
      ensures old(tokens) > 0 ==> code == E_OK && View() == old(View()) && tokens == old(tokens)
      ensures old(tokens) == 0 ==>
        && PreLoadPromise(old(View()), stale, a.fates, read, ok, ready)
        && (if ok then WritePromise(ready, gaps, fates, taken, between, code, View()) else code == E_OK && View() == ready)
        && tokens == if ok then 0 else 1
    {
      hide PreLoadPromise, WritePromise, Possible;
      read, ok, ready, taken, between := false, false, View(), None, View();
      code := E_OK;
      var pushed := Flush();
      if pushed {
        code, read, ok, ready, taken, between := FlushTask(stale, a, gaps, built, fates);
      }
    }
  }

  lemma PutIsRefused(s: State, key: Key, value: Value, gaps: Gaps)
    ensures CheckPut(key, value) != E_OK ==> PutPromise(s, key, value, gaps, CheckPut(key, value), [], s)
  {
  }

  lemma PutKeepsPromise(s: State, key: Key, value: Value, gaps: Gaps, t: State)
    requires CheckPut(key, value) == E_OK
    requires t == s.(values := t.values, modified := t.modified, cleared := gaps.inside && !s.cleared && !gaps.before)
    requires if s.cleared || gaps.before then t.values == map[key := value] && t.modified == s.modified + s.values.Keys + {key}
             else if key in s.values && Equal(s.values[key], value) then t.values == s.values && t.modified == s.modified
             else t.values == s.values[key := value] && t.modified == s.modified + {key}
    ensures PutPromise(s, key, value, gaps, E_OK, OrderOf(PutOp(key, value), gaps, s.cleared || gaps.before), t)
  {
    hide Equal, Apply, Legal, OrderOf, CheckPut;
    OrderApplies(s.Visible(), PutOp(key, value), gaps, s.cleared || gaps.before);
  }

  lemma NotKilled(before: Disk<ValueMap>, data: ValueMap, fates: SaveFates, r: SaveOutcome, after: Disk<ValueMap>)
    requires SavePromise(before, data, fates, r, after) && !fates.Kills()
    ensures !r.SaveKilled?
  {
  }

  // Every state has a snapshot for every interference.
  lemma SnapshotExists(s: State, gaps: Gaps) returns (r: Option<Snapshot>, order: seq<MapOp>, t: State)
    ensures SnapshotPromise(s, gaps, r, order, t)
  {
    hide Apply, Legal, OrderOf;
    var cleared := s.cleared || gaps.before;
    t := s.(values := if cleared then map[] else s.values, modified := {}, cleared := !cleared && gaps.inside);
    order := OrderOf(GetAllOp(t.values), gaps, cleared);
    OrderApplies(s.Visible(), GetAllOp(t.values), gaps, cleared);
    r := if Marks(s, gaps) == {} then None else Some(Snapshot(Marks(s, gaps), t.values));
  }

  // ----- the serial order

  /** A section that found the flag set comes after the Clears, one that did not comes before the Clear
      that lands inside it. */
  ghost function OrderOf(op: MapOp, gaps: Gaps, cleared: bool): seq<MapOp> {
    (if gaps.before then [ClearOp] else []) + AfterLoad(op, gaps.inside, cleared)
  }

  ghost function AfterLoad(op: MapOp, inside: bool, cleared: bool): seq<MapOp> {
    if !inside then [op] else if cleared then [ClearOp] + [op] else [op] + [ClearOp]
  }

  lemma OrderApplies(m: ValueMap, op: MapOp, gaps: Gaps, cleared: bool)
    requires gaps.before ==> cleared
    ensures var order, found := OrderOf(op, gaps, cleared), if gaps.before || (cleared && gaps.inside) then map[] else m;
      && multiset(order) == multiset{op} + gaps.Clears()
      && (Legal(m, order) <==> LegalOne(found, op))
      && Apply(m, order) == if gaps.inside && !cleared then map[] else ApplyOne(found, op)
  {
    hide ApplyOne, LegalOne, Apply, Legal, AfterLoad;
    var m' := if gaps.before then map[] else m;
    AfterLoadApplies(m', op, gaps.inside, cleared);
    var tail := AfterLoad(op, gaps.inside, cleared);
    if gaps.before {
      Single(m, ClearOp);
      ClearsAll(m);
      Concatenated(m, [ClearOp], tail);
    } else {
      assert [] + tail == tail;
    }
  }

  lemma AfterLoadApplies(m: ValueMap, op: MapOp, inside: bool, cleared: bool)
    ensures var order, found := AfterLoad(op, inside, cleared), if cleared && inside then map[] else m;
      && multiset(order) == multiset{op} + (if inside then multiset{ClearOp} else multiset{})
      && (Legal(m, order) <==> LegalOne(found, op))
      && Apply(m, order) == if inside && !cleared then map[] else ApplyOne(found, op)
  {
    hide ApplyOne, LegalOne, Apply, Legal;
    Single(m, op);
    if inside && cleared {
      Single(m, ClearOp);
      ClearsAll(m);
      Single(map[], op);
      Concatenated(m, [ClearOp], [op]);
    } else if inside {
      Single(ApplyOne(m, op), ClearOp);
      ClearsAll(ApplyOne(m, op));
      Concatenated(m, [op], [ClearOp]);
    }
  }

  lemma ClearsAll(m: ValueMap)
    ensures ApplyOne(m, ClearOp) == map[] && LegalOne(m, ClearOp)
  {
  }
}
