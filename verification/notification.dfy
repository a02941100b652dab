// Who is told what after a write: NotifyPreferencesObserver of frameworks/native/src/preferences_impl.cpp.
module Notification {
  import opened Values

  /** A registered data observer: whether it still exists, and the keys it subscribed to. */
  datatype Observer = Observer(live: bool, keys: set<Key>)

  /** OnChange(records) of the observer with this position in the map of observers. */
  datatype Change = Change(observer: nat, records: ValueMap)

  /** OnChange(key) of a local observer. */
  datatype LocalChange = LocalChange(observer: nat, key: Key)

  /** The observer has changes to hear of. */
  ghost predicate Concerned(o: Observer, modified: set<Key>) {
    o.live && exists k :: k in o.keys && k in modified
  }

  /** Exactly the modified keys of the subscription, each with its value in the map that was written, or
      no value when it is gone. */
  ghost predicate Exact(records: ValueMap, o: Observer, modified: set<Key>, written: ValueMap) {
    && records.Keys == o.keys * modified
    && forall k :: k in records ==> records[k] == if k in written then written[k] else Mono
  }

  ghost predicate Due(c: Change, observers: seq<Observer>, modified: set<Key>, written: ValueMap) {
    && c.observer < |observers| && Concerned(observers[c.observer], modified)
    && Exact(c.records, observers[c.observer], modified, written)
  }

  /** The calls made to the first n observers: one to each that is concerned, none to the others. */
  ghost predicate Delivered(calls: seq<Change>, observers: seq<Observer>, n: nat, modified: set<Key>, written: ValueMap)
    requires n <= |observers|
  {
    && (forall c :: 0 <= c < |calls| ==> calls[c].observer < n && Due(calls[c], observers, modified, written))
    && (forall c, d :: 0 <= c < d < |calls| ==> calls[c].observer < calls[d].observer)
    && (forall i :: 0 <= i < n && Concerned(observers[i], modified) ==> exists c :: 0 <= c < |calls| && calls[c].observer == i)
  }

  method Collect(keys: set<Key>, modified: set<Key>, written: ValueMap) returns (records: ValueMap)
    ensures Exact(records, Observer(true, keys), modified, written)
  {
    records := map[];
    var rest := modified;
    while rest != {}
      invariant rest <= modified
      invariant Exact(records, Observer(true, keys), modified - rest, written)
      decreases rest
    {
      var key :| key in rest;
      rest := rest - {key};
      if key in keys {
        var value := if key in written then written[key] else Mono;
        records := records[key := value];
      }
    }
    assert modified - rest == modified;
  }

  method NotifyDataObservers(observers: seq<Observer>, modified: set<Key>, written: ValueMap) returns (calls: seq<Change>)
    ensures Delivered(calls, observers, |observers|, modified, written)
  {
    calls := [];
    if modified == {} {
      return;
    }
    for i := 0 to |observers|
      invariant Delivered(calls, observers, i, modified, written)
    {
      var records := Collect(observers[i].keys, modified, written);
      if records == map[] {
        Unconcerned(observers[i], modified, records);
      } else if observers[i].live {
        var key :| key in records;
        assert key in observers[i].keys && key in modified;
        DeliverOne(calls, observers, i, modified, written, records);
        calls := calls + [Change(i, records)];
      }
    }
  }

  // What an observer hears: a live one is called exactly if a key it subscribed to was modified, and only
  // once; a call tells it of such keys alone and of all of them, with the value that was written or no value.
  lemma DeliveredExactly(calls: seq<Change>, observers: seq<Observer>, modified: set<Key>, written: ValueMap, i: nat)
    requires Delivered(calls, observers, |observers|, modified, written) && i < |observers|
    ensures (exists c :: 0 <= c < |calls| && calls[c].observer == i) <==> observers[i].live && observers[i].keys * modified != {}
    ensures forall c, d :: 0 <= c < d < |calls| && calls[c].observer == i ==> calls[d].observer != i
    ensures forall c, k :: 0 <= c < |calls| && calls[c].observer == i ==>
      (k in calls[c].records <==> k in observers[i].keys && k in modified)
    ensures forall c, k :: 0 <= c < |calls| && calls[c].observer == i && k in calls[c].records ==>
      if k in written then calls[c].records[k] == written[k] else calls[c].records[k].Mono?
  {
    var o := observers[i];
    if o.live && o.keys * modified != {} {
      var k :| k in o.keys * modified;
      assert Concerned(o, modified);
    }
    if c :| 0 <= c < |calls| && calls[c].observer == i {
      assert Due(calls[c], observers, modified, written);
      var k :| k in o.keys && k in modified;
      assert k in o.keys * modified;
    }
    assert forall c :: 0 <= c < |calls| ==> Due(calls[c], observers, modified, written);
  }

  lemma Unconcerned(o: Observer, modified: set<Key>, records: ValueMap)
    requires records == map[] && records.Keys == o.keys * modified
    ensures !Concerned(o, modified)
  {
    assert forall k :: k in o.keys && k in modified ==> k in records;
  }

  lemma DeliverOne(calls: seq<Change>, observers: seq<Observer>, i: nat, modified: set<Key>, written: ValueMap, records: ValueMap)
    requires i < |observers| && Delivered(calls, observers, i, modified, written)
    requires Concerned(observers[i], modified) && Exact(records, observers[i], modified, written)
    ensures Delivered(calls + [Change(i, records)], observers, i + 1, modified, written)
  {
    hide Concerned, Exact;
    var after := calls + [Change(i, records)];
    forall j | 0 <= j < i + 1 && Concerned(observers[j], modified)
      ensures exists c :: 0 <= c < |after| && after[c].observer == j
    {
      if j < i {
        var c :| 0 <= c < |calls| && calls[c].observer == j;
        assert after[c].observer == j;
      } else {
        assert after[|calls|].observer == j;
      }
    }
  }

  /** Every live local observer hears of every modified key once. */
  method NotifyLocalObservers(live: seq<bool>, modified: set<Key>) returns (calls: seq<LocalChange>)
    ensures forall i: nat, k :: LocalChange(i, k) in calls <==> i < |live| && live[i] && k in modified
    ensures forall c, d :: 0 <= c < d < |calls| ==> calls[c] != calls[d]
  {
    calls := [];
    if modified == {} {
      return;
    }
    for i := 0 to |live|
      invariant forall j: nat, k :: LocalChange(j, k) in calls <==> j < i && live[j] && k in modified
      invariant forall c, d :: 0 <= c < d < |calls| ==> calls[c] != calls[d]
    {
      var rest := modified;
      ghost var before := calls;
      while rest != {}
        invariant rest <= modified
        invariant forall j: nat, k :: LocalChange(j, k) in calls <==>
          (j < i && live[j] && k in modified) || (j == i && live[i] && k in modified && k !in rest)
        invariant forall c, d :: 0 <= c < d < |calls| ==> calls[c] != calls[d]
        decreases rest
      {
        var key :| key in rest;
        rest := rest - {key};
        if live[i] {
          assert LocalChange(i, key) !in calls;
          calls := calls + [LocalChange(i, key)];
        }
      }
    }
  }
}
