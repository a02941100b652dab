// The two halves of preferences_xml_utils.cpp together: what a restart reads as a map.
module CrashSafeMap {
  import opened Options
  import opened Values
  import opened XmlFile
  import opened XmlValues

  type Document = seq<Node>

  /** Every save of the run writes a map that survives its document. */
  ghost predicate SavesMaps(run: seq<Event<Document>>, maps: seq<ValueMap>, orders: seq<seq<Key>>, env: Env) {
    && |maps| == |orders| == |run|
    && forall i :: 0 <= i < |run| && run[i].Save? ==>
         Orders(orders[i], maps[i]) && AllFaithful(maps[i], env) && run[i].saved == WrittenAll(orders[i], maps[i], env)
  }

  // Once a save has completed, every restart reads a map that was handed to that save or to a later one
  // that was not rolled back, and no save has completed since that one; a kill at any file step and a
  // power failure change nothing of this as long as they are bearable.
  lemma RestartReadsAMapThatWasSaved(run: seq<Event<Document>>, disks: seq<Disk<Document>>,
                                     maps: seq<ValueMap>, orders: seq<seq<Key>>, env: Env, done: nat, i: nat)
    returns (j: nat)
    requires IsRun(run, disks) && AllBearable(run, disks) && SavesMaps(run, maps, orders, env)
    requires done < i < |run| && run[done].Completes()
    requires run[i].Read? && run[i].readOutcome.Returned?
    ensures done <= j < i && run[j].Save? && !run[j].saveOutcome.NotSaved? && forall k :: j < k < i ==> !run[k].Completes()
    ensures run[i].readOutcome.doc.Some?
    ensures Reading(run[i].readOutcome.doc.value, map[], env) == (true, maps[j])
  {
    hide IsRun, AllBearable, Reading, WrittenAll, AllFaithful, Orders;
    NeverOlderNeverNothing(run, disks, i, done);
    j :| 0 <= j < i && run[..i][j].Save? && !run[..i][j].saveOutcome.NotSaved? && run[i].readOutcome.doc == Some(run[..i][j].saved)
      && forall k :: j < k < i ==> !run[..i][k].Completes();
    assert run[..i][j] == run[j];
    assert forall k :: j < k < i ==> run[..i][k] == run[k];
    MapRoundTrip(orders[j], maps[j], env);
  }
}
