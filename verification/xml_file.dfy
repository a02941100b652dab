// The save and restore protocol over the three files of a store: SaveXmlFile, XmlReadFile,
// RenameFromBackupFile and ReportSaveFileFault of frameworks/native/src/preferences_xml_utils.cpp.
// The process may be killed before and after every file step. A power failure that strikes in the
// middle of an operation is such a kill, followed by the loss of what was not yet synced.
module XmlFile {
  import opened Options

  /** A written file is readable at once, but only an fsync makes it outlive a power failure. */
  datatype File<+Doc> = Absent | Torn | Cached(doc: Doc) | Synced(doc: Doc) {
    function Read(): Option<Doc> {
      if Cached? || Synced? then Some(doc) else None
    }

    function AfterPowerFailure(tear: bool): File<Doc> {
      if Cached? then (if tear then Torn else Synced(doc)) else this
    }
  }

  /** Which of the files a power failure tears, should they not be synced. */
  datatype Tears = Tears(main: bool, bak: bool, broken: bool)

  datatype Disk<+Doc> = Disk(main: File<Doc>, bak: File<Doc>, broken: File<Doc>) {
    /** The file an undisturbed XmlReadFile reads. */
    function Source(): File<Doc> {
      if main.Read().Some? then main else bak
    }

    /** The document an undisturbed XmlReadFile returns. */
    function Recoverable(): Option<Doc> {
      Source().Read()
    }

    /** f is the file that is read; if f cannot be read, nothing can. */
    ghost predicate Holds(f: File<Doc>) {
      if f.Read().Some? then Source() == f else Recoverable() == None
    }

    /** A torn main file in front of a readable backup, which the next save would overwrite. */
    predicate Exposed() {
      main.Torn? && bak.Read().Some?
    }

    function AfterPowerFailure(tears: Tears): Disk<Doc> {
      Disk(main.AfterPowerFailure(tears.main), bak.AfterPowerFailure(tears.bak), broken.AfterPowerFailure(tears.broken))
    }
  }

  /** What becomes of one file step: the process may be killed before or after its effect. */
  datatype Fate = Works | Fails | KillBefore | KillAfter {
    predicate TakesEffect() { Works? || KillAfter? }
    predicate Kills() { KillBefore? || KillAfter? }
  }

  datatype SaveFates = SaveFates(
    backup: Fate, open: Fate, write: Fate, fsync: Fate, remove: Fate, quarantine: Fate, restore: Fate)
  {
    predicate Kills() {
      backup.Kills() || open.Kills() || write.Kills() || fsync.Kills() || remove.Kills() || quarantine.Kills() || restore.Kills()
    }
  }

  /** `locked`: a failed read leaves one of the errno values ReportNonCorruptError recognises. */
  datatype ReadFates = ReadFates(locked: bool, quarantine: Fate, restore: Fate) {
    predicate Kills() {
      quarantine.Kills() || restore.Kills()
    }
  }

  /** How far a killed save got: the new document is not in the file; in the file but not synced, with
      a readable backup or without one; or synced. */
  datatype Stage = Unwritten | Written | WrittenAlone | Flushed

  datatype SaveOutcome = Saved | NotSaved | SaveKilled(stage: Stage)
  datatype ReadOutcome<+Doc> = Returned(doc: Option<Doc>) | ReadKilled
  datatype Restore = Restored | NotRestored | RestoreKilled

  // ----- the files after every fate of every step

  ghost function AfterQuarantine<Doc>(d: Disk<Doc>, fate: Fate): Disk<Doc> {
    if fate.TakesEffect() then Disk(Absent, d.bak, d.main) else d
  }

  ghost function AfterRestore<Doc>(d: Disk<Doc>, fate: Fate): Disk<Doc> {
    if d.bak == Absent || !fate.TakesEffect() then d
    else Disk(if d.bak.Read().Some? then d.bak else d.main, Absent, d.broken)
  }

  ghost function AfterRollback<Doc>(d: Disk<Doc>, quarantine: Fate, restore: Fate): Disk<Doc> {
    if d.main == Absent then AfterRestore(d, restore)
    else
      var q := AfterQuarantine(d, quarantine);
      if quarantine.Kills() then q else AfterRestore(q, restore)
  }

  /** A read stops at a main file that it can read, may not touch, or cannot move away. */
  ghost function AfterRead<Doc>(d: Disk<Doc>, fates: ReadFates): Disk<Doc> {
    if d.main.Read().Some? || (d.main.Torn? && (fates.locked || fates.quarantine.Fails?)) then d
    else AfterRollback(d, fates.quarantine, fates.restore)
  }

  ghost function AfterSave<Doc>(d: Disk<Doc>, doc: Doc, fates: SaveFates): Disk<Doc> {
    var backed := Disk(Absent, Backup(d), d.broken);
    if d.main != Absent && !fates.backup.Works? then (if fates.backup.TakesEffect() then backed else d)
    else if fates.open.Fails? then AfterRollback(backed, fates.quarantine, fates.restore)
    else if fates.open.KillBefore? then backed
    else if fates.open.KillAfter? || fates.write.KillBefore? then backed.(main := Torn)
    else if fates.write.Fails? then AfterRollback(backed.(main := Torn), fates.quarantine, fates.restore)
    else
      Disk(if fates.write.Works? && fates.fsync.TakesEffect() then Synced(doc) else Cached(doc),
           if fates.write.Works? && !fates.fsync.Kills() && fates.remove.TakesEffect() then Absent else backed.bak,
           d.broken)
  }

  /** The read moves a corrupt main file to the broken file. */
  predicate ReadQuarantines<Doc>(before: Disk<Doc>, fates: ReadFates) {
    before.main.Torn? && !fates.locked && fates.quarantine.TakesEffect()
  }

  /** The save moves the file it could not write to the broken file. */
  predicate SaveQuarantines<Doc>(before: Disk<Doc>, fates: SaveFates) {
    (before.main.Absent? || fates.backup.Works?) && fates.open.Works? && fates.write.Fails? && fates.quarantine.TakesEffect()
  }

  // ----- what that means

  /** The file a failed save rolls back to: renaming the main file overwrites the backup. */
  ghost function RollbackTarget<Doc>(before: Disk<Doc>, fates: SaveFates): File<Doc> {
    if before.main != Absent && fates.backup.TakesEffect() then before.main else before.Source()
  }

  /** The backup a save has while it writes. */
  ghost function Backup<Doc>(before: Disk<Doc>): File<Doc> {
    if before.main != Absent then before.main else before.bak
  }

  ghost function StageOf<Doc>(before: Disk<Doc>, fates: SaveFates): Stage {
    if (before.main != Absent && !fates.backup.Works?) || !fates.open.Works? || !fates.write.TakesEffect() then Unwritten
    else if fates.write.Works? && fates.fsync.TakesEffect() then Flushed
    else if fates.write.Works? && fates.fsync.Fails? && fates.remove.KillAfter? then WrittenAlone
    else if Backup(before).Read().None? then WrittenAlone
    else Written
  }

  /** A save that returns false, or is killed before its document is in the file, leaves the old one. */
  ghost predicate SavePromise<Doc>(before: Disk<Doc>, doc: Doc, fates: SaveFates, r: SaveOutcome, after: Disk<Doc>) {
    && after == AfterSave(before, doc, fates)
    && after.broken == (if SaveQuarantines(before, fates) then Torn else before.broken)
    && match r
       case Saved =>
         && after.main == (if fates.fsync.Fails? then Cached(doc) else Synced(doc))
         && after.bak == if fates.remove.Fails? then Backup(before) else Absent
       case NotSaved =>
         && after.Holds(RollbackTarget(before, fates))
         && (after.Exposed() <==>
               if before.main != Absent && fates.backup.Fails? then before.Exposed()
               else fates.open.Works? && fates.write.Fails? && fates.quarantine.Fails? && fates.restore.Fails?
                    && Backup(before).Read().Some?)
         && (fates.restore.Works? && !(before.main != Absent && fates.backup.Fails?) ==> after.bak == Absent)
       case SaveKilled(stage) =>
         && fates.Kills() && stage == StageOf(before, fates)
         && match stage
            case Unwritten => after.Holds(RollbackTarget(before, fates))
            case Written => after.main == Cached(doc) && after.bak == Backup(before) && after.bak.Read().Some?
            case WrittenAlone => after.main == Cached(doc) && after.bak.Read().None?
            case Flushed => after.main == Synced(doc)
  }

  /** Nothing keeps this read from returning the recoverable document. */
  ghost predicate Answers<Doc>(before: Disk<Doc>, fates: ReadFates) {
    || before.main.Read().Some?
    || before.bak.Read().None?
    || ((before.main == Absent || (!fates.locked && !fates.quarantine.Fails?)) && !fates.restore.Fails?)
  }

  ghost predicate ReadPromise<Doc>(before: Disk<Doc>, fates: ReadFates, r: ReadOutcome<Doc>, after: Disk<Doc>) {
    && after == AfterRead(before, fates)
    && after.broken == (if ReadQuarantines(before, fates) then before.main else before.broken)
    && after.Holds(before.Source())
    && (before.main.Read().Some? ==> r.Returned? && after == before)
    && (r.Returned? ==> r.doc == before.Recoverable() || r.doc == None)
    && (r.Returned? ==> (r.doc == before.Recoverable() <==> Answers(before, fates)))
    && (r.Returned? && r.doc == before.Recoverable() ==> !after.Exposed() && after.main.Read() == r.doc)
    && (before.main.Read().None? && after.main.Read().Some? ==> after.bak == Absent)
    && (r.ReadKilled? ==> fates.Kills())
  }

  // ----- the program

  class Store<Doc(==)> {
    var main: File<Doc>
    var bak: File<Doc>
    var broken: File<Doc>

    ghost function Contents(): Disk<Doc>
      reads this
    {
      Disk(main, bak, broken)
    }

    constructor (main: File<Doc>, bak: File<Doc>, broken: File<Doc>)
      ensures Contents() == Disk(main, bak, broken)
    {
      this.main, this.bak, this.broken := main, bak, broken;
    }

    /** Every file that was not synced is torn or turns out to have reached the disk. */
    method PowerFailure(tears: Tears)
      modifies this
      ensures Contents() == old(Contents()).AfterPowerFailure(tears)
    {
      main, bak := main.AfterPowerFailure(tears.main), bak.AfterPowerFailure(tears.bak);
      broken := broken.AfterPowerFailure(tears.broken);
    }

    /** The main file is moved out of the way; an earlier broken file is overwritten. */
    method RenameToBrokenFile(fate: Fate) returns (ok: bool)
      modifies this
      ensures ok == fate.TakesEffect()
      ensures Contents() == AfterQuarantine(old(Contents()), fate)
    {
      if fate.TakesEffect() {
        main, broken := Absent, main;
      }
      return fate.TakesEffect();
    }

    method RenameFromBackupFile(fate: Fate) returns (r: Restore)
      modifies this
      ensures r.Restored? <==> old(bak).Read().Some? && fate.Works?
      ensures r.RestoreKilled? <==> old(bak) != Absent && fate.Kills()
      ensures Contents() == AfterRestore(old(Contents()), fate)
    {
      if bak == Absent {
        return NotRestored;
      }
      var readable := bak.Read().Some?;
      if fate.TakesEffect() {
        if readable {
          main, bak := bak, Absent;
        } else {
          bak := Absent;
        }
      }
      if fate.Kills() {
        return RestoreKilled;
      }
      return if readable && fate.Works? then Restored else NotRestored;
    }

    method XmlReadFile(fates: ReadFates) returns (r: ReadOutcome<Doc>)
      modifies this
      ensures ReadPromise(old(Contents()), fates, r, Contents())
    {
      var doc: Option<Doc> := None;
      if main != Absent {
        doc := main.Read();
        if doc.Some? {
          return Returned(doc);
        }
        if fates.locked {
          return Returned(None);
        }
        var quarantined := RenameToBrokenFile(fates.quarantine);
        if fates.quarantine.Kills() {
          return ReadKilled;
        }
        if !quarantined {
          return Returned(doc);
        }
      }
      var restore := RenameFromBackupFile(fates.restore);
      if restore.RestoreKilled? {
        return ReadKilled;
      }
      if restore.Restored? {
        doc := main.Read();
      }
      return Returned(doc);
    }

    /** The rollback of a save that could not open or write the new file. */
    method ReportSaveFileFault(fates: SaveFates) returns (killed: bool)
      requires main == Absent || main.Torn?
      modifies this
      ensures Contents() == AfterRollback(old(Contents()), fates.quarantine, fates.restore)
      ensures killed <==> (old(main) != Absent && fates.quarantine.Kills()) || (old(bak) != Absent && fates.restore.Kills())
      ensures Contents().Holds(old(bak))
      ensures !killed ==> (Contents().Exposed() <==>
        old(main).Torn? && old(bak).Read().Some? && fates.quarantine.Fails? && fates.restore.Fails?)
    {
      if main != Absent {
        var quarantined := RenameToBrokenFile(fates.quarantine);
        if fates.quarantine.Kills() {
          return true;
        }
      }
      var restore := RenameFromBackupFile(fates.restore);
      return restore.RestoreKilled?;
    }

    function Unsynced(): Stage
      reads this
    {
      if bak.Read().Some? then Written else WrittenAlone
    }

    method SaveXmlFile(doc: Doc, fates: SaveFates) returns (r: SaveOutcome)
      modifies this
      ensures SavePromise(old(Contents()), doc, fates, r, Contents())
    {
      if main != Absent {
        if fates.backup.TakesEffect() {
          main, bak := Absent, main;
        }
        if fates.backup.Kills() {
          return SaveKilled(Unwritten);
        }
        if fates.backup.Fails? {
          return NotSaved;
        }
      }
      if fates.open.TakesEffect() {
        main := Torn; // created empty, and an empty file does not parse
      }
      if fates.open.Kills() {
        return SaveKilled(Unwritten);
      }
      if fates.open.Fails? {
        var killed := ReportSaveFileFault(fates);
        return if killed then SaveKilled(Unwritten) else NotSaved;
      }
      if fates.write.TakesEffect() {
        main := Cached(doc);
      }
      if fates.write.Kills() {
        return SaveKilled(if fates.write.KillBefore? then Unwritten else Unsynced());
      }
      if fates.write.Fails? {
        var killed := ReportSaveFileFault(fates);
        return if killed then SaveKilled(Unwritten) else NotSaved;
      }
      if fates.fsync.TakesEffect() {
        main := Synced(doc);
      }
      if fates.fsync.Kills() {
        return SaveKilled(if fates.fsync.KillAfter? then Flushed else Unsynced());
      }
      // a failed fsync is only logged
      if bak != Absent {
        if fates.remove.TakesEffect() {
          bak := Absent;
        }
        if fates.remove.Kills() {
          return SaveKilled(if !fates.fsync.Fails? then Flushed else Unsynced());
        }
      }
      return Saved;
    }
  }

  // ----- whole runs

  /** What one process lifetime after another does to the store; `Read` begins each lifetime. */
  datatype Event<+Doc> =
    | Save(saved: Doc, saveFates: SaveFates, saveOutcome: SaveOutcome)
    | Read(readFates: ReadFates, readOutcome: ReadOutcome<Doc>)
    | Loss(tears: Tears) // a power failure, between two operations or right after a kill
  {
    /** The process is gone. */
    predicate Stops() {
      match this
      case Save(_, _, r) => r.SaveKilled?
      case Read(_, r) => r.ReadKilled?
      case Loss(_) => true
    }

    predicate Completes() {
      Save? && saveOutcome.Saved?
    }

    /** It leaves in the file a document that is not synced. */
    predicate LeavesUnsynced() {
      Save? && match saveOutcome
        case Saved => saveFates.fsync.Fails?
        case NotSaved => false
        case SaveKilled(stage) => stage.Written? || stage.WrittenAlone?
    }
  }

  ghost predicate Step<Doc>(before: Disk<Doc>, e: Event<Doc>, after: Disk<Doc>) {
    match e
    case Save(doc, fates, r) => SavePromise(before, doc, fates, r, after)
    case Read(fates, r) => ReadPromise(before, fates, r, after)
    case Loss(tears) => after == before.AfterPowerFailure(tears)
  }

  /** disks[i] is the disk before run[i]; a save runs in a process that has read the store. */
  ghost predicate IsRun<Doc>(run: seq<Event<Doc>>, disks: seq<Disk<Doc>>) {
    && |disks| == |run| + 1
    && disks[0] == Disk(Absent, Absent, Absent)
    && (forall i :: 0 <= i < |run| ==> Step(disks[i], run[i], disks[i + 1]))
    && (forall i :: 0 <= i < |run| && run[i].Save? ==> 0 < i && !run[i - 1].Stops())
  }

  /** The document of the last completed save or restart: what the running process works from. */
  ghost function Committed<Doc>(run: seq<Event<Doc>>): Option<Doc> {
    if run == [] then None
    else
      var e := run[|run| - 1];
      if e.Completes() then Some(e.saved)
      else if e.Read? && e.readOutcome.Returned? then e.readOutcome.doc
      else Committed(run[..|run| - 1])
  }

  /** The document of the save a kill interrupted, until the next restart has read the store. */
  ghost function InFlight<Doc>(run: seq<Event<Doc>>): Option<Doc> {
    if run == [] then None
    else
      var e := run[|run| - 1];
      if e.Save? && e.saveOutcome.SaveKilled? then Some(e.saved)
      else if e.Stops() then InFlight(run[..|run| - 1])
      else None
  }

  ghost predicate Explained<Doc>(d: Option<Doc>, run: seq<Event<Doc>>) {
    d == Committed(run) || (d == InFlight(run) && d != None)
  }

  /** A killed save left its document unsynced, and no restart has read it. */
  ghost predicate Pending<Doc>(run: seq<Event<Doc>>) {
    run != [] &&
      var e, past := run[|run| - 1], run[..|run| - 1];
      if e.Save? then e.saveOutcome.SaveKilled? && e.LeavesUnsynced()
      else e.Read? && e.readOutcome.ReadKilled? && Pending(past)
  }

  /** The committed document is not synced: its fsync failed, or a restart read what a save that was
      killed before its fsync had left; and no power failure has settled it since. */
  ghost predicate AtRisk<Doc>(run: seq<Event<Doc>>) {
    run != [] &&
      var e, past := run[|run| - 1], run[..|run| - 1];
      match e
      case Save(_, fates, Saved) => fates.fsync.Fails?
      case Save(_, _, NotSaved) => AtRisk(past)
      case Save(_, _, SaveKilled(stage)) =>
        !stage.Flushed? && if stage.WrittenAlone? then Committed(past).Some? else AtRisk(past)
      case Read(_, r) => AtRisk(past) || (r.Returned? && Pending(past))
      case Loss(_) => false
  }

  /** The power failure leaves the file that would be read as it is, or else a backup with a document
      that may be read. */
  ghost predicate Spares<Doc>(d: Disk<Doc>, run: seq<Event<Doc>>, tears: Tears) {
    var left := d.bak.AfterPowerFailure(tears.bak);
    if d.main.Read().None? then !tears.bak
    else !tears.main || (left.Synced? && Explained(Some(left.doc), run))
  }

  /** The three faults the protocol does not bear: a save that renames a torn main file over a readable
      backup and then gets no document into the file, a read that gives up on a file that could be read,
      and a power failure that tears a committed document which is not synced. */
  ghost predicate Bearable<Doc>(before: Disk<Doc>, past: seq<Event<Doc>>, e: Event<Doc>) {
    match e
    case Save(_, fates, r) =>
      before.Exposed() && fates.backup.TakesEffect() ==> r.Saved? || (r.SaveKilled? && !r.stage.Unwritten?)
    case Read(fates, Returned(_)) => Answers(before, fates)
    case Loss(tears) => AtRisk(past) ==> Spares(before, past, tears)
    case _ => true
  }

  ghost predicate AllBearable<Doc>(run: seq<Event<Doc>>, disks: seq<Disk<Doc>>)
    requires |disks| == |run| + 1
  {
    forall i :: 0 <= i < |run| ==> Bearable(disks[i], run[..i], run[i])
  }

  lemma PrefixIsRun<Doc>(run: seq<Event<Doc>>, disks: seq<Disk<Doc>>, n: nat)
    requires IsRun(run, disks) && n <= |run|
    ensures IsRun(run[..n], disks[..n + 1])
    ensures AllBearable(run, disks) ==> AllBearable(run[..n], disks[..n + 1])
    ensures n < |run| ==> Step(disks[n], run[n], disks[n + 1])
  {
    if AllBearable(run, disks) {
      forall i | 0 <= i < n
        ensures Bearable(disks[..n + 1][i], run[..n][..i], run[..n][i])
      {
        assert run[..n][..i] == run[..i];
        assert Bearable(disks[i], run[..i], run[i]);
      }
    }
  }

  /** The link between a disk and the run that led to it. */
  ghost predicate Linked<Doc>(d: Disk<Doc>, run: seq<Event<Doc>>) {
    && Explained(d.Recoverable(), run)
    && (run != [] && !run[|run| - 1].Stops() ==> d.Recoverable() == Committed(run) && !Pending(run))
    && (AtRisk(run) ==> Committed(run).Some?)
    && (!Pending(run) ==> (AtRisk(run) <==> d.Source().Cached?))
    && (Pending(run) ==>
          && d.main.Cached?
          && if AtRisk(run) then !d.bak.Synced? else !d.bak.Cached? && d.bak.Read() == Committed(run))
    && (d.main.Read().None? && d.bak.Cached? ==> d.bak.Read() == Committed(run))
  }

  // At every moment of every run of saves, restarts, kills and power failures that are bearable, the
  // disk recovers to the committed document, or, between a kill and the end of the next restart, to
  // the one that was in flight.
  lemma {:induction false} RunKeepsTheDocument<Doc>(run: seq<Event<Doc>>, disks: seq<Disk<Doc>>)
    requires IsRun(run, disks) && AllBearable(run, disks)
    ensures Linked(disks[|run|], run)
  {
    hide Step, Linked, Bearable;
    var n := |run| - 1;
    if run != [] {
      PrefixIsRun(run, disks, n);
      RunKeepsTheDocument(run[..n], disks[..|run|]);
      assert Bearable(disks[n], run[..n], run[n]);
      StepKeepsTheDocument(run, disks[n], disks[|run|]);
    } else {
      NothingIsLinked(disks[0]);
    }
  }

  lemma NothingIsLinked<Doc>(d: Disk<Doc>)
    requires d == Disk(Absent, Absent, Absent)
    ensures Linked(d, [])
  {
  }

  /** One step of a run, from a disk linked to the run so far. */
  ghost predicate Continues<Doc>(run: seq<Event<Doc>>, before: Disk<Doc>, after: Disk<Doc>) {
    run != [] &&
      var e, past := run[|run| - 1], run[..|run| - 1];
      && Step(before, e, after) && Linked(before, past)
      && (e.Save? ==> past != [] && !past[|past| - 1].Stops())
  }

  lemma StepKeepsTheDocument<Doc>(run: seq<Event<Doc>>, before: Disk<Doc>, after: Disk<Doc>)
    requires Continues(run, before, after) && Bearable(before, run[..|run| - 1], run[|run| - 1])
    ensures Linked(after, run)
  {
  }

  // An unbearable step ends the guarantee at once.
  lemma UnbearableStep<Doc>(run: seq<Event<Doc>>, before: Disk<Doc>, after: Disk<Doc>)
    requires Continues(run, before, after) && !Bearable(before, run[..|run| - 1], run[|run| - 1])
    ensures !Explained(after.Recoverable(), run)
  {
  }

  // The guarantee holds at every moment of a run exactly when all its steps are bearable.
  lemma {:induction false} GuaranteeIsExact<Doc>(run: seq<Event<Doc>>, disks: seq<Disk<Doc>>)
    requires IsRun(run, disks)
    ensures (forall n :: 0 <= n <= |run| ==> Explained(disks[n].Recoverable(), run[..n])) <==> AllBearable(run, disks)
  {
    hide Step, Linked, Bearable, Explained;
    if AllBearable(run, disks) {
      forall n | 0 <= n <= |run|
        ensures Explained(disks[n].Recoverable(), run[..n])
      {
        ExplainedAt(run, disks, n);
      }
    } else {
      var n := FirstUnbearable(run, disks);
      BrokenAfter(run, disks, n);
    }
  }

  lemma ExplainedAt<Doc>(run: seq<Event<Doc>>, disks: seq<Disk<Doc>>, n: nat)
    requires IsRun(run, disks) && AllBearable(run, disks) && n <= |run|
    ensures Explained(disks[n].Recoverable(), run[..n])
  {
    hide Step, Bearable, Explained;
    PrefixIsRun(run, disks, n);
    RunKeepsTheDocument(run[..n], disks[..n + 1]);
  }

  lemma {:induction false} FirstUnbearable<Doc>(run: seq<Event<Doc>>, disks: seq<Disk<Doc>>) returns (n: nat)
    requires |disks| == |run| + 1 && !AllBearable(run, disks)
    ensures n < |run| && !Bearable(disks[n], run[..n], run[n]) && AllBearable(run[..n], disks[..n + 1])
  {
    hide Bearable;
    var last := |run| - 1;
    if AllBearable(run[..last], disks[..|run|]) {
      n := last;
      forall i | 0 <= i < last
        ensures Bearable(disks[i], run[..i], run[i])
      {
        assert Bearable(disks[..|run|][i], run[..last][..i], run[..last][i]);
        assert run[..last][..i] == run[..i];
      }
    } else {
      n := FirstUnbearable(run[..last], disks[..|run|]);
      assert run[..last][..n] == run[..n] && disks[..|run|][..n + 1] == disks[..n + 1];
    }
  }

  lemma BrokenAfter<Doc>(run: seq<Event<Doc>>, disks: seq<Disk<Doc>>, n: nat)
    requires IsRun(run, disks) && n < |run|
    requires !Bearable(disks[n], run[..n], run[n]) && AllBearable(run[..n], disks[..n + 1])
    ensures !Explained(disks[n + 1].Recoverable(), run[..n + 1])
  {
    hide Step, Bearable, Explained, Linked;
    PrefixIsRun(run, disks, n);
    RunKeepsTheDocument(run[..n], disks[..n + 1]);
    assert run[..n + 1][..n] == run[..n];
    assert n > 0 ==> run[..n][n - 1] == run[n - 1];
    UnbearableStep(run[..n + 1], disks[n], disks[n + 1]);
  }

  /** The file system never fails an operation that depends on it, and a process that is killed between
      a write and its fsync is killed by a power failure. */
  ghost predicate PowerFailuresOnly<Doc>(run: seq<Event<Doc>>, disks: seq<Disk<Doc>>)
    requires |disks| == |run| + 1
  {
    && (forall i :: 0 <= i < |run| && run[i].Save? ==> !run[i].saveFates.fsync.Fails? && !disks[i].Exposed())
    && (forall i :: 0 <= i < |run| && run[i].Read? && run[i].readOutcome.Returned? ==> Answers(disks[i], run[i].readFates))
    && (forall i :: 0 <= i < |run| - 1 && run[i].LeavesUnsynced() ==> run[i + 1].Loss?)
  }

  // Power failures alone are always bearable, wherever they strike and whatever they tear.
  lemma {:induction false} PowerFailuresAreBearable<Doc>(run: seq<Event<Doc>>, disks: seq<Disk<Doc>>)
    requires IsRun(run, disks) && PowerFailuresOnly(run, disks)
    ensures AllBearable(run, disks) && !AtRisk(run)
    ensures Pending(run) ==> run[|run| - 1].LeavesUnsynced()
  {
    hide Linked, Step, Bearable;
    if run != [] {
      var n := |run| - 1;
      PrefixIsRun(run, disks, n);
      PowerFailuresAreBearable(run[..n], disks[..|run|]);
      RunKeepsTheDocument(run[..n], disks[..|run|]);
      assert n > 0 && run[n - 1].LeavesUnsynced() ==> run[n - 1 + 1].Loss?;
      PowerFailureStep(run, disks[n], disks[|run|]);
      forall i | 0 <= i < |run|
        ensures Bearable(disks[i], run[..i], run[i])
      {
        assert i < n ==> Bearable(disks[..|run|][i], run[..n][..i], run[..n][i]) && run[..n][..i] == run[..i];
      }
    }
  }

  lemma PowerFailureStep<Doc>(run: seq<Event<Doc>>, before: Disk<Doc>, after: Disk<Doc>)
    requires Continues(run, before, after)
    requires var e, past := run[|run| - 1], run[..|run| - 1];
      && !AtRisk(past) && (Pending(past) ==> e.Loss?)
      && (e.Save? ==> !e.saveFates.fsync.Fails? && !before.Exposed())
      && (e.Read? && e.readOutcome.Returned? ==> Answers(before, e.readFates))
    ensures !AtRisk(run) && Bearable(before, run[..|run| - 1], run[|run| - 1])
    ensures Pending(run) ==> run[|run| - 1].LeavesUnsynced()
  {
  }

  // Every restart of every such run returns the committed document or the one in flight.
  lemma RestartReadsTheDocument<Doc>(run: seq<Event<Doc>>, disks: seq<Disk<Doc>>, i: nat)
    requires IsRun(run, disks) && AllBearable(run, disks) && i < |run| && run[i].Read? && run[i].readOutcome.Returned?
    ensures Explained(run[i].readOutcome.doc, run[..i])
  {
    hide SavePromise;
    PrefixIsRun(run, disks, i);
    RunKeepsTheDocument(run[..i], disks[..i + 1]);
    assert Bearable(disks[i], run[..i], run[i]);
  }

  /** d is the document of a save, not rolled back, at or after which no other save completed before
      the end of the run. */
  ghost predicate NotOlderThanLastSave<Doc>(d: Option<Doc>, run: seq<Event<Doc>>) {
    exists j :: 0 <= j < |run| && run[j].Save? && !run[j].saveOutcome.NotSaved? && d == Some(run[j].saved)
      && forall k :: j < k < |run| ==> !run[k].Completes()
  }

  // Once a save has completed, no restart returns nothing or an older document.
  lemma NeverOlderNeverNothing<Doc>(run: seq<Event<Doc>>, disks: seq<Disk<Doc>>, i: nat, done: nat)
    requires IsRun(run, disks) && AllBearable(run, disks) && done < i < |run| && run[done].Completes()
    requires run[i].Read? && run[i].readOutcome.Returned?
    ensures NotOlderThanLastSave(run[i].readOutcome.doc, run[..i])
  {
    hide Step, Bearable;
    RestartReadsTheDocument(run, disks, i);
    PrefixIsRun(run, disks, i);
    NewestDocuments(run[..i], disks[..i + 1], done);
  }

  lemma {:induction false} NewestDocuments<Doc>(run: seq<Event<Doc>>, disks: seq<Disk<Doc>>, done: nat)
    requires IsRun(run, disks) && AllBearable(run, disks) && done < |run| && run[done].Completes()
    ensures BothNew(run)
  {
    hide Step, Bearable, Committed, InFlight, NotOlderThanLastSave;
    var last := |run| - 1;
    PrefixIsRun(run, disks, last);
    if done < last {
      NewestDocuments(run[..last], disks[..|run|], done);
      if run[last].Read? && run[last].readOutcome.Returned? {
        RestartReadsTheDocument(run, disks, last);
      }
    }
    NewestAfter(run);
  }

  /** Both documents a restart may read are new enough. */
  ghost predicate BothNew<Doc>(run: seq<Event<Doc>>) {
    NotOlderThanLastSave(Committed(run), run) && (InFlight(run) != None ==> NotOlderThanLastSave(InFlight(run), run))
  }

  lemma NewestAfter<Doc>(run: seq<Event<Doc>>)
    requires run != []
    requires var e, past := run[|run| - 1], run[..|run| - 1];
      e.Completes() || (BothNew(past) && (e.Read? && e.readOutcome.Returned? ==> Explained(e.readOutcome.doc, past)))
    ensures BothNew(run)
  {
    var e, past := run[|run| - 1], run[..|run| - 1];
    assert run == past + [e];
    if !e.Completes() {
      hide NotOlderThanLastSave;
      NotOlderExtends(Committed(past), past, e);
      NotOlderExtends(InFlight(past), past, e);
    }
    if e.Save? && !e.saveOutcome.NotSaved? {
      SavedIsNew(run);
    }
  }

  lemma SavedIsNew<Doc>(run: seq<Event<Doc>>)
    requires run != [] && run[|run| - 1].Save? && !run[|run| - 1].saveOutcome.NotSaved?
    ensures NotOlderThanLastSave(Some(run[|run| - 1].saved), run)
  {
  }

  lemma NotOlderExtends<Doc>(d: Option<Doc>, run: seq<Event<Doc>>, e: Event<Doc>)
    requires !e.Completes()
    ensures NotOlderThanLastSave(d, run) ==> NotOlderThanLastSave(d, run + [e])
  {
    if NotOlderThanLastSave(d, run) {
      var j :| 0 <= j < |run| && run[j].Save? && !run[j].saveOutcome.NotSaved? && d == Some(run[j].saved)
        && forall k :: j < k < |run| ==> !run[k].Completes();
      assert (run + [e])[j] == run[j];
    }
  }

  // ----- the corrupt file is kept

  ghost predicate Quarantines<Doc>(before: Disk<Doc>, e: Event<Doc>) {
    match e
    case Save(_, fates, _) => SaveQuarantines(before, fates)
    case Read(fates, _) => ReadQuarantines(before, fates)
    case Loss(_) => false
  }

  ghost predicate HasQuarantined<Doc>(run: seq<Event<Doc>>, disks: seq<Disk<Doc>>)
    requires |disks| == |run| + 1
  {
    exists i :: 0 <= i < |run| && Quarantines(disks[i], run[i])
  }

  // In every run there is a broken file exactly if some read or rollback has moved a corrupt file
  // away, and it holds a corrupt file: neither a later operation nor a power failure removes it.
  lemma {:induction false} BrokenFileIsKept<Doc>(run: seq<Event<Doc>>, disks: seq<Disk<Doc>>)
    requires IsRun(run, disks)
    ensures disks[|run|].broken == if HasQuarantined(run, disks) then Torn else Absent
  {
    hide AfterSave, AfterRead;
    if run != [] {
      var n := |run| - 1;
      PrefixIsRun(run, disks, n);
      BrokenFileIsKept(run[..n], disks[..|run|]);
      assert HasQuarantined(run[..n], disks[..|run|]) ==> HasQuarantined(run, disks) by {
        if i :| 0 <= i < n && Quarantines(disks[..|run|][i], run[..n][i]) {
          assert Quarantines(disks[i], run[i]);
        }
      }
      assert Quarantines(disks[n], run[n]) ==> HasQuarantined(run, disks);
      if i :| 0 <= i < |run| && Quarantines(disks[i], run[i]) && i != n {
        assert Quarantines(disks[..|run|][i], run[..n][i]);
      }
    }
  }

  // ----- where the guarantee stops

  // A save that fails rolls back to what was recoverable exactly when the disk was not exposed
  // (or the first rename did not happen): hence the first fault that is not bearable.
  lemma RollbackLosesOnlyExposedBackup<Doc>(before: Disk<Doc>, fates: SaveFates)
    ensures RollbackTarget(before, fates).Read() == before.Recoverable() <==> !(before.Exposed() && fates.backup.TakesEffect())
  {
  }

  // A completed save outlives a power failure exactly when its fsync worked, the failure did not
  // tear the file, or a backup that could not be removed is left with the same document.
  lemma CompletedSaveIsDurable<Doc>(before: Disk<Doc>, doc: Doc, fates: SaveFates, after: Disk<Doc>, tears: Tears)
    requires SavePromise(before, doc, fates, Saved, after)
    ensures after.AfterPowerFailure(tears).Recoverable() == Some(doc) <==>
      !fates.fsync.Fails? || !tears.main || after.bak.AfterPowerFailure(tears.bak) == Synced(doc)
  {
  }

  const ALL_WORK := SaveFates(Works, Works, Works, Works, Works, Works, Works)
  const READS := ReadFates(false, Works, Works)

  /** Two restarts around a completed save and one killed before its fsync, a save killed after its
      open, a power failure, and a last restart. */
  function KilledRun<Doc>(d0: Doc, d1: Doc, d2: Doc): seq<Event<Doc>> {
    [Read(READS, Returned(None)), Save(d0, ALL_WORK, Saved), Save(d1, ALL_WORK.(fsync := KillBefore), SaveKilled(Written)),
     Read(READS, Returned(Some(d1))), Save(d2, ALL_WORK.(open := KillAfter), SaveKilled(Unwritten)),
     Loss(Tears(true, true, true)), Read(READS, Returned(None))]
  }

  function KilledDisks<Doc>(d0: Doc, d1: Doc): seq<Disk<Doc>> {
    var none, saved := Disk(Absent, Absent, Absent), Disk(Synced(d0), Absent, Absent);
    var killed, again := Disk(Cached(d1), Synced(d0), Absent), Disk(Torn, Cached(d1), Absent);
    [none, none, saved, killed, killed, again, Disk(Torn, Torn, Absent), Disk(Absent, Absent, Torn)]
  }

  lemma KilledRunIsRun<Doc>(d0: Doc, d1: Doc, d2: Doc)
    ensures IsRun(KilledRun(d0, d1, d2), KilledDisks(d0, d1))
  {
  }

  // A process killed between the write and the fsync leaves a document the next process reads, and
  // the save after that renames it over the only synced backup. A power failure then leaves nothing,
  // although a save had completed and no file step ever failed.
  lemma KilledBeforeFsync<Doc>(d0: Doc, d1: Doc, d2: Doc)
    ensures var run, disks := KilledRun(d0, d1, d2), KilledDisks(d0, d1);
      && IsRun(run, disks) && run[1].Completes()
      && run[6] == Read(READS, Returned(None)) && disks[6].Recoverable() == None
      && AllBearable(run[..5], disks[..6]) && !Bearable(disks[5], run[..5], run[5])
  {
    KilledRunIsRun(d0, d1, d2);
    var run, disks := KilledRun(d0, d1, d2), KilledDisks(d0, d1);
    assert run[..5][..4] == run[..4] && run[..4][..3] == run[..3] && run[..3][..2] == run[..2];
    assert Pending(run[..3]);
    assert AtRisk(run[..4]);
  }
}
