// The save protocol of saveJsonDocumentToFile (src/JsonSettingsIO.cpp) and the boot-time recovery
// of the stores that use it (src/ReadingStatsStore.cpp, src/AchievementsStore.cpp), as steps on
// the two files involved. A power loss may strike after any step.
module SaveProtocol {
  import opened Wrappers

  // A torn file is one that does not hold a complete document: a write that was cut short.
  datatype File<+D> = Absent | Whole(doc: D) | Torn

  datatype Disk<+D> = Disk(main: File<D>, temp: File<D>)

  // serializeJson wrote everything, only part, or nothing.
  datatype WriteOutcome = Complete | Short | Empty

  datatype Faults = Faults(openFails: bool, write: WriteOutcome, removeFails: bool, renameFails: bool)

  const MAX_PATH_LENGTH := 191

  predicate PathUsable(path: Option<string>) {
    path.Some? && 0 < |path.value| <= MAX_PATH_LENGTH
  }

  // The buffer for the name of the temp file.
  const TEMP_PATH_SIZE := 196

  // A path is usable exactly if it is not empty and leaves room in that buffer for .tmp and a NUL.
  lemma PathUsableExact(path: string)
    ensures !PathUsable(None)
    ensures PathUsable(Some(path)) <==> path != "" && |path + ".tmp"| + 1 <= TEMP_PATH_SIZE
  {
  }

  // ----- the steps of one save -----

  // The disk after each storage operation of a save, the first one not included.
  function SaveSteps<D>(d: Disk<D>, doc: D, f: Faults): seq<Disk<D>> {
    var cleared := Disk(d.main, Absent);
    (if d.temp != Absent then [cleared] else []) + if f.openFails then [] else [Disk(d.main, Torn)] + AfterWrite(d.main, doc, f)
  }

  // The steps once the temp file has been opened.
  function AfterWrite<D>(main: File<D>, doc: D, f: Faults): seq<Disk<D>> {
    if f.write == Empty then [Disk(main, Absent)]
    else
      var written := if f.write == Complete then Whole(doc) else Torn;
      [Disk(main, written)]
      + if main != Absent && f.removeFails then [Disk(main, Absent)]
        else (if main != Absent then [Disk(Absent, written)] else [])
             + if f.renameFails then [Disk(Absent, Absent)] else [Disk(written, Absent)]
  }

  // What the save returns.
  predicate SaveReturns<D>(d: Disk<D>, f: Faults) {
    !f.openFails && f.write != Empty && !(d.main != Absent && f.removeFails) && !f.renameFails
  }

  // All disks seen during the save, the one before it included; the last one is what it leaves.
  function SaveTrace<D>(d: Disk<D>, doc: D, f: Faults): (t: seq<Disk<D>>)
    ensures |t| > 0 && t[0] == d
  {
    [d] + SaveSteps(d, doc, f)
  }

  function Last<D>(t: seq<Disk<D>>): Disk<D>
    requires |t| > 0
  {
    t[|t| - 1]
  }

  // Recovery at boot, before a store reads its file.
  function Recovered<D>(d: Disk<D>): Disk<D> {
    if d.main == Absent && d.temp != Absent then Disk(d.temp, Absent) else d
  }

  class Storage<D(==)> {
    var disk: Disk<D>
    ghost var trace: seq<Disk<D>>

    constructor (disk: Disk<D>)
      ensures this.disk == disk && trace == [disk]
    {
      this.disk := disk;
      trace := [disk];
    }

    // saveJsonDocumentToFile. The trace records the disk after every operation.
    method SaveJsonDocument(path: Option<string>, doc: D, f: Faults) returns (ok: bool)
      modifies this
      ensures !PathUsable(path) ==> !ok && disk == old(disk) && trace == old(trace)
      ensures PathUsable(path) ==>
                && ok == SaveReturns(old(disk), f)
                && trace == old(trace) + SaveSteps(old(disk), doc, f)
                && disk == Last(SaveTrace(old(disk), doc, f))
    {
      if path.None? || path.value == "" { return false; }
      if |path.value| > MAX_PATH_LENGTH { return false; }
      if disk.temp != Absent {
        disk := disk.(temp := Absent);
        trace := trace + [disk];
      }
      if f.openFails { return false; }
      disk := disk.(temp := Torn);
      trace := trace + [disk];
      ghost var afterOpen := trace;
      ok := WriteAndReplace(doc, f);
      assert trace == afterOpen + AfterWrite(old(disk).main, doc, f);
    }

    method WriteAndReplace(doc: D, f: Faults) returns (ok: bool)
      requires disk.temp == Torn
      modifies this
      ensures ok == (f.write != Empty && !(old(disk).main != Absent && f.removeFails) && !f.renameFails)
      ensures trace == old(trace) + AfterWrite(old(disk).main, doc, f)
      ensures disk == Last(AfterWrite(old(disk).main, doc, f))
    {
      if f.write == Empty {
        disk := disk.(temp := Absent);
        trace := trace + [disk];
        return false;
      }
      disk := disk.(temp := if f.write == Complete then Whole(doc) else Torn);
      trace := trace + [disk];
      if disk.main != Absent {
        if f.removeFails {
          disk := disk.(temp := Absent);
          trace := trace + [disk];
          return false;
        }
        disk := disk.(main := Absent);
        trace := trace + [disk];
      }
      if f.renameFails {
        disk := disk.(temp := Absent);
        trace := trace + [disk];
        return false;
      }
      disk := Disk(disk.temp, Absent);
      trace := trace + [disk];
      return true;
    }

    // The first lines of loadFromFile: a temporary file without a main file takes its place, unless
    // the rename fails.
    method Recover(renameFails: bool)
      modifies this
      ensures disk == if renameFails then old(disk) else Recovered(old(disk))
    {
      if disk.main == Absent && disk.temp != Absent {
        if !renameFails {
          disk := Disk(disk.temp, Absent);
          trace := trace + [disk];
        }
      }
    }
  }

  // ----- one save -----

  // The save reaches the point of no return with a bad temp file, or cannot complete it.
  predicate Loses(f: Faults) {
    !f.openFails && f.write != Empty && !f.removeFails && (f.write == Short || f.renameFails)
  }

  // Whatever the moment of a power loss, recovery finds the old document or the new one, and it
  // never goes back from the new one to the old.
  lemma SaveIsAtomic<D>(d: Disk<D>, doc: D, f: Faults, k: nat)
    requires d.main.Whole? && !Loses(f) && k < |SaveTrace(d, doc, f)|
    ensures var t := SaveTrace(d, doc, f);
            && (Recovered(t[k]).main == d.main || Recovered(t[k]).main == Whole(doc))
            && (Recovered(t[k]).main != d.main ==> forall j :: k <= j < |t| ==> Recovered(t[j]).main == Whole(doc))
  {
  }

  // A save that returned true has committed the new document, one that returned false has changed nothing.
  lemma SaveCommits<D>(d: Disk<D>, doc: D, f: Faults)
    requires d.main.Whole? && !Loses(f)
    ensures Last(SaveTrace(d, doc, f)).main == if SaveReturns(d, f) then Whole(doc) else d.main
  {
  }

  // From any disk that still holds a document, the document or its successor survives every step of a
  // save if and only if recovery has put it in the main file and the faults are not of the losing kind.
  lemma LossIsExact<D>(d: Disk<D>, doc: D, f: Faults)
    requires Recovered(d).main.Whole?
    ensures (forall k :: 0 <= k < |SaveTrace(d, doc, f)| ==> Recovered(SaveTrace(d, doc, f)[k]).main.Whole?)
       <==> d.main.Whole? && !Loses(f)
  {
    var t := SaveTrace(d, doc, f);
    if !d.main.Whole? {
      UnrecoveredCopyIsDeleted(d, doc, f);
      assert !Recovered(t[1]).main.Whole?;
    } else if Loses(f) {
      var last := |t| - 1;
      assert !Recovered(t[last]).main.Whole?;
    }
  }

  // The first thing a save does is to delete what recovery would have used.
  lemma UnrecoveredCopyIsDeleted<D>(d: Disk<D>, doc: D, f: Faults)
    requires d.main == Absent && d.temp != Absent
    ensures |SaveTrace(d, doc, f)| > 1 && SaveTrace(d, doc, f)[1] == Disk(Absent, Absent)
  {
  }

  // A rename that fails after the old file is gone leaves nothing at all, although the save reports it.
  lemma FailedRenameLosesEverything<D>(old_: D, doc: D)
    ensures var f := Faults(false, Complete, false, true);
            var d := Disk(Whole(old_), Absent);
            !SaveReturns(d, f) && Last(SaveTrace(d, doc, f)) == Disk(Absent, Absent)
  {
  }

  // ----- runs -----

  datatype Event<+D> = Save(doc: D, faults: Faults) | CrashedSave(doc: D, faults: Faults, at: nat) | Reboot

  // A power loss is followed by a boot, which recovers before anything is saved again.
  function Exec<D>(d: Disk<D>, e: Event<D>): Disk<D> {
    match e
    case Save(doc, f) => Last(SaveTrace(d, doc, f))
    case CrashedSave(doc, f, at) =>
      var t := SaveTrace(d, doc, f);
      Recovered(if at < |t| then t[at] else Last(t))
    case Reboot => Recovered(d)
  }

  // A power loss may come after any step of a save; whatever the disk then holds, booting makes a temporary
  // file without a main file the main file.
  lemma PowerLossAnywhere<D>(d: Disk<D>, doc: D, f: Faults, at: nat)
    requires at < |SaveTrace(d, doc, f)|
    ensures Exec(d, CrashedSave(doc, f, at)) == Exec(SaveTrace(d, doc, f)[at], Reboot)
    ensures d.main == Absent ==> Exec(d, Reboot) == Disk(d.temp, Absent)
    ensures d.main != Absent ==> Exec(d, Reboot) == d
  {
  }

  // The disks of a run, the initial one included.
  function Disks<D>(d: Disk<D>, events: seq<Event<D>>): (r: seq<Disk<D>>)
    ensures |r| == |events| + 1 && r[0] == d
    decreases |events|
  {
    if events == [] then [d] else [d] + Disks(Exec(d, events[0]), events[1..])
  }

  predicate Sound<D>(e: Event<D>) {
    e.Reboot? || !Loses(e.faults)
  }

  // What an event may do to the document: a save commits when it says so, an interrupted one may have.
  predicate Outcome<D(==)>(before: D, e: Event<D>, after: D, returned: bool) {
    match e
    case Save(doc, _) => after == if returned then doc else before
    case CrashedSave(doc, _, _) => after == before || after == doc
    case Reboot => after == before
  }

  lemma ExecKeepsDocument<D>(d: Disk<D>, e: Event<D>)
    requires d.main.Whole? && Sound(e)
    ensures Exec(d, e).main.Whole?
    ensures Outcome(d.main.doc, e, Exec(d, e).main.doc, !e.Reboot? && SaveReturns(d, e.faults))
  {
    match e {
      case Save(doc, f) =>
        SaveCommits(d, doc, f);
      case CrashedSave(doc, f, at) =>
        var t := SaveTrace(d, doc, f);
        SaveIsAtomic(d, doc, f, if at < |t| then at else |t| - 1);
      case Reboot =>
    }
  }

  // Over any sequence of saves, power losses inside them and reboots, the file always holds a whole
  // document, and it changes only as the events say.
  lemma {:induction false} RunKeepsDocument<D>(d: Disk<D>, events: seq<Event<D>>, i: nat)
    requires d.main.Whole? && (forall k :: 0 <= k < |events| ==> Sound(events[k])) && i < |events|
    ensures var r := Disks(d, events);
            && r[i].main.Whole? && r[i + 1].main.Whole?
            && Outcome(r[i].main.doc, events[i], r[i + 1].main.doc,
                       !events[i].Reboot? && SaveReturns(r[i], events[i].faults))
    decreases |events|
  {
    ExecKeepsDocument(d, events[0]);
    if i > 0 {
      RunKeepsDocument(Exec(d, events[0]), events[1..], i - 1);
    }
  }

  // Durability: once a save has returned true, its document is there until another save is started.
  lemma {:induction false} RunIsDurable<D>(d: Disk<D>, events: seq<Event<D>>, i: nat, j: nat)
    requires d.main.Whole? && (forall k :: 0 <= k < |events| ==> Sound(events[k]))
    requires i < j <= |events| && events[i].Save? && SaveReturns(Disks(d, events)[i], events[i].faults)
    requires forall k :: i < k < j ==> events[k].Reboot?
    ensures Disks(d, events)[j].main == Whole(events[i].doc)
    decreases j
  {
    RunKeepsDocument(d, events, j - 1);
    if j > i + 1 {
      RunIsDurable(d, events, i, j - 1);
    }
  }

  // Recovery before the next save is essential: an interruption can leave the document in the temp file
  // alone, and whatever its faults, any save that starts there deletes it first.
  lemma WithoutRecoveryDocumentsAreLost<D>(old_: D, first: D, second: D, f: Faults)
    ensures var fine := Faults(false, Complete, false, false);
            var interrupted := SaveTrace(Disk(Whole(old_), Absent), first, fine)[3];
            && Recovered(interrupted).main == Whole(first)
            && SaveTrace(interrupted, second, f)[1] == Disk(Absent, Absent)
            && (second != first ==> Last(SaveTrace(interrupted, second, f)).main != Whole(first))
  {
    var fine := Faults(false, Complete, false, false);
    var interrupted := SaveTrace(Disk(Whole(old_), Absent), first, fine)[3];
    assert interrupted == Disk(Absent, Whole(first));
    UnrecoveredCopyIsDeleted(interrupted, second, f);
  }

  // Recovery finds an incomplete main file during a save if and only if it finds one before it, or the
  // temp file is opened while there is no main file to fall back on, or a file cut short takes the
  // place of the main one.
  lemma TornAdoptedExactly<D>(d: Disk<D>, doc: D, f: Faults)
    ensures (exists k :: 0 <= k < |SaveTrace(d, doc, f)| && Recovered(SaveTrace(d, doc, f)[k]).main == Torn)
       <==> Recovered(d).main == Torn
            || (!f.openFails && (d.main == Absent || (f.write == Short && !f.removeFails)))
  {
    var t := SaveTrace(d, doc, f);
    var cleared := if d.temp != Absent then 1 else 0;
    if Recovered(d).main == Torn {
      assert Recovered(t[0]).main == Torn;
    } else if !f.openFails && d.main == Absent {
      assert Recovered(t[cleared + 1]).main == Torn;
    } else if !f.openFails && f.write == Short && !f.removeFails {
      assert Recovered(t[cleared + 3]).main == Torn;
    }
  }

  lemma InterruptedFirstSaveIsAdoptedTorn<D>(doc: D)
    ensures var fine := Faults(false, Complete, false, false);
            Recovered(SaveTrace(Disk(Absent, Absent), doc, fine)[1]) == Disk(Torn, Absent)
  {
  }

  // A write that is cut short counts as a success: the save replaces a good file and returns true.
  lemma ShortWriteReplacesGoodFile<D>(old_: D, doc: D)
    ensures var f := Faults(false, Short, false, false);
            var d := Disk(Whole(old_), Absent);
            SaveReturns(d, f) && Last(SaveTrace(d, doc, f)) == Disk(Torn, Absent)
  {
  }
}
