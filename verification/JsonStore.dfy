/** Replacing a JSON file through a temporary file and a backup, src-tauri/src/utils/json_store.rs.
    This is what makes one persist of the credential store atomic. */
module JsonStore {

  /** A path with nothing there, with a file that does not parse, or with a readable value. */
  datatype File<+T> = NoFile | Damaged | Holds(value: T)

  datatype Loaded<+T> = Found(value: T) | Nothing | Unreadable

  datatype Disk<+T> = Disk(primary: File<T>, backup: File<T>)

  function LoadJson<T>(disk: Disk<T>): Loaded<T> {
    match disk.primary
    case Holds(value) => Found(value)
    case Damaged =>
      (match disk.backup
       case Holds(value) => Found(value)
       case _ => Unreadable)
    case NoFile =>
      (match disk.backup
       case Holds(value) => Found(value)
       case Damaged => Unreadable
       case NoFile => Nothing)
  }

  /** What is on disk after each step of a write that meets no error. */
  function Steps<T>(disk: Disk<T>, value: T): seq<Disk<T>> {
    if disk.primary.NoFile? then
      [disk, Disk(Holds(value), disk.backup)]
    else
      (if disk.backup.NoFile? then [disk] else [disk, Disk(disk.primary, NoFile)])
      + [Disk(NoFile, disk.primary), Disk(Holds(value), disk.primary)]
  }

  lemma BeforeTheLast<T>(disk: Disk<T>, value: T)
    ensures var begun := Steps(disk, value)[..|Steps(disk, value)| - 1];
            && disk in begun
            && (!disk.primary.NoFile? ==> Disk(disk.primary, NoFile) in begun && Disk(NoFile, disk.primary) in begun)
  {
    var begun := Steps(disk, value)[..|Steps(disk, value)| - 1];
    assert begun[0] == disk;
    if !disk.primary.NoFile? {
      assert begun[|begun| - 1] == Disk(NoFile, disk.primary);
      if !disk.backup.NoFile? {
        assert begun[1] == Disk(disk.primary, NoFile);
      } else {
        assert disk == Disk(disk.primary, NoFile);
      }
    }
  }

  /** The one state in which a write puts data at risk: the last load came from the backup,
      because the primary file is damaged, and the write starts by deleting that backup. */
  predicate RecoveredFromBackup<T>(disk: Disk<T>) {
    disk.primary.Damaged? && disk.backup.Holds?
  }

  /** A crash between any two steps leaves the old or the new contents readable, exactly when
      the old contents were not just recovered from the backup. */
  lemma CrashLeavesOldOrNew<T>(disk: Disk<T>, value: T)
    ensures (forall i :: 0 <= i < |Steps(disk, value)| ==>
               LoadJson(Steps(disk, value)[i]) == LoadJson(disk) || LoadJson(Steps(disk, value)[i]) == Found(value))
            <==> !RecoveredFromBackup(disk)
    ensures LoadJson(Steps(disk, value)[|Steps(disk, value)| - 1]) == Found(value)
  {
    var steps := Steps(disk, value);
    if RecoveredFromBackup(disk) {
      assert steps[1] == Disk(Damaged, NoFile);
      assert LoadJson(steps[1]) == Unreadable;
    } else {
      assert forall i :: 0 <= i < |steps| ==> steps[i] in steps;
    }
  }

  lemma DamagedPrimaryLosesBackup()
    ensures var disk := Disk(Damaged, Holds(1));
            LoadJson(disk) == Found(1) && LoadJson(Steps(disk, 2)[1]) == Unreadable
  {
  }

  class Directory<T> {
    var disk: Disk<T>
    var temporary: File<T>
    ghost var history: seq<Disk<T>>
    /** How many calls failed. */
    ghost var faults: nat

    constructor (disk: Disk<T>)
      ensures this.disk == disk && temporary == NoFile && history == [disk] && faults == 0
    {
      this.disk, temporary, history, faults := disk, NoFile, [disk], 0;
    }

    /** One rename or removal, which may fail and then has no effect. */
    method Change(next: Disk<T>) returns (ok: bool)
      modifies `disk, `history, `faults
      ensures ok ==> disk == next && history == old(history) + [next] && faults == old(faults)
      ensures !ok ==> disk == old(disk) && history == old(history) && faults == old(faults) + 1
    {
      ok := *;
      if ok {
        disk := next;
        history := history + [disk];
      } else {
        faults := faults + 1;
      }
    }

    /** Writes a value. Whatever fails, and wherever a crash cuts the write, the old or the new
        value is there, unless the old one had just been recovered from the backup. */
    method WriteJson(value: T) returns (ok: bool)
      modifies this
      ensures ok ==> LoadJson(disk) == Found(value) && history == old(history) + Steps(old(disk), value)[1..]
      ensures !ok ==> disk in Steps(old(disk), value)[..|Steps(old(disk), value)| - 1]
      ensures ok <==> faults == old(faults)
      ensures faults <= old(faults) + 1 ==> disk.primary == if ok then Holds(value) else old(disk.primary)
      ensures temporary != NoFile ==> temporary == old(temporary) || (!ok && disk == old(disk) && old(disk.backup) != NoFile)
      ensures !old(RecoveredFromBackup(disk)) ==>
                && (!ok ==> LoadJson(disk) == old(LoadJson(disk)))
                && |history| >= |old(history)|
                && forall i :: |old(history)| <= i < |history| ==>
                     LoadJson(history[i]) == old(LoadJson(disk)) || LoadJson(history[i]) == Found(value)
    {
      BeforeTheLast(disk, value);
      var created: bool := *;
      if !created {
        faults := faults + 1;
        return false;
      }
      temporary := Damaged;
      var written: bool := *;
      if !written {
        faults := faults + 1;
        temporary := NoFile;
        return false;
      }
      temporary := Holds(value);
      var hadPrimary := !disk.primary.NoFile?;
      if hadPrimary {
        if !disk.backup.NoFile? {
          ok := Change(Disk(disk.primary, NoFile));
          if !ok {
            return;
          }
        }
        ok := Change(Disk(NoFile, disk.primary));
        if !ok {
          temporary := NoFile;
          return;
        }
      }
      ok := Change(Disk(temporary, disk.backup));
      if !ok {
        if hadPrimary {
          var _ := Change(Disk(disk.backup, NoFile));
        }
        temporary := NoFile;
        return;
      }
      temporary := NoFile;
    }
  }
}
