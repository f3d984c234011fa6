/** What fix_notebook in tools/fix_notebook.py does after the repair pass
    (back up, write, restore on failure) and the whole of fix_notebook,
    over abstract results of loading the file and of each file operation. */
module FileStage {
  import opened Json
  import opened Notebook
  import opened Repair

  newtype byte = x: int | 0 <= x < 256

  /** The contents of a file. */
  type Bytes = seq<byte>

  /** How a copy of a whole file went. */
  datatype StepResult = Ok | Failed

  /** How writing the repaired notebook went. A failed write can leave
      anything behind: the file was opened for writing, which empties it,
      and then written only in part. */
  datatype WriteResult = Written | Interrupted(leftBehind: Bytes)

  /** What the file system answers to the backup copy, the write and the
      restore copy, each as far as it is attempted. */
  datatype FileResults = FileResults(backup: StepResult, write: WriteResult, restore: StepResult)

  /** How reading the file went: missing, not JSON, another read error, or
      its bytes and the document parsed from them. */
  datatype LoadResult =
    | NotFound
    | BadJson
    | ReadError
    | Loaded(original: Bytes, doc: Json)

  /** The messages fix_notebook prints, without their wording. */
  datatype Event =
    | FileNotFound
    | InvalidJson
    | ReadFailed
    | Removing(at: Location)
    | BackupCreated
    | BackupFailed
    | Fixed
    | WriteFailed
    | Restored
    | RestoreFailed
    | NothingToFix

  /** The notebook file and the backup file, if one was written. */
  datatype Disk = Disk(notebook: Bytes, backup: Option<Bytes>)

  /** One "Removing malformed widgets metadata" message per location. */
  function RemovalEvents(locs: seq<Location>): (es: seq<Event>)
    ensures |es| == |locs|
    ensures forall k :: 0 <= k < |locs| ==> es[k] == Removing(locs[k])
  {
    if locs == [] then [] else [Removing(locs[0])] + RemovalEvents(locs[1..])
  }

  /** The file stage: with no change, report that and touch nothing; with a
      change, copy the original to the backup, and only when that worked
      write the repaired text; when the write breaks off, copy the backup
      back. The result is true when nothing had to change or when the
      backup and the write both worked. The file is never written without
      a backup of the original beside it, and a failed run leaves the
      original in place unless the restore failed too. */
  method FinishFix(changesMade: bool, original: Bytes, fixed: Bytes, io: FileResults)
    returns (success: bool, disk: Disk, events: seq<Event>)
    ensures success <==> !changesMade || (io.backup == Ok && io.write == Written)
    ensures !changesMade ==> disk == Disk(original, None) && events == [NothingToFix]
    ensures changesMade && io.backup == Failed ==> disk == Disk(original, None) && events == [BackupFailed]
    ensures changesMade && io.backup == Ok ==> disk.backup == Some(original) && events != [] && events[0] == BackupCreated
    ensures disk.backup == None ==> disk.notebook == original
    ensures success ==> disk.notebook == if changesMade then fixed else original
    ensures !success ==> disk.notebook == original || (io.write.Interrupted? && io.restore == Failed && disk.notebook == io.write.leftBehind)
    ensures changesMade && io.backup == Ok && io.write == Written ==> events == [BackupCreated, Fixed]
    ensures changesMade && io.backup == Ok && io.write.Interrupted? ==>
      && disk.notebook == (if io.restore == Ok then original else io.write.leftBehind)
      && events == [BackupCreated, WriteFailed, if io.restore == Ok then Restored else RestoreFailed]
  {
    disk := Disk(original, None);
    if changesMade {
      if io.backup == Failed {
        return false, disk, [BackupFailed];
      }
      disk := disk.(backup := Some(original));
      events := [BackupCreated];
      match io.write
      case Written =>
        disk := disk.(notebook := fixed);
        return true, disk, events + [Fixed];
      case Interrupted(leftBehind) =>
        disk := disk.(notebook := leftBehind);
        events := events + [WriteFailed];
        if io.restore == Ok {
          disk := disk.(notebook := disk.backup.value);
          events := events + [Restored];
        } else {
          events := events + [RestoreFailed];
        }
        return false, disk, events;
    } else {
      return true, disk, [NothingToFix];
    }
  }

  /** fix_notebook: load, repair, then the file stage. `serialize` stands
      for json.dump with the source's formatting. `disk` is None when the
      file could not be loaded, in which case nothing is written. The
      messages are the removal notices of the repair pass followed by
      those of the file stage. */
  method FixNotebook(load: LoadResult, serialize: Json -> Bytes, io: FileResults)
    returns (success: bool, disk: Option<Disk>, events: seq<Event>)
    requires load.Loaded? ==> WellShaped(load.doc)
    ensures load == NotFound ==> !success && disk == None && events == [FileNotFound]
    ensures load == BadJson ==> !success && disk == None && events == [InvalidJson]
    ensures load == ReadError ==> !success && disk == None && events == [ReadFailed]
    ensures load.Loaded? ==>
      && disk.Some?
      && (success <==> !AnyMalformed(load.doc) || (io.backup == Ok && io.write == Written))
      && |Notices(load.doc)| < |events|
      && events[..|Notices(load.doc)|] == RemovalEvents(Notices(load.doc))
    ensures load.Loaded? && !AnyMalformed(load.doc) ==>
      success && disk == Some(Disk(load.original, None)) && events == [NothingToFix]
    ensures load.Loaded? && AnyMalformed(load.doc) && success ==>
      disk == Some(Disk(serialize(Repaired(load.doc)), Some(load.original)))
    ensures load.Loaded? && AnyMalformed(load.doc) && io.backup == Failed ==>
      && disk == Some(Disk(load.original, None))
      && events == RemovalEvents(Notices(load.doc)) + [BackupFailed]
    ensures load.Loaded? && AnyMalformed(load.doc) && io.backup == Ok ==>
      disk.Some? && disk.value.backup == Some(load.original)
    ensures load.Loaded? && AnyMalformed(load.doc) && io.backup == Ok && io.write == Written ==>
      events == RemovalEvents(Notices(load.doc)) + [BackupCreated, Fixed]
    ensures load.Loaded? && AnyMalformed(load.doc) && io.backup == Ok && io.write.Interrupted? ==>
      && disk.Some?
      && disk.value.notebook == (if io.restore == Ok then load.original else io.write.leftBehind)
      && events == RemovalEvents(Notices(load.doc)) +
           [BackupCreated, WriteFailed, if io.restore == Ok then Restored else RestoreFailed]
    ensures load.Loaded? && !success ==>
      disk.value.notebook == load.original ||
      (io.write.Interrupted? && io.restore == Failed && disk.value.notebook == io.write.leftBehind)
  {
    match load
    case NotFound =>
      return false, None, [FileNotFound];
    case BadJson =>
      return false, None, [InvalidJson];
    case ReadError =>
      return false, None, [ReadFailed];
    case Loaded(original, doc) =>
      var repaired, changesMade, removed := RepairPass(doc);
      var finalDisk, stageEvents;
      success, finalDisk, stageEvents := FinishFix(changesMade, original, serialize(repaired), io);
      disk := Some(finalDisk);
      events := RemovalEvents(removed) + stageEvents;
      assert events[..|removed|] == RemovalEvents(removed);
  }
}
