/**
  The pass as the program runs it: two loops that change the replica
  folder in place, append to the log file, and set a change flag.

  The file system is an object holding the source folder, the replica
  folder and the log file's lines; the three operations the pass asks of
  it (copy a file, remove an entry, append a line) are its methods. The
  order in which the operating system lists each folder is an input to the
  pass. `SyncPass` is proved to leave exactly the state `SyncSpec.Pass`
  describes, which pass_properties.dfy then characterises.
 */
module Mirror {
  import opened LogFormat
  import opened Folders
  import opened SyncSpec
  import opened CopyPhaseFacts
  import opened DeletePhaseFacts

  /** How a pass ends: normally, reporting whether anything was created,
      copied or removed; or with the exception raised by removing `name`
      (a directory, or an entry that is gone), which ends the program. */
  datatype Outcome = Completed(fileChanges: bool) | Crashed(name: string)

  class FileSystem {
    var source: Folder
    var replica: Folder
    var log: seq<string>

    constructor (source: Folder, replica: Folder, log: seq<string>)
      ensures this.source == source && this.replica == replica && this.log == log
    {
      this.source := source;
      this.replica := replica;
      this.log := log;
    }

    /** Copies a source file onto its replica name: the bytes travel, the
        modification time becomes the time of the write. */
    method Copy(name: string, now: int)
      requires IsFile(source, name)
      requires name in replica ==> replica[name].File?
      modifies this
      ensures source == old(source) && log == old(log)
      ensures replica == old(replica)[name := CopyOf(source, name, now)]
    {
      replica := replica[name := File(now, source[name].content)];
    }

    /** Removes a replica entry. Only a regular file can be removed; for a
        directory or a missing name the removal raises, reported as `ok`
        false with nothing changed. */
    method Remove(name: string) returns (ok: bool)
      modifies this
      ensures ok == IsFile(old(replica), name)
      ensures replica == if ok then old(replica) - {name} else old(replica)
      ensures source == old(source) && log == old(log)
    {
      ok := name in replica && replica[name].File?;
      if ok {
        replica := replica - {name};
      }
    }

    /** Appends one line to the log file. */
    method Append(line: string)
      modifies this
      ensures log == old(log) + [line]
      ensures source == old(source) && replica == old(replica)
    {
      log := log + [line];
    }

    /** One synchronisation pass. `now` is the modification time the file
        system gives the copies it writes during the pass; the listings are
        the orders in which the two folders are enumerated, the replica's
        being taken after the create/update loop. The log file is a field
        of its own, so it lies outside both folders: appending to it never
        adds an entry to the replica. */
    method SyncPass(c: Config, now: int, sourceListing: seq<string>, replicaListing: seq<string>)
      returns (outcome: Outcome)
      requires PassInputs(source, sourceListing, replicaListing, replica)
      modifies this
      ensures source == old(source)
      ensures var r := Pass(c, now, old(source), sourceListing, replicaListing, old(replica), old(log));
              && replica == r.st.replica
              && log == r.st.log
              && outcome == if r.Done? then Completed(r.st.changed) else Crashed(r.at)
    {
      var fileChanges := false;
      ghost var start := PassState(replica, log, false);

      // Create, copy or leave alone each regular file of the source.
      for i := 0 to |sourceListing|
        invariant source == old(source)
        invariant NoFileOverDirectory(source, replica)
        invariant PassState(replica, log, fileChanges) == CopyPhase(c, now, source, sourceListing[..i], start)
      {
        var name := sourceListing[i];
        CopyPhaseSnoc(c, now, source, sourceListing, i, start);
        if IsFile(source, name) {
          var operation;
          if name !in replica {
            CopyKeepsFilesOverFiles(source, replica, name, now);
            Copy(name, now);
            operation := Created;
            fileChanges := true;
          } else if source[name].mtime != replica[name].mtime {
            CopyKeepsFilesOverFiles(source, replica, name, now);
            Copy(name, now);
            operation := Copied;
            fileChanges := true;
          } else {
            operation := Unchanged;
          }
          Append(SourceLine(c, name, operation));
        }
      }
      assert sourceListing[..|sourceListing|] == sourceListing;

      // Remove each replica entry whose name does not exist in the source.
      ghost var copied := PassState(replica, log, fileChanges);
      for j := 0 to |replicaListing|
        invariant source == old(source)
        invariant DeletePhase(c, source, replicaListing[..j], copied) == Done(PassState(replica, log, fileChanges))
      {
        var name := replicaListing[j];
        DeletePhaseSnoc(c, source, replicaListing, j, copied);
        if name !in source {
          var ok := Remove(name);
          if !ok {
            FailureIsFinal(c, source, replicaListing, j + 1, copied);
            return Crashed(name);
          }
          Append(DeletedLine(c, name));
          fileChanges := true;
        }
      }
      assert replicaListing[..|replicaListing|] == replicaListing;
      outcome := Completed(fileChanges);
    }
  }
}
