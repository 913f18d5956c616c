/**
  Three concrete passes, written out in full. They show where the program
  departs from a mirror that preserves modification times, stays quiet
  about files it leaves alone, and skips what it cannot remove.
 */
module PassScenarios {
  import opened LogFormat
  import opened Folders
  import opened SyncSpec

  /** A new source file is copied with the time of the copy as its
      modification time (here 50, where the source says 10), and logged
      once as created. */
  lemma NewFileGetsCopyTime(c: Config, bytes: Bytes)
    ensures var source := map["a.txt" := File(10, bytes)];
            Pass(c, 50, source, ["a.txt"], ["a.txt"], map[], [])
            == Done(PassState(map["a.txt" := File(50, bytes)], [SourceLine(c, "a.txt", Created)], true))
  {
    var source := map["a.txt" := File(10, bytes)];
    var listing := ["a.txt"];
    assert listing[..0] == [];
    var copied := PassState(map["a.txt" := File(50, bytes)], [SourceLine(c, "a.txt", Created)], true);
    assert CopyPhase(c, 50, source, listing, PassState(map[], [], false)) == copied;
    assert DeletePhase(c, source, listing, copied) == Done(copied);
  }

  /** A file whose replica has the same modification time is neither
      copied nor counted as a change, but it is still logged as
      unchanged. */
  lemma UnchangedFileIsLogged(c: Config, bytes: Bytes, stale: Bytes)
    ensures var source := map["c.txt" := File(10, bytes)];
            var replica := map["c.txt" := File(10, stale)];
            Pass(c, 50, source, ["c.txt"], ["c.txt"], replica, [])
            == Done(PassState(replica, [SourceLine(c, "c.txt", Unchanged)], false))
  {
    var source := map["c.txt" := File(10, bytes)];
    var replica := map["c.txt" := File(10, stale)];
    var listing := ["c.txt"];
    assert listing[..0] == [];
    var copied := PassState(replica, [SourceLine(c, "c.txt", Unchanged)], false);
    assert CopyPhase(c, 50, source, listing, PassState(replica, [], false)) == copied;
    assert DeletePhase(c, source, listing, copied) == Done(copied);
  }

  /** A replica directory whose name is absent from the source stops the
      pass: the delete loop cannot remove it. */
  lemma ReplicaOnlyDirectoryStopsThePass(c: Config)
    ensures var replica := map["old" := Directory(7)];
            Pass(c, 50, map[], [], ["old"], replica, [])
            == Failed(PassState(replica, [], false), "old")
  {
    var listing := ["old"];
    assert listing[..0] == [];
  }
}
