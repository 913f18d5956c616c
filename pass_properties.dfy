/**
  What one whole pass guarantees, stated against the folders as they were
  before it: which replica entries are created, overwritten, kept or
  removed, which lines the log gains and in what order, when the change
  flag is raised, and when the pass ends in an exception.

  Every lemma here requires `PassInputs`: the two listings enumerate the
  folders (the replica's after the create/update loop), and no source file
  faces a replica directory of the same name.
 */
module PassProperties {
  import opened LogFormat
  import opened Folders
  import opened SyncSpec
  import opened CopyPhaseFacts
  import opened DeletePhaseFacts

  /** The state the create/update loop leaves, in closed form. */
  function AfterCopy(c: Config, now: int, source: Folder, sourceListing: seq<string>,
                     replica: Folder, log: seq<string>): PassState
  {
    PassState(
      Mirrored(source, replica, sourceListing, now),
      log + SourceLines(c, source, replica, sourceListing),
      exists n :: n in sourceListing && Writes(source, replica, n))
  }

  /** How many names of the replica listing the delete loop gets through:
      all of them, or up to the first it cannot remove. */
  function Reach(now: int, source: Folder, sourceListing: seq<string>, replicaListing: seq<string>,
                 replica: Folder): nat
  {
    FirstStuck(source, Mirrored(source, replica, sourceListing, now), replicaListing)
  }

  /** The pass in closed form: the create/update loop's result with the
      first `Reach` replica names cleared; the pass completes exactly when
      it reaches the end of the listing. */
  lemma PassClosedForm(c: Config, now: int, source: Folder, sourceListing: seq<string>,
                       replicaListing: seq<string>, replica: Folder, log: seq<string>)
    requires PassInputs(source, sourceListing, replicaListing, replica)
    ensures var r := Pass(c, now, source, sourceListing, replicaListing, replica, log);
            var k := Reach(now, source, sourceListing, replicaListing, replica);
            && k <= |replicaListing|
            && r.st == Cleared(c, source, replicaListing[..k], AfterCopy(c, now, source, sourceListing, replica, log))
            && (r.Done? <==> k == |replicaListing|)
            && (r.Failed? ==> r.at == replicaListing[k])
  {
    var st0 := PassState(replica, log, false);
    CopyPhaseReplica(c, now, source, sourceListing, st0);
    CopyPhaseLog(c, now, source, sourceListing, st0);
    CopyPhaseChanged(c, now, source, sourceListing, st0);
    assert CopyPhase(c, now, source, sourceListing, st0) == AfterCopy(c, now, source, sourceListing, replica, log);
    DeletePhaseMatchesReference(c, source, replicaListing, AfterCopy(c, now, source, sourceListing, replica, log));
    assert replicaListing[..|replicaListing|] == replicaListing;
  }

  /** Ordering: the log gains every create/copy/unchanged line of the pass
      first, in source listing order, and only then its delete lines, in
      replica listing order. */
  lemma PassLogOrder(c: Config, now: int, source: Folder, sourceListing: seq<string>,
                     replicaListing: seq<string>, replica: Folder, log: seq<string>)
    requires PassInputs(source, sourceListing, replicaListing, replica)
    ensures var r := Pass(c, now, source, sourceListing, replicaListing, replica, log);
            exists k | 0 <= k <= |replicaListing| ::
              && r.st.log == log + SourceLines(c, source, replica, sourceListing)
                                 + DeletedLines(c, Orphans(source, replicaListing[..k]))
              && (r.Done? ==> k == |replicaListing|)
  {
    PassClosedForm(c, now, source, sourceListing, replicaListing, replica, log);
    var k := Reach(now, source, sourceListing, replicaListing, replica);
    assert k <= |replicaListing|;
  }

  /** How often a create/update line occurs in the log after the pass. */
  lemma PassSourceLineCount(c: Config, now: int, source: Folder, sourceListing: seq<string>,
                            replicaListing: seq<string>, replica: Folder, log: seq<string>, n: string, op: Op)
    requires PassInputs(source, sourceListing, replicaListing, replica)
    ensures multiset(Pass(c, now, source, sourceListing, replicaListing, replica, log).st.log)[SourceLine(c, n, op)]
            == multiset(log)[SourceLine(c, n, op)] + if Decide(source, replica, n) == Some(op) then 1 else 0
  {
    PassClosedForm(c, now, source, sourceListing, replicaListing, replica, log);
    var k := Reach(now, source, sourceListing, replicaListing, replica);
    SourceLinesCount(c, source, replica, sourceListing, n, op);
    DeletedLinesHoldNoSourceLine(c, Orphans(source, replicaListing[..k]), n, op);
  }

  /** How often a delete line occurs in the log after the pass. */
  lemma PassDeletedLineCount(c: Config, now: int, source: Folder, sourceListing: seq<string>,
                             replicaListing: seq<string>, replica: Folder, log: seq<string>, n: string)
    requires PassInputs(source, sourceListing, replicaListing, replica)
    ensures var k := Reach(now, source, sourceListing, replicaListing, replica);
            k <= |replicaListing| &&
            multiset(Pass(c, now, source, sourceListing, replicaListing, replica, log).st.log)[DeletedLine(c, n)]
            == multiset(log)[DeletedLine(c, n)] + if n in replicaListing[..k] && n !in source then 1 else 0
  {
    PassClosedForm(c, now, source, sourceListing, replicaListing, replica, log);
    var k := Reach(now, source, sourceListing, replicaListing, replica);
    var done := replicaListing[..k];
    assert Distinct(done);
    OrphansDistinct(source, done);
    DeletedLinesCount(c, Orphans(source, done), n);
    SourceLinesHoldNoDeletedLine(c, source, replica, sourceListing, n);
  }

  /** Create: a source file with no replica entry of its name ends up in
      the replica with the source's bytes (stamped with the time of the
      copy), and the log gains exactly one "created" line for it and no
      other create/update line. */
  lemma PassCreates(c: Config, now: int, source: Folder, sourceListing: seq<string>,
                    replicaListing: seq<string>, replica: Folder, log: seq<string>, n: string)
    requires PassInputs(source, sourceListing, replicaListing, replica)
    requires IsFile(source, n) && n !in replica
    ensures var r := Pass(c, now, source, sourceListing, replicaListing, replica, log);
            && n in r.st.replica && r.st.replica[n] == File(now, source[n].content)
            && forall op :: multiset(r.st.log)[SourceLine(c, n, op)]
                            == multiset(log)[SourceLine(c, n, op)] + if op == Created then 1 else 0
  {
    PassClosedForm(c, now, source, sourceListing, replicaListing, replica, log);
    forall op: Op {
      PassSourceLineCount(c, now, source, sourceListing, replicaListing, replica, log, n, op);
    }
  }

  /** Copy: a source file whose replica entry has another modification
      time is overwritten with the source's bytes, and logged once as
      "copied". */
  lemma PassCopies(c: Config, now: int, source: Folder, sourceListing: seq<string>,
                   replicaListing: seq<string>, replica: Folder, log: seq<string>, n: string)
    requires PassInputs(source, sourceListing, replicaListing, replica)
    requires IsFile(source, n) && n in replica && source[n].mtime != replica[n].mtime
    ensures var r := Pass(c, now, source, sourceListing, replicaListing, replica, log);
            && n in r.st.replica && r.st.replica[n] == File(now, source[n].content)
            && forall op :: multiset(r.st.log)[SourceLine(c, n, op)]
                            == multiset(log)[SourceLine(c, n, op)] + if op == Copied then 1 else 0
  {
    PassClosedForm(c, now, source, sourceListing, replicaListing, replica, log);
    forall op: Op {
      PassSourceLineCount(c, now, source, sourceListing, replicaListing, replica, log, n, op);
    }
  }

  /** Unchanged: a source file whose replica entry has the same
      modification time is left exactly as it was (even if the bytes
      differ), yet is still logged once, as "unchanged". */
  lemma PassLeavesUnchanged(c: Config, now: int, source: Folder, sourceListing: seq<string>,
                            replicaListing: seq<string>, replica: Folder, log: seq<string>, n: string)
    requires PassInputs(source, sourceListing, replicaListing, replica)
    requires IsFile(source, n) && n in replica && source[n].mtime == replica[n].mtime
    ensures var r := Pass(c, now, source, sourceListing, replicaListing, replica, log);
            && n in r.st.replica && r.st.replica[n] == replica[n]
            && forall op :: multiset(r.st.log)[SourceLine(c, n, op)]
                            == multiset(log)[SourceLine(c, n, op)] + if op == Unchanged then 1 else 0
  {
    PassClosedForm(c, now, source, sourceListing, replicaListing, replica, log);
    forall op: Op {
      PassSourceLineCount(c, now, source, sourceListing, replicaListing, replica, log, n, op);
    }
  }

  /** Non-files skipped: a source directory is never copied and gets no
      create/update line; a replica entry of the same name is kept as it
      is, since the name exists in the source. */
  lemma PassSkipsDirectories(c: Config, now: int, source: Folder, sourceListing: seq<string>,
                             replicaListing: seq<string>, replica: Folder, log: seq<string>, n: string)
    requires PassInputs(source, sourceListing, replicaListing, replica)
    requires n in source && source[n].Directory?
    ensures var r := Pass(c, now, source, sourceListing, replicaListing, replica, log);
            && (n in r.st.replica <==> n in replica)
            && (n in replica ==> r.st.replica[n] == replica[n])
            && forall op :: multiset(r.st.log)[SourceLine(c, n, op)] == multiset(log)[SourceLine(c, n, op)]
  {
    PassClosedForm(c, now, source, sourceListing, replicaListing, replica, log);
    forall op: Op {
      PassSourceLineCount(c, now, source, sourceListing, replicaListing, replica, log, n, op);
    }
  }

  /** No cross-contamination: the create/update loop removes nothing (it
      leaves the replica holding its old names plus the source's files),
      and no replica entry whose name exists in the source is removed or
      logged as deleted, whether the pass completes or not. */
  lemma PassKeepsSourceNames(c: Config, now: int, source: Folder, sourceListing: seq<string>,
                             replicaListing: seq<string>, replica: Folder, log: seq<string>, n: string)
    requires PassInputs(source, sourceListing, replicaListing, replica)
    requires n in source
    ensures AfterCopy(c, now, source, sourceListing, replica, log).replica.Keys == KeysAfterCopy(source, replica)
    ensures var r := Pass(c, now, source, sourceListing, replicaListing, replica, log);
            && (n in replica ==> n in r.st.replica)
            && multiset(r.st.log)[DeletedLine(c, n)] == multiset(log)[DeletedLine(c, n)]
  {
    PassClosedForm(c, now, source, sourceListing, replicaListing, replica, log);
    PassDeletedLineCount(c, now, source, sourceListing, replicaListing, replica, log, n);
    var m := AfterCopy(c, now, source, sourceListing, replica, log).replica;
    assert forall x :: x in m <==> x in KeysAfterCopy(source, replica);
  }

  /** When the pass ends in an exception: exactly when the replica holds a
      directory whose name does not exist in the source, and then it is
      such a directory that raised. */
  lemma PassCompletesIff(c: Config, now: int, source: Folder, sourceListing: seq<string>,
                         replicaListing: seq<string>, replica: Folder, log: seq<string>)
    requires PassInputs(source, sourceListing, replicaListing, replica)
    ensures var r := Pass(c, now, source, sourceListing, replicaListing, replica, log);
            && (r.Done? <==> forall n :: n in replica && n !in source ==> replica[n].File?)
            && (r.Failed? ==> r.at in replica && r.at !in source && replica[r.at].Directory?)
  {
    PassClosedForm(c, now, source, sourceListing, replicaListing, replica, log);
    var m := Mirrored(source, replica, sourceListing, now);
    var k := Reach(now, source, sourceListing, replicaListing, replica);
    assert forall x :: x in replicaListing && x !in source ==> x in replica && x in m && m[x] == replica[x];
    forall x | x in replica && x !in source
      ensures k == |replicaListing| ==> replica[x].File?
    {
      assert x in replicaListing;
      var i :| 0 <= i < |replicaListing| && replicaListing[i] == x;
      assert !Stuck(source, m, replicaListing[i]) || i >= k;
    }
  }

  /** Delete: when the pass completes, every replica entry whose name does
      not exist in the source is gone and logged exactly once as deleted;
      the replica then holds exactly its old names that exist in the
      source plus the source's files. */
  lemma PassRemovesOrphans(c: Config, now: int, source: Folder, sourceListing: seq<string>,
                           replicaListing: seq<string>, replica: Folder, log: seq<string>, n: string)
    requires PassInputs(source, sourceListing, replicaListing, replica)
    requires Pass(c, now, source, sourceListing, replicaListing, replica, log).Done?
    ensures var r := Pass(c, now, source, sourceListing, replicaListing, replica, log);
            && (n in r.st.replica <==> (n in replica && n in source) || IsFile(source, n))
            && (n in replica && n !in source ==>
                  multiset(r.st.log)[DeletedLine(c, n)] == multiset(log)[DeletedLine(c, n)] + 1)
  {
    PassClosedForm(c, now, source, sourceListing, replicaListing, replica, log);
    PassDeletedLineCount(c, now, source, sourceListing, replicaListing, replica, log, n);
    assert replicaListing[..|replicaListing|] == replicaListing;
    assert n in replica ==> n in replicaListing;
  }

  /** Change flag: when the pass completes, the flag is raised exactly when
      some file was created or copied or some entry removed; a file left
      unchanged never raises it. */
  lemma PassChangeFlag(c: Config, now: int, source: Folder, sourceListing: seq<string>,
                       replicaListing: seq<string>, replica: Folder, log: seq<string>)
    requires PassInputs(source, sourceListing, replicaListing, replica)
    requires Pass(c, now, source, sourceListing, replicaListing, replica, log).Done?
    ensures Pass(c, now, source, sourceListing, replicaListing, replica, log).st.changed
            <==> (exists n :: Writes(source, replica, n)) || (exists n :: n in replica && n !in source)
  {
    PassClosedForm(c, now, source, sourceListing, replicaListing, replica, log);
    assert replicaListing[..|replicaListing|] == replicaListing;
    WritesAreListed(source, sourceListing, replica);
    OrphansAreListed(source, replicaListing, replica);
  }

  lemma WritesAreListed(source: Folder, sourceListing: seq<string>, replica: Folder)
    requires IsListing(sourceListing, source.Keys)
    ensures (exists n :: n in sourceListing && Writes(source, replica, n)) <==> exists n :: Writes(source, replica, n)
  {
    if exists n :: Writes(source, replica, n) {
      var n :| Writes(source, replica, n);
      assert n in sourceListing;
    }
  }

  lemma OrphansAreListed(source: Folder, replicaListing: seq<string>, replica: Folder)
    requires IsListing(replicaListing, KeysAfterCopy(source, replica))
    ensures Orphans(source, replicaListing) != [] <==> exists n :: n in replica && n !in source
  {
    if exists n :: n in replica && n !in source {
      var n :| n in replica && n !in source;
      assert n in replicaListing;
      assert n in Orphans(source, replicaListing);
    }
    if Orphans(source, replicaListing) != [] {
      var n := Orphans(source, replicaListing)[0];
      assert n in Orphans(source, replicaListing);
      assert n in replica;
    }
  }

  /** Copies are stamped with the time of the write, not the source's
      modification time: unless the two happen to coincide, the next pass
      over an unchanged source copies the same file again. */
  lemma PassRestampsCopies(c: Config, now: int, source: Folder, sourceListing: seq<string>,
                           replicaListing: seq<string>, replica: Folder, log: seq<string>, n: string)
    requires PassInputs(source, sourceListing, replicaListing, replica)
    requires Writes(source, replica, n)
    ensures var r := Pass(c, now, source, sourceListing, replicaListing, replica, log);
            && n in r.st.replica && r.st.replica[n].mtime == now
            && (now != source[n].mtime ==> Decide(source, r.st.replica, n) == Some(Copied))
  {
    PassClosedForm(c, now, source, sourceListing, replicaListing, replica, log);
  }
}
