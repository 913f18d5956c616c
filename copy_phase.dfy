/**
  What the create/update loop yields as a whole. Because each name is
  listed once and a step only touches the entry of its own name, deciding
  names one after another against the changing replica gives the same
  result as deciding every name against the replica as it was before the
  loop. `CopyPhaseReplica`, `CopyPhaseLog` and `CopyPhaseChanged` prove
  that; the counting lemma turns it into "exactly one line per regular
  file".
 */
module CopyPhaseFacts {
  import opened LogFormat
  import opened Folders
  import opened SyncSpec

  /** The loop over the first i + 1 names is the loop over the first i
      followed by one step for name i. */
  lemma CopyPhaseSnoc(c: Config, now: int, source: Folder, names: seq<string>, i: nat, st: PassState)
    requires i < |names|
    ensures CopyPhase(c, now, source, names[..i + 1], st)
            == SourceStep(c, now, source, CopyPhase(c, now, source, names[..i], st), names[i])
  {
    assert names[..i + 1][..i] == names[..i];
  }

  /** Copying a source file onto its name never puts a directory where a
      source file faces the replica. */
  lemma CopyKeepsFilesOverFiles(source: Folder, replica: Folder, name: string, now: int)
    requires NoFileOverDirectory(source, replica) && IsFile(source, name)
    ensures NoFileOverDirectory(source, replica[name := CopyOf(source, name, now)])
  {
  }

  /** Sequential decisions agree with decisions against the initial
      replica: the replica becomes `Mirrored`. */
  lemma {:induction false} CopyPhaseReplica(c: Config, now: int, source: Folder, names: seq<string>, st: PassState)
    requires Distinct(names)
    ensures CopyPhase(c, now, source, names, st).replica == Mirrored(source, st.replica, names, now)
    decreases |names|
  {
    if names == [] {
      assert Mirrored(source, st.replica, names, now) == st.replica;
    } else {
      var p, x := names[..|names| - 1], names[|names| - 1];
      assert names == p + [x];
      assert x !in p;
      CopyPhaseReplica(c, now, source, p, st);
      MirroredExtend(source, st.replica, p, x, now);
    }
  }

  /** The log grows by `SourceLines`: every listed regular file gets the
      line for its decision against the initial replica, in listing order. */
  lemma {:induction false} CopyPhaseLog(c: Config, now: int, source: Folder, names: seq<string>, st: PassState)
    requires Distinct(names)
    ensures CopyPhase(c, now, source, names, st).log == st.log + SourceLines(c, source, st.replica, names)
    decreases |names|
  {
    if names != [] {
      var p, x := names[..|names| - 1], names[|names| - 1];
      assert names == p + [x];
      assert x !in p;
      CopyPhaseLog(c, now, source, p, st);
      CopyPhaseReplica(c, now, source, p, st);
      MirroredExtend(source, st.replica, p, x, now);
    }
  }

  /** The flag is raised exactly when it was already raised or some listed
      file was created or copied; an unchanged file never raises it. */
  lemma {:induction false} CopyPhaseChanged(c: Config, now: int, source: Folder, names: seq<string>, st: PassState)
    requires Distinct(names)
    ensures CopyPhase(c, now, source, names, st).changed
            == (st.changed || exists n :: n in names && Writes(source, st.replica, n))
    decreases |names|
  {
    if names != [] {
      var p, x := names[..|names| - 1], names[|names| - 1];
      assert names == p + [x];
      assert x !in p;
      CopyPhaseChanged(c, now, source, p, st);
      CopyPhaseReplica(c, now, source, p, st);
      MirroredExtend(source, st.replica, p, x, now);
      assert (exists n :: n in names && Writes(source, st.replica, n))
             == ((exists n :: n in p && Writes(source, st.replica, n)) || Writes(source, st.replica, x));
    }
  }

  /** Adding a name not yet listed to the reference replica: its entry is
      still the initial one, so its decision is the initial decision, and
      only its own entry can change. */
  lemma MirroredExtend(source: Folder, rep: Folder, p: seq<string>, x: string, now: int)
    requires x !in p
    ensures Decide(source, Mirrored(source, rep, p, now), x) == Decide(source, rep, x)
    ensures Mirrored(source, rep, p + [x], now)
            == if Writes(source, rep, x) then Mirrored(source, rep, p, now)[x := CopyOf(source, x, now)]
               else Mirrored(source, rep, p, now)
  {
    var before := Mirrored(source, rep, p, now);
    var after := Mirrored(source, rep, p + [x], now);
    assert x in before <==> x in rep;
    assert x in rep ==> before[x] == rep[x];
    if Writes(source, rep, x) {
      assert after == before[x := CopyOf(source, x, now)];
    } else {
      assert after == before;
    }
  }

  /** The create/update lines name each listed regular file exactly once,
      with its decision, and nothing else: a line for (n, op) occurs once
      when n is a listed file decided op, and never otherwise. */
  lemma {:induction false} SourceLinesCount(c: Config, source: Folder, replica: Folder, names: seq<string>, n: string, op: Op)
    requires Distinct(names)
    ensures multiset(SourceLines(c, source, replica, names))[SourceLine(c, n, op)]
            == if n in names && Decide(source, replica, n) == Some(op) then 1 else 0
    decreases |names|
  {
    if names != [] {
      var p, x := names[..|names| - 1], names[|names| - 1];
      assert names == p + [x];
      assert Distinct(p);
      SourceLinesCount(c, source, replica, p, n, op);
      match Decide(source, replica, x)
      case None =>
      case Some(op') =>
        SourceLineInjective(c, x, op', n, op);
    }
  }

  /** No create/update line is the text of a delete line. */
  lemma {:induction false} SourceLinesHoldNoDeletedLine(c: Config, source: Folder, replica: Folder, names: seq<string>, m: string)
    ensures multiset(SourceLines(c, source, replica, names))[DeletedLine(c, m)] == 0
    decreases |names|
  {
    if names != [] {
      var p, x := names[..|names| - 1], names[|names| - 1];
      SourceLinesHoldNoDeletedLine(c, source, replica, p, m);
      match Decide(source, replica, x)
      case None =>
      case Some(op) =>
        DeletedLineIsNotSourceLine(c, m, x, op);
    }
  }
}
