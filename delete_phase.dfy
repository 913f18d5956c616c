/**
  What the delete loop yields as a whole: it removes and logs the listed
  names that do not exist in the source, in listing order, until the first
  one it cannot remove; there the pass stops, keeping what was done.
 */
module DeletePhaseFacts {
  import opened LogFormat
  import opened Folders
  import opened SyncSpec

  lemma DeletedLinesSnoc(c: Config, s: seq<string>, x: string)
    ensures DeletedLines(c, s + [x]) == DeletedLines(c, s) + [DeletedLine(c, x)]
  {
    assert (s + [x])[..|s|] == s;
  }

  /** The loop over the first j + 1 names is the loop over the first j
      followed, unless that already failed, by one step for name j. */
  lemma DeletePhaseSnoc(c: Config, source: Folder, names: seq<string>, j: nat, st: PassState)
    requires j < |names|
    ensures DeletePhase(c, source, names[..j + 1], st)
            == match DeletePhase(c, source, names[..j], st)
               case Failed(s, at) => Failed(s, at)
               case Done(s) => DeleteStep(c, source, s, names[j])
  {
    assert names[..j + 1][..j] == names[..j];
  }

  /** Removing the names of a listing one by one, when each is listed once,
      is the same as the closed form: the pass completes with `Cleared`
      when no listed name is stuck, and otherwise fails at the first stuck
      name with exactly the names before it cleared. */
  lemma {:induction false} DeletePhaseMatchesReference(c: Config, source: Folder, names: seq<string>, st: PassState)
    requires Distinct(names)
    ensures DeletePhase(c, source, names, st)
            == var k := FirstStuck(source, st.replica, names);
               if k == |names| then Done(Cleared(c, source, names, st))
               else Failed(Cleared(c, source, names[..k], st), names[k])
    decreases |names|
  {
    if names == [] {
      assert Pruned(source, st.replica, names) == st.replica;
    } else {
      var p, x := names[..|names| - 1], names[|names| - 1];
      assert names == p + [x];
      assert x !in p;
      DeletePhaseMatchesReference(c, source, p, st);
      var k := FirstStuck(source, st.replica, p);
      if k < |p| {
        assert FirstStuck(source, st.replica, names) == k;
        assert names[..k] == p[..k] && names[k] == p[k];
      } else {
        assert DeletePhase(c, source, p, st) == Done(Cleared(c, source, p, st));
        assert DeletePhase(c, source, names, st) == DeleteStep(c, source, Cleared(c, source, p, st), x);
        ClearedExtend(c, source, p, x, st);
        assert names[..|p|] == p;
      }
    }
  }

  /** One more step of the delete loop after every earlier name was
      cleared: a stuck name fails the pass, any other extends the cleared
      prefix by one. */
  lemma ClearedExtend(c: Config, source: Folder, p: seq<string>, x: string, st: PassState)
    requires x !in p
    ensures DeleteStep(c, source, Cleared(c, source, p, st), x)
            == if Stuck(source, st.replica, x) then Failed(Cleared(c, source, p, st), x)
               else Done(Cleared(c, source, p + [x], st))
  {
    if x in source {
      ClearedKeep(c, source, p, x, st);
    } else if IsFile(st.replica, x) {
      ClearedRemove(c, source, p, x, st);
    } else {
      var prev := Cleared(c, source, p, st);
      assert x in prev.replica ==> prev.replica[x] == st.replica[x];
    }
  }

  lemma ClearedKeep(c: Config, source: Folder, p: seq<string>, x: string, st: PassState)
    requires x in source
    ensures Cleared(c, source, p + [x], st) == Cleared(c, source, p, st)
  {
    var names := p + [x];
    assert names[..|names| - 1] == p;
    assert Orphans(source, names) == Orphans(source, p);
    assert Pruned(source, st.replica, names) == Pruned(source, st.replica, p);
  }

  lemma ClearedRemove(c: Config, source: Folder, p: seq<string>, x: string, st: PassState)
    requires x !in p && x !in source && IsFile(st.replica, x)
    ensures IsFile(Cleared(c, source, p, st).replica, x)
    ensures Cleared(c, source, p + [x], st).replica == Cleared(c, source, p, st).replica - {x}
    ensures Cleared(c, source, p + [x], st).log == Cleared(c, source, p, st).log + [DeletedLine(c, x)]
    ensures Cleared(c, source, p + [x], st).changed
  {
    var names := p + [x];
    assert names[..|names| - 1] == p;
    assert Orphans(source, names) == Orphans(source, p) + [x];
    DeletedLinesSnoc(c, Orphans(source, p), x);
    PrunedRemove(source, st.replica, p, x);
  }

  lemma PrunedRemove(source: Folder, replica: Folder, p: seq<string>, x: string)
    requires x !in p && x !in source
    ensures x in replica ==> x in Pruned(source, replica, p) && Pruned(source, replica, p)[x] == replica[x]
    ensures Pruned(source, replica, p + [x]) == Pruned(source, replica, p) - {x}
  {
    var a, b := Pruned(source, replica, p + [x]), Pruned(source, replica, p) - {x};
    assert forall n :: n in p + [x] <==> n in p || n == x;
    assert forall n :: n in a <==> n in b;
  }

  /** The delete lines name each listed name exactly once. */
  lemma {:induction false} DeletedLinesCount(c: Config, names: seq<string>, n: string)
    requires Distinct(names)
    ensures multiset(DeletedLines(c, names))[DeletedLine(c, n)] == if n in names then 1 else 0
    decreases |names|
  {
    if names != [] {
      var p, x := names[..|names| - 1], names[|names| - 1];
      assert names == p + [x];
      DeletedLinesCount(c, p, n);
      DeletedLineInjective(c, x, n);
    }
  }

  /** No delete line is the text of a create/update line. */
  lemma {:induction false} DeletedLinesHoldNoSourceLine(c: Config, names: seq<string>, m: string, op: Op)
    ensures multiset(DeletedLines(c, names))[SourceLine(c, m, op)] == 0
    decreases |names|
  {
    if names != [] {
      DeletedLinesHoldNoSourceLine(c, names[..|names| - 1], m, op);
      DeletedLineIsNotSourceLine(c, names[|names| - 1], m, op);
    }
  }

  /** Filtering a listing keeps each name once. */
  lemma {:induction false} OrphansDistinct(source: Folder, names: seq<string>)
    requires Distinct(names)
    ensures Distinct(Orphans(source, names))
    decreases |names|
  {
    if names != [] {
      var p, x := names[..|names| - 1], names[|names| - 1];
      assert names == p + [x];
      OrphansDistinct(source, p);
    }
  }

  /** Once the delete loop has failed, later names change nothing: the
      program has ended. */
  lemma {:induction false} FailureIsFinal(c: Config, source: Folder, names: seq<string>, k: nat, st: PassState)
    requires k <= |names|
    requires DeletePhase(c, source, names[..k], st).Failed?
    ensures DeletePhase(c, source, names, st) == DeletePhase(c, source, names[..k], st)
    decreases |names| - k
  {
    if k < |names| {
      assert names[..k + 1][..k] == names[..k];
      FailureIsFinal(c, source, names, k + 1, st);
    } else {
      assert names[..k] == names;
    }
  }
}
