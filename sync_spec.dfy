/**
  One synchronisation pass, stated as functions over values.

  The pass has two loops. The first walks the source listing and, for each
  regular file, creates, overwrites or leaves alone the replica entry of
  the same name, logging one line either way. The second walks the
  replica listing (taken after the first loop) and removes every entry
  whose name does not exist in the source at all, logging one line per
  removal. A flag records whether anything was created, copied or removed.

  The step functions (`SourceStep`, `DeleteStep`) follow the loop bodies;
  the phase functions (`CopyPhase`, `DeletePhase`) fold them over a
  listing, in listing order. Beside them stand reference definitions that
  say in one expression what a whole phase produces (`Mirrored`,
  `SourceLines`, `Pruned`, `DeletedLines`); the lemmas in copy_phase.dfy
  and delete_phase.dfy prove the two agree.
 */
module SyncSpec {
  import opened LogFormat
  import opened Folders

  /** What a pass has produced so far: the replica folder, the log file's
      lines, and the change flag. */
  datatype PassState = PassState(replica: Folder, log: seq<string>, changed: bool)

  /** A pass either runs to its end, or stops at the first name the delete
      loop cannot remove (removing a directory, or a name that is gone,
      raises), keeping everything done before it. */
  datatype Run = Done(st: PassState) | Failed(st: PassState, at: string)

  /** The create/update loop's decision for `name` against the replica as
      it stands: nothing for a non-file, otherwise created, copied (the
      modification times differ) or unchanged (they are equal). */
  function Decide(source: Folder, replica: Folder, name: string): Option<Op>
  {
    if !IsFile(source, name) then None
    else if name !in replica then Some(Created)
    else if source[name].mtime != replica[name].mtime then Some(Copied)
    else Some(Unchanged)
  }

  /** The decision writes the replica entry. */
  predicate Writes(source: Folder, replica: Folder, name: string)
  {
    Decide(source, replica, name) == Some(Created) || Decide(source, replica, name) == Some(Copied)
  }

  /** The replica entry a copy leaves behind: the source's bytes with the
      modification time of the write, not the source's. */
  function CopyOf(source: Folder, name: string, now: int): Entry
    requires IsFile(source, name)
  {
    File(now, source[name].content)
  }

  /** The body of the create/update loop for one listed name. */
  function SourceStep(c: Config, now: int, source: Folder, st: PassState, name: string): PassState
  {
    match Decide(source, st.replica, name)
    case None => st
    case Some(op) =>
      PassState(
        if op == Unchanged then st.replica else st.replica[name := CopyOf(source, name, now)],
        st.log + [SourceLine(c, name, op)],
        st.changed || op != Unchanged)
  }

  /** The create/update loop over the listed names, in order. */
  function CopyPhase(c: Config, now: int, source: Folder, names: seq<string>, st: PassState): PassState
    decreases |names|
  {
    if names == [] then st
    else SourceStep(c, now, source, CopyPhase(c, now, source, names[..|names| - 1], st), names[|names| - 1])
  }

  /** The body of the delete loop for one listed name. The test is whether
      the name exists in the source at all, file or directory. */
  function DeleteStep(c: Config, source: Folder, st: PassState, name: string): Run
  {
    if name in source then Done(st)
    else if !IsFile(st.replica, name) then Failed(st, name)
    else Done(PassState(st.replica - {name}, st.log + [DeletedLine(c, name)], true))
  }

  /** The delete loop over the listed names, in order, stopping at the
      first failure. */
  function DeletePhase(c: Config, source: Folder, names: seq<string>, st: PassState): Run
    decreases |names|
  {
    if names == [] then Done(st)
    else
      match DeletePhase(c, source, names[..|names| - 1], st)
      case Failed(s, at) => Failed(s, at)
      case Done(s) => DeleteStep(c, source, s, names[|names| - 1])
  }

  /** The names the replica holds once the create/update loop is over. */
  function KeysAfterCopy(source: Folder, replica: Folder): set<string>
  {
    replica.Keys + FileNames(source)
  }

  /** Whether the two listings and the folders are a situation the pass is
      modelled for. */
  ghost predicate PassInputs(source: Folder, sourceListing: seq<string>, replicaListing: seq<string>, replica: Folder)
  {
    && IsListing(sourceListing, source.Keys)
    && IsListing(replicaListing, KeysAfterCopy(source, replica))
    && NoFileOverDirectory(source, replica)
  }

  /** One whole pass, starting with the change flag cleared. */
  function Pass(c: Config, now: int, source: Folder, sourceListing: seq<string>,
                replicaListing: seq<string>, replica: Folder, log: seq<string>): Run
    requires PassInputs(source, sourceListing, replicaListing, replica)
  {
    DeletePhase(c, source, replicaListing, CopyPhase(c, now, source, sourceListing, PassState(replica, log, false)))
  }

  // Reference definitions: each says what a whole phase yields at once.

  /** The replica after the create/update loop, each listed name decided
      against the replica as it was before the loop. */
  function Mirrored(source: Folder, replica: Folder, names: seq<string>, now: int): Folder
  {
    map n | n in replica.Keys + (set m | m in names && IsFile(source, m)) ::
      if n in names && Writes(source, replica, n) then CopyOf(source, n, now) else replica[n]
  }

  /** The lines the create/update loop writes: one per listed regular
      file, in listing order, with its decision against `replica`. */
  function SourceLines(c: Config, source: Folder, replica: Folder, names: seq<string>): seq<string>
    decreases |names|
  {
    if names == [] then []
    else
      var last := names[|names| - 1];
      SourceLines(c, source, replica, names[..|names| - 1])
        + match Decide(source, replica, last) { case None => [] case Some(op) => [SourceLine(c, last, op)] }
  }

  /** The listed names that do not exist in the source, in listing order. */
  function Orphans(source: Folder, names: seq<string>): (r: seq<string>)
    ensures forall n :: n in r <==> n in names && n !in source
    decreases |names|
  {
    if names == [] then []
    else
      var last := names[|names| - 1];
      Orphans(source, names[..|names| - 1]) + if last in source then [] else [last]
  }

  /** One delete line per name, in order. */
  function DeletedLines(c: Config, names: seq<string>): seq<string>
    decreases |names|
  {
    if names == [] then [] else DeletedLines(c, names[..|names| - 1]) + [DeletedLine(c, names[|names| - 1])]
  }

  /** The replica without the listed names that do not exist in the source. */
  function Pruned(source: Folder, replica: Folder, names: seq<string>): Folder
  {
    map n | n in replica && (n in source || n !in names) :: replica[n]
  }

  /** The delete loop cannot remove `name`: it does not exist in the
      source, and the replica holds no regular file of that name. */
  predicate Stuck(source: Folder, replica: Folder, name: string)
  {
    name !in source && !IsFile(replica, name)
  }

  /** The position of the first listed name the delete loop cannot
      remove, or the length of the listing when there is none. */
  function FirstStuck(source: Folder, replica: Folder, names: seq<string>): (k: nat)
    ensures k <= |names|
    ensures forall i | 0 <= i < k :: !Stuck(source, replica, names[i])
    ensures k < |names| ==> Stuck(source, replica, names[k])
    decreases |names|
  {
    if names == [] then 0
    else
      var k := FirstStuck(source, replica, names[..|names| - 1]);
      if k < |names| - 1 then k
      else if Stuck(source, replica, names[|names| - 1]) then |names| - 1
      else |names|
  }

  /** The state once every listed name that does not exist in the source
      has been removed from the replica and logged. */
  function Cleared(c: Config, source: Folder, names: seq<string>, st: PassState): PassState
  {
    PassState(
      Pruned(source, st.replica, names),
      st.log + DeletedLines(c, Orphans(source, names)),
      st.changed || Orphans(source, names) != [])
  }
}
