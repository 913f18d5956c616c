/**
  The two kinds of line one synchronisation pass appends to the log file.

  A line written by the create/update loop reads
      <timestamp> - File <name> <created|copied|unchanged> from: <source> to: <replica>
  and a line written by the delete loop reads
      <timestamp> - File <name> deleted from: <replica>
  each followed by a newline. The timestamp is the pass's wall-clock time,
  already formatted as DD/MM/YYYY HH:MM:SS; it is an input here.

  Next to the two formatters stand two parsers that, knowing the pass's
  timestamp and folders, recover the file name (and the operation) from a
  line. The round-trip lemmas show that no two distinct events of one pass
  are written as the same line, and that a delete line is never mistaken
  for a create/update line.
 */
module LogFormat {

  datatype Option<+T> = None | Some(value: T)

  /** What the create/update loop did with one source file. */
  datatype Op = Created | Copied | Unchanged

  /** What every line of one pass shares: its formatted timestamp and the
      source and replica folders as given on the command line. */
  datatype Config = Config(timestamp: string, sourceFolder: string, replicaFolder: string)

  /** The word a create/update line uses for its operation. */
  function OpWord(op: Op): string
  {
    match op
    case Created => "created"
    case Copied => "copied"
    case Unchanged => "unchanged"
  }

  /** Everything before the file name, common to both kinds of line. */
  function Lead(c: Config): string
  {
    c.timestamp + " - File "
  }

  /** Everything after "<name> <op>" in a create/update line. */
  function SourceTail(c: Config): string
  {
    " from: " + c.sourceFolder + " to: " + c.replicaFolder + "\n"
  }

  /** Everything after "<name>" in a delete line. */
  function DeletedTail(c: Config): string
  {
    " deleted from: " + c.replicaFolder + "\n"
  }

  /** The line the create/update loop appends for `name`. */
  function SourceLine(c: Config, name: string, op: Op): string
  {
    Lead(c) + name + " " + OpWord(op) + SourceTail(c)
  }

  /** The line the delete loop appends for `name`; it has no "to:" part. */
  function DeletedLine(c: Config, name: string): string
  {
    Lead(c) + name + DeletedTail(c)
  }

  predicate StartsWith(s: string, prefix: string)
  {
    |prefix| <= |s| && s[..|prefix|] == prefix
  }

  predicate EndsWith(s: string, suffix: string)
  {
    |suffix| <= |s| && s[|s| - |suffix|..] == suffix
  }

  /** The part of `s` between a known prefix and a known suffix, if `s`
      has both and they do not overlap. */
  function Between(s: string, prefix: string, suffix: string): (r: Option<string>)
    ensures r.Some? ==> s == prefix + r.value + suffix
  {
    if |prefix| + |suffix| <= |s| && StartsWith(s, prefix) && EndsWith(s, suffix) then
      var mid := s[|prefix|..|s| - |suffix|];
      assert s == s[..|prefix|] + mid + s[|s| - |suffix|..];
      Some(mid)
    else
      None
  }

  /** Removes " <op>" from the end of `mid`, if it ends so. */
  function StripOp(mid: string, op: Op): (r: Option<string>)
    ensures r.Some? ==> mid == r.value + " " + OpWord(op)
  {
    var w := " " + OpWord(op);
    if EndsWith(mid, w) then
      assert mid == mid[..|mid| - |w|] + mid[|mid| - |w|..];
      Some(mid[..|mid| - |w|])
    else
      None
  }

  /** Splits "<name> <op>" back into its two parts, trying the three
      operation words in turn. */
  function SplitOp(mid: string): (r: Option<(string, Op)>)
    ensures r.Some? ==> mid == r.value.0 + " " + OpWord(r.value.1)
  {
    match StripOp(mid, Created)
    case Some(name) => Some((name, Created))
    case None =>
      match StripOp(mid, Copied)
      case Some(name) => Some((name, Copied))
      case None =>
        match StripOp(mid, Unchanged)
        case Some(name) => Some((name, Unchanged))
        case None => None
  }

  /** Reads a create/update line of the pass described by `c`. */
  function ParseSourceLine(c: Config, line: string): (r: Option<(string, Op)>)
  {
    match Between(line, Lead(c), SourceTail(c))
    case None => None
    case Some(mid) => SplitOp(mid)
  }

  /** Reads a delete line of the pass described by `c`. */
  function ParseDeletedLine(c: Config, line: string): (r: Option<string>)
  {
    Between(line, Lead(c), DeletedTail(c))
  }

  lemma SplitOpJoin(name: string, op: Op)
    ensures SplitOp(name + " " + OpWord(op)) == Some((name, op))
  {
    var mid := name + " " + OpWord(op);
    StripOpJoin(name, op);
    match op
    case Created =>
    case Copied =>
      assert |mid| >= 8 ==> mid[|mid| - 6] == 'c';
      NotEndsWith(mid, " " + OpWord(Created), 2);
    case Unchanged =>
      assert mid[|mid| - 8] == 'n';
      assert mid[|mid| - 7] == 'c';
      NotEndsWith(mid, " " + OpWord(Created), 0);
      NotEndsWith(mid, " " + OpWord(Copied), 0);
  }

  /** `s` cannot end with `w` when they differ at position `i` of `w`. */
  lemma NotEndsWith(s: string, w: string, i: nat)
    requires i < |w| && (|w| <= |s| ==> s[|s| - |w| + i] != w[i])
    ensures !EndsWith(s, w)
  {
    if |w| <= |s| {
      assert s[|s| - |w|..][i] == s[|s| - |w| + i];
    }
  }

  lemma StripOpJoin(name: string, op: Op)
    ensures StripOp(name + " " + OpWord(op), op) == Some(name)
  {
    var w := " " + OpWord(op);
    var mid := name + w;
    assert name + " " + OpWord(op) == mid;
    assert mid[|mid| - |w|..] == w;
    assert mid[..|mid| - |w|] == name;
  }

  lemma BetweenJoin(prefix: string, mid: string, suffix: string)
    ensures Between(prefix + mid + suffix, prefix, suffix) == Some(mid)
  {
    var s := prefix + mid + suffix;
    assert s[..|prefix|] == prefix;
    assert s[|s| - |suffix|..] == suffix;
    assert s[|prefix|..|s| - |suffix|] == mid;
  }

  /** A create/update line reads back as the name and operation it was
      written for, and a line that reads back as (name, op) is exactly the
      line written for them. */
  lemma SourceLineRoundTrip(c: Config, line: string, name: string, op: Op)
    ensures ParseSourceLine(c, SourceLine(c, name, op)) == Some((name, op))
    ensures ParseSourceLine(c, line) == Some((name, op)) ==> line == SourceLine(c, name, op)
  {
    var mid := name + " " + OpWord(op);
    SourceLineShape(c, name, op);
    BetweenJoin(Lead(c), mid, SourceTail(c));
    SplitOpJoin(name, op);
    if ParseSourceLine(c, line) == Some((name, op)) {
      var m := Between(line, Lead(c), SourceTail(c)).value;
      assert SplitOp(m) == Some((name, op));
      assert m == mid;
    }
  }

  lemma SourceLineShape(c: Config, name: string, op: Op)
    ensures SourceLine(c, name, op) == Lead(c) + (name + " " + OpWord(op)) + SourceTail(c)
  {
  }

  /** A delete line reads back as its file name, and only that line does. */
  lemma DeletedLineRoundTrip(c: Config, line: string, name: string)
    ensures ParseDeletedLine(c, DeletedLine(c, name)) == Some(name)
    ensures ParseDeletedLine(c, line) == Some(name) ==> line == DeletedLine(c, name)
  {
    BetweenJoin(Lead(c), name, DeletedTail(c));
  }

  /** Distinct (name, operation) pairs give distinct create/update lines. */
  lemma SourceLineInjective(c: Config, n1: string, op1: Op, n2: string, op2: Op)
    ensures SourceLine(c, n1, op1) == SourceLine(c, n2, op2) <==> n1 == n2 && op1 == op2
  {
    SourceLineRoundTrip(c, SourceLine(c, n1, op1), n1, op1);
    SourceLineRoundTrip(c, SourceLine(c, n2, op2), n2, op2);
  }

  /** Distinct names give distinct delete lines. */
  lemma DeletedLineInjective(c: Config, n1: string, n2: string)
    ensures DeletedLine(c, n1) == DeletedLine(c, n2) <==> n1 == n2
  {
    DeletedLineRoundTrip(c, DeletedLine(c, n1), n1);
    DeletedLineRoundTrip(c, DeletedLine(c, n2), n2);
  }

  /** Whatever the file names, a delete line is never the same text as a
      create/update line of the same pass: five characters before the
      replica folder, one has the 'r' of "from:" and the other the blank
      before "to:". */
  lemma DeletedLineIsNotSourceLine(c: Config, n1: string, n2: string, op: Op)
    ensures DeletedLine(c, n1) != SourceLine(c, n2, op)
  {
    var d := DeletedLine(c, n1);
    var s := SourceLine(c, n2, op);
    var k := |c.replicaFolder| + 1 + 5;
    var dHead := Lead(c) + n1 + " deleted f";
    assert d == dHead + "rom: " + c.replicaFolder + "\n";
    assert d[|d| - k] == 'r';
    var sHead := Lead(c) + n2 + " " + OpWord(op) + " from: " + c.sourceFolder;
    assert s == sHead + " to: " + c.replicaFolder + "\n";
    assert s[|s| - k] == ' ';
  }
}
