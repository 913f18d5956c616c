/**
  A folder as one synchronisation pass sees it: a finite map from the
  names of its immediate entries to what each entry is. Only the two
  facts the pass asks of an entry are kept: whether it is a regular file,
  and its modification time. A file also carries its bytes, which the
  pass copies but never inspects.
 */
module Folders {

  type Bytes = seq<bv8>

  /** An immediate entry of a folder. Modification times are compared
      for equality only, so an integer stands for the platform's value. */
  datatype Entry = File(mtime: int, content: Bytes) | Directory(mtime: int)

  type Folder = map<string, Entry>

  /** `name` is a regular file of `f` (what the existence-and-isfile test asks). */
  predicate IsFile(f: Folder, name: string)
  {
    name in f && f[name].File?
  }

  /** The names of the regular files of `f`. */
  function FileNames(f: Folder): set<string>
  {
    set n | n in f && f[n].File?
  }

  predicate Distinct(names: seq<string>)
  {
    forall i, j | 0 <= i < j < |names| :: names[i] != names[j]
  }

  /** `names` is one enumeration of the folder entries `keys`: each name
      once, in whatever order the operating system lists them. */
  ghost predicate IsListing(names: seq<string>, keys: set<string>)
  {
    Distinct(names) && forall n :: n in names <==> n in keys
  }

  /** The pass cannot handle a source file whose replica counterpart is a
      directory (copying onto a directory writes inside it), so it is
      only modelled where that does not happen. */
  ghost predicate NoFileOverDirectory(source: Folder, replica: Folder)
  {
    forall n :: IsFile(source, n) && n in replica ==> replica[n].File?
  }
}
