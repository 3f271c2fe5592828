/** The local filesystem the store writes to, as an immutable value: each
    directory path maps to the regular files directly inside it. */
module Disk {
  import opened Types

  /** A regular file: its bytes and its last-modification time (whole seconds). */
  datatype Entry = Entry(content: seq<byte>, mtime: int)

  /** The regular files directly inside one directory, by file name.
      Sub-directories are not files; they are keys of their own in `Disk`. */
  type Dir = map<string, Entry>

  /** Directory path -> the regular files in it. A path that is not a key
      does not exist. */
  type Disk = map<string, Dir>

  /** `pathlib.Path(dir) / name`, without pathlib's normalisation. */
  function Join(dir: string, name: string): string { dir + "/" + name }

  /** `(Path(dir) / name).exists()` for a regular file. */
  predicate FileExists(d: Disk, dir: string, name: string)
  {
    dir in d && name in d[dir]
  }

  /** `d'` differs from `d` at most in the files `names` of directory `dir`
      (and possibly by `dir` itself having been created). */
  ghost predicate SameExcept(d: Disk, d': Disk, dir: string, names: set<string>)
  {
    && (forall p :: p in d ==> p in d')
    && (forall p :: p in d' && p != dir ==> p in d && d'[p] == d[p])
    && (dir in d' ==> forall n :: n !in names ==> (n in d'[dir] <==> dir in d && n in d[dir]))
    && (dir in d' ==> forall n :: n !in names && n in d'[dir] ==> d'[dir][n] == d[dir][n])
  }

  /** Two changes confined to `dir` compose into one. */
  lemma SameExceptTrans(d1: Disk, d2: Disk, d3: Disk, dir: string, names: set<string>)
    requires SameExcept(d1, d2, dir, {}) && SameExcept(d2, d3, dir, names)
    ensures SameExcept(d1, d3, dir, names)
  {
  }

  /** `Path(dir).mkdir(parents=True, exist_ok=True)`: creates the directory
      when it is missing, leaves an existing one as it is. */
  function EnsureDir(d: Disk, dir: string): (d': Disk)
    ensures dir in d'
    ensures dir in d ==> d' == d
    ensures dir !in d ==> d'[dir] == map[]
    ensures SameExcept(d, d', dir, {})
  {
    if dir in d then d else d[dir := map[]]
  }

  /** `open(dir / name, 'wb').write(content)`: creates or truncates the file;
      the write stamps it with the current time `now`. */
  function WriteFile(d: Disk, dir: string, name: string, content: seq<byte>, now: int): (d': Disk)
    requires dir in d
    ensures FileExists(d', dir, name) && d'[dir][name] == Entry(content, now)
    ensures SameExcept(d, d', dir, {name})
  {
    d[dir := d[dir][name := Entry(content, now)]]
  }

  /** `(dir / name).unlink()` of an existing file. */
  function Unlink(d: Disk, dir: string, name: string): (d': Disk)
    requires FileExists(d, dir, name)
    ensures dir in d' && !FileExists(d', dir, name)
    ensures SameExcept(d, d', dir, {name})
  {
    d[dir := d[dir] - {name}]
  }

  /** `(dir / from).rename(dir / to)`: the entry moves, replacing any file
      already called `to`, and keeps its bytes and mtime. */
  function Rename(d: Disk, dir: string, from: string, to: string): (d': Disk)
    requires FileExists(d, dir, from)
    ensures FileExists(d', dir, to) && d'[dir][to] == d[dir][from]
    ensures from != to ==> !FileExists(d', dir, from)
    ensures SameExcept(d, d', dir, {from, to})
  {
    var e := d[dir][from];
    d[dir := (d[dir] - {from})[to := e]]
  }

  /** Writing a fresh temp file and renaming it is the same as writing the
      final name directly: the write-then-rename publish leaves nothing else. */
  lemma WriteThenRenameIsWrite(d: Disk, dir: string, temp: string, name: string, content: seq<byte>, now: int)
    requires dir in d && temp !in d[dir]
    ensures Rename(WriteFile(d, dir, temp, content, now), dir, temp, name) == WriteFile(d, dir, name, content, now)
  {
    var e := Entry(content, now);
    assert (d[dir][temp := e] - {temp})[name := e] == d[dir][name := e];
  }

  /** `listing` is one `iterdir()` pass over `dir`: every file exactly once,
      in an order the operating system chooses. */
  predicate IsListing(listing: seq<string>, dir: Dir)
  {
    && (forall i, j :: 0 <= i < j < |listing| ==> listing[i] != listing[j])
    && (forall n :: n in listing ==> n in dir)
    && (forall n :: n in dir ==> n in listing)
  }
}
