/**
 * The replication engine: makes a file or a tree visible at a new location
 * by copying, hard-linking or symlinking it, either from the live file
 * system or from the entries of a zip archive.
 *
 * Every step is a function from file-system state to an outcome (the new
 * state and the first failure, if any); the methods perform the same steps
 * on an `Fs` object and are proved to reach exactly that outcome.
 */
module Replicate {
  import opened Wrappers
  import opened PathOrder
  import opened GoStrings
  import opened FileSystem

  // ---------------------------------------------------------------------
  // Configuration

  /** The values of `replicateMode`. */
  const COPY_MODE := 0
  const HARDLINK_MODE := 1
  const SOFTLINK_MODE := 2

  /** `replicatePrepare` creates parent directories with mode 0755. */
  const PREPARE_DIR_PERM := 493
  /** Zip extraction creates parent directories with `os.ModePerm` (0777). */
  const EXTRACT_DIR_PERM := 511

  datatype Config = Config(removeFirst: bool, fileMode: int, dirMode: int, paths: seq<string>, zip: string)

  /** The option closures `replicatePaths(paths...)` and `replicateFromZip(zip)`. */
  datatype ReplicateOption =
    | ReplicatePaths(paths: seq<string>)
    | ReplicateFromZip(zip: string)

  /** The configuration `replicate` starts from: remove first, copy files and
      directories, no paths, no archive. */
  const DEFAULT_CONFIG := Config(true, COPY_MODE, COPY_MODE, [], "")

  /** The configuration object the option closures update in place. */
  class ReplicateConfig {
    var removeFirst: bool
    var fileMode: int
    var dirMode: int
    var paths: seq<string>
    var zip: string

    function Value(): Config
      reads this
    {
      Config(removeFirst, fileMode, dirMode, paths, zip)
    }

    constructor ()
      ensures Value() == DEFAULT_CONFIG
    {
      removeFirst, fileMode, dirMode, paths, zip := true, COPY_MODE, COPY_MODE, [], "";
    }

    /** Runs one option closure on the configuration. */
    method Apply(option: ReplicateOption)
      modifies this
      ensures option.ReplicatePaths? ==> Value() == old(Value()).(paths := old(paths) + option.paths)
      ensures option.ReplicateFromZip? ==> Value() == old(Value()).(zip := option.zip)
    {
      match option
      case ReplicatePaths(ps) => paths := paths + ps;
      case ReplicateFromZip(z) => zip := z;
    }
  }

  /** All the paths the options name, in the order given. */
  function OptionPaths(options: seq<ReplicateOption>): (r: seq<string>)
    ensures options == [] ==> r == []
  {
    if options == [] then []
    else (if options[0].ReplicatePaths? then options[0].paths else []) + OptionPaths(options[1..])
  }

  /** Option `i` is the last `replicateFromZip` option. */
  predicate IsLastZip(options: seq<ReplicateOption>, i: int) {
    && 0 <= i < |options|
    && options[i].ReplicateFromZip?
    && forall j :: i < j < |options| ==> !options[j].ReplicateFromZip?
  }

  /** The archive named by the last `replicateFromZip` option, or "". */
  function LastZip(options: seq<ReplicateOption>): (r: string)
    ensures (forall i :: 0 <= i < |options| ==> !options[i].ReplicateFromZip?) ==> r == ""
    ensures forall i :: IsLastZip(options, i) ==> r == options[i].zip
  {
    if options == [] then ""
    else if options[|options| - 1].ReplicateFromZip? then options[|options| - 1].zip
    else
      var init := options[..|options| - 1];
      assert forall i :: IsLastZip(options, i) ==> IsLastZip(init, i);
      LastZip(init)
  }

  lemma {:induction false} OptionPathsAppend(options: seq<ReplicateOption>, o: ReplicateOption)
    ensures OptionPaths(options + [o]) == OptionPaths(options) + (if o.ReplicatePaths? then o.paths else [])
  {
    if options != [] {
      assert (options + [o])[1..] == options[1..] + [o];
      OptionPathsAppend(options[1..], o);
    }
  }

  /** The configuration `replicate` builds: the default, with the paths of
      every path option appended in order and the archive of the last zip
      option. */
  method NewConfig(options: seq<ReplicateOption>) returns (c: Config)
    ensures c == DEFAULT_CONFIG.(paths := OptionPaths(options), zip := LastZip(options))
  {
    var config := new ReplicateConfig();
    var i := 0;
    while i < |options|
      invariant 0 <= i <= |options|
      invariant config.Value() == DEFAULT_CONFIG.(paths := OptionPaths(options[..i]), zip := LastZip(options[..i]))
    {
      OptionPathsAppend(options[..i], options[i]);
      assert options[..i + 1] == options[..i] + [options[i]];
      config.Apply(options[i]);
      i := i + 1;
    }
    assert options[..i] == options;
    c := config.Value();
  }

  // ---------------------------------------------------------------------
  // Paths

  /** The components a slash-separated relative name adds to a path:
      empty and "." components vanish. */
  function Components(name: string): (r: Path)
    ensures forall i :: 0 <= i < |r| ==> r[i] != "" && r[i] != "." && '/' !in r[i]
  {
    KeepNamed(Split(name, '/'))
  }

  function KeepNamed(parts: seq<string>): (r: seq<string>)
    requires forall i :: 0 <= i < |parts| ==> '/' !in parts[i]
    ensures forall i :: 0 <= i < |r| ==> r[i] != "" && r[i] != "." && '/' !in r[i]
  {
    if parts == [] then []
    else (if parts[0] == "" || parts[0] == "." then [] else [parts[0]]) + KeepNamed(parts[1..])
  }

  /** `filepath.Join(base, name)`. */
  function JoinPath(base: Path, name: string): (r: Path)
    ensures base <= r
  {
    base + Components(name)
  }

  /** The index of the last '/' in `s`, or -1 when there is none. */
  function LastSlash(s: string): (k: int)
    ensures -1 <= k < |s|
    ensures k == -1 <==> '/' !in s
    ensures 0 <= k ==> s[k] == '/' && '/' !in s[k + 1..]
  {
    if |s| == 0 then -1
    else if s[|s| - 1] == '/' then |s| - 1
    else
      var k := LastSlash(s[..|s| - 1]);
      assert k >= 0 ==> s[k + 1..] == s[..|s| - 1][k + 1..] + [s[|s| - 1]];
      assert s == s[..|s| - 1] + [s[|s| - 1]];
      k
  }

  /** `filepath.Dir` of a slash-separated name: the part before the last
      slash ("/" when that slash leads the name), or "." when there is no
      slash. */
  function DirName(name: string): (d: string)
    ensures '/' !in name ==> d == "."
    ensures '/' in name ==> d == "/" || (|d| < |name| && name[..|d| + 1] == d + "/" && '/' !in name[|d| + 1..])
  {
    var k := LastSlash(name);
    if k < 0 then "."
    else if k == 0 then "/"
    else
      assert name[..k + 1] == name[..k] + "/";
      name[..k]
  }

  // ---------------------------------------------------------------------
  // Failures

  /** The errors the engine returns. */
  datatype Failure =
    | FsFailed(cause: FsError)                  // an `os` error returned as it is
    | MakeDirFailed(dir: Path, cause: FsError)  // "Failed to make <dir>: <cause>"
    | InvalidMode(mode: int)                    // "Invalid replication mode <mode>"
    | ZipOpenFailed(zip: string)                // `zip.OpenReader` could not open the archive

  function Lift(o: Outcome<FsError>): (r: Outcome<Failure>)
    ensures r.st == o.st && (r.err.None? <==> o.err.None?)
    ensures o.err.Some? ==> r.err == Some(FsFailed(o.err.value))
  {
    Outcome(o.st, if o.err.Some? then Some(FsFailed(o.err.value)) else None)
  }

  // ---------------------------------------------------------------------
  // replicatePrepare and createFile

  /** `replicatePrepare`: creates the parent of `dst`, then, when
      `removeFirst` is set, removes `dst`, ignoring any failure to do so. */
  function PrepareSpec(st: FsState, dst: Path, c: Config): (r: Outcome<Failure>)
    requires ValidState(st)
    ensures ValidState(r.st)
    ensures r.err.None? <==> MkdirAllSpec(st, DirOf(dst), PREPARE_DIR_PERM).err.None?
    ensures r.err.Some? ==> r.st == st && r.err == Some(MakeDirFailed(DirOf(dst), MkdirAllSpec(st, DirOf(dst), PREPARE_DIR_PERM).err.value))
    ensures r.err.None? ==> IsDirAt(r.st, DirOf(dst))
    ensures r.err.None? && c.removeFirst ==> dst !in r.st.nodes || HasChildren(r.st, dst)
    ensures forall q :: q in st.nodes && (q != dst || !c.removeFirst) ==> q in r.st.nodes && r.st.nodes[q] == st.nodes[q]
    ensures forall q :: q in r.st.nodes && q !in st.nodes ==> q <= DirOf(dst) && r.st.nodes[q] == Dir(PREPARE_DIR_PERM)
    ensures r.st.inodes == st.inodes && r.st.nextInode == st.nextInode
  {
    var dir := DirOf(dst);
    var m := MkdirAllSpec(st, dir, PREPARE_DIR_PERM);
    if m.err.Some? then Outcome(st, Some(MakeDirFailed(dir, m.err.value)))
    else if c.removeFirst then
      var rm := RemoveSpec(m.st, dst);
      assert rm.err.Some? ==> dst == [] || dst !in m.st.nodes || HasChildren(m.st, dst);
      Outcome(rm.st, None)
    else Outcome(m.st, None)
  }

  /** What `createFile` copies from: an archive entry's bytes, or a file
      opened with `os.Open`, read only once the destination is open. */
  datatype Reader =
    | FromArchive(data: Bytes)
    | FromFile(handle: Path)

  /** `io.Copy`'s reads: reading an opened directory fails. */
  function ReadAll(st: FsState, input: Reader): Result<Bytes, FsError> {
    match input
    case FromArchive(data) => Ok(data)
    case FromFile(handle) => ReadSpec(st, handle)
  }

  /** `createFile`: creates (or truncates) the file `dst` leads to, copies
      `input` into it and sets its permission bits to `perm`. Once `dst` is
      open nothing else can fail but the read. */
  function CreateFileSpec(st: FsState, input: Reader, perm: nat, dst: Path): (r: Outcome<Failure>)
    requires ValidState(st)
    ensures ValidState(r.st) && Links(r.st) == Links(st)
    ensures CreateSpec(st, dst).Err? ==> r == Outcome(st, Some(FsFailed(CreateSpec(st, dst).error)))
    ensures CreateSpec(st, dst).Ok? ==>
      var o := CreateSpec(st, dst).value;
      (r.err.None? <==> ReadAll(o.st, input).Ok?) &&
      (r.err.Some? ==> r == Outcome(o.st, Some(FsFailed(ReadAll(o.st, input).error)))) &&
      (r.err.None? ==>
        r.st.nodes == o.st.nodes && r.st.nextInode == o.st.nextInode &&
        IsFileAt(r.st, o.handle) && InodeAt(r.st, o.handle) == Inode(ReadAll(o.st, input).value, perm) &&
        (forall i :: i in o.st.inodes && i != o.st.nodes[o.handle].inode ==> i in r.st.inodes && r.st.inodes[i] == o.st.inodes[i]))
  {
    match CreateSpec(st, dst)
    case Err(e) => Outcome(st, Some(FsFailed(e)))
    case Ok(o) =>
      match ReadAll(o.st, input)
      case Err(e) => Outcome(o.st, Some(FsFailed(e)))
      case Ok(data) =>
        var w := WriteSpec(o.st, o.handle, data);
        ResolveOnlyReadsLinks(st, w, dst, MAX_LINKS);
        var ch := ChmodSpec(w, dst, perm);
        assert ch.err.None?;
        Outcome(ch.st, None)
  }

  // ---------------------------------------------------------------------
  // replicateFile, replicateDir, replicateTree

  /** The copy branch of `replicateFile`: stat and open `src`, then create
      `dst` from it with `src`'s permission bits. */
  function CopyFileSpec(st: FsState, src: Path, dst: Path): (r: Outcome<Failure>)
    requires ValidState(st)
    ensures ValidState(r.st)
  {
    match EvalSymlinksSpec(st, src)
    case Err(e) => Outcome(st, Some(FsFailed(e)))
    case Ok(q) => CreateFileSpec(st, FromFile(q), PermAt(st, q), dst)
  }

  /** `replicateFile`: prepare `dst`, then copy, hard-link or symlink `src`
      to it according to `fileMode`. */
  function ReplicateFileSpec(st: FsState, src: Path, dst: Path, c: Config): (r: Outcome<Failure>)
    requires ValidState(st)
    ensures ValidState(r.st)
  {
    var p := PrepareSpec(st, dst, c);
    if p.err.Some? then p
    else if c.fileMode == COPY_MODE then CopyFileSpec(p.st, src, dst)
    else if c.fileMode == HARDLINK_MODE then Lift(LinkSpec(p.st, src, dst))
    else if c.fileMode == SOFTLINK_MODE then Lift(SymlinkSpec(p.st, src, dst))
    else Outcome(p.st, Some(InvalidMode(c.fileMode)))
  }

  /** The files and links `filepath.Walk` hands to the copy callback, each
      replicated to the same relative place under `dst`; the first failure
      ends the walk. */
  function CopyEntriesSpec(st: FsState, src: Path, dst: Path, entries: seq<Path>, c: Config): (r: Outcome<Failure>)
    requires ValidState(st)
    requires forall i :: 0 <= i < |entries| ==> src < entries[i]
    ensures ValidState(r.st)
    decreases |entries|
  {
    if entries == [] then Outcome(st, None)
    else
      var e := entries[0];
      var r := ReplicateFileSpec(st, e, dst + e[|src|..], c);
      if r.err.Some? then r else CopyEntriesSpec(r.st, src, dst, entries[1..], c)
  }

  /** `replicateDir`: prepare `dst`, then copy the tree entry by entry (each
      with `fileMode`), or make one hard link or symlink for the whole
      directory, according to `dirMode`. An invalid `dirMode` is reported
      with the value of `fileMode`, as `replicateDir` does. */
  ghost function ReplicateDirSpec(st: FsState, src: Path, dst: Path, c: Config): (r: Outcome<Failure>)
    requires ValidState(st)
    ensures ValidState(r.st)
  {
    var p := PrepareSpec(st, dst, c);
    if p.err.Some? then p
    else if c.dirMode == COPY_MODE then
      var entries := Sorted(WalkSet(p.st, src));
      assert forall i :: 0 <= i < |entries| ==> src < entries[i] by {
        forall i | 0 <= i < |entries| ensures src < entries[i] {
          assert entries[i] in WalkSet(p.st, src);
        }
      }
      CopyEntriesSpec(p.st, src, dst, entries, c)
    else if c.dirMode == HARDLINK_MODE then Lift(LinkSpec(p.st, src, dst))
    else if c.dirMode == SOFTLINK_MODE then Lift(SymlinkSpec(p.st, src, dst))
    else Outcome(p.st, Some(InvalidMode(c.fileMode)))
  }

  /** `replicateTree`: remove everything at `dst`, whatever `removeFirst`
      says, resolve `src`'s links, then replicate it as a directory or as a
      file. */
  ghost function ReplicateTreeSpec(st: FsState, src: Path, dst: Path, c: Config): (r: Outcome<Failure>)
    requires ValidState(st)
    ensures ValidState(r.st)
  {
    var cleared := RemoveAllSpec(st, dst);
    match EvalSymlinksSpec(cleared, src)
    case Err(e) => Outcome(cleared, Some(FsFailed(e)))
    case Ok(l) =>
      match EvalSymlinksSpec(cleared, l)
      case Err(e) => Outcome(cleared, Some(FsFailed(e)))
      case Ok(s) =>
        if IsDirAt(cleared, s) then ReplicateDirSpec(cleared, l, dst, c)
        else ReplicateFileSpec(cleared, l, dst, c)
  }

  /** The loop of the file-system replicator: one tree per configured path,
      in order, stopping at the first failure. */
  ghost function PathsSpec(st: FsState, src: Path, dst: Path, bases: seq<string>, c: Config): (r: Outcome<Failure>)
    requires ValidState(st)
    ensures ValidState(r.st)
    decreases |bases|
  {
    if bases == [] then Outcome(st, None)
    else
      var r := ReplicateTreeSpec(st, JoinPath(src, bases[0]), JoinPath(dst, bases[0]), c);
      if r.err.Some? then r else PathsSpec(r.st, src, dst, bases[1..], c)
  }

  /** `filesystemReplicator.Replicate`. */
  ghost function FsReplicateSpec(st: FsState, src: Path, dst: Path, c: Config): (r: Outcome<Failure>)
    requires ValidState(st)
    ensures ValidState(r.st)
    ensures c.paths == [] ==> r == ReplicateTreeSpec(st, src, dst, c)
  {
    if c.paths == [] then ReplicateTreeSpec(st, src, dst, c)
    else PathsSpec(st, src, dst, c.paths, c)
  }

  // ---------------------------------------------------------------------
  // The engine, run on the process's file system

  method ReplicatePrepare(fs: Fs, dst: Path, c: Config) returns (err: Option<Failure>)
    requires fs.Valid()
    modifies fs
    ensures fs.Valid() && Outcome(fs.State(), err) == PrepareSpec(old(fs.State()), dst, c)
  {
    var dir := DirOf(dst);
    var mkErr := fs.MkdirAll(dir, PREPARE_DIR_PERM);
    if mkErr.Some? {
      return Some(MakeDirFailed(dir, mkErr.value));
    }
    if c.removeFirst {
      var ignored := fs.Remove(dst);
    }
    return None;
  }

  method CreateFile(fs: Fs, input: Reader, perm: nat, dst: Path) returns (err: Option<Failure>)
    requires fs.Valid()
    modifies fs
    ensures fs.Valid() && Outcome(fs.State(), err) == CreateFileSpec(old(fs.State()), input, perm, dst)
  {
    ghost var st := fs.State();
    var handle, createErr := fs.Create(dst);
    if createErr.Some? {
      return Some(FsFailed(createErr.value));
    }
    var data: Bytes;
    match input {
      case FromArchive(d) =>
        data := d;
      case FromFile(h) =>
        var read := fs.Read(h);
        if read.Err? {
          return Some(FsFailed(read.error));
        }
        data := read.value;
    }
    fs.Write(handle, data);
    ResolveOnlyReadsLinks(st, fs.State(), dst, MAX_LINKS);
    // Chmod reaches the file just written through the same links: it cannot fail.
    var chmodErr := fs.Chmod(dst, perm);
    err := None;
  }

  method ReplicateFile(fs: Fs, src: Path, dst: Path, c: Config) returns (err: Option<Failure>)
    requires fs.Valid()
    modifies fs
    ensures fs.Valid() && Outcome(fs.State(), err) == ReplicateFileSpec(old(fs.State()), src, dst, c)
  {
    err := ReplicatePrepare(fs, dst, c);
    if err.Some? {
      return;
    }
    if c.fileMode == COPY_MODE {
      // `os.Open(src)` reaches the entry `os.Stat(src)` found, so it cannot
      // fail once the stat has succeeded.
      var s := fs.Stat(src);
      if s.Err? {
        return Some(FsFailed(s.error));
      }
      var handle := fs.EvalSymlinks(src);
      assert handle.Ok?;
      err := CreateFile(fs, FromFile(handle.value), s.value.mode, dst);
    } else if c.fileMode == HARDLINK_MODE {
      var linkErr := fs.Link(src, dst);
      err := if linkErr.Some? then Some(FsFailed(linkErr.value)) else None;
    } else if c.fileMode == SOFTLINK_MODE {
      var linkErr := fs.Symlink(src, dst);
      err := if linkErr.Some? then Some(FsFailed(linkErr.value)) else None;
    } else {
      err := Some(InvalidMode(c.fileMode));
    }
  }

  /** The `filepath.Walk` callback of `replicateDir`, run on each entry. */
  method CopyEntries(fs: Fs, src: Path, dst: Path, entries: seq<Path>, c: Config) returns (err: Option<Failure>)
    requires fs.Valid()
    requires forall i :: 0 <= i < |entries| ==> src < entries[i]
    modifies fs
    ensures fs.Valid() && Outcome(fs.State(), err) == CopyEntriesSpec(old(fs.State()), src, dst, entries, c)
  {
    ghost var st := fs.State();
    var i := 0;
    while i < |entries|
      invariant 0 <= i <= |entries| && fs.Valid()
      invariant CopyEntriesSpec(fs.State(), src, dst, entries[i..], c) == CopyEntriesSpec(st, src, dst, entries, c)
    {
      var e := entries[i];
      assert entries[i..][1..] == entries[i + 1..];
      err := ReplicateFile(fs, e, dst + e[|src|..], c);
      if err.Some? {
        return;
      }
      i := i + 1;
    }
    return None;
  }

  method ReplicateDir(fs: Fs, src: Path, dst: Path, c: Config) returns (err: Option<Failure>)
    requires fs.Valid()
    modifies fs
    ensures fs.Valid() && Outcome(fs.State(), err) == ReplicateDirSpec(old(fs.State()), src, dst, c)
  {
    err := ReplicatePrepare(fs, dst, c);
    if err.Some? {
      return;
    }
    if c.dirMode == COPY_MODE {
      ghost var prepared := fs.State();
      var entries := fs.Walk(src);
      assert forall i :: 0 <= i < |entries| ==> src < entries[i] by {
        forall i | 0 <= i < |entries| ensures src < entries[i] {
          assert entries[i] in WalkSet(prepared, src);
        }
      }
      err := CopyEntries(fs, src, dst, entries, c);
    } else if c.dirMode == HARDLINK_MODE {
      var linkErr := fs.Link(src, dst);
      err := if linkErr.Some? then Some(FsFailed(linkErr.value)) else None;
    } else if c.dirMode == SOFTLINK_MODE {
      var linkErr := fs.Symlink(src, dst);
      err := if linkErr.Some? then Some(FsFailed(linkErr.value)) else None;
    } else {
      err := Some(InvalidMode(c.fileMode));
    }
  }

  method ReplicateTree(fs: Fs, src: Path, dst: Path, c: Config) returns (err: Option<Failure>)
    requires fs.Valid()
    modifies fs
    ensures fs.Valid() && Outcome(fs.State(), err) == ReplicateTreeSpec(old(fs.State()), src, dst, c)
  {
    fs.RemoveAll(dst);
    var l := fs.EvalSymlinks(src);
    if l.Err? {
      return Some(FsFailed(l.error));
    }
    var s := fs.Stat(l.value);
    if s.Err? {
      return Some(FsFailed(s.error));
    }
    if s.value.isDir {
      err := ReplicateDir(fs, l.value, dst, c);
    } else {
      err := ReplicateFile(fs, l.value, dst, c);
    }
  }

  method FsReplicate(fs: Fs, src: Path, dst: Path, c: Config) returns (err: Option<Failure>)
    requires fs.Valid()
    modifies fs
    ensures fs.Valid() && Outcome(fs.State(), err) == FsReplicateSpec(old(fs.State()), src, dst, c)
  {
    if |c.paths| == 0 {
      err := ReplicateTree(fs, src, dst, c);
      return;
    }
    ghost var st := fs.State();
    var i := 0;
    while i < |c.paths|
      invariant 0 <= i <= |c.paths| && fs.Valid()
      invariant PathsSpec(fs.State(), src, dst, c.paths[i..], c) == PathsSpec(st, src, dst, c.paths, c)
    {
      var base := c.paths[i];
      assert c.paths[i..][1..] == c.paths[i + 1..];
      err := ReplicateTree(fs, JoinPath(src, base), JoinPath(dst, base), c);
      if err.Some? {
        return;
      }
      i := i + 1;
    }
    return None;
  }

  // ---------------------------------------------------------------------
  // The zip replicator

  /** An archive entry: its slash-separated name, whether it is a directory,
      its permission bits and its uncompressed bytes. */
  datatype ZipEntry = ZipEntry(name: string, isDir: bool, perm: nat, content: Bytes)

  /** Whether some configured path is a prefix of `name`. */
  predicate Matches(name: string, paths: seq<string>) {
    exists k :: 0 <= k < |paths| && HasPrefix(name, paths[k])
  }

  /** The key an entry records in the map of directories: its own name for
      a directory entry, the directory holding it for a file. Keys are the
      names as written, so "P/" and "P" are two keys for one directory. */
  function RecordedDir(f: ZipEntry): string {
    if f.isDir then f.name else DirName(f.name)
  }

  /** The file entries the selection pass keeps, in archive order. */
  function SelectedFiles(entries: seq<ZipEntry>, paths: seq<string>): (r: seq<ZipEntry>)
    ensures |r| <= |entries|
  {
    if entries == [] then []
    else
      var f := entries[|entries| - 1];
      SelectedFiles(entries[..|entries| - 1], paths) + (if !f.isDir && Matches(f.name, paths) then [f] else [])
  }

  /** The directories the selection pass records. */
  function SelectedDirs(entries: seq<ZipEntry>, paths: seq<string>): set<string> {
    if entries == [] then {}
    else
      var f := entries[|entries| - 1];
      SelectedDirs(entries[..|entries| - 1], paths) + (if Matches(f.name, paths) then {RecordedDir(f)} else {})
  }

  /** The selection pass over the archive: each entry is checked against the
      paths in order and taken on the first match. */
  method SelectEntries(entries: seq<ZipEntry>, paths: seq<string>) returns (dirs: set<string>, files: seq<ZipEntry>)
    ensures dirs == SelectedDirs(entries, paths) && files == SelectedFiles(entries, paths)
  {
    dirs, files := {}, [];
    var i := 0;
    while i < |entries|
      invariant 0 <= i <= |entries|
      invariant dirs == SelectedDirs(entries[..i], paths) && files == SelectedFiles(entries[..i], paths)
    {
      var f := entries[i];
      assert entries[..i + 1][..i] == entries[..i];
      var j := 0;
      while j < |paths|
        invariant 0 <= j <= |paths|
        invariant forall k :: 0 <= k < j ==> !HasPrefix(f.name, paths[k])
        invariant dirs == SelectedDirs(entries[..i], paths) && files == SelectedFiles(entries[..i], paths)
      {
        if HasPrefix(f.name, paths[j]) {
          if f.isDir {
            dirs := dirs + {f.name};
          } else {
            files := files + [f];
            dirs := dirs + {DirName(f.name)};
          }
          break;
        }
        j := j + 1;
      }
      i := i + 1;
    }
    assert entries[..i] == entries;
  }

  /** The preparation pass: `replicatePrepare` on `dst` joined with each
      recorded directory, in the order the map yields them, stopping at the
      first failure. */
  function PrepareDirsSpec(st: FsState, dst: Path, order: seq<string>, c: Config): (r: Outcome<Failure>)
    requires ValidState(st)
    ensures ValidState(r.st)
    decreases |order|
  {
    if order == [] then Outcome(st, None)
    else
      var r := PrepareSpec(st, JoinPath(dst, order[0]), c);
      if r.err.Some? then r else PrepareDirsSpec(r.st, dst, order[1..], c)
  }

  /** The `extract` closure: creates the parent of the entry's place under
      `dst` with mode 0777, then writes the entry there with its own
      permission bits. */
  function ExtractSpec(st: FsState, dst: Path, f: ZipEntry): (r: Outcome<Failure>)
    requires ValidState(st)
    ensures ValidState(r.st)
  {
    var to := JoinPath(dst, f.name);
    var m := MkdirAllSpec(st, DirOf(to), EXTRACT_DIR_PERM);
    if m.err.Some? then Outcome(st, Some(FsFailed(m.err.value)))
    else CreateFileSpec(m.st, FromArchive(f.content), f.perm, to)
  }

  function ExtractAllSpec(st: FsState, dst: Path, files: seq<ZipEntry>): (r: Outcome<Failure>)
    requires ValidState(st)
    ensures ValidState(r.st)
    decreases |files|
  {
    if files == [] then Outcome(st, None)
    else
      var r := ExtractSpec(st, dst, files[0]);
      if r.err.Some? then r else ExtractAllSpec(r.st, dst, files[1..])
  }

  /** `zipReplicator.Replicate`, with the archives that can be opened given
      by name and the map's iteration order over the recorded directories
      given as `order`. */
  function ZipReplicateSpec(st: FsState, dst: Path, c: Config, archives: map<string, seq<ZipEntry>>, order: seq<string>): (r: Outcome<Failure>)
    requires ValidState(st)
    ensures ValidState(r.st)
    ensures c.zip !in archives ==> r == Outcome(st, Some(ZipOpenFailed(c.zip)))
  {
    if c.zip !in archives then Outcome(st, Some(ZipOpenFailed(c.zip)))
    else
      var p := PrepareDirsSpec(st, dst, order, c);
      if p.err.Some? then p else ExtractAllSpec(p.st, dst, SelectedFiles(archives[c.zip], c.paths))
  }

  /** `order` lists each element of `s` exactly once. */
  ghost predicate Enumerates(order: seq<string>, s: set<string>) {
    && (forall p :: p in order <==> p in s)
    && (forall i, j :: 0 <= i < j < |order| ==> order[i] != order[j])
  }

  /** Some listing of the elements of `s`, each once. */
  ghost function Listing(s: set<string>): (r: seq<string>)
    ensures Enumerates(r, s)
    decreases |s|
  {
    if s == {} then []
    else
      var x :| x in s;
      var rest := Listing(s - {x});
      assert forall j :: 0 <= j < |rest| ==> rest[j] != x by {
        forall j | 0 <= j < |rest| ensures rest[j] != x {
          assert rest[j] in s - {x};
        }
      }
      [x] + rest
  }

  lemma {:induction false} PrepareDirsAppend(st: FsState, dst: Path, xs: seq<string>, ys: seq<string>, c: Config)
    requires ValidState(st)
    ensures PrepareDirsSpec(st, dst, xs + ys, c) ==
      var r := PrepareDirsSpec(st, dst, xs, c);
      if r.err.Some? then r else PrepareDirsSpec(r.st, dst, ys, c)
    decreases |xs|
  {
    if xs == [] {
      assert xs + ys == ys;
    } else {
      assert (xs + ys)[0] == xs[0] && (xs + ys)[1..] == xs[1..] + ys;
      var r := PrepareSpec(st, JoinPath(dst, xs[0]), c);
      if r.err.None? {
        PrepareDirsAppend(r.st, dst, xs[1..], ys, c);
      }
    }
  }

  /** `order` lists, once each, the keys of `dirs` that are no longer
      `remaining`. */
  ghost predicate Chosen(order: seq<string>, remaining: set<string>, dirs: set<string>) {
    && remaining <= dirs
    && (forall p :: p in order <==> p in dirs && p !in remaining)
    && (forall i, j :: 0 <= i < j < |order| ==> order[i] != order[j])
  }

  lemma ChooseNext(order: seq<string>, remaining: set<string>, dirs: set<string>, dir: string)
    requires Chosen(order, remaining, dirs) && dir in remaining
    ensures Chosen(order + [dir], remaining - {dir}, dirs)
  {
  }

  /** A partial enumeration completed with a listing of the rest of the set
      enumerates the whole set. */
  lemma CompleteOrder(order: seq<string>, remaining: set<string>, dirs: set<string>)
    requires Chosen(order, remaining, dirs)
    ensures Enumerates(order + Listing(remaining), dirs)
  {
    var rest := Listing(remaining);
    var all := order + rest;
    forall i, j | 0 <= i < j < |all|
      ensures all[i] != all[j]
    {
      if i >= |order| {
        assert all[i] == rest[i - |order|] && all[j] == rest[j - |order|];
      } else if j >= |order| {
        assert all[j] in remaining;
      }
    }
  }

  method PrepareDirs(fs: Fs, dst: Path, dirs: set<string>, c: Config) returns (err: Option<Failure>, ghost order: seq<string>)
    requires fs.Valid()
    modifies fs
    ensures fs.Valid() && Enumerates(order, dirs)
    ensures Outcome(fs.State(), err) == PrepareDirsSpec(old(fs.State()), dst, order, c)
  {
    ghost var st := fs.State();
    var remaining := dirs;
    order := [];
    while remaining != {}
      invariant fs.Valid() && Chosen(order, remaining, dirs)
      invariant PrepareDirsSpec(st, dst, order, c) == Outcome(fs.State(), None)
      decreases |remaining|
    {
      var dir :| dir in remaining;
      PrepareDirsAppend(st, dst, order, [dir], c);
      ChooseNext(order, remaining, dirs, dir);
      err := ReplicatePrepare(fs, JoinPath(dst, dir), c);
      order := order + [dir];
      remaining := remaining - {dir};
      if err.Some? {
        PrepareDirsAppend(st, dst, order, Listing(remaining), c);
        CompleteOrder(order, remaining, dirs);
        order := order + Listing(remaining);
        return;
      }
    }
    return None, order;
  }

  method ExtractAll(fs: Fs, dst: Path, files: seq<ZipEntry>) returns (err: Option<Failure>)
    requires fs.Valid()
    modifies fs
    ensures fs.Valid() && Outcome(fs.State(), err) == ExtractAllSpec(old(fs.State()), dst, files)
  {
    ghost var st := fs.State();
    var i := 0;
    while i < |files|
      invariant 0 <= i <= |files| && fs.Valid()
      invariant ExtractAllSpec(fs.State(), dst, files[i..]) == ExtractAllSpec(st, dst, files)
    {
      var f := files[i];
      assert files[i..][1..] == files[i + 1..];
      var to := JoinPath(dst, f.name);
      var mkErr := fs.MkdirAll(DirOf(to), EXTRACT_DIR_PERM);
      if mkErr.Some? {
        return Some(FsFailed(mkErr.value));
      }
      err := CreateFile(fs, FromArchive(f.content), f.perm, to);
      if err.Some? {
        return;
      }
      i := i + 1;
    }
    return None;
  }

  method ZipReplicate(fs: Fs, src: Path, dst: Path, c: Config, archives: map<string, seq<ZipEntry>>)
    returns (err: Option<Failure>, ghost order: seq<string>)
    requires fs.Valid()
    modifies fs
    ensures fs.Valid()
    ensures c.zip in archives ==> Enumerates(order, SelectedDirs(archives[c.zip], c.paths))
    ensures Outcome(fs.State(), err) == ZipReplicateSpec(old(fs.State()), dst, c, archives, order)
  {
    if c.zip !in archives {
      return Some(ZipOpenFailed(c.zip)), [];
    }
    var dirs, files := SelectEntries(archives[c.zip], c.paths);
    err, order := PrepareDirs(fs, dst, dirs, c);
    if err.Some? {
      return;
    }
    err := ExtractAll(fs, dst, files);
  }

  /** `replicate`: builds the configuration from the options, then runs the
      zip replicator when an archive is named and the file-system
      replicator otherwise. */
  ghost function ReplicateSpec(st: FsState, src: Path, dst: Path, c: Config, archives: map<string, seq<ZipEntry>>, order: seq<string>): (r: Outcome<Failure>)
    requires ValidState(st)
    ensures ValidState(r.st)
  {
    if c.zip == "" then FsReplicateSpec(st, src, dst, c)
    else ZipReplicateSpec(st, dst, c, archives, order)
  }

  method Replicate(fs: Fs, src: Path, dst: Path, options: seq<ReplicateOption>, archives: map<string, seq<ZipEntry>>)
    returns (err: Option<Failure>, ghost c: Config, ghost order: seq<string>)
    requires fs.Valid()
    modifies fs
    ensures fs.Valid()
    ensures c == DEFAULT_CONFIG.(paths := OptionPaths(options), zip := LastZip(options))
    ensures c.zip != "" && c.zip in archives ==> Enumerates(order, SelectedDirs(archives[c.zip], c.paths))
    ensures Outcome(fs.State(), err) == ReplicateSpec(old(fs.State()), src, dst, c, archives, order)
  {
    var config := NewConfig(options);
    c := config;
    if config.zip == "" {
      err := FsReplicate(fs, src, dst, config);
      order := [];
    } else {
      err, order := ZipReplicate(fs, src, dst, config, archives);
    }
  }
}
