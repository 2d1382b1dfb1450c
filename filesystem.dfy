/**
 * The file system the replication engine works on, reduced to what the
 * engine observes: a map from absolute paths (component sequences; the root
 * is the empty path and is always a directory) to directory entries, and a
 * map from inode numbers to file contents and permission bits, so that hard
 * links share both. Each operation of Go's `os` package that the engine
 * calls is a function from state to outcome; the `Fs` class applies
 * them in place.
 */
module FileSystem {
  import opened Wrappers
  import opened PathOrder

  type Bytes = seq<bv8>

  datatype Node =
    | File(inode: nat)
    | Dir(perm: nat)
    | Symlink(target: Path)

  datatype Inode = Inode(content: Bytes, perm: nat)

  datatype FsState = FsState(nodes: map<Path, Node>, inodes: map<nat, Inode>, nextInode: nat)

  /** The errno-like causes the operations report, with the path concerned. */
  datatype FsError =
    | NotExist(path: Path)
    | Exist(path: Path)
    | NotDir(path: Path)
    | IsADir(path: Path)
    | NotEmpty(path: Path)
    | NotPermitted(path: Path)
    | TooManyLinks(path: Path)
    | Busy(path: Path)

  /** The state after an operation, and the error it reported, if any. */
  datatype Outcome<E> = Outcome(st: FsState, err: Option<E>)

  /** `os.Create` opens new files with mode 0666. */
  const CREATE_PERM := 438

  /** The number of symbolic links followed before giving up. */
  const MAX_LINKS := 255

  function Parent(p: Path): Path
    requires p != []
  {
    p[..|p| - 1]
  }

  /** `filepath.Dir`: the root is its own parent. */
  function DirOf(p: Path): (d: Path)
    ensures p == [] ==> d == []
    ensures p != [] ==> d < p && |d| == |p| - 1
  {
    if p == [] then [] else Parent(p)
  }

  predicate IsDirAt(st: FsState, p: Path) {
    p == [] || (p in st.nodes && st.nodes[p].Dir?)
  }

  predicate IsFileAt(st: FsState, p: Path) {
    p in st.nodes && st.nodes[p].File? && st.nodes[p].inode in st.inodes
  }

  /** The inode behind the file at `p`. */
  function InodeAt(st: FsState, p: Path): Inode
    requires IsFileAt(st, p)
  {
    st.inodes[st.nodes[p].inode]
  }

  /** A well-formed tree: every entry hangs from a directory, every file's
      inode exists, and fresh inode numbers are unused. */
  ghost predicate ValidState(st: FsState) {
    && (forall p :: p in st.nodes ==> p != [] && IsDirAt(st, Parent(p)))
    && (forall p :: p in st.nodes && st.nodes[p].File? ==> st.nodes[p].inode in st.inodes)
    && (forall i :: i in st.inodes ==> i < st.nextInode)
  }

  predicate HasChildren(st: FsState, p: Path) {
    exists q :: q in st.nodes && p < q
  }

  /** Why an entry cannot be added at `p`: its parent is missing or is not a
      directory. */
  function ParentError(st: FsState, p: Path): (e: Option<FsError>)
    requires p != []
    ensures e.None? <==> IsDirAt(st, Parent(p))
  {
    var d := Parent(p);
    if IsDirAt(st, d) then None
    else if d in st.nodes then Some(NotDir(d))
    else Some(NotExist(d))
  }

  // ---------------------------------------------------------------------
  // Symbolic links

  /** Follows the symbolic links found at the last component of `p`, as
      opening or stat-ing `p` does: the result is the first path of the chain
      that is not a link, whether or not it exists. */
  function Resolve(st: FsState, p: Path, budget: nat): (r: Result<Path, FsError>)
    ensures r.Ok? ==> !(r.value in st.nodes && st.nodes[r.value].Symlink?)
    ensures !(p in st.nodes && st.nodes[p].Symlink?) ==> r == Ok(p)
    decreases budget
  {
    if p in st.nodes && st.nodes[p].Symlink? then
      if budget == 0 then Err(TooManyLinks(p)) else Resolve(st, st.nodes[p].target, budget - 1)
    else Ok(p)
  }

  function Follow(st: FsState, p: Path): Result<Path, FsError> {
    Resolve(st, p, MAX_LINKS)
  }

  /** The symbolic links of a state: Resolve looks at nothing else. */
  function Links(st: FsState): map<Path, Path> {
    map p | p in st.nodes && st.nodes[p].Symlink? :: st.nodes[p].target
  }

  lemma {:induction false} ResolveOnlyReadsLinks(st: FsState, st': FsState, p: Path, budget: nat)
    requires Links(st) == Links(st')
    ensures Resolve(st, p, budget) == Resolve(st', p, budget)
    decreases budget
  {
    assert (p in st.nodes && st.nodes[p].Symlink?) <==> p in Links(st);
    assert (p in st'.nodes && st'.nodes[p].Symlink?) <==> p in Links(st');
    if p in Links(st) && budget > 0 {
      ResolveOnlyReadsLinks(st, st', Links(st)[p], budget - 1);
    }
  }

  /** Writing a non-link over a non-link leaves the links as they were. */
  lemma LinksKept(st: FsState, q: Path, n: Node, inodes: map<nat, Inode>, nextInode: nat)
    requires !n.Symlink? && !(q in st.nodes && st.nodes[q].Symlink?)
    ensures Links(FsState(st.nodes[q := n], inodes, nextInode)) == Links(st)
  {
    var st' := FsState(st.nodes[q := n], inodes, nextInode);
    assert forall p :: p in Links(st') <==> p in Links(st);
  }

  /** `filepath.EvalSymlinks`, for links at the last component: the path the
      chain of links ends at, which must exist. */
  function EvalSymlinksSpec(st: FsState, p: Path): (r: Result<Path, FsError>)
    ensures r.Ok? ==> r == Follow(st, p) && (r.value == [] || r.value in st.nodes)
  {
    match Follow(st, p)
    case Err(e) => Err(e)
    case Ok(q) => if q == [] || q in st.nodes then Ok(q) else Err(NotExist(q))
  }

  // ---------------------------------------------------------------------
  // The operations

  /** `os.RemoveAll`: `p` and everything beneath it disappear. */
  function RemoveAllSpec(st: FsState, p: Path): (r: FsState)
    ensures forall q :: q in r.nodes <==> q in st.nodes && !(p <= q)
    ensures forall q :: q in r.nodes ==> r.nodes[q] == st.nodes[q]
    ensures r.inodes == st.inodes && r.nextInode == st.nextInode
    ensures ValidState(st) ==> ValidState(r)
  {
    var r := FsState(map q | q in st.nodes && !(p <= q) :: st.nodes[q], st.inodes, st.nextInode);
    assert ValidState(st) ==> ValidState(r) by {
      if ValidState(st) {
        forall q | q in r.nodes
          ensures IsDirAt(r, Parent(q))
        {
          assert Parent(q) <= q;
        }
      }
    }
    r
  }

  /** `os.Remove`: a file, a link or an empty directory is removed. */
  function RemoveSpec(st: FsState, p: Path): (r: Outcome<FsError>)
    ensures r.err.None? <==> p != [] && p in st.nodes && !HasChildren(st, p)
    ensures r.err.None? ==> r.st == FsState(st.nodes - {p}, st.inodes, st.nextInode)
    ensures r.err.Some? ==> r.st == st
    ensures ValidState(st) ==> ValidState(r.st)
  {
    if p == [] then Outcome(st, Some(Busy(p)))
    else if p !in st.nodes then Outcome(st, Some(NotExist(p)))
    else if HasChildren(st, p) then Outcome(st, Some(NotEmpty(p)))
    else
      var r := FsState(st.nodes - {p}, st.inodes, st.nextInode);
      assert ValidState(st) ==> ValidState(r) by {
        if ValidState(st) {
          forall q | q in r.nodes
            ensures IsDirAt(r, Parent(q))
          {
            assert Parent(q) < q;
          }
        }
      }
      Outcome(r, None)
  }

  /** `os.MkdirAll`: creates `p` and its missing ancestors; an existing
      non-directory on the way is an error, and nothing is created then. */
  function MkdirAllSpec(st: FsState, p: Path, perm: nat): (r: Outcome<FsError>)
    ensures r.err.None? ==> IsDirAt(r.st, p)
    ensures r.err.Some? ==> r.st == st
    ensures forall q :: q in st.nodes ==> q in r.st.nodes && r.st.nodes[q] == st.nodes[q]
    ensures forall q :: q in r.st.nodes && q !in st.nodes ==> q <= p && r.st.nodes[q] == Dir(perm)
    ensures r.st.inodes == st.inodes && r.st.nextInode == st.nextInode
    ensures ValidState(st) ==> ValidState(r.st)
    decreases |p|
  {
    if p == [] then Outcome(st, None)
    else if p in st.nodes then
      if st.nodes[p].Dir? then Outcome(st, None) else Outcome(st, Some(NotDir(p)))
    else
      var r := MkdirAllSpec(st, Parent(p), perm);
      if r.err.Some? then r
      else
        assert p !in r.st.nodes;
        Outcome(FsState(r.st.nodes[p := Dir(perm)], r.st.inodes, r.st.nextInode), None)
  }

  /** `os.Mkdir`: creates one directory whose parent exists. */
  function MkdirSpec(st: FsState, p: Path, perm: nat): (r: Outcome<FsError>)
    ensures r.err.None? <==> p != [] && p !in st.nodes && IsDirAt(st, Parent(p))
    ensures r.err.None? ==> r.st == FsState(st.nodes[p := Dir(perm)], st.inodes, st.nextInode)
    ensures r.err.Some? ==> r.st == st
    ensures ValidState(st) ==> ValidState(r.st)
  {
    if p == [] || p in st.nodes then Outcome(st, Some(Exist(p)))
    else match ParentError(st, p)
      case Some(e) => Outcome(st, Some(e))
      case None => Outcome(FsState(st.nodes[p := Dir(perm)], st.inodes, st.nextInode), None)
  }

  /** An open file: the state after opening, and the path of the file the
      handle refers to (after following links). */
  datatype Opened = Opened(st: FsState, handle: Path)

  /** What `os.Stat` reports that the core uses. */
  datatype FileInfo = FileInfo(isDir: bool, mode: nat)

  /** The permission bits `os.Stat` reports for the entry at `q`. A
      directory's are never applied: reading it fails first. */
  function PermAt(st: FsState, q: Path): nat {
    if IsFileAt(st, q) then InodeAt(st, q).perm else 0
  }

  /** `os.Create`: opens the file `p` leads to, truncating it, or creates an
      empty one with mode 0666 under a fresh inode. */
  function CreateSpec(st: FsState, p: Path): (r: Result<Opened, FsError>)
    requires ValidState(st)
    ensures r.Ok? ==> Follow(st, p) == Ok(r.value.handle)
    ensures r.Ok? ==> ValidState(r.value.st) && IsFileAt(r.value.st, r.value.handle)
    ensures r.Ok? ==> InodeAt(r.value.st, r.value.handle).content == []
    ensures r.Ok? ==> Links(r.value.st) == Links(st)
    ensures r.Ok? && r.value.handle !in st.nodes ==>
      r.value.st == FsState(st.nodes[r.value.handle := File(st.nextInode)],
                          st.inodes[st.nextInode := Inode([], CREATE_PERM)], st.nextInode + 1)
    ensures r.Ok? && r.value.handle in st.nodes ==>
      r.value.st.nodes == st.nodes && r.value.st.nextInode == st.nextInode &&
      r.value.st.inodes == st.inodes[st.nodes[r.value.handle].inode := Inode([], InodeAt(st, r.value.handle).perm)]
    ensures Follow(st, p).Ok? && IsDirAt(st, Follow(st, p).value) ==> r == Err(IsADir(Follow(st, p).value))
  {
    match Follow(st, p)
    case Err(e) => Err(e)
    case Ok(q) =>
      if IsDirAt(st, q) then Err(IsADir(q))
      else if q in st.nodes then
        var i := st.nodes[q].inode;
        var r := FsState(st.nodes, st.inodes[i := Inode([], st.inodes[i].perm)], st.nextInode);
        assert r.nodes == st.nodes;
        Ok(Opened(r, q))
      else match ParentError(st, q)
        case Some(e) => Err(e)
        case None =>
          var i := st.nextInode;
          var r := FsState(st.nodes[q := File(i)], st.inodes[i := Inode([], CREATE_PERM)], i + 1);
          LinksKept(st, q, File(i), r.inodes, r.nextInode);
          Ok(Opened(r, q))
  }

  /** Writing `content` through an open handle replaces the file's data. */
  function WriteSpec(st: FsState, handle: Path, content: Bytes): (r: FsState)
    requires IsFileAt(st, handle)
    ensures IsFileAt(r, handle) && InodeAt(r, handle) == Inode(content, InodeAt(st, handle).perm)
    ensures r.nodes == st.nodes && r.nextInode == st.nextInode && Links(r) == Links(st)
    ensures forall i :: i in st.inodes && i != st.nodes[handle].inode ==> i in r.inodes && r.inodes[i] == st.inodes[i]
    ensures ValidState(st) ==> ValidState(r)
  {
    var i := st.nodes[handle].inode;
    FsState(st.nodes, st.inodes[i := Inode(content, st.inodes[i].perm)], st.nextInode)
  }

  /** Reading a whole file through a handle opened with `os.Open`; reading a
      directory fails. */
  function ReadSpec(st: FsState, handle: Path): (r: Result<Bytes, FsError>)
    ensures IsDirAt(st, handle) ==> r == Err(IsADir(handle))
    ensures handle != [] && IsFileAt(st, handle) ==> r == Ok(InodeAt(st, handle).content)
  {
    if IsDirAt(st, handle) then Err(IsADir(handle))
    else if IsFileAt(st, handle) then Ok(InodeAt(st, handle).content)
    else Err(NotExist(handle))
  }

  /** `os.Chmod`: sets the permission bits of what `p` leads to. */
  function ChmodSpec(st: FsState, p: Path, perm: nat): (r: Outcome<FsError>)
    requires ValidState(st)
    ensures ValidState(r.st) && r.st.nextInode == st.nextInode && Links(r.st) == Links(st)
    ensures r.err.Some? ==> r.st == st
    ensures Follow(st, p).Ok? && IsFileAt(st, Follow(st, p).value) ==>
      var q := Follow(st, p).value;
      r.err.None? && r.st.nodes == st.nodes &&
      r.st.inodes == st.inodes[st.nodes[q].inode := Inode(InodeAt(st, q).content, perm)]
  {
    match Follow(st, p)
    case Err(e) => Outcome(st, Some(e))
    case Ok(q) =>
      if q == [] then Outcome(st, None)
      else if q !in st.nodes then Outcome(st, Some(NotExist(q)))
      else match st.nodes[q]
        case Dir(_) =>
          var r := FsState(st.nodes[q := Dir(perm)], st.inodes, st.nextInode);
          LinksKept(st, q, Dir(perm), r.inodes, r.nextInode);
          Outcome(r, None)
        case File(i) => Outcome(FsState(st.nodes, st.inodes[i := Inode(st.inodes[i].content, perm)], st.nextInode), None)
  }

  /** `os.Link`: a second name for the entry at `src` (links are not
      followed), sharing its inode. */
  function LinkSpec(st: FsState, src: Path, dst: Path): (r: Outcome<FsError>)
    ensures r.err.None? ==>
      src in st.nodes && !st.nodes[src].Dir? && dst != [] && dst !in st.nodes &&
      r.st == FsState(st.nodes[dst := st.nodes[src]], st.inodes, st.nextInode)
    ensures r.err.Some? ==> r.st == st
    ensures IsDirAt(st, src) ==> r.err.Some?
    ensures ValidState(st) ==> ValidState(r.st)
  {
    if src != [] && src !in st.nodes then Outcome(st, Some(NotExist(src)))
    else if dst == [] || dst in st.nodes then Outcome(st, Some(Exist(dst)))
    else match ParentError(st, dst)
      case Some(e) => Outcome(st, Some(e))
      case None =>
        if IsDirAt(st, src) then Outcome(st, Some(NotPermitted(src)))
        else Outcome(FsState(st.nodes[dst := st.nodes[src]], st.inodes, st.nextInode), None)
  }

  /** `os.Symlink`: a new link at `p` pointing at `target`, which need not
      exist. */
  function SymlinkSpec(st: FsState, target: Path, p: Path): (r: Outcome<FsError>)
    ensures r.err.None? <==> p != [] && p !in st.nodes && IsDirAt(st, Parent(p))
    ensures r.err.None? ==> r.st == FsState(st.nodes[p := Symlink(target)], st.inodes, st.nextInode)
    ensures r.err.Some? ==> r.st == st
    ensures ValidState(st) ==> ValidState(r.st)
  {
    if p == [] || p in st.nodes then Outcome(st, Some(Exist(p)))
    else match ParentError(st, p)
      case Some(e) => Outcome(st, Some(e))
      case None => Outcome(FsState(st.nodes[p := Symlink(target)], st.inodes, st.nextInode), None)
  }

  /** The entries `filepath.Walk` passes to its callback under `root` other
      than directories: files, and links, which Walk does not follow. */
  function WalkSet(st: FsState, root: Path): set<Path> {
    set p | p in st.nodes && root < p && !st.nodes[p].Dir?
  }

  lemma Regroup(done: seq<Path>, m: Path, rest: seq<Path>)
    ensures done + ([m] + rest) == done + [m] + rest
  {
  }

  /** The file system of the running process. */
  class Fs {
    var nodes: map<Path, Node>
    var inodes: map<nat, Inode>
    var nextInode: nat

    function State(): FsState
      reads this
    {
      FsState(nodes, inodes, nextInode)
    }

    ghost predicate Valid()
      reads this
    {
      ValidState(State())
    }

    constructor (st: FsState)
      requires ValidState(st)
      ensures State() == st && Valid()
    {
      nodes, inodes, nextInode := st.nodes, st.inodes, st.nextInode;
    }

    method Set(st: FsState)
      modifies this
      ensures State() == st
    {
      nodes, inodes, nextInode := st.nodes, st.inodes, st.nextInode;
    }

    method RemoveAll(p: Path)
      requires Valid()
      modifies this
      ensures Valid() && State() == RemoveAllSpec(old(State()), p)
    {
      Set(RemoveAllSpec(State(), p));
    }

    method Remove(p: Path) returns (err: Option<FsError>)
      requires Valid()
      modifies this
      ensures Valid() && Outcome(State(), err) == RemoveSpec(old(State()), p)
    {
      var r := RemoveSpec(State(), p);
      Set(r.st);
      err := r.err;
    }

    method MkdirAll(p: Path, perm: nat) returns (err: Option<FsError>)
      requires Valid()
      modifies this
      ensures Valid() && Outcome(State(), err) == MkdirAllSpec(old(State()), p, perm)
    {
      var r := MkdirAllSpec(State(), p, perm);
      Set(r.st);
      err := r.err;
    }

    method Mkdir(p: Path, perm: nat) returns (err: Option<FsError>)
      requires Valid()
      modifies this
      ensures Valid() && Outcome(State(), err) == MkdirSpec(old(State()), p, perm)
    {
      var r := MkdirSpec(State(), p, perm);
      Set(r.st);
      err := r.err;
    }

    method Create(p: Path) returns (handle: Path, err: Option<FsError>)
      requires Valid()
      modifies this
      ensures Valid()
      ensures err.None? ==> CreateSpec(old(State()), p) == Ok(Opened(State(), handle))
      ensures err.Some? ==> CreateSpec(old(State()), p) == Err(err.value) && State() == old(State())
    {
      match CreateSpec(State(), p)
      case Ok(o) =>
        Set(o.st);
        handle, err := o.handle, None;
      case Err(e) =>
        handle, err := p, Some(e);
    }

    method Write(handle: Path, content: Bytes)
      requires Valid() && IsFileAt(State(), handle)
      modifies this
      ensures Valid() && State() == WriteSpec(old(State()), handle, content)
    {
      Set(WriteSpec(State(), handle, content));
    }

    method Read(handle: Path) returns (r: Result<Bytes, FsError>)
      ensures r == ReadSpec(State(), handle)
    {
      r := ReadSpec(State(), handle);
    }

    method Chmod(p: Path, perm: nat) returns (err: Option<FsError>)
      requires Valid()
      modifies this
      ensures Valid() && Outcome(State(), err) == ChmodSpec(old(State()), p, perm)
    {
      var r := ChmodSpec(State(), p, perm);
      Set(r.st);
      err := r.err;
    }

    method Link(src: Path, dst: Path) returns (err: Option<FsError>)
      requires Valid()
      modifies this
      ensures Valid() && Outcome(State(), err) == LinkSpec(old(State()), src, dst)
    {
      var r := LinkSpec(State(), src, dst);
      Set(r.st);
      err := r.err;
    }

    method Symlink(target: Path, p: Path) returns (err: Option<FsError>)
      requires Valid()
      modifies this
      ensures Valid() && Outcome(State(), err) == SymlinkSpec(old(State()), target, p)
    {
      var r := SymlinkSpec(State(), target, p);
      Set(r.st);
      err := r.err;
    }

    method EvalSymlinks(p: Path) returns (r: Result<Path, FsError>)
      ensures r == EvalSymlinksSpec(State(), p)
    {
      r := EvalSymlinksSpec(State(), p);
    }

    /** `os.Stat`: whether the entry `p` leads to is a directory, and its
        permission bits. It fails where EvalSymlinks fails. */
    method Stat(p: Path) returns (r: Result<FileInfo, FsError>)
      ensures EvalSymlinksSpec(State(), p).Err? ==> r == Err(EvalSymlinksSpec(State(), p).error)
      ensures EvalSymlinksSpec(State(), p).Ok? ==>
        var q := EvalSymlinksSpec(State(), p).value;
        r == Ok(FileInfo(IsDirAt(State(), q), PermAt(State(), q)))
    {
      match EvalSymlinksSpec(State(), p)
      case Err(e) => r := Err(e);
      case Ok(q) => r := Ok(FileInfo(IsDirAt(State(), q), PermAt(State(), q)));
    }

    /** The entries `filepath.Walk` visits under `root` that are not
        directories, in the lexical order it visits them. */
    method Walk(root: Path) returns (entries: seq<Path>)
      ensures entries == Sorted(WalkSet(State(), root))
    {
      var all := WalkSet(State(), root);
      var remaining := all;
      entries := [];
      while remaining != {}
        invariant entries + Sorted(remaining) == Sorted(all)
        decreases |remaining|
      {
        var m := LeastOf(remaining);
        SortedFirst(remaining);
        Regroup(entries, m, Sorted(remaining - {m}));
        entries := entries + [m];
        remaining := remaining - {m};
      }
    }
  }
}
