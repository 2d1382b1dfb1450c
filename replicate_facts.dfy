/**
 * What the replication engine promises, stated over the functions that
 * specify its steps.
 */
module ReplicateFacts {
  import opened Wrappers
  import opened PathOrder
  import opened GoStrings
  import opened FileSystem
  import opened Replicate

  // ---------------------------------------------------------------------
  // Modes

  predicate KnownMode(mode: int) {
    mode == COPY_MODE || mode == HARDLINK_MODE || mode == SOFTLINK_MODE
  }

  /** A file mode other than copy, hard link or symlink fails after the
      preparation step, touching nothing else. */
  lemma InvalidFileMode(st: FsState, src: Path, dst: Path, c: Config)
    requires ValidState(st) && !KnownMode(c.fileMode)
    ensures var p := PrepareSpec(st, dst, c);
      ReplicateFileSpec(st, src, dst, c) == if p.err.Some? then p else Outcome(p.st, Some(InvalidMode(c.fileMode)))
  {
  }

  /** An invalid directory mode fails the same way, but the error carries
      the file mode. */
  lemma InvalidDirModeReportsFileMode(st: FsState, src: Path, dst: Path, c: Config)
    requires ValidState(st) && !KnownMode(c.dirMode)
    ensures var p := PrepareSpec(st, dst, c);
      ReplicateDirSpec(st, src, dst, c) == if p.err.Some? then p else Outcome(p.st, Some(InvalidMode(c.fileMode)))
  {
  }

  /** Hard-link mode gives `dst` the very entry at `src`: for a file, the
      same inode, so content and permission bits are shared. */
  lemma HardlinkSharesEntry(st: FsState, src: Path, dst: Path, c: Config)
    requires ValidState(st) && c.fileMode == HARDLINK_MODE
    ensures var r := ReplicateFileSpec(st, src, dst, c);
      r.err.None? ==> src in st.nodes && !st.nodes[src].Dir? && dst in r.st.nodes && r.st.nodes[dst] == st.nodes[src]
  {
    var p := PrepareSpec(st, dst, c);
    if p.err.None? {
      var l := LinkSpec(p.st, src, dst);
      if l.err.None? {
        assert src != dst;
      }
    }
  }

  /** Symlink mode makes `dst` a link to `src`, which need not exist. */
  lemma SoftlinkPointsAtSource(st: FsState, src: Path, dst: Path, c: Config)
    requires ValidState(st) && c.fileMode == SOFTLINK_MODE
    ensures var r := ReplicateFileSpec(st, src, dst, c);
      r.err.None? ==> dst in r.st.nodes && r.st.nodes[dst] == Symlink(src)
  {
  }

  /** Copying a regular file to a free place whose parent is a directory
      makes a new file there with the source's content and permission bits. */
  lemma CopyToFreePlace(s: FsState, src: Path, dst: Path)
    requires ValidState(s) && IsFileAt(s, src) && src != dst
    requires dst != [] && dst !in s.nodes && IsDirAt(s, Parent(dst))
    ensures var r := CopyFileSpec(s, src, dst);
      && r.err.None?
      && r.st.nodes == s.nodes[dst := File(s.nextInode)]
      && IsFileAt(r.st, dst) && InodeAt(r.st, dst) == InodeAt(s, src)
      && FilesKeptBut(s, r.st, dst)
  {
    assert EvalSymlinksSpec(s, src) == Ok(src);
    assert Follow(s, dst) == Ok(dst);
    var o := CreateSpec(s, dst).value;
    assert o.st.nodes[src] == s.nodes[src];
    assert ReadAll(o.st, FromFile(src)) == Ok(InodeAt(s, src).content);
    var r := CopyFileSpec(s, src, dst);
    forall q | IsFileAt(s, q) && q != dst
      ensures IsFileAt(r.st, q) && InodeAt(r.st, q) == InodeAt(s, q)
    {
      assert o.st.nodes[q] == s.nodes[q];
    }
  }

  /** Copy mode, with `removeFirst`, from a regular file: the copy succeeds
      exactly when the parent of `dst` can be made, and then `dst` is a new
      file, under a fresh inode, with the content and permission bits of
      `src`, which is left as it was. */
  lemma CopyFileCopies(st: FsState, src: Path, dst: Path, c: Config)
    requires ValidState(st) && c.fileMode == COPY_MODE && c.removeFirst
    requires IsFileAt(st, src) && src != dst && dst != [] && !HasChildren(st, dst)
    ensures var r := ReplicateFileSpec(st, src, dst, c);
      && (r.err.None? <==> MkdirAllSpec(st, DirOf(dst), PREPARE_DIR_PERM).err.None?)
      && (r.err.None? ==>
            && r.st.nodes[dst] == File(st.nextInode)
            && IsFileAt(r.st, dst) && InodeAt(r.st, dst) == InodeAt(st, src)
            && r.st.nodes[src] == st.nodes[src] && IsFileAt(r.st, src) && InodeAt(r.st, src) == InodeAt(st, src))
  {
    var p := PrepareSpec(st, dst, c);
    if p.err.None? {
      assert p.st.nodes[src] == st.nodes[src];
      assert dst !in p.st.nodes;
      CopyToFreePlace(p.st, src, dst);
    }
  }

  // ---------------------------------------------------------------------
  // Copying a directory

  /** Every regular file of `a`, except one at `except`, is still a file in
      `b` with the same content and permission bits. */
  ghost predicate FilesKeptBut(a: FsState, b: FsState, except: Path) {
    forall q :: IsFileAt(a, q) && q != except ==> IsFileAt(b, q) && InodeAt(b, q) == InodeAt(a, q)
  }

  /** Only a directory has entries beneath it. */
  lemma {:induction false} ChildrenUnderDir(st: FsState, p: Path, q: Path)
    requires ValidState(st) && p != [] && q in st.nodes && p < q
    ensures p in st.nodes && st.nodes[p].Dir?
    decreases |q|
  {
    var d := Parent(q);
    assert IsDirAt(st, d);
    assert p <= d;
    if p != d {
      ChildrenUnderDir(st, p, d);
    }
  }

  /** One step of the directory copy: in copy mode with `removeFirst`,
      replicating the regular file `e` to `t` either fails or leaves at `t`
      a file with `e`'s content and permission bits, every other regular
      file as it was. */
  lemma CopyEntryInto(st: FsState, e: Path, t: Path, c: Config)
    requires ValidState(st) && c.fileMode == COPY_MODE && c.removeFirst
    requires IsFileAt(st, e) && e != t && t != []
    ensures var r := ReplicateFileSpec(st, e, t, c);
      r.err.None? ==> IsFileAt(r.st, t) && InodeAt(r.st, t) == InodeAt(st, e) && FilesKeptBut(st, r.st, t)
  {
    var p := PrepareSpec(st, t, c);
    if p.err.None? {
      assert FilesKeptBut(st, p.st, t);
      assert p.st.nodes[e] == st.nodes[e];
      if t in p.st.nodes {
        var q :| q in p.st.nodes && t < q;
        ChildrenUnderDir(p.st, t, q);
        assert Follow(p.st, e) == Ok(e);
        assert Follow(p.st, t) == Ok(t);
      } else {
        CopyToFreePlace(p.st, e, t);
      }
    }
  }

  /** Where the walk entry `e` beneath `src` is copied to. */
  function Relocated(src: Path, dst: Path, e: Path): Path
    requires src <= e
  {
    dst + e[|src|..]
  }

  /** The places the entries are copied to. */
  ghost function Targets(src: Path, dst: Path, entries: seq<Path>): set<Path>
    requires forall i :: 0 <= i < |entries| ==> src < entries[i]
  {
    set i | 0 <= i < |entries| :: Relocated(src, dst, entries[i])
  }

  /** Two entries beneath `src` go to the same place only if they are the
      same entry; and when `src` and `dst` do not nest, an entry's place is
      beneath `dst` and the entry itself is not. */
  lemma RelocatedApart(src: Path, dst: Path, e1: Path, e2: Path)
    requires src <= e1 && src <= e2 && !(src <= dst) && !(dst <= src)
    ensures Relocated(src, dst, e1) == Relocated(src, dst, e2) ==> e1 == e2
    ensures dst <= Relocated(src, dst, e1) && !(dst <= e1)
  {
    var t1, t2 := Relocated(src, dst, e1), Relocated(src, dst, e2);
    if t1 == t2 {
      assert e1[|src|..] == t1[|dst|..] == e2[|src|..];
      assert e1 == src + e1[|src|..] && e2 == src + e2[|src|..];
    }
  }

  lemma TargetsOfTail(src: Path, dst: Path, entries: seq<Path>)
    requires entries != [] && forall i :: 0 <= i < |entries| ==> src < entries[i]
    ensures Targets(src, dst, entries) == {Relocated(src, dst, entries[0])} + Targets(src, dst, entries[1..])
  {
    var rest := entries[1..];
    forall x | x in Targets(src, dst, rest) ensures x in Targets(src, dst, entries) {
      var j :| 0 <= j < |rest| && x == Relocated(src, dst, rest[j]);
      assert rest[j] == entries[j + 1];
    }
    forall x | x in Targets(src, dst, entries) && x != Relocated(src, dst, entries[0])
      ensures x in Targets(src, dst, rest)
    {
      var j :| 0 <= j < |entries| && x == Relocated(src, dst, entries[j]);
      assert entries[j] == rest[j - 1];
    }
  }

  /** Each entry's place holds a file with the content and permission bits
      the entry had in `st`. */
  ghost predicate CopiedAll(st: FsState, r: FsState, src: Path, dst: Path, entries: seq<Path>)
    requires forall i :: 0 <= i < |entries| ==> src < entries[i] && IsFileAt(st, entries[i])
  {
    forall i :: 0 <= i < |entries| ==>
      IsFileAt(r, Relocated(src, dst, entries[i])) &&
      InodeAt(r, Relocated(src, dst, entries[i])) == InodeAt(st, entries[i])
  }

  /** Every regular file of `st` at none of the entries' places is as it
      was. */
  ghost predicate KeptElsewhere(st: FsState, r: FsState, src: Path, dst: Path, entries: seq<Path>)
    requires forall i :: 0 <= i < |entries| ==> src < entries[i]
  {
    forall q :: IsFileAt(st, q) && q !in Targets(src, dst, entries) ==>
      IsFileAt(r, q) && InodeAt(r, q) == InodeAt(st, q)
  }

  /** The copy loop of `replicateDir`: when it succeeds, the file at each
      entry's place beneath `dst` has that entry's content and permission
      bits, and every regular file at no such place is as it was. */
  lemma {:induction false} CopyEntriesCopies(st: FsState, src: Path, dst: Path, entries: seq<Path>, c: Config)
    requires ValidState(st) && c.fileMode == COPY_MODE && c.removeFirst
    requires !(src <= dst) && !(dst <= src)
    requires forall i :: 0 <= i < |entries| ==> src < entries[i] && IsFileAt(st, entries[i])
    requires forall i, j :: 0 <= i < j < |entries| ==> entries[i] != entries[j]
    ensures var r := CopyEntriesSpec(st, src, dst, entries, c);
      r.err.None? ==> CopiedAll(st, r.st, src, dst, entries) && KeptElsewhere(st, r.st, src, dst, entries)
    decreases |entries|
  {
    if entries != [] && CopyEntriesSpec(st, src, dst, entries, c).err.None? {
      var st1 := FirstCopy(st, src, dst, entries, c);
      CopyEntriesCopies(st1, src, dst, entries[1..], c);
      CopyStep(st, st1, CopyEntriesSpec(st1, src, dst, entries[1..], c).st, src, dst, entries);
    }
  }

  /** The first step of the copy loop, with what the rest of the loop needs
      from it. */
  lemma FirstCopy(st: FsState, src: Path, dst: Path, entries: seq<Path>, c: Config) returns (st1: FsState)
    requires ValidState(st) && c.fileMode == COPY_MODE && c.removeFirst
    requires !(src <= dst) && !(dst <= src) && entries != []
    requires forall i :: 0 <= i < |entries| ==> src < entries[i] && IsFileAt(st, entries[i])
    requires CopyEntriesSpec(st, src, dst, entries, c).err.None?
    requires forall i, j :: 0 <= i < j < |entries| ==> entries[i] != entries[j]
    ensures ValidState(st1)
    ensures CopyEntriesSpec(st, src, dst, entries, c) == CopyEntriesSpec(st1, src, dst, entries[1..], c)
    ensures var t := Relocated(src, dst, entries[0]);
      var rest := entries[1..];
      && Targets(src, dst, entries) == {t} + Targets(src, dst, rest)
      && IsFileAt(st1, t) && InodeAt(st1, t) == InodeAt(st, entries[0])
      && FilesKeptBut(st, st1, t)
      && t !in Targets(src, dst, rest)
      && (forall i :: 0 <= i < |rest| ==> IsFileAt(st1, rest[i]) && InodeAt(st1, rest[i]) == InodeAt(st, rest[i]))
    ensures var rest := entries[1..];
      && (forall i :: 0 <= i < |rest| ==> src < rest[i] && IsFileAt(st1, rest[i]))
      && (forall i, j :: 0 <= i < j < |rest| ==> rest[i] != rest[j])
  {
    var e := entries[0];
    var t := Relocated(src, dst, e);
    RelocatedApart(src, dst, e, e);
    CopyEntryInto(st, e, t, c);
    TargetsOfTail(src, dst, entries);
    TailApart(src, entries);
    st1 := ReplicateFileSpec(st, e, t, c).st;
    SourcesKept(st, st1, src, dst, e, entries[1..]);
  }

  lemma TailApart(src: Path, entries: seq<Path>)
    requires entries != [] && forall i :: 0 <= i < |entries| ==> src < entries[i]
    requires forall i, j :: 0 <= i < j < |entries| ==> entries[i] != entries[j]
    ensures var rest := entries[1..];
      && (forall i :: 0 <= i < |rest| ==> src < rest[i] && rest[i] != entries[0])
      && (forall i, j :: 0 <= i < j < |rest| ==> rest[i] != rest[j])
  {
    var rest := entries[1..];
    forall i | 0 <= i < |rest| ensures src < rest[i] && rest[i] != entries[0] {
      assert rest[i] == entries[i + 1];
    }
    forall i, j | 0 <= i < j < |rest| ensures rest[i] != rest[j] {
      assert rest[i] == entries[i + 1] && rest[j] == entries[j + 1];
    }
  }

  /** After the first entry is copied to its place `t`, the later entries
      are still the files they were, and go to other places. */
  lemma SourcesKept(st: FsState, st1: FsState, src: Path, dst: Path, e: Path, rest: seq<Path>)
    requires !(src <= dst) && !(dst <= src) && src <= e
    requires forall i :: 0 <= i < |rest| ==> src < rest[i] && IsFileAt(st, rest[i]) && rest[i] != e
    requires FilesKeptBut(st, st1, Relocated(src, dst, e))
    ensures forall i :: 0 <= i < |rest| ==> IsFileAt(st1, rest[i]) && InodeAt(st1, rest[i]) == InodeAt(st, rest[i])
    ensures Relocated(src, dst, e) !in Targets(src, dst, rest)
  {
    forall j | 0 <= j < |rest|
      ensures IsFileAt(st1, rest[j]) && InodeAt(st1, rest[j]) == InodeAt(st, rest[j])
      ensures Relocated(src, dst, e) != Relocated(src, dst, rest[j])
    {
      RelocatedApart(src, dst, e, rest[j]);
      RelocatedApart(src, dst, rest[j], rest[j]);
    }
  }

  /** Puts the first copy and the rest of the loop together. */
  lemma CopyStep(st: FsState, st1: FsState, r: FsState, src: Path, dst: Path, entries: seq<Path>)
    requires entries != []
    requires forall i :: 0 <= i < |entries| ==> src < entries[i] && IsFileAt(st, entries[i])
    requires var t := Relocated(src, dst, entries[0]);
      && IsFileAt(st1, t) && InodeAt(st1, t) == InodeAt(st, entries[0])
      && FilesKeptBut(st, st1, t)
      && t !in Targets(src, dst, entries[1..])
      && Targets(src, dst, entries) == {t} + Targets(src, dst, entries[1..])
    requires var rest := entries[1..];
      forall i :: 0 <= i < |rest| ==> IsFileAt(st1, rest[i]) && InodeAt(st1, rest[i]) == InodeAt(st, rest[i])
    requires CopiedAll(st1, r, src, dst, entries[1..]) && KeptElsewhere(st1, r, src, dst, entries[1..])
    ensures CopiedAll(st, r, src, dst, entries) && KeptElsewhere(st, r, src, dst, entries)
  {
    var rest := entries[1..];
    forall i | 0 <= i < |entries|
      ensures IsFileAt(r, Relocated(src, dst, entries[i]))
      ensures InodeAt(r, Relocated(src, dst, entries[i])) == InodeAt(st, entries[i])
    {
      if i > 0 {
        assert entries[i] == rest[i - 1];
      }
    }
  }

  /** The walk's entries in order: each entry beneath `src` once, and all
      of them regular files when `src` holds no links. */
  lemma WalkEntries(st: FsState, src: Path)
    requires forall q :: q in WalkSet(st, src) ==> IsFileAt(st, q)
    ensures forall i :: 0 <= i < |Sorted(WalkSet(st, src))| ==>
      src < Sorted(WalkSet(st, src))[i] && IsFileAt(st, Sorted(WalkSet(st, src))[i])
    ensures forall i, j :: 0 <= i < j < |Sorted(WalkSet(st, src))| ==>
      Sorted(WalkSet(st, src))[i] != Sorted(WalkSet(st, src))[j]
  {
    var entries := Sorted(WalkSet(st, src));
    forall i | 0 <= i < |entries| ensures src < entries[i] && IsFileAt(st, entries[i]) {
      assert entries[i] in WalkSet(st, src);
    }
    forall i, j | 0 <= i < j < |entries| ensures entries[i] != entries[j] {
      PathLessIrreflexive(entries[i]);
    }
  }

  /** Making the parent of `dst` and removing `dst` touch nothing beneath
      `src` when the two do not nest. */
  lemma PrepareKeepsSource(st: FsState, src: Path, dst: Path, c: Config)
    requires ValidState(st) && !(src <= dst) && !(dst <= src)
    ensures WalkSet(PrepareSpec(st, dst, c).st, src) == WalkSet(st, src)
    ensures forall q :: src < q && IsFileAt(st, q) ==>
      IsFileAt(PrepareSpec(st, dst, c).st, q) && InodeAt(PrepareSpec(st, dst, c).st, q) == InodeAt(st, q)
  {
    var p := PrepareSpec(st, dst, c);
    forall q | src < q
      ensures q in p.st.nodes <==> q in st.nodes
      ensures q in st.nodes ==> p.st.nodes[q] == st.nodes[q]
    {
      RelocatedApart(src, dst, q, q);
    }
  }

  /** `replicateDir` in copy mode, with `removeFirst`, from a directory
      holding no links, to a place that does not nest with it: when it
      succeeds, every regular file beneath `src` has a copy at the same
      relative place beneath `dst`, with its content and permission bits. */
  lemma CopyDirCopies(st: FsState, src: Path, dst: Path, c: Config)
    requires ValidState(st) && c.dirMode == COPY_MODE && c.fileMode == COPY_MODE && c.removeFirst
    requires !(src <= dst) && !(dst <= src)
    requires forall q :: q in WalkSet(st, src) ==> IsFileAt(st, q)
    ensures var r := ReplicateDirSpec(st, src, dst, c);
      r.err.None? ==> forall q :: q in WalkSet(st, src) ==>
        IsFileAt(r.st, Relocated(src, dst, q)) && InodeAt(r.st, Relocated(src, dst, q)) == InodeAt(st, q)
  {
    if ReplicateDirSpec(st, src, dst, c).err.None? {
      var s := PreparedForCopy(st, src, dst, c);
      CopyWalk(st, s, src, dst, c);
    }
  }

  /** The state the copy loop of `replicateDir` starts from. */
  lemma PreparedForCopy(st: FsState, src: Path, dst: Path, c: Config) returns (s: FsState)
    requires ValidState(st) && c.dirMode == COPY_MODE && !(src <= dst) && !(dst <= src)
    requires forall q :: q in WalkSet(st, src) ==> IsFileAt(st, q)
    requires ReplicateDirSpec(st, src, dst, c).err.None?
    ensures ValidState(s)
    ensures WalkSet(s, src) == WalkSet(st, src)
    ensures forall q :: q in WalkSet(s, src) ==> IsFileAt(s, q) && InodeAt(s, q) == InodeAt(st, q)
    ensures forall i :: 0 <= i < |Sorted(WalkSet(s, src))| ==> src < Sorted(WalkSet(s, src))[i]
    ensures ReplicateDirSpec(st, src, dst, c) == CopyEntriesSpec(s, src, dst, Sorted(WalkSet(s, src)), c)
  {
    PrepareKeepsSource(st, src, dst, c);
    assert forall q :: q in WalkSet(PrepareSpec(st, dst, c).st, src) ==> IsFileAt(PrepareSpec(st, dst, c).st, q);
    WalkEntries(PrepareSpec(st, dst, c).st, src);
    s := PrepareSpec(st, dst, c).st;
  }

  /** The copy loop run over the walk of `s`, stated for the walk of `st`,
      which has the same entries with the same content. */
  lemma CopyWalk(st: FsState, s: FsState, src: Path, dst: Path, c: Config)
    requires ValidState(s) && c.fileMode == COPY_MODE && c.removeFirst && !(src <= dst) && !(dst <= src)
    requires WalkSet(s, src) == WalkSet(st, src)
    requires forall q :: q in WalkSet(st, src) ==> IsFileAt(st, q)
    requires forall q :: q in WalkSet(s, src) ==> IsFileAt(s, q) && InodeAt(s, q) == InodeAt(st, q)
    requires forall i :: 0 <= i < |Sorted(WalkSet(s, src))| ==> src < Sorted(WalkSet(s, src))[i]
    ensures var r := CopyEntriesSpec(s, src, dst, Sorted(WalkSet(s, src)), c);
      r.err.None? ==> forall q :: q in WalkSet(st, src) ==>
        IsFileAt(r.st, Relocated(src, dst, q)) && InodeAt(r.st, Relocated(src, dst, q)) == InodeAt(st, q)
  {
    WalkEntries(s, src);
    var entries := Sorted(WalkSet(s, src));
    CopyEntriesCopies(s, src, dst, entries, c);
    var r := CopyEntriesSpec(s, src, dst, entries, c);
    if r.err.None? {
      forall q | q in WalkSet(st, src)
        ensures IsFileAt(r.st, Relocated(src, dst, q)) && InodeAt(r.st, Relocated(src, dst, q)) == InodeAt(st, q)
      {
        var i :| 0 <= i < |entries| && entries[i] == q;
      }
    }
  }

  /** `replicateTree` in copy mode on a directory: the same copies, whatever
      stood at `dst` before. */
  lemma CopyTreeCopies(st: FsState, src: Path, dst: Path, c: Config)
    requires ValidState(st) && c.dirMode == COPY_MODE && c.fileMode == COPY_MODE && c.removeFirst
    requires !(src <= dst) && !(dst <= src)
    requires src in st.nodes && st.nodes[src].Dir?
    requires forall q :: q in WalkSet(st, src) ==> IsFileAt(st, q)
    ensures var r := ReplicateTreeSpec(st, src, dst, c);
      r.err.None? ==> forall q :: q in WalkSet(st, src) ==>
        IsFileAt(r.st, Relocated(src, dst, q)) && InodeAt(r.st, Relocated(src, dst, q)) == InodeAt(st, q)
  {
    var cleared := RemoveAllSpec(st, dst);
    forall q | src <= q
      ensures q in cleared.nodes <==> q in st.nodes
    {
      RelocatedApart(src, dst, q, q);
    }
    assert EvalSymlinksSpec(cleared, src) == Ok(src);
    assert WalkSet(cleared, src) == WalkSet(st, src);
    CopyDirCopies(cleared, src, dst, c);
  }

  // ---------------------------------------------------------------------
  // Trees and paths

  /** `replicateTree` clears `dst` whatever `removeFirst` says: two states
      that differ only at or beneath `dst` lead to the same outcome. */
  lemma TreeIgnoresOldDestination(st1: FsState, st2: FsState, src: Path, dst: Path, c: Config)
    requires ValidState(st1) && ValidState(st2)
    requires st1.inodes == st2.inodes && st1.nextInode == st2.nextInode
    requires forall q :: !(dst <= q) ==> (q in st1.nodes <==> q in st2.nodes)
    requires forall q :: !(dst <= q) && q in st1.nodes ==> st1.nodes[q] == st2.nodes[q]
    ensures ReplicateTreeSpec(st1, src, dst, c) == ReplicateTreeSpec(st2, src, dst, c)
  {
    ClearedAlike(st1, st2, dst);
  }

  lemma ClearedAlike(st1: FsState, st2: FsState, dst: Path)
    requires st1.inodes == st2.inodes && st1.nextInode == st2.nextInode
    requires forall q :: !(dst <= q) ==> (q in st1.nodes <==> q in st2.nodes)
    requires forall q :: !(dst <= q) && q in st1.nodes ==> st1.nodes[q] == st2.nodes[q]
    ensures RemoveAllSpec(st1, dst) == RemoveAllSpec(st2, dst)
  {
    var c1, c2 := RemoveAllSpec(st1, dst), RemoveAllSpec(st2, dst);
    assert forall q :: q in c1.nodes <==> q in c2.nodes;
    assert c1.nodes == c2.nodes;
  }

  /** The per-path loop runs the paths in order and stops at the first
      failure: running `xs + ys` is running `xs`, then, only if that
      succeeded, `ys`. */
  lemma {:induction false} PathsInOrder(st: FsState, src: Path, dst: Path, xs: seq<string>, ys: seq<string>, c: Config)
    requires ValidState(st)
    ensures PathsSpec(st, src, dst, xs + ys, c) ==
      var r := PathsSpec(st, src, dst, xs, c);
      if r.err.Some? then r else PathsSpec(r.st, src, dst, ys, c)
    decreases |xs|
  {
    if xs == [] {
      assert xs + ys == ys;
    } else {
      assert (xs + ys)[0] == xs[0] && (xs + ys)[1..] == xs[1..] + ys;
      var r := ReplicateTreeSpec(st, JoinPath(src, xs[0]), JoinPath(dst, xs[0]), c);
      if r.err.None? {
        PathsInOrder(r.st, src, dst, xs[1..], ys, c);
      }
    }
  }

  /** A path whose tree fails ends the run with that failure: no later path
      is replicated. */
  lemma PathFailureStops(st: FsState, src: Path, dst: Path, c: Config, done: seq<string>, rest: seq<string>)
    requires ValidState(st) && c.paths == done + rest && rest != []
    requires PathsSpec(st, src, dst, done, c).err.None?
    requires ReplicateTreeSpec(PathsSpec(st, src, dst, done, c).st, JoinPath(src, rest[0]), JoinPath(dst, rest[0]), c).err.Some?
    ensures FsReplicateSpec(st, src, dst, c) ==
      ReplicateTreeSpec(PathsSpec(st, src, dst, done, c).st, JoinPath(src, rest[0]), JoinPath(dst, rest[0]), c)
  {
    PathsInOrder(st, src, dst, done, rest, c);
  }

  // ---------------------------------------------------------------------
  // Zip selection

  /** The selection keeps each file entry whose name some path prefixes, as
      many times as it occurs, and nothing else. */
  lemma {:induction false} SelectedFilesCount(entries: seq<ZipEntry>, paths: seq<string>, f: ZipEntry)
    ensures multiset(SelectedFiles(entries, paths))[f] ==
      if !f.isDir && Matches(f.name, paths) then multiset(entries)[f] else 0
  {
    if entries != [] {
      var init := entries[..|entries| - 1];
      assert entries == init + [entries[|entries| - 1]];
      SelectedFilesCount(init, paths, f);
    }
  }

  /** Selected files keep their archive order. */
  lemma {:induction false} SelectedFilesInOrder(xs: seq<ZipEntry>, ys: seq<ZipEntry>, paths: seq<string>)
    ensures SelectedFiles(xs + ys, paths) == SelectedFiles(xs, paths) + SelectedFiles(ys, paths)
    decreases |ys|
  {
    if ys == [] {
      assert xs + ys == xs;
    } else {
      var init := ys[..|ys| - 1];
      assert (xs + ys)[..|xs + ys| - 1] == xs + init;
      SelectedFilesInOrder(xs, init, paths);
    }
  }

  /** The recorded directories are those of the selected entries. */
  lemma {:induction false} SelectedDirsMembers(entries: seq<ZipEntry>, paths: seq<string>, d: string)
    ensures d in SelectedDirs(entries, paths) <==>
      exists i :: 0 <= i < |entries| && Matches(entries[i].name, paths) && RecordedDir(entries[i]) == d
  {
    if entries != [] {
      var init := entries[..|entries| - 1];
      SelectedDirsMembers(init, paths, d);
      if d in SelectedDirs(init, paths) {
        var i :| 0 <= i < |init| && Matches(init[i].name, paths) && RecordedDir(init[i]) == d;
        assert entries[i] == init[i];
      }
    }
  }

  /** Every selected file's directory is recorded, so it is prepared
      before any file is extracted. */
  lemma FileDirRecorded(entries: seq<ZipEntry>, paths: seq<string>, i: nat)
    requires i < |entries| && !entries[i].isDir && Matches(entries[i].name, paths)
    ensures DirName(entries[i].name) in SelectedDirs(entries, paths)
  {
    SelectedDirsMembers(entries, paths, DirName(entries[i].name));
  }

  /** With no configured paths nothing is selected. */
  lemma {:induction false} NothingSelectedWithoutPaths(entries: seq<ZipEntry>)
    ensures SelectedFiles(entries, []) == [] && SelectedDirs(entries, []) == {}
  {
    if entries != [] {
      NothingSelectedWithoutPaths(entries[..|entries| - 1]);
    }
  }

  // ---------------------------------------------------------------------
  // Zip extraction

  /** An extracted entry whose place is not a link ends up there as a file
      with the entry's bytes and permission bits. */
  lemma ExtractWrites(st: FsState, dst: Path, f: ZipEntry)
    requires ValidState(st)
    requires var to := JoinPath(dst, f.name); !(to in st.nodes && st.nodes[to].Symlink?)
    ensures var r := ExtractSpec(st, dst, f); var to := JoinPath(dst, f.name);
      r.err.None? ==> IsFileAt(r.st, to) && InodeAt(r.st, to) == Inode(f.content, f.perm)
  {
    var to := JoinPath(dst, f.name);
    var m := MkdirAllSpec(st, DirOf(to), EXTRACT_DIR_PERM);
    if m.err.None? {
      assert !(to in m.st.nodes && m.st.nodes[to].Symlink?);
      assert Follow(m.st, to) == Ok(to);
    }
  }

  /** Extraction goes through the files in order and stops at the first
      failure. */
  lemma {:induction false} ExtractInOrder(st: FsState, dst: Path, xs: seq<ZipEntry>, ys: seq<ZipEntry>)
    requires ValidState(st)
    ensures ExtractAllSpec(st, dst, xs + ys) ==
      var r := ExtractAllSpec(st, dst, xs);
      if r.err.Some? then r else ExtractAllSpec(r.st, dst, ys)
    decreases |xs|
  {
    if xs == [] {
      assert xs + ys == ys;
    } else {
      assert (xs + ys)[0] == xs[0] && (xs + ys)[1..] == xs[1..] + ys;
      var r := ExtractSpec(st, dst, xs[0]);
      if r.err.None? {
        ExtractInOrder(r.st, dst, xs[1..], ys);
      }
    }
  }

  /** A failure while preparing the recorded directories ends the run
      before any file is extracted. */
  lemma PrepareFailureExtractsNothing(st: FsState, dst: Path, c: Config, archives: map<string, seq<ZipEntry>>, order: seq<string>)
    requires ValidState(st) && c.zip in archives
    requires PrepareDirsSpec(st, dst, order, c).err.Some?
    ensures ZipReplicateSpec(st, dst, c, archives, order) == PrepareDirsSpec(st, dst, order, c)
  {
  }
}
