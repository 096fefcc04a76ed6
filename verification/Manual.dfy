/** What every call promises its caller, as one page per call: which error answers which
    situation, and what a success leaves behind, down to the stat record.

    The pages are written without the effect functions. Every call keeps its page, and a
    page leaves no choice: two outcomes that keep it are equal. */
module Manual {
  import opened Types
  import opened Paths
  import opened FlatFs
  import opened FlatFsLaws

  // ---------------------------------------------------------------------------
  // The pages
  // ---------------------------------------------------------------------------

  /** The stat record of a new regular file, `0100644`. */
  function NewFileStat(ino: nat, size: nat, now: int): Stat {
    Stat(dev := 0, ino := ino, mode := 0x81A4, nlink := 1, uid := 1000, gid := 1000, rdev := 0,
         size := size, blksize := 0, blocks := 0, atimeMs := now, mtimeMs := now, ctimeMs := now)
  }

  /** The stat record of a new directory: `0777` of the requested mode, nothing else. */
  function NewDirStat(ino: nat, mode: bv32, now: int): Stat {
    Stat(dev := 0, ino := ino, mode := 0x4000 | (mode & 0x1FF), nlink := 1, uid := 1000, gid := 1000, rdev := 0,
         size := 0, blksize := 0, blocks := 0, atimeMs := now, mtimeMs := now, ctimeMs := now)
  }

  ghost predicate Fails(fs: FS, e: Effect, errno: Errno) {
    e.fs == fs && e.status == Err(errno)
  }

  /** The call succeeded and left `entry` at `p`, and everything else as it was. */
  ghost predicate Leaves(fs: FS, p: Path, entry: Entry, nextIno: nat, e: Effect) {
    && e.status == Ok(()) && e.fs.nextIno == nextIno
    && p in e.fs.tree && e.fs.tree[p] == entry
    && SameExcept(fs.tree, e.fs.tree, p)
  }

  ghost predicate Removes(fs: FS, p: Path, e: Effect) {
    && e.status == Ok(()) && e.fs.nextIno == fs.nextIno
    && p !in e.fs.tree && SameExcept(fs.tree, e.fs.tree, p)
  }

  /** The last component of `p` has no directory to be in. */
  ghost predicate ParentPage(fs: FS, p: Path, e: Effect)
    requires p != ROOT && !IsDirAt(fs.tree, Parent(p))
  {
    Fails(fs, e, if Parent(p) in fs.tree then ENOTDIR else ENOENT)
  }

  ghost predicate WriteFilePage(fs: FS, p: Path, data: seq<byte>, now: int, e: Effect) {
    if IsDirAt(fs.tree, p) then Fails(fs, e, EISDIR)
    else if p != ROOT && !IsDirAt(fs.tree, Parent(p)) then ParentPage(fs, p, e)
    else if p in fs.tree then
      Leaves(fs, p, Entry(fs.tree[p].stat.(size := |data|, mtimeMs := now), data), fs.nextIno, e)
    else Leaves(fs, p, Entry(NewFileStat(fs.nextIno, |data|, now), data), NextInode(fs.nextIno), e)
  }

  ghost predicate UnlinkPage(fs: FS, p: Path, e: Effect) {
    if p == ROOT then Fails(fs, e, EACCES)
    else if !IsDirAt(fs.tree, Parent(p)) then ParentPage(fs, p, e)
    else if p !in fs.tree then Fails(fs, e, ENOENT)
    else if HasChild(fs.tree, p) then Fails(fs, e, ENOTEMPTY)
    else Removes(fs, p, e)
  }

  ghost predicate RmdirPage(fs: FS, p: Path, e: Effect) {
    if p !in fs.tree then Fails(fs, e, ENOENT)
    else if !IsDirAt(fs.tree, p) then Fails(fs, e, ENOTDIR)
    else if HasChild(fs.tree, p) then Fails(fs, e, ENOTEMPTY)
    else if p == ROOT then Fails(fs, e, EACCES)
    else Removes(fs, p, e)
  }

  ghost predicate MkdirPage(fs: FS, p: Path, mode: bv32, now: int, e: Effect) {
    if p == ROOT then e.fs == fs && e.status == Ok(())
    else if p in fs.tree then Fails(fs, e, EEXIST)
    else if !IsDirAt(fs.tree, Parent(p)) then ParentPage(fs, p, e)
    else Leaves(fs, p, Entry(NewDirStat(fs.nextIno, mode, now), []), NextInode(fs.nextIno), e)
  }

  /** The prefix of length `j` is the longest that exists. */
  predicate IsDeepest(t: Tree, p: Path, j: nat) {
    j <= |p| && p[..j] in t && (j < |p| ==> p[..j + 1] !in t)
  }

  /** Something other than a directory stands on the way to `p`, or there. */
  ghost predicate Blocked(t: Tree, p: Path) {
    exists q | q in t :: Under(q, p) && !IsDirAt(t, q)
  }

  /** The inode counter after `n` creations. */
  function InodeAfter(ino: nat, n: nat): nat
    decreases n
  {
    if n == 0 then ino else InodeAfter(NextInode(ino), n - 1)
  }

  /** `mkdir -p`: the missing directories get consecutive inode numbers, the last one the
      mode in any case. */
  ghost predicate MkdirsPage(fs: FS, p: Path, mode: bv32, clock: nat -> int, e: Effect) {
    if p == ROOT then e.fs == fs && e.status == Ok(())
    else if Blocked(fs.tree, p) then Fails(fs, e, ENOTDIR)
    else
      && e.status == Ok(())
      && (forall q :: q in e.fs.tree <==> q in fs.tree || Under(q, p))
      && (forall q | q in fs.tree && q != p :: e.fs.tree[q] == fs.tree[q])
      && (p in fs.tree ==>
            e.fs.tree[p] == fs.tree[p].(stat := fs.tree[p].stat.(mode := 0x4000 | (mode & 0x1FF))))
      && forall j | IsDeepest(fs.tree, p, j) :: CreatedFrom(fs, p, j, mode, clock, e.fs)
  }

  /** From the component after the `j`-th on `fs'` has new directories. */
  ghost predicate CreatedFrom(fs: FS, p: Path, j: nat, mode: bv32, clock: nat -> int, fs': FS) {
    && j <= |p| && fs'.nextIno == InodeAfter(fs.nextIno, |p| - j)
    && forall k | j <= k < |p| ::
         && p[..k + 1] in fs'.tree
         && fs'.tree[p[..k + 1]] == Entry(NewDirStat(InodeAfter(fs.nextIno, k - j), mode, clock(k)), [])
  }

  /** Whether `b` is `a` cut or padded with zeros. */
  ghost predicate Resized(a: seq<byte>, b: seq<byte>, size: int) {
    |b| == size && forall i | 0 <= i < size :: b[i] == if i < |a| then a[i] else 0
  }

  ghost predicate TruncatePage(fs: FS, p: Path, size: int, now: int, e: Effect) {
    if size < 0 then Fails(fs, e, EINVAL)
    else if p !in fs.tree then Fails(fs, e, ENOENT)
    else if IsDirAt(fs.tree, p) then Fails(fs, e, EISDIR)
    else
      && p in e.fs.tree && Resized(fs.tree[p].data, e.fs.tree[p].data, size)
      && var stat := fs.tree[p].stat.(size := size, mtimeMs := now, ctimeMs := now);
         Leaves(fs, p, Entry(stat, e.fs.tree[p].data), fs.nextIno, e)
  }

  ghost predicate UtimesPage(fs: FS, p: Path, atimeMs: int, mtimeMs: int, now: int, e: Effect) {
    if p !in fs.tree then Fails(fs, e, ENOENT)
    else
      var stat := fs.tree[p].stat.(atimeMs := atimeMs, mtimeMs := mtimeMs, ctimeMs := now);
      Leaves(fs, p, Entry(stat, fs.tree[p].data), fs.nextIno, e)
  }

  /** `t'` is `t` without what was at and below `o`. */
  ghost predicate IsDetachment(t: Tree, t': Tree, o: Path) {
    && (forall q :: q in t' <==> q in t && !Under(o, q))
    && (forall q | q in t' :: t'[q] == t[q])
  }

  /** `rename` of `o`, written `source`, to `n`, written `target`. */
  ghost predicate RenamePage(fs: FS, source: string, target: string, o: Path, n: Path, e: Effect) {
    if source == target then e.fs == fs && e.status == Ok(())
    else if o == ROOT then Fails(fs, e, EACCES)
    else if !IsDirAt(fs.tree, Parent(o)) then ParentPage(fs, o, e)
    else if o !in fs.tree then Fails(fs, e, ENOENT)
    else if IsDirAt(fs.tree, o) && TextInside(source, target) then Fails(fs, e, EINVAL)
    else if n == ROOT then Fails(fs, e, EACCES)
    else if !IsDirAt(fs.tree, Parent(n)) then ParentPage(fs, n, e)
    else if HasChild(fs.tree, n) then Fails(fs, e, ENOTEMPTY)
    else
      && e.status == Ok(()) && e.fs.nextIno == fs.nextIno
      && if Inside(o, n) then IsDetachment(fs.tree, e.fs.tree, o) else IsRelocation(fs.tree, e.fs.tree, o, n)
  }

  ghost predicate CopyFilePage(fs: FS, s: Path, d: Path, e: Effect) {
    if s !in fs.tree then Fails(fs, e, ENOENT)
    else if IsDirAt(fs.tree, s) || IsDirAt(fs.tree, d) then Fails(fs, e, EISDIR)
    else if d != ROOT && !IsDirAt(fs.tree, Parent(d)) then ParentPage(fs, d, e)
    else
      Leaves(fs, d, Entry(fs.tree[s].stat.(ino := fs.nextIno), fs.tree[s].data), NextInode(fs.nextIno), e)
  }

  /** The page of a call with one path, which names `p`. */
  ghost predicate OnePage(fs: FS, call: Call, p: Path, e: Effect)
    requires !call.Rename? && !call.CopyFile?
  {
    match call
    case WriteFile(_, data, now) => WriteFilePage(fs, p, data, now, e)
    case AppendFile(_, data, now) =>
      WriteFilePage(fs, p, if p in fs.tree then fs.tree[p].data + data else data, now, e)
    case Unlink(_) => UnlinkPage(fs, p, e)
    case Mkdir(_, recursive, mode, clock) =>
      if recursive then MkdirsPage(fs, p, mode, clock, e) else MkdirPage(fs, p, mode, clock(0), e)
    case Rmdir(_) => RmdirPage(fs, p, e)
    case Truncate(_, size, now) => TruncatePage(fs, p, size, now, e)
    case Utimes(_, atimeMs, mtimeMs, now) => UtimesPage(fs, p, atimeMs, mtimeMs, now, e)
  }

  // ---------------------------------------------------------------------------
  // Every call keeps its page
  // ---------------------------------------------------------------------------

  lemma WriteFileKeepsPage(fs: FS, path: string, data: seq<byte>, now: int)
    requires WellFormed(fs.tree)
    ensures WriteFilePage(fs, Split(path), data, now, Perform(fs, WriteFile(path, data, now)))
  {
    if Split(path) != ROOT {
      ParentDirErrors(fs.tree, Split(path));
    }
  }

  lemma AppendFileKeepsPage(fs: FS, path: string, data: seq<byte>, now: int)
    requires WellFormed(fs.tree)
    ensures var p := Split(path);
            WriteFilePage(fs, p, if p in fs.tree then fs.tree[p].data + data else data, now,
                          Perform(fs, AppendFile(path, data, now)))
  {
    if Split(path) != ROOT {
      ParentDirErrors(fs.tree, Split(path));
    }
  }

  lemma UnlinkKeepsPage(fs: FS, path: string)
    requires WellFormed(fs.tree)
    ensures UnlinkPage(fs, Split(path), Perform(fs, Unlink(path)))
  {
    var p := Split(path);
    if p != ROOT {
      ParentDirErrors(fs.tree, p);
      if !IsDirAt(fs.tree, p) {
        FileIsLeaf(fs.tree, p);
      }
    }
  }

  lemma RmdirKeepsPage(fs: FS, path: string)
    requires WellFormed(fs.tree)
    ensures RmdirPage(fs, Split(path), Perform(fs, Rmdir(path)))
  {
    UnlinkKeepsPage(fs, path);
  }

  lemma MkdirKeepsPage(fs: FS, path: string, mode: bv32, clock: nat -> int)
    requires WellFormed(fs.tree)
    ensures MkdirPage(fs, Split(path), mode, clock(0), Perform(fs, Mkdir(path, false, mode, clock)))
  {
    if Split(path) != ROOT {
      ParentDirErrors(fs.tree, Split(path));
    }
  }

  lemma TruncateKeepsPage(fs: FS, path: string, size: int, now: int)
    requires WellFormed(fs.tree)
    ensures TruncatePage(fs, Split(path), size, now, Perform(fs, Truncate(path, size, now)))
  {
  }

  lemma UtimesKeepsPage(fs: FS, path: string, atimeMs: int, mtimeMs: int, now: int)
    requires WellFormed(fs.tree)
    ensures UtimesPage(fs, Split(path), atimeMs, mtimeMs, now, Perform(fs, Utimes(path, atimeMs, mtimeMs, now)))
  {
  }

  lemma RenameKeepsPage(fs: FS, source: string, target: string)
    requires WellFormed(fs.tree)
    ensures RenamePage(fs, source, target, Split(source), Split(target), Perform(fs, Rename(source, target)))
  {
    var o, n := Split(source), Split(target);
    if o != ROOT {
      ParentDirErrors(fs.tree, o);
    }
    if n != ROOT {
      ParentDirErrors(fs.tree, n);
      if !IsDirAt(fs.tree, n) {
        FileIsLeaf(fs.tree, n);
      }
    }
    if source != target && RenameEffect(fs, source, target).status.Ok? {
      RenameRelocates(fs, source, target);
    }
  }

  lemma CopyFileKeepsPage(fs: FS, source: string, target: string)
    requires WellFormed(fs.tree)
    ensures CopyFilePage(fs, Split(source), Split(target), Perform(fs, CopyFile(source, target)))
  {
    if Split(target) != ROOT {
      ParentDirErrors(fs.tree, Split(target));
    }
  }

  lemma {:induction false} MakeDirsOnlyNew(fs: FS, p: Path, i: nat, mode: bv32, clock: nat -> int)
    requires WellFormed(fs.tree) && LegalPath(p) && i <= |p| && IsDirAt(fs.tree, p[..i])
    requires forall k | i < k <= |p| :: p[..k] !in fs.tree
    ensures CreatedFrom(fs, p, i, mode, clock, MakeDirs(fs, p, i, mode, clock).fs)
    decreases |p| - i
  {
    if i < |p| {
      var q := p[..i + 1];
      var made := NewDir(mode, clock(i));
      var fs1 := Create(fs, q, made);
      assert Parent(q) == p[..i] && Last(q) == p[i];
      PutKeepsTree(fs.tree, q, made.(stat := made.stat.(ino := fs.nextIno)));
      forall k | i + 1 < k <= |p|
        ensures p[..k] !in fs1.tree
      {
        assert |p[..k]| != |q|;
      }
      MakeDirsOnlyNew(fs1, p, i + 1, mode, clock);
      MakeDirsOnFreshGround(fs1, p, i + 1, mode, clock);
      MakeDirsAdds(fs1, p, i + 1, mode, clock);
    }
  }

  /** The components that exist are walked through. */
  lemma {:induction false} MakeDirsFromDeepest(fs: FS, p: Path, i: nat, j: nat, mode: bv32, clock: nat -> int)
    requires WellFormed(fs.tree) && LegalPath(p) && i <= j && IsDeepest(fs.tree, p, j)
    requires IsDirAt(fs.tree, p[..i]) && MakeDirs(fs, p, i, mode, clock).status.Ok?
    ensures CreatedFrom(fs, p, j, mode, clock, MakeDirs(fs, p, i, mode, clock).fs)
    decreases j - i
  {
    if i < j {
      PrefixClosed(fs.tree, p[..i + 1], p[..j]);
      MakeDirsFromDeepest(fs, p, i + 1, j, mode, clock);
    } else {
      if j < |p| {
        MissingStaysMissing(fs.tree, p, j + 1);
      }
      MakeDirsOnlyNew(fs, p, j, mode, clock);
    }
  }

  lemma WayIsPrefixes(t: Tree, p: Path)
    requires IsDirAt(t, ROOT)
    ensures NothingInTheWay(t, p, 0) <==> !Blocked(t, p)
  {
    if NothingInTheWay(t, p, 0) {
      forall q | q in t && Under(q, p)
        ensures IsDirAt(t, q)
      {
        assert q == p[..|q|];
      }
    } else {
      var j :| 0 < j <= |p| && p[..j] in t && !t[p[..j]].stat.IsDir();
      assert Under(p[..j], p);
    }
  }

  lemma MkdirsKeepsPage(fs: FS, path: string, mode: bv32, clock: nat -> int)
    requires WellFormed(fs.tree)
    ensures MkdirsPage(fs, Split(path), mode, clock, Perform(fs, Mkdir(path, true, mode, clock)))
  {
    var p := Split(path);
    if p != ROOT {
      SplitLegal(path);
      assert p[..0] == ROOT;
      WayIsPrefixes(fs.tree, p);
      MakeDirsAllOrNothing(fs, p, 0, mode, clock);
      assert Perform(fs, Mkdir(path, true, mode, clock)) == MakeDirs(fs, p, 0, mode, clock);
      hide Perform, MakeDirs, Blocked, NothingInTheWay;
      if MakeDirs(fs, p, 0, mode, clock).status.Ok? {
        assert MakeDirs(fs, p, 0, mode, clock).status.value == ();
        MakeDirsAdds(fs, p, 0, mode, clock);
        forall j | IsDeepest(fs.tree, p, j)
          ensures CreatedFrom(fs, p, j, mode, clock, MakeDirs(fs, p, 0, mode, clock).fs)
        {
          MakeDirsFromDeepest(fs, p, 0, j, mode, clock);
        }
      }
    }
  }

  /** Every call with one path keeps its page, on every string. */
  lemma EveryCallKeepsPage(fs: FS, call: Call)
    requires WellFormed(fs.tree) && !call.Rename? && !call.CopyFile?
    ensures OnePage(fs, call, Split(call.path), Perform(fs, call))
  {
    hide WellFormed, Perform, WriteFilePage, UnlinkPage, RmdirPage, MkdirPage, MkdirsPage, TruncatePage, UtimesPage;
    match call
    case WriteFile(path, data, now) => WriteFileKeepsPage(fs, path, data, now);
    case AppendFile(path, data, now) => AppendFileKeepsPage(fs, path, data, now);
    case Unlink(path) => UnlinkKeepsPage(fs, path);
    case Mkdir(path, recursive, mode, clock) =>
      if recursive {
        MkdirsKeepsPage(fs, path, mode, clock);
      } else {
        MkdirKeepsPage(fs, path, mode, clock);
      }
    case Rmdir(path) => RmdirKeepsPage(fs, path);
    case Truncate(path, size, now) => TruncateKeepsPage(fs, path, size, now);
    case Utimes(path, atimeMs, mtimeMs, now) => UtimesKeepsPage(fs, path, atimeMs, mtimeMs, now);
  }

  // ---------------------------------------------------------------------------
  // A page leaves no choice
  // ---------------------------------------------------------------------------

  lemma {:induction false} DeepestExists(t: Tree, p: Path, i: nat) returns (j: nat)
    requires i <= |p| && p[..i] in t
    ensures IsDeepest(t, p, j) && i <= j
    decreases |p| - i
  {
    if i < |p| && p[..i + 1] in t {
      j := DeepestExists(t, p, i + 1);
    } else {
      j := i;
    }
  }

  lemma CreatedAt(fs: FS, p: Path, j: nat, mode: bv32, clock: nat -> int, fs': FS, k: nat)
    requires CreatedFrom(fs, p, j, mode, clock, fs') && j <= k < |p|
    ensures p[..k + 1] in fs'.tree
    ensures fs'.tree[p[..k + 1]] == Entry(NewDirStat(InodeAfter(fs.nextIno, k - j), mode, clock(k)), [])
  {
  }

  lemma MkdirsIsUnique(fs: FS, p: Path, mode: bv32, clock: nat -> int, e: Effect, e': Effect)
    requires WellFormed(fs.tree) && MkdirsPage(fs, p, mode, clock, e) && MkdirsPage(fs, p, mode, clock, e')
    ensures e == e'
  {
    if p != ROOT && e.status.Ok? {
      assert p[..0] == ROOT;
      var j := DeepestExists(fs.tree, p, 0);
      forall q | q in e.fs.tree
        ensures e.fs.tree[q] == e'.fs.tree[q]
      {
        if q !in fs.tree {
          CreatedOrKnown(fs.tree, p, j, q);
          var k := |q| - 1;
          assert CreatedFrom(fs, p, j, mode, clock, e.fs) && CreatedFrom(fs, p, j, mode, clock, e'.fs);
          CreatedAt(fs, p, j, mode, clock, e.fs, k);
          CreatedAt(fs, p, j, mode, clock, e'.fs, k);
        }
      }
      assert e.fs.tree == e'.fs.tree;
    }
  }

  lemma CreatedOrKnown(t: Tree, p: Path, j: nat, q: Path)
    requires WellFormed(t) && IsDeepest(t, p, j) && Under(q, p) && q !in t
    ensures j < |q| <= |p| && q == p[..|q| - 1 + 1]
  {
    if |q| <= j {
      assert q <= p[..j];
      PrefixClosed(t, q, p[..j]);
    }
  }

  lemma RelocationIsUnique<T>(t: map<Path, T>, t1: map<Path, T>, t2: map<Path, T>, o: Path, n: Path)
    requires IsRelocation(t, t1, o, n) && IsRelocation(t, t2, o, n)
    ensures t1 == t2
  {
    forall q
      ensures q in t1 <==> q in t2
      ensures q in t1 && q in t2 ==> t1[q] == t2[q]
    {
      if Under(n, q) {
        assert q == n + q[|n|..];
      }
    }
  }

  /** Two outcomes that keep the page of a call are the same. */
  lemma PagesLeaveNoChoice(fs: FS, call: Call, p: Path, e: Effect, e': Effect)
    requires WellFormed(fs.tree) && !call.Rename? && !call.CopyFile?
    requires OnePage(fs, call, p, e) && OnePage(fs, call, p, e')
    ensures e == e'
  {
    hide WellFormed;
    match call
    case WriteFile(_, data, now) => WriteFileIsUnique(fs, p, data, now, e, e');
    case AppendFile(_, data, now) =>
      WriteFileIsUnique(fs, p, if p in fs.tree then fs.tree[p].data + data else data, now, e, e');
    case Unlink(_) => RemovalIsUnique(fs, p, e, e');
    case Mkdir(_, recursive, mode, clock) =>
      if recursive {
        MkdirsIsUnique(fs, p, mode, clock, e, e');
      } else {
        MkdirIsUnique(fs, p, mode, clock(0), e, e');
      }
    case Rmdir(_) => RemovalIsUnique(fs, p, e, e');
    case Truncate(_, size, now) => TruncateIsUnique(fs, p, size, now, e, e');
    case Utimes(_, atimeMs, mtimeMs, now) => UtimesIsUnique(fs, p, atimeMs, mtimeMs, now, e, e');
  }

  lemma WriteFileIsUnique(fs: FS, p: Path, data: seq<byte>, now: int, e: Effect, e': Effect)
    requires WriteFilePage(fs, p, data, now, e) && WriteFilePage(fs, p, data, now, e')
    ensures e == e'
  {
    if e.status.Ok? {
      assert e.fs.tree == e'.fs.tree;
    }
  }

  lemma RemovalIsUnique(fs: FS, p: Path, e: Effect, e': Effect)
    requires (UnlinkPage(fs, p, e) && UnlinkPage(fs, p, e')) || (RmdirPage(fs, p, e) && RmdirPage(fs, p, e'))
    ensures e == e'
  {
    if e.status.Ok? {
      assert e.fs.tree == e'.fs.tree;
    }
  }

  lemma MkdirIsUnique(fs: FS, p: Path, mode: bv32, now: int, e: Effect, e': Effect)
    requires MkdirPage(fs, p, mode, now, e) && MkdirPage(fs, p, mode, now, e')
    ensures e == e'
  {
    if e.status.Ok? {
      assert e.fs.tree == e'.fs.tree;
    }
  }

  lemma TruncateIsUnique(fs: FS, p: Path, size: int, now: int, e: Effect, e': Effect)
    requires TruncatePage(fs, p, size, now, e) && TruncatePage(fs, p, size, now, e')
    ensures e == e'
  {
    if e.status.Ok? {
      assert e.fs.tree[p].data == e'.fs.tree[p].data;
      assert e.fs.tree == e'.fs.tree;
    }
  }

  lemma UtimesIsUnique(fs: FS, p: Path, atimeMs: int, mtimeMs: int, now: int, e: Effect, e': Effect)
    requires UtimesPage(fs, p, atimeMs, mtimeMs, now, e) && UtimesPage(fs, p, atimeMs, mtimeMs, now, e')
    ensures e == e'
  {
    if e.status.Ok? {
      assert e.fs.tree == e'.fs.tree;
    }
  }

  lemma RenameIsUnique(fs: FS, source: string, target: string, o: Path, n: Path, e: Effect, e': Effect)
    requires RenamePage(fs, source, target, o, n, e) && RenamePage(fs, source, target, o, n, e')
    ensures e == e'
  {
    if e.status.Ok? && source != target {
      if Inside(o, n) {
        assert e.fs.tree == e'.fs.tree;
      } else {
        RelocationIsUnique(fs.tree, e.fs.tree, e'.fs.tree, o, n);
      }
    }
  }

  lemma CopyFileIsUnique(fs: FS, s: Path, d: Path, e: Effect, e': Effect)
    requires CopyFilePage(fs, s, d, e) && CopyFilePage(fs, s, d, e')
    ensures e == e'
  {
    if e.status.Ok? {
      assert e.fs.tree == e'.fs.tree;
    }
  }

  // ---------------------------------------------------------------------------
  // What a caller sees
  // ---------------------------------------------------------------------------

  /** `stat` and `readFile` tell the same story: a path is missing for both or for
      neither, a file is what can be read, and its size is the length of what is read. */
  lemma StatAgreesWithRead(fs: FS, path: string)
    requires WellFormed(fs.tree)
    ensures var s, d := StatOf(fs, path), ReadFile(fs, path);
            && (s.Err? <==> Split(path) !in fs.tree)
            && (s.Err? ==> s.errno == ENOENT)
            && (s.Err? <==> d == Err(ENOENT))
            && (d == Err(EISDIR) <==> s.Ok? && s.value.IsDir())
            && (d.Ok? <==> s.Ok? && !s.value.IsDir())
            && (d.Ok? ==> s.value.size == |d.value|)
  {
  }

  /** A write is read back, and seen by `stat`: a new file is a regular one with mode 644,
      the next inode number and one time for all; an old one keeps all but size and time. */
  lemma WriteThenStat(fs: FS, path: string, data: seq<byte>, now: int)
    requires WellFormed(fs.tree) && Perform(fs, WriteFile(path, data, now)).status.Ok?
    ensures var before, fs' := StatOf(fs, path), Perform(fs, WriteFile(path, data, now)).fs;
            && ReadFile(fs', path) == Ok(data)
            && StatOf(fs', path).Ok?
            && StatOf(fs', path).value
               == if before.Ok? then before.value.(size := |data|, mtimeMs := now)
                  else NewFileStat(fs.nextIno, |data|, now)
  {
    WriteFileKeepsPage(fs, path, data, now);
  }

  /** Appending is writing what was read followed by the new data, errors included; a
      missing file counts as empty. */
  lemma AppendIsWrite(fs: FS, path: string, data: seq<byte>, now: int)
    requires WellFormed(fs.tree)
    ensures var before := ReadFile(fs, path);
            Perform(fs, AppendFile(path, data, now))
            == Perform(fs, WriteFile(path, if before.Ok? then before.value + data else data, now))
  {
    AppendFileLaw(fs, path, data, now);
  }

  /** A new directory has exactly the requested permission bits. */
  lemma MkdirThenStat(fs: FS, path: string, mode: bv32, clock: nat -> int)
    requires WellFormed(fs.tree) && Split(path) != ROOT
    requires Perform(fs, Mkdir(path, false, mode, clock)).status.Ok?
    ensures var fs' := Perform(fs, Mkdir(path, false, mode, clock)).fs;
            && StatOf(fs', path) == Ok(NewDirStat(fs.nextIno, mode, clock(0)))
            && ReadFile(fs', path) == Err(EISDIR) && !HasChild(fs'.tree, Split(path))
            && Perform(fs', Rmdir(path)) == Effect(fs'.(tree := fs.tree), DONE)
  {
    MkdirKeepsPage(fs, path, mode, clock);
    MkdirThenRmdir(fs, path, mode, clock);
  }

  lemma NoChildYet(t: Tree, p: Path, e: Entry)
    requires TreeShaped(t) && p !in t
    ensures !HasChild(t[p := e], p)
  {
    assert forall name: string :: Parent(Child(p, name)) == p && Child(p, name) != p;
  }

  lemma MkdirThenRmdir(fs: FS, path: string, mode: bv32, clock: nat -> int)
    requires WellFormed(fs.tree) && Split(path) != ROOT
    requires Perform(fs, Mkdir(path, false, mode, clock)).status.Ok?
    ensures var fs' := Perform(fs, Mkdir(path, false, mode, clock)).fs;
            && IsDirAt(fs'.tree, Split(path)) && !HasChild(fs'.tree, Split(path))
            && Perform(fs', Rmdir(path)) == Effect(fs'.(tree := fs.tree), DONE)
  {
    var p, fs' := Split(path), Perform(fs, Mkdir(path, false, mode, clock)).fs;
    ParentDirErrors(fs.tree, p);
    NoChildYet(fs.tree, p, fs'.tree[p]);
    assert fs'.tree == fs.tree[p := fs'.tree[p]];
    assert fs'.tree - {p} == fs.tree;
  }

  /** Creating a file and unlinking it leaves the tree as it was. */
  lemma WriteThenUnlink(fs: FS, path: string, data: seq<byte>, now: int)
    requires WellFormed(fs.tree) && Split(path) !in fs.tree
    requires Perform(fs, WriteFile(path, data, now)).status.Ok?
    ensures var fs' := Perform(fs, WriteFile(path, data, now)).fs;
            Perform(fs', Unlink(path)) == Effect(fs'.(tree := fs.tree), DONE)
  {
    var p, fs' := Split(path), Perform(fs, WriteFile(path, data, now)).fs;
    WriteFileKeepsPage(fs, path, data, now);
    assert IsDirAt(fs'.tree, Parent(p));
    assert fs'.tree - {p} == fs.tree;
  }

  /** The given times are read back, what any path reads is unchanged, and of two calls the
      last one wins. */
  lemma UtimesThenStat(fs: FS, path: string, atimeMs: int, mtimeMs: int, now: int)
    requires WellFormed(fs.tree)
    ensures var Effect(fs', status) := Perform(fs, Utimes(path, atimeMs, mtimeMs, now));
            && ROOT in fs'.tree
            && (status.Ok? <==> StatOf(fs, path).Ok?)
            && (status.Ok? ==>
                  StatOf(fs', path)
                  == Ok(StatOf(fs, path).value.(atimeMs := atimeMs, mtimeMs := mtimeMs, ctimeMs := now)))
            && (forall q :: ReadFile(fs', q) == ReadFile(fs, q))
            && (forall a, m, n :: Perform(fs', Utimes(path, a, m, n)) == Perform(fs, Utimes(path, a, m, n)))
  {
    var p, fs' := Split(path), Perform(fs, Utimes(path, atimeMs, mtimeMs, now)).fs;
    if p in fs.tree {
      forall a, m, n
        ensures Perform(fs', Utimes(path, a, m, n)) == Perform(fs, Utimes(path, a, m, n))
      {
        var e := Perform(fs, Utimes(path, a, m, n)).fs.tree[p];
        assert fs'.tree[p := e] == fs.tree[p := e];
      }
    }
  }

  lemma TruncateThenStat(fs: FS, path: string, size: int, now: int)
    requires WellFormed(fs.tree)
    ensures var Effect(fs', status) := Perform(fs, Truncate(path, size, now));
            && (status.Ok? <==> size >= 0 && ReadFile(fs, path).Ok?)
            && (status.Ok? ==>
                && StatOf(fs', path) == Ok(StatOf(fs, path).value.(size := size, mtimeMs := now, ctimeMs := now))
                && ReadFile(fs', path).Ok? && Resized(ReadFile(fs, path).value, ReadFile(fs', path).value, size))
  {
  }

  /** The copy reads as the source does and has its stat record but for a new inode. */
  lemma CopyThenStat(fs: FS, source: string, target: string)
    requires WellFormed(fs.tree) && Perform(fs, CopyFile(source, target)).status.Ok?
    ensures var fs' := Perform(fs, CopyFile(source, target)).fs;
            && ReadFile(fs, source).Ok? && StatOf(fs, source).Ok?
            && ReadFile(fs', target) == ReadFile(fs, source)
            && ReadFile(fs', source) == ReadFile(fs, source)
            && StatOf(fs', target) == Ok(StatOf(fs, source).value.(ino := fs.nextIno))
            && (Split(source) != Split(target) ==> StatOf(fs', source) == StatOf(fs, source))
  {
    CopyFileKeepsPage(fs, source, target);
  }

  /** A copy is seen at its target only. */
  lemma CopyElsewhere(fs: FS, source: string, target: string, q: string)
    requires WellFormed(fs.tree) && Split(q) != Split(target)
    ensures var fs' := Perform(fs, CopyFile(source, target)).fs;
            StatOf(fs', q) == StatOf(fs, q) && ReadFile(fs', q) == ReadFile(fs, q)
  {
    CopyFileKeepsPage(fs, source, target);
  }

  lemma WayDownHasChild(t: Tree, n: Path, o: Path)
    requires TreeShaped(t) && o in t && Under(n, o) && o != n
    ensures HasChild(t, n)
  {
    var q := o[..|n| + 1];
    PrefixClosed(t, q, o);
    assert q == Child(n, o[|n|]);
  }

  /** The target has the source's stat record and contents, and the source is missing. */
  lemma RenameThenStat(fs: FS, source: string, target: string)
    requires WellFormed(fs.tree) && Perform(fs, Rename(source, target)).status.Ok?
    requires source != target && !Inside(Split(source), Split(target))
    ensures var fs' := Perform(fs, Rename(source, target)).fs;
            && StatOf(fs, source).Ok? && StatOf(fs', target) == StatOf(fs, source)
            && ReadFile(fs', target) == ReadFile(fs, source)
            && (Split(source) != Split(target) ==> StatOf(fs', source) == Err(ENOENT))
  {
    var o, n := Split(source), Split(target);
    RenameKeepsPage(fs, source, target);
    assert o + [] == o && n + [] == n;
    RenameMoves(fs, source, target);
    if o != n && Under(n, o) {
      WayDownHasChild(fs.tree, n, o);
    }
  }

  /** Every other path is seen as before by `stat` and `readFile`. */
  lemma OtherPathsAreUntouched(fs: FS, call: Call, q: string)
    requires WellFormed(fs.tree) && !call.Rename? && !call.CopyFile?
    requires if call.Mkdir? && call.recursive then StatOf(fs, q).Ok? || !Under(Split(q), Split(call.path)) else true
    requires Split(q) != Split(call.path)
    ensures StatOf(Perform(fs, call).fs, q) == StatOf(fs, q)
    ensures ReadFile(Perform(fs, call).fs, q) == ReadFile(fs, q)
  {
    EveryCallKeepsPage(fs, call);
    hide Perform;
  }

  /** A new backend: the root, a directory with mode 777, and nothing else. */
  lemma NewBackend(now: int, path: string, data: seq<byte>)
    ensures var fs := Empty(now);
            && WellFormed(fs.tree) && fs.nextIno == 2
            && StatOf(fs, path) == (if Split(path) == ROOT then Ok(NewDirStat(1, 0x1FF, now)) else Err(ENOENT))
            && ReadFile(fs, path) == Err(if Split(path) == ROOT then EISDIR else ENOENT)
  {
  }
}
