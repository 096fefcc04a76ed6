/** Inode numbers over every call and every run. */
module Inodes {
  import opened Types
  import opened Paths
  import opened FlatFs
  import opened FlatFsLaws

  /** No two entries share an inode number and the counter is above all of them. */
  ghost predicate InodesOk(fs: FS) {
    && (forall p, q | p in fs.tree && q in fs.tree && p != q :: fs.tree[p].stat.ino != fs.tree[q].stat.ino)
    && (forall p | p in fs.tree :: fs.tree[p].stat.ino < fs.nextIno)
  }

  /** How many prefixes of `p` beyond the `i`-th are missing. */
  function Missing(t: Tree, p: Path, i: nat): nat
    requires i <= |p|
    decreases |p| - i
  {
    if i == |p| then 0 else (if p[..i + 1] in t then 0 else 1) + Missing(t, p, i + 1)
  }

  /** An upper bound on the inode numbers a call takes. */
  function Allocations(fs: FS, call: Call): nat {
    match call
    case WriteFile(path, _, _) => if Split(path) in fs.tree then 0 else 1
    case AppendFile(path, _, _) => if Split(path) in fs.tree then 0 else 1
    case Mkdir(path, recursive, _, _) => if recursive then Missing(fs.tree, Split(path), 0) else 1
    case CopyFile(_, _) => 1
    case _ => 0
  }

  /** One creation keeps the inode numbers in order exactly when the counter does not
      wrap around. */
  lemma CreateInodes(fs: FS, p: Path, e: Entry)
    requires InodesOk(fs) && fs.nextIno < INO_LIMIT
    ensures InodesOk(Create(fs, p, e)) <==> fs.nextIno + 1 < INO_LIMIT
  {
    var fs' := Create(fs, p, e);
    assert fs'.tree[p].stat.ino == fs.nextIno;
  }

  lemma MissingAfterCreate(t: Tree, p: Path, i: nat, k: nat, e: Entry)
    requires k <= i <= |p|
    ensures Missing(t[p[..k] := e], p, i) == Missing(t, p, i)
    decreases |p| - i
  {
    if i < |p| {
      assert |p[..i + 1]| != |p[..k]|;
      MissingAfterCreate(t, p, i + 1, k, e);
    }
  }

  lemma {:induction false} MakeDirsInodes(fs: FS, p: Path, i: nat, mode: bv32, clock: nat -> int)
    requires InodesOk(fs) && i <= |p| && p[..i] in fs.tree
    requires fs.nextIno + Missing(fs.tree, p, i) < INO_LIMIT
    ensures var r := MakeDirs(fs, p, i, mode, clock);
            && InodesOk(r.fs)
            && r.fs.nextIno <= fs.nextIno + Missing(fs.tree, p, i)
            && (r.status.Ok? ==> r.fs.nextIno == fs.nextIno + Missing(fs.tree, p, i))
    decreases |p| - i
  {
    if i == |p| {
      assert p[..i] == p;
    } else {
      var q := p[..i + 1];
      if q !in fs.tree {
        var e := NewDir(mode, clock(i));
        CreateInodes(fs, q, e);
        MissingAfterCreate(fs.tree, p, i + 1, i + 1, e.(stat := e.stat.(ino := fs.nextIno)));
        MakeDirsInodes(Create(fs, q, e), p, i + 1, mode, clock);
      } else if fs.tree[q].stat.IsDir() {
        MakeDirsInodes(fs, p, i + 1, mode, clock);
      }
    }
  }

  lemma RelocationInodes(fs: FS, fs': FS, o: Path, n: Path)
    requires InodesOk(fs) && IsRelocation(fs.tree, fs'.tree, o, n) && fs'.nextIno == fs.nextIno
    ensures InodesOk(fs')
  {
    forall p | p in fs'.tree
      ensures fs'.tree[p].stat.ino < fs'.nextIno
    {
      OriginKnown(fs.tree, fs'.tree, o, n, p);
    }
    forall p, q | p in fs'.tree && q in fs'.tree && p != q
      ensures fs'.tree[p].stat.ino != fs'.tree[q].stat.ino
    {
      OriginKnown(fs.tree, fs'.tree, o, n, p);
      OriginKnown(fs.tree, fs'.tree, o, n, q);
      OriginInjective(fs.tree, fs'.tree, o, n, p, q);
    }
  }

  lemma RenameInodes(fs: FS, source: string, target: string)
    requires WellFormed(fs.tree) && InodesOk(fs)
    ensures InodesOk(RenameEffect(fs, source, target).fs)
    ensures RenameEffect(fs, source, target).fs.nextIno == fs.nextIno
  {
    if source != target && RenameEffect(fs, source, target).status.Ok? {
      RenameRelocates(fs, source, target);
      if !Inside(Split(source), Split(target)) {
        RelocationInodes(fs, RenameEffect(fs, source, target).fs, Split(source), Split(target));
      }
    }
  }

  lemma WriteInodes(fs: FS, path: string, data: seq<byte>, now: int)
    requires InodesOk(fs)
    requires fs.nextIno + (if Split(path) in fs.tree then 0 else 1) < INO_LIMIT
    ensures var fs' := WriteFileEffect(fs, path, data, now).fs;
            InodesOk(fs') && fs'.nextIno <= fs.nextIno + (if Split(path) in fs.tree then 0 else 1)
  {
    if Split(path) !in fs.tree {
      CreateInodes(fs, Split(path), Entry(FreshStat(0, FILE_MODE, now).(size := |data|), data));
    }
  }

  lemma AppendInodes(fs: FS, path: string, data: seq<byte>, now: int)
    requires WellFormed(fs.tree) && InodesOk(fs)
    requires fs.nextIno + (if Split(path) in fs.tree then 0 else 1) < INO_LIMIT
    ensures var fs' := AppendFileEffect(fs, path, data, now).fs;
            InodesOk(fs') && fs'.nextIno <= fs.nextIno + (if Split(path) in fs.tree then 0 else 1)
  {
    AppendFileLaw(fs, path, data, now);
    var before := ReadFile(fs, path);
    WriteInodes(fs, path, if before.Ok? then before.value + data else data, now);
  }

  lemma MkdirInodes(fs: FS, path: string, recursive: bool, mode: bv32, clock: nat -> int)
    requires WellFormed(fs.tree) && InodesOk(fs)
    requires fs.nextIno + (if recursive then Missing(fs.tree, Split(path), 0) else 1) < INO_LIMIT
    ensures var fs' := MkdirEffect(fs, path, recursive, mode, clock).fs;
            InodesOk(fs') && fs'.nextIno <= fs.nextIno + if recursive then Missing(fs.tree, Split(path), 0) else 1
  {
    var p := Split(path);
    assert p[..0] == ROOT;
    if p != ROOT {
      if recursive {
        MakeDirsInodes(fs, p, 0, mode, clock);
      } else {
        CreateInodes(fs, p, NewDir(mode, clock(0)));
      }
    }
  }

  lemma CopyInodes(fs: FS, source: string, target: string)
    requires InodesOk(fs) && fs.nextIno + 1 < INO_LIMIT
    ensures var fs' := CopyFileEffect(fs, source, target).fs;
            InodesOk(fs') && fs'.nextIno <= fs.nextIno + 1
  {
    if Split(source) in fs.tree {
      CreateInodes(fs, Split(target), fs.tree[Split(source)]);
    }
  }

  lemma UnlinkInodes(fs: FS, path: string)
    requires InodesOk(fs)
    ensures InodesOk(UnlinkEffect(fs, path).fs) && UnlinkEffect(fs, path).fs.nextIno == fs.nextIno
    ensures InodesOk(RmdirEffect(fs, path).fs) && RmdirEffect(fs, path).fs.nextIno == fs.nextIno
  {
  }

  /** As long as the 64-bit counter does not wrap around, no call makes two entries
      share an inode number, and it takes no more numbers than announced. */
  lemma EveryCallKeepsInodes(fs: FS, call: Call)
    requires WellFormed(fs.tree) && InodesOk(fs)
    requires fs.nextIno + Allocations(fs, call) < INO_LIMIT
    ensures InodesOk(Perform(fs, call).fs)
    ensures Perform(fs, call).fs.nextIno <= fs.nextIno + Allocations(fs, call)
  {
    match call
    case WriteFile(path, data, now) => WriteInodes(fs, path, data, now);
    case AppendFile(path, data, now) => AppendInodes(fs, path, data, now);
    case Unlink(path) => UnlinkInodes(fs, path);
    case Mkdir(path, recursive, mode, clock) => MkdirInodes(fs, path, recursive, mode, clock);
    case Rmdir(path) => UnlinkInodes(fs, path);
    case Truncate(path, size, now) =>
    case Utimes(path, atimeMs, mtimeMs, now) =>
    case Rename(source, target) => RenameInodes(fs, source, target);
    case CopyFile(source, target) => CopyInodes(fs, source, target);
  }

  /** The announced numbers of a whole run. */
  ghost function RunAllocations(fs: FS, calls: seq<Call>): nat
    requires WellFormed(fs.tree)
    decreases |calls|
  {
    if calls == [] then 0
    else
      EveryCallKeepsTree(fs, calls[0]);
      Allocations(fs, calls[0]) + RunAllocations(Perform(fs, calls[0]).fs, calls[1..])
  }

  lemma {:induction false} RunKeepsInodes(fs: FS, calls: seq<Call>)
    requires WellFormed(fs.tree) && InodesOk(fs)
    requires fs.nextIno + RunAllocations(fs, calls) < INO_LIMIT
    ensures InodesOk(Run(fs, calls))
    decreases |calls|
  {
    if calls != [] {
      EveryCallKeepsTree(fs, calls[0]);
      EveryCallKeepsInodes(fs, calls[0]);
      RunKeepsInodes(Perform(fs, calls[0]).fs, calls[1..]);
    }
  }

  /** Every run of a new backend: a proper tree, sizes that match, distinct inodes. */
  lemma EveryRun(now: int, calls: seq<Call>)
    ensures WellFormed(Empty(now).tree)
    ensures WellFormed(Run(Empty(now), calls).tree)
    ensures 2 + RunAllocations(Empty(now), calls) < INO_LIMIT ==> InodesOk(Run(Empty(now), calls))
  {
    if 2 + RunAllocations(Empty(now), calls) < INO_LIMIT {
      RunKeepsInodes(Empty(now), calls);
    }
  }
}
