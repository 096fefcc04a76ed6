/** The simple file system: one flat, prefix-closed map from component lists to
    entries. Every operation of the in-memory backend is proved to have the effect
    defined here. */
module FlatFs {
  import opened Types
  import opened Paths

  datatype Entry = Entry(stat: Stat, data: seq<byte>)

  type Tree = map<Path, Entry>

  datatype FS = FS(tree: Tree, nextIno: nat)

  /** What a call leaves behind and what it returns. */
  datatype Effect = Effect(fs: FS, status: Status)

  // ---------------------------------------------------------------------------
  // Shape
  // ---------------------------------------------------------------------------

  ghost predicate HasChild<T>(t: map<Path, T>, p: Path) {
    exists name: string :: Child(p, name) in t
  }

  predicate IsDirAt(t: Tree, p: Path) {
    p in t && t[p].stat.IsDir()
  }

  /** A proper tree: the root is a directory, every other entry has a legal name and
      lives in an existing directory. */
  ghost predicate TreeShaped(t: Tree) {
    && IsDirAt(t, ROOT)
    && forall p {:trigger Parent(p)} {:trigger Last(p)} | p in t && p != ROOT ::
         LegalName(Last(p)) && IsDirAt(t, Parent(p))
  }

  ghost predicate SizesMatch(t: Tree) {
    forall p | p in t :: t[p].stat.size == |t[p].data|
  }

  ghost predicate WellFormed(t: Tree) {
    TreeShaped(t) && SizesMatch(t)
  }

  // ---------------------------------------------------------------------------
  // Looking up
  // ---------------------------------------------------------------------------

  /** `parentDir`: the directory that holds the last component. */
  function ParentDir(t: Tree, p: Path): Result<Path> {
    if |p| <= 1 then Ok(ROOT)
    else if Parent(p) !in t then Err(ENOENT)
    else if !IsDirAt(t, Parent(p)) then Err(ENOTDIR)
    else Ok(Parent(p))
  }

  function ReadFile(fs: FS, path: string): Result<seq<byte>> {
    var p := Split(path);
    if p !in fs.tree then Err(ENOENT)
    else if fs.tree[p].stat.IsDir() then Err(EISDIR)
    else Ok(fs.tree[p].data)
  }

  function StatOf(fs: FS, path: string): Result<Stat> {
    var p := Split(path);
    if p in fs.tree then Ok(fs.tree[p].stat) else Err(ENOENT)
  }

  // ---------------------------------------------------------------------------
  // Changing
  // ---------------------------------------------------------------------------

  function Fail(fs: FS, e: Errno): Effect {
    Effect(fs, Err(e))
  }

  function Put(fs: FS, p: Path, e: Entry): FS {
    fs.(tree := fs.tree[p := e])
  }

  /** `Put` of a node that takes the next inode number. */
  function Create(fs: FS, p: Path, e: Entry): FS {
    FS(fs.tree[p := e.(stat := e.stat.(ino := fs.nextIno))], NextInode(fs.nextIno))
  }

  function WriteFileEffect(fs: FS, path: string, data: seq<byte>, now: int): Effect {
    var p := Split(path);
    if p == ROOT then Fail(fs, EISDIR) else
    var dir := ParentDir(fs.tree, p);
    if dir.Err? then Fail(fs, dir.errno) else
    if p in fs.tree then
      if fs.tree[p].stat.IsDir() then Fail(fs, EISDIR)
      else Effect(Put(fs, p, Entry(fs.tree[p].stat.(size := |data|, mtimeMs := now), data)), DONE)
    else
      Effect(Create(fs, p, Entry(FreshStat(0, FILE_MODE, now).(size := |data|), data)), DONE)
  }

  function AppendFileEffect(fs: FS, path: string, data: seq<byte>, now: int): Effect {
    var p := Split(path);
    if p == ROOT then Fail(fs, EISDIR) else
    var dir := ParentDir(fs.tree, p);
    if dir.Err? then Fail(fs, dir.errno) else
    if p !in fs.tree then WriteFileEffect(fs, path, data, now) else
    if fs.tree[p].stat.IsDir() then Fail(fs, EISDIR) else
    var all := fs.tree[p].data + data;
    Effect(Put(fs, p, Entry(fs.tree[p].stat.(size := |all|, mtimeMs := now), all)), DONE)
  }

  ghost function UnlinkEffect(fs: FS, path: string): Effect {
    var p := Split(path);
    if p == ROOT then Fail(fs, EACCES) else
    var dir := ParentDir(fs.tree, p);
    if dir.Err? then Fail(fs, dir.errno) else
    if p !in fs.tree then Fail(fs, ENOENT) else
    if fs.tree[p].stat.IsDir() && HasChild(fs.tree, p) then Fail(fs, ENOTEMPTY) else
    Effect(fs.(tree := fs.tree - {p}), DONE)
  }

  ghost function RmdirEffect(fs: FS, path: string): Effect {
    var p := Split(path);
    if p !in fs.tree then Fail(fs, ENOENT) else
    if !fs.tree[p].stat.IsDir() then Fail(fs, ENOTDIR) else
    if HasChild(fs.tree, p) then Fail(fs, ENOTEMPTY) else
    UnlinkEffect(fs, path)
  }

  function NewDir(mode: bv32, now: int): Entry {
    Entry(FreshStat(0, DirMode(mode), now), [])
  }

  /** The recursive branch of `mkdir` from its `i`-th component on; `clock(i)` is the
      time read if that component has to be created. The error leaves behind whatever
      was created before it was met. */
  function MakeDirs(fs: FS, p: Path, i: nat, mode: bv32, clock: nat -> int): Effect
    requires i <= |p| && p[..i] in fs.tree
    decreases |p| - i
  {
    if i == |p| then
      assert p[..i] == p;
      var e := fs.tree[p];
      Effect(Put(fs, p, e.(stat := e.stat.(mode := DirMode(mode)))), DONE)
    else
      var q := p[..i + 1];
      if q !in fs.tree then MakeDirs(Create(fs, q, NewDir(mode, clock(i))), p, i + 1, mode, clock)
      else if !fs.tree[q].stat.IsDir() then Fail(fs, ENOTDIR)
      else MakeDirs(fs, p, i + 1, mode, clock)
  }

  function MkdirEffect(fs: FS, path: string, recursive: bool, mode: bv32, clock: nat -> int): Effect
    requires ROOT in fs.tree
  {
    var p := Split(path);
    if p == ROOT then Effect(fs, DONE) else
    if recursive then
      assert p[..0] == ROOT;
      MakeDirs(fs, p, 0, mode, clock)
    else
      var dir := ParentDir(fs.tree, p);
      if dir.Err? then Fail(fs, dir.errno) else
      if p in fs.tree then Fail(fs, EEXIST) else
      Effect(Create(fs, p, NewDir(mode, clock(0))), DONE)
  }

  function TruncateEffect(fs: FS, path: string, size: int, now: int): Effect {
    var p := Split(path);
    if size < 0 then Fail(fs, EINVAL) else
    if p !in fs.tree then Fail(fs, ENOENT) else
    if fs.tree[p].stat.IsDir() then Fail(fs, EISDIR) else
    var e := fs.tree[p];
    Effect(Put(fs, p, Entry(e.stat.(size := size, mtimeMs := now, ctimeMs := now), Resize(e.data, size))), DONE)
  }

  /** `vector::resize`, filling with zero. */
  function Resize(data: seq<byte>, size: nat): (r: seq<byte>)
    ensures |r| == size
    ensures forall i | 0 <= i < size :: r[i] == if i < |data| then data[i] else 0
  {
    if size <= |data| then data[..size] else data + seq(size - |data|, _ => 0)
  }

  function UtimesEffect(fs: FS, path: string, atimeMs: int, mtimeMs: int, now: int): Effect {
    var p := Split(path);
    if p !in fs.tree then Fail(fs, ENOENT) else
    var e := fs.tree[p];
    Effect(Put(fs, p, e.(stat := e.stat.(atimeMs := atimeMs, mtimeMs := mtimeMs, ctimeMs := now))), DONE)
  }

  /** The map without everything under `o`. */
  function Detach<T>(t: map<Path, T>, o: Path): map<Path, T> {
    map p | p in t && !Under(o, p) :: t[p]
  }

  function RelocatedKeys<T>(t: map<Path, T>, o: Path, n: Path): set<Path> {
    (set p | p in t && !Under(o, p) && p != n) + (set p | p in t && Under(o, p) :: n + p[|o|..])
  }

  lemma RelocatedKey<T>(t: map<Path, T>, o: Path, n: Path, q: Path)
    requires q in RelocatedKeys(t, o, n)
    ensures (Under(n, q) && o + q[|n|..] in t) || q in t
  {
    if p: Path :| p in t && Under(o, p) && q == n + p[|o|..] {
      assert o + q[|n|..] == p;
    }
  }

  /** The map with everything under `o` moved under `n`; what was at `n` is gone. */
  function Relocate<T>(t: map<Path, T>, o: Path, n: Path): map<Path, T> {
    map q | q in RelocatedKeys(t, o, n) ::
      RelocatedKey(t, o, n, q);
      if Under(n, q) && o + q[|n|..] in t then t[o + q[|n|..]] else t[q]
  }

  /** What unlinking the node at `o` and linking it at `n` does to the tree: if `n` lies
      inside `o` the subtree is cut off from the root. */
  function Moved<T>(t: map<Path, T>, o: Path, n: Path): map<Path, T> {
    if Inside(o, n) then Detach(t, o) else Relocate(t, o, n)
  }

  ghost function RenameEffect(fs: FS, source: string, target: string): Effect {
    if source == target then Effect(fs, DONE) else
    var o := Split(source);
    if o == ROOT then Fail(fs, EACCES) else
    var oldDir := ParentDir(fs.tree, o);
    if oldDir.Err? then Fail(fs, oldDir.errno) else
    if o !in fs.tree then Fail(fs, ENOENT) else
    if fs.tree[o].stat.IsDir() && TextInside(source, target) then Fail(fs, EINVAL) else
    var n := Split(target);
    if n == ROOT then Fail(fs, EACCES) else
    var newDir := ParentDir(fs.tree, n);
    if newDir.Err? then Fail(fs, newDir.errno) else
    if n in fs.tree && fs.tree[n].stat.IsDir() && HasChild(fs.tree, n) then Fail(fs, ENOTEMPTY) else
    Effect(fs.(tree := Moved(fs.tree, o, n)), DONE)
  }

  function CopyFileEffect(fs: FS, source: string, target: string): Effect {
    var s, d := Split(source), Split(target);
    if s !in fs.tree then Fail(fs, ENOENT) else
    if fs.tree[s].stat.IsDir() then Fail(fs, EISDIR) else
    if d == ROOT then Fail(fs, EISDIR) else
    var dir := ParentDir(fs.tree, d);
    if dir.Err? then Fail(fs, dir.errno) else
    if d in fs.tree && fs.tree[d].stat.IsDir() then Fail(fs, EISDIR) else
    Effect(Create(fs, d, fs.tree[s]), DONE)
  }

  // ---------------------------------------------------------------------------
  // Calls and runs
  // ---------------------------------------------------------------------------

  /** A mutating call with its arguments and the clock readings it makes. */
  datatype Call =
    | WriteFile(path: string, data: seq<byte>, now: int)
    | AppendFile(path: string, data: seq<byte>, now: int)
    | Unlink(path: string)
    | Mkdir(path: string, recursive: bool, mode: bv32, clock: nat -> int)
    | Rmdir(path: string)
    | Truncate(path: string, size: int, now: int)
    | Utimes(path: string, atimeMs: int, mtimeMs: int, now: int)
    | Rename(source: string, target: string)
    | CopyFile(source: string, target: string)

  ghost function Perform(fs: FS, call: Call): Effect
    requires ROOT in fs.tree
  {
    match call
    case WriteFile(path, data, now) => WriteFileEffect(fs, path, data, now)
    case AppendFile(path, data, now) => AppendFileEffect(fs, path, data, now)
    case Unlink(path) => UnlinkEffect(fs, path)
    case Mkdir(path, recursive, mode, clock) => MkdirEffect(fs, path, recursive, mode, clock)
    case Rmdir(path) => RmdirEffect(fs, path)
    case Truncate(path, size, now) => TruncateEffect(fs, path, size, now)
    case Utimes(path, atimeMs, mtimeMs, now) => UtimesEffect(fs, path, atimeMs, mtimeMs, now)
    case Rename(source, target) => RenameEffect(fs, source, target)
    case CopyFile(source, target) => CopyFileEffect(fs, source, target)
  }
}
