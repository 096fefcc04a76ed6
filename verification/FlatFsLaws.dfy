/** What the flat file system promises: every call keeps a proper tree, a failed call
    changes nothing, and each call changes exactly what it is for. */
module FlatFsLaws {
  import opened Types
  import opened Paths
  import opened FlatFs

  // ---------------------------------------------------------------------------
  // Proper trees
  // ---------------------------------------------------------------------------

  lemma ParentDirIsParent(t: Tree, p: Path)
    requires TreeShaped(t) && p != ROOT && ParentDir(t, p).Ok?
    ensures ParentDir(t, p).value == Parent(p) && IsDirAt(t, Parent(p))
  {
    if |p| == 1 {
      assert Parent(p) == ROOT;
    }
  }

  /** Every prefix of an existing path exists, and every strict one is a directory. */
  lemma {:induction false} PrefixClosed(t: Tree, p: Path, q: Path)
    requires TreeShaped(t) && q in t && Under(p, q)
    ensures p in t
    ensures p != q ==> IsDirAt(t, p)
    decreases |q|
  {
    if p != q {
      assert p <= Parent(q);
      PrefixClosed(t, p, Parent(q));
    }
  }

  /** Where there is no child there is no descendant. */
  lemma ChildlessIsLeaf(t: Tree, p: Path)
    requires TreeShaped(t)
    ensures HasChild(t, p) || forall q | q in t :: !Inside(p, q)
  {
    if q: Path :| q in t && Inside(p, q) {
      PrefixClosed(t, q[..|p| + 1], q);
      assert q[..|p| + 1] == Child(p, q[|p|]);
    }
  }

  lemma FileIsLeaf(t: Tree, p: Path)
    requires TreeShaped(t) && !IsDirAt(t, p)
    ensures forall q | q in t :: !Inside(p, q)
    ensures !HasChild(t, p)
  {
    forall q | q in t && Inside(p, q)
      ensures false
    {
      PrefixClosed(t, p, q);
    }
    if name: string :| Child(p, name) in t {
      assert Inside(p, Child(p, name));
    }
  }

  lemma PutKeepsTree(t: Tree, p: Path, e: Entry)
    requires WellFormed(t) && e.stat.size == |e.data|
    requires p != ROOT ==> LegalName(Last(p)) && IsDirAt(t, Parent(p))
    requires p == ROOT || IsDirAt(t, p) ==> e.stat.IsDir()
    ensures WellFormed(t[p := e])
  {
  }

  lemma EditKeepsTree(t: Tree, p: Path, e: Entry)
    requires WellFormed(t) && p in t
    requires e.stat.IsDir() <==> t[p].stat.IsDir()
    requires e.stat.size == |e.data|
    ensures WellFormed(t[p := e])
  {
    PutKeepsTree(t, p, e);
  }

  lemma RemoveKeepsTree(t: Tree, p: Path)
    requires WellFormed(t) && p != ROOT && !HasChild(t, p)
    ensures WellFormed(t - {p})
  {
    forall q | q in t && q != ROOT && q != p
      ensures Parent(q) != p
    {
      assert q == Child(Parent(q), Last(q));
    }
  }

  lemma SplitName(path: string)
    requires Split(path) != ROOT
    ensures LegalName(Last(Split(path)))
  {
    SplitLegal(path);
  }

  lemma {:induction false} MakeDirsKeepsTree(fs: FS, p: Path, i: nat, mode: bv32, clock: nat -> int)
    requires WellFormed(fs.tree) && LegalPath(p) && i <= |p| && IsDirAt(fs.tree, p[..i])
    ensures WellFormed(MakeDirs(fs, p, i, mode, clock).fs.tree)
    decreases |p| - i
  {
    if i == |p| {
      assert p[..i] == p;
      if p != ROOT {
        assert IsDirAt(fs.tree, Parent(p)) && LegalName(Last(p));
      }
      var e := fs.tree[p];
      PutKeepsTree(fs.tree, p, e.(stat := e.stat.(mode := DirMode(mode))));
    } else {
      var q := p[..i + 1];
      assert Parent(q) == p[..i] && Last(q) == p[i];
      if q !in fs.tree {
        var e := NewDir(mode, clock(i));
        PutKeepsTree(fs.tree, q, e.(stat := e.stat.(ino := fs.nextIno)));
        MakeDirsKeepsTree(Create(fs, q, e), p, i + 1, mode, clock);
      } else if fs.tree[q].stat.IsDir() {
        MakeDirsKeepsTree(fs, p, i + 1, mode, clock);
      }
    }
  }

  /** When `rename` gets as far as moving the subtree, these hold. */
  ghost predicate Movable(t: Tree, o: Path, n: Path) {
    && WellFormed(t)
    && o != ROOT && o in t
    && n != ROOT && LegalName(Last(n)) && IsDirAt(t, Parent(n))
    && !HasChild(t, n)
  }

  lemma RelocatedAt<T>(t: map<Path, T>, o: Path, n: Path, s: Path)
    requires o + s in t
    ensures n + s in Relocate(t, o, n) && Relocate(t, o, n)[n + s] == t[o + s]
  {
    var p := o + s;
    assert Under(o, p) && n + p[|o|..] == n + s;
    assert n + s in RelocatedKeys(t, o, n);
    assert o + (n + s)[|n|..] == p;
  }

  lemma RelocatedElsewhere<T>(t: map<Path, T>, o: Path, n: Path, q: Path)
    requires !Under(n, q)
    ensures q in Relocate(t, o, n) <==> q in t && !Under(o, q)
    ensures q in Relocate(t, o, n) ==> Relocate(t, o, n)[q] == t[q]
  {
    assert forall p | p in t && Under(o, p) :: Under(n, n + p[|o|..]);
  }

  lemma RelocatedOnly<T>(t: map<Path, T>, o: Path, n: Path, s: Path)
    requires n + s in Relocate(t, o, n)
    requires n + s in t ==> s == []
    ensures o + s in t
  {
    var q := n + s;
    assert q != n <==> s != [];
    assert q in RelocatedKeys(t, o, n);
    var p: Path :| p in t && Under(o, p) && q == n + p[|o|..];
    assert p[|o|..] == q[|n|..] == s;
    assert o + s == p;
  }

  lemma RelocatedParent(t: Tree, o: Path, n: Path, s: Path)
    requires Movable(t, o, n) && !Inside(o, n) && o + s in t
    ensures LegalName(Last(n + s)) && IsDirAt(Relocate(t, o, n), Parent(n + s))
  {
    if s == [] {
      assert n + s == n;
      RelocatedElsewhere(t, o, n, Parent(n));
    } else {
      assert Parent(o + s) == o + Parent(s) && Last(o + s) == Last(s);
      assert Parent(n + s) == n + Parent(s) && Last(n + s) == Last(s);
      RelocatedAt(t, o, n, Parent(s));
    }
  }

  /** `t'` is `t` with the subtree at `o` moved to `n`: what was at `o + s` is now at
      `n + s`, nothing is left under `o`, and every path under neither is as before. */
  ghost predicate IsRelocation<T>(t: map<Path, T>, t': map<Path, T>, o: Path, n: Path) {
    && (forall s: Path :: n + s in t' <==> o + s in t)
    && (forall s: Path | o + s in t :: t'[n + s] == t[o + s])
    && (forall p | Under(o, p) && !Under(n, p) :: p !in t')
    && (forall p | !Under(o, p) && !Under(n, p) :: p in t' <==> p in t)
    && (forall p | !Under(o, p) && !Under(n, p) && p in t :: t'[p] == t[p])
  }

  lemma RelocateIsRelocation<T>(t: map<Path, T>, o: Path, n: Path)
    requires !Inside(o, n) && forall q | q in t :: !Inside(n, q)
    ensures IsRelocation(t, Relocate(t, o, n), o, n)
  {
    var t' := Relocate(t, o, n);
    forall s: Path
      ensures n + s in t' <==> o + s in t
      ensures o + s in t ==> t'[n + s] == t[o + s]
    {
      if o + s in t {
        RelocatedAt(t, o, n, s);
      }
      if n + s in t' {
        assert Under(n, n + s);
        RelocatedOnly(t, o, n, s);
      }
    }
    forall q | !Under(n, q)
      ensures q in t' <==> q in t && !Under(o, q)
      ensures q in t' ==> t'[q] == t[q]
    {
      RelocatedElsewhere(t, o, n, q);
    }
  }

  lemma MovableRelocation(t: Tree, o: Path, n: Path)
    requires Movable(t, o, n) && !Inside(o, n)
    ensures IsRelocation(t, Relocate(t, o, n), o, n)
  {
    ChildlessIsLeaf(t, n);
    RelocateIsRelocation(t, o, n);
  }

  /** Where an entry of a relocated tree came from. */
  function Origin(o: Path, n: Path, q: Path): Path {
    if Under(n, q) then o + q[|n|..] else q
  }

  lemma OriginKnown<T>(t: map<Path, T>, t': map<Path, T>, o: Path, n: Path, q: Path)
    requires IsRelocation(t, t', o, n) && q in t'
    ensures Origin(o, n, q) in t && t'[q] == t[Origin(o, n, q)]
    ensures !Under(n, q) ==> !Under(o, q)
  {
    if Under(n, q) {
      assert q == n + q[|n|..];
    }
  }

  lemma OriginInjective<T>(t: map<Path, T>, t': map<Path, T>, o: Path, n: Path, p: Path, q: Path)
    requires IsRelocation(t, t', o, n) && p in t' && q in t' && p != q
    ensures Origin(o, n, p) != Origin(o, n, q)
  {
    OriginKnown(t, t', o, n, p);
    OriginKnown(t, t', o, n, q);
    if Under(n, p) && Under(n, q) {
      assert p == n + p[|n|..] && q == n + q[|n|..];
      assert (o + p[|n|..])[|o|..] == p[|n|..] && (o + q[|n|..])[|o|..] == q[|n|..];
    }
  }

  lemma RelocatedBelow(t: Tree, o: Path, n: Path, q: Path)
    requires Movable(t, o, n) && !Inside(o, n)
    requires q in Relocate(t, o, n) && Under(n, q)
    ensures LegalName(Last(q)) && IsDirAt(Relocate(t, o, n), Parent(q))
  {
    var s := q[|n|..];
    assert q == n + s;
    ChildlessIsLeaf(t, n);
    assert s == [] || Inside(n, q);
    RelocatedOnly(t, o, n, s);
    RelocatedParent(t, o, n, s);
  }

  lemma RelocatedBeside(t: Tree, o: Path, n: Path, q: Path)
    requires Movable(t, o, n) && q != ROOT
    requires q in Relocate(t, o, n) && !Under(n, q)
    ensures LegalName(Last(q)) && IsDirAt(Relocate(t, o, n), Parent(q))
  {
    var dir := Parent(q);
    assert Under(n, dir) ==> Under(n, q);
    assert Under(o, dir) ==> Under(o, q);
    RelocatedElsewhere(t, o, n, q);
    RelocatedElsewhere(t, o, n, dir);
  }

  lemma RelocationKeepsTree(t: Tree, o: Path, n: Path)
    requires Movable(t, o, n) && !Inside(o, n)
    ensures WellFormed(Relocate(t, o, n))
  {
    var t' := Relocate(t, o, n);
    RelocatedElsewhere(t, o, n, ROOT);
    forall q | q in t' && q != ROOT
      ensures LegalName(Last(q)) && IsDirAt(t', Parent(q))
    {
      if Under(n, q) {
        RelocatedBelow(t, o, n, q);
      } else {
        RelocatedBeside(t, o, n, q);
      }
    }
    MovableRelocation(t, o, n);
    forall q | q in t'
      ensures t'[q].stat.size == |t'[q].data|
    {
      OriginKnown(t, t', o, n, q);
    }
  }

  lemma DetachKeepsTree(t: Tree, o: Path)
    requires WellFormed(t) && o != ROOT
    ensures WellFormed(Detach(t, o))
  {
  }

  /** The state in which a successful `rename` moves the subtree. */
  lemma RenameMoves(fs: FS, source: string, target: string)
    requires WellFormed(fs.tree) && source != target
    requires RenameEffect(fs, source, target).status.Ok?
    ensures Movable(fs.tree, Split(source), Split(target))
  {
    var n := Split(target);
    SplitName(target);
    ParentDirIsParent(fs.tree, n);
    if !IsDirAt(fs.tree, n) {
      FileIsLeaf(fs.tree, n);
    }
  }

  /** `rename` between different strings that succeeds relocates the subtree, unless the
      target lies inside the source; then the subtree is lost. */
  lemma RenameRelocates(fs: FS, source: string, target: string)
    requires WellFormed(fs.tree) && source != target
    requires RenameEffect(fs, source, target).status.Ok?
    ensures var o, n := Split(source), Split(target);
            var fs' := RenameEffect(fs, source, target).fs;
            && fs'.nextIno == fs.nextIno
            && (IsRelocation(fs.tree, fs'.tree, o, n) <==> !Inside(o, n))
            && (Inside(o, n) ==> fs'.tree == Detach(fs.tree, o))
            && !HasChild(fs.tree, n)
  {
    var o, n := Split(source), Split(target);
    RenameMoves(fs, source, target);
    if Inside(o, n) {
      assert o + [] == o && n + [] == n;
      assert Under(o, n);
    } else {
      MovableRelocation(fs.tree, o, n);
    }
  }

  lemma FileHasNothingInside(t: Tree, o: Path, n: Path)
    requires Movable(t, o, n) && !IsDirAt(t, o)
    ensures !Inside(o, n)
  {
    FileIsLeaf(t, o);
    var dir := Parent(n);
    assert Inside(o, n) <==> Under(o, dir);
    assert Under(o, dir) <==> dir == o || Inside(o, dir);
  }

  /** On the paths the router hands over the exception cannot arise. */
  lemma RenameOfPrintedPaths(fs: FS, o: Path, n: Path)
    requires WellFormed(fs.tree) && LegalPath(o) && LegalPath(n) && o != n
    requires RenameEffect(fs, Render(o), Render(n)).status.Ok?
    ensures IsRelocation(fs.tree, RenameEffect(fs, Render(o), Render(n)).fs.tree, o, n)
  {
    var a, b := Render(o), Render(n);
    assert Split(a) == o && Split(b) == n by {
      SplitRender(o);
      SplitRender(n);
    }
    RenameMoves(fs, a, b);
    assert !Inside(o, n) by {
      TextInsideIsInside(o, n);
      if !IsDirAt(fs.tree, o) {
        FileHasNothingInside(fs.tree, o, n);
      }
    }
    RenameRelocates(fs, a, b);
  }

  lemma RelocateBackAt(t: Tree, o: Path, n: Path, q: Path)
    requires Movable(t, o, n) && !Inside(o, n) && n !in t && Under(o, q)
    ensures q in Relocate(Relocate(t, o, n), n, o) <==> q in t
    ensures q in t ==> Relocate(Relocate(t, o, n), n, o)[q] == t[q]
  {
    var t' := Relocate(t, o, n);
    var s := q[|o|..];
    assert q == o + s;
    MovableRelocation(t, o, n);
    if n + s in t' {
      RelocatedAt(t', n, o, s);
    }
    if q in Relocate(t', n, o) {
      assert o + s in t' ==> s == [] by {
        assert !Under(n, q) ==> o + s !in t';
        NotAboveMissing(t, o, n);
      }
      RelocatedOnly(t', n, o, s);
    }
  }

  lemma NotAboveMissing(t: Tree, o: Path, n: Path)
    requires Movable(t, o, n) && n !in t
    ensures !Under(n, o)
  {
    if Under(n, o) {
      PrefixClosed(t, n, o);
    }
  }

  lemma RelocateBackElsewhere(t: Tree, o: Path, n: Path, q: Path)
    requires Movable(t, o, n) && !Inside(o, n) && n !in t && !Under(o, q)
    ensures q in Relocate(Relocate(t, o, n), n, o) <==> q in t
    ensures q in t ==> Relocate(Relocate(t, o, n), n, o)[q] == t[q]
  {
    var t' := Relocate(t, o, n);
    RelocatedElsewhere(t', n, o, q);
    if Under(n, q) {
      ChildlessIsLeaf(t, n);
      assert q == n || Inside(n, q);
    } else {
      RelocatedElsewhere(t, o, n, q);
    }
  }

  lemma RelocateBack(t: Tree, o: Path, n: Path)
    requires Movable(t, o, n) && !Inside(o, n) && n !in t
    ensures Relocate(Relocate(t, o, n), n, o) == t
  {
    forall q: Path
      ensures q in Relocate(Relocate(t, o, n), n, o) <==> q in t
      ensures q in t ==> Relocate(Relocate(t, o, n), n, o)[q] == t[q]
    {
      if Under(o, q) {
        RelocateBackAt(t, o, n, q);
      } else {
        RelocateBackElsewhere(t, o, n, q);
      }
    }
  }

  /** Renaming to a name that did not exist and back restores the file system, inode
      counter and all, exactly when the target was not inside the source. */
  lemma RenameRoundTrip(fs: FS, a: string, b: string)
    requires WellFormed(fs.tree) && Split(b) !in fs.tree
    requires a != b && RenameEffect(fs, a, b).status.Ok?
    ensures RenameEffect(RenameEffect(fs, a, b).fs, b, a) == Effect(fs, DONE)
            <==> !Inside(Split(a), Split(b))
  {
    var o, n := Split(a), Split(b);
    var fs' := RenameEffect(fs, a, b).fs;
    RenameMoves(fs, a, b);
    if Inside(o, n) {
      assert n !in fs'.tree;
    } else {
      RenameBackIsAllowed(fs, a, b);
      RelocateBack(fs.tree, o, n);
    }
  }

  /** In particular the second cycle test never fires. */
  lemma RenameBackIsAllowed(fs: FS, a: string, b: string)
    requires WellFormed(fs.tree) && Split(b) !in fs.tree
    requires a != b && RenameEffect(fs, a, b).status.Ok? && !Inside(Split(a), Split(b))
    ensures var fs' := RenameEffect(fs, a, b).fs;
            && RenameEffect(fs', b, a).status.Ok?
            && RenameEffect(fs', b, a).fs == fs'.(tree := Relocate(fs'.tree, Split(b), Split(a)))
  {
    var o, n := Split(a), Split(b);
    var t' := RenameEffect(fs, a, b).fs.tree;
    RenameMoves(fs, a, b);
    MovableRelocation(fs.tree, o, n);
    RelocationKeepsTree(fs.tree, o, n);
    assert o + [] == o && n + [] == n;
    if Under(n, o) {
      PrefixClosed(fs.tree, n, o);
    }
    if TextInside(b, a) {
      TextInsideSound(b, a);
    }
    RelocatedElsewhere(fs.tree, o, n, Parent(o));
    ParentDirIsParent(fs.tree, o);
    assert IsDirAt(t', Parent(n));
  }

  lemma SlashPaths()
    ensures Split("/a") == Split("/a/") == ["a"]
    ensures Split("/a/b") == ["a", "b"]
  {
    assert Render(["a"]) == "/a" by {
      assert ["a"][1..] == [];
    }
    SplitRender(["a"]);
    EmptyPathIsRoot();
    SplitConcat("/a", "");
    assert "/a" + "/" + "" == "/a/";
    assert ["a"] + [] == ["a"];
    SplitConcat("/a", "b");
    assert "/a" + "/" + "b" == "/a/b";
    SegmentsOfName("b");
    KeptLegal(["b"]);
  }

  /** The case the cycle test misses: with a trailing slash the call reports success
      and the directory is gone. */
  lemma RenameIntoItselfWithSlash(fs: FS)
    requires WellFormed(fs.tree) && fs.tree.Keys == {ROOT, ["a"]} && IsDirAt(fs.tree, ["a"])
    ensures RenameEffect(fs, "/a/", "/a/b") == Effect(fs.(tree := fs.tree - {["a"]}), DONE)
    ensures RenameEffect(fs, "/a", "/a/b") == Effect(fs, Err(EINVAL))
  {
    var o, n := ["a"], ["a", "b"];
    SlashPaths();
    assert Parent(n) == o && Parent(o) == ROOT;
    assert Detach(fs.tree, o) == fs.tree - {o};
    assert !HasChild(fs.tree, n) && Inside(o, n);
    assert TextInside("/a", "/a/b");
    assert !TextInside("/a/", "/a/b") by {
      assert "/a/b"[3] == 'b';
    }
  }

  // ---------------------------------------------------------------------------
  // Recursive mkdir
  // ---------------------------------------------------------------------------

  /** Below a component that was missing nothing can be in the way. */
  lemma {:induction false} MakeDirsOnFreshGround(fs: FS, p: Path, i: nat, mode: bv32, clock: nat -> int)
    requires i <= |p| && p[..i] in fs.tree
    requires forall j | i < j <= |p| :: p[..j] !in fs.tree
    ensures MakeDirs(fs, p, i, mode, clock).status.Ok?
    decreases |p| - i
  {
    if i < |p| {
      var fs' := Create(fs, p[..i + 1], NewDir(mode, clock(i)));
      forall j | i + 1 < j <= |p|
        ensures p[..j] !in fs'.tree
      {
        assert |p[..j]| != |p[..i + 1]|;
      }
      MakeDirsOnFreshGround(fs', p, i + 1, mode, clock);
    }
  }

  lemma MissingStaysMissing(t: Tree, p: Path, i: nat)
    requires TreeShaped(t) && i <= |p| && p[..i] !in t
    ensures forall j | i <= j <= |p| :: p[..j] !in t
  {
    forall j | i <= j <= |p|
      ensures p[..j] !in t
    {
      if p[..j] in t {
        assert p[..i] <= p[..j];
        PrefixClosed(t, p[..i], p[..j]);
      }
    }
  }

  /** No prefix of `p` beyond the `i`-th is something other than a directory. */
  ghost predicate NothingInTheWay(t: Tree, p: Path, i: nat) {
    forall j | i < j <= |p| && p[..j] in t :: t[p[..j]].stat.IsDir()
  }

  lemma NothingInTheWayNext(t: Tree, p: Path, i: nat)
    requires i < |p|
    ensures NothingInTheWay(t, p, i)
            <==> (p[..i + 1] in t ==> t[p[..i + 1]].stat.IsDir()) && NothingInTheWay(t, p, i + 1)
  {
  }

  /** Recursive `mkdir` is all or nothing. */
  lemma {:induction false} MakeDirsAllOrNothing(fs: FS, p: Path, i: nat, mode: bv32, clock: nat -> int)
    requires TreeShaped(fs.tree) && i <= |p| && p[..i] in fs.tree
    ensures MakeDirs(fs, p, i, mode, clock).status.Ok? <==> NothingInTheWay(fs.tree, p, i)
    ensures MakeDirs(fs, p, i, mode, clock).status.Err?
            ==> MakeDirs(fs, p, i, mode, clock) == Fail(fs, ENOTDIR)
    decreases |p| - i
  {
    if i < |p| {
      var q := p[..i + 1];
      NothingInTheWayNext(fs.tree, p, i);
      if q !in fs.tree {
        MissingStaysMissing(fs.tree, p, i + 1);
        MakeDirsOnFreshGround(fs, p, i, mode, clock);
      } else if fs.tree[q].stat.IsDir() {
        MakeDirsAllOrNothing(fs, p, i + 1, mode, clock);
      }
    }
  }

  /** `t'` is `t` plus the prefixes of `p` that were missing, as empty directories with
      the given mode; the directory `p` itself has that mode in any case. */
  ghost predicate AddsDirs(t: Tree, t': Tree, p: Path, mode: bv32) {
    && (forall q :: q in t' <==> q in t || Under(q, p))
    && (forall q | q in t && q != p :: t'[q] == t[q])
    && (p in t ==> t'[p] == t[p].(stat := t[p].stat.(mode := DirMode(mode))))
    && (forall q | q in t' && q !in t :: t'[q].stat.mode == DirMode(mode) && t'[q].data == [])
  }

  lemma {:induction false} MakeDirsAdds(fs: FS, p: Path, i: nat, mode: bv32, clock: nat -> int)
    requires TreeShaped(fs.tree) && LegalPath(p) && i <= |p| && IsDirAt(fs.tree, p[..i])
    requires MakeDirs(fs, p, i, mode, clock).status.Ok?
    ensures AddsDirs(fs.tree, MakeDirs(fs, p, i, mode, clock).fs.tree, p, mode)
    decreases |p| - i
  {
    var t, t' := fs.tree, MakeDirs(fs, p, i, mode, clock).fs.tree;
    if i == |p| {
      assert p[..i] == p;
      forall q | Under(q, p)
        ensures q in t
      {
        PrefixClosed(t, q, p);
      }
    } else {
      var q := p[..i + 1];
      assert Parent(q) == p[..i] && Last(q) == p[i];
      if q !in t {
        var fs1 := Create(fs, q, NewDir(mode, clock(i)));
        MakeDirsAdds(fs1, p, i + 1, mode, clock);
        MissingStaysMissing(t, p, i + 1);
        assert p[..|p|] == p;
        assert Under(q, p);
      } else {
        MakeDirsAdds(fs, p, i + 1, mode, clock);
      }
    }
  }

  /** Repeating a successful recursive `mkdir` changes nothing. */
  lemma MkdirRecursiveTwice(fs: FS, path: string, mode: bv32, clock: nat -> int, clock': nat -> int)
    requires WellFormed(fs.tree)
    requires MkdirEffect(fs, path, true, mode, clock).status.Ok?
    ensures var fs' := MkdirEffect(fs, path, true, mode, clock).fs;
            ROOT in fs'.tree && MkdirEffect(fs', path, true, mode, clock') == Effect(fs', DONE)
  {
    var p := Split(path);
    if p != ROOT {
      SplitLegal(path);
      assert p[..0] == ROOT;
      MakeDirsAdds(fs, p, 0, mode, clock);
      MakeDirsKeepsTree(fs, p, 0, mode, clock);
      var fs' := MkdirEffect(fs, path, true, mode, clock).fs;
      assert fs'.tree[p].stat.mode == DirMode(mode);
      MakeDirsOnExisting(fs', p, 0, mode, clock');
    }
  }

  lemma {:induction false} MakeDirsOnExisting(fs: FS, p: Path, i: nat, mode: bv32, clock: nat -> int)
    requires TreeShaped(fs.tree) && p in fs.tree && i <= |p| && p[..i] in fs.tree
    requires fs.tree[p].stat.mode == DirMode(mode)
    ensures MakeDirs(fs, p, i, mode, clock) == Effect(fs, DONE)
    decreases |p| - i
  {
    if i == |p| {
      assert p[..i] == p;
    } else {
      PrefixClosed(fs.tree, p[..i + 1], p);
      MakeDirsOnExisting(fs, p, i + 1, mode, clock);
    }
  }

  // ---------------------------------------------------------------------------
  // Files
  // ---------------------------------------------------------------------------

  /** Nothing but the entry at `p` differs. */
  ghost predicate SameExcept(t: Tree, t': Tree, p: Path) {
    && (forall q | q != p :: q in t' <==> q in t)
    && (forall q | q != p && q in t :: t'[q] == t[q])
  }

  /** Why a call that needs the parent directory of `p` cannot proceed. */
  lemma ParentDirErrors(t: Tree, p: Path)
    requires TreeShaped(t) && p != ROOT
    ensures ParentDir(t, p).Ok? <==> IsDirAt(t, Parent(p))
    ensures ParentDir(t, p) == Err(ENOENT) <==> Parent(p) !in t
    ensures ParentDir(t, p) == Err(ENOTDIR) <==> Parent(p) in t && !IsDirAt(t, Parent(p))
  {
    if |p| == 1 {
      assert Parent(p) == ROOT;
    }
  }

  /** Appending is reading, concatenating and writing; a missing file counts as empty. */
  lemma AppendFileLaw(fs: FS, path: string, data: seq<byte>, now: int)
    requires WellFormed(fs.tree)
    ensures var before := ReadFile(fs, path);
            AppendFileEffect(fs, path, data, now)
            == WriteFileEffect(fs, path, if before.Ok? then before.value + data else data, now)
  {
    var p := Split(path);
    if p in fs.tree && p != ROOT {
      assert IsDirAt(fs.tree, Parent(p));
    }
  }

  /** `unlink` takes exactly the childless entries other than the root away; together
      with a write to a fresh name it leaves the tree as it was. */
  lemma UnlinkLaw(fs: FS, path: string)
    requires WellFormed(fs.tree)
    ensures var p := Split(path);
            var Effect(fs', status) := UnlinkEffect(fs, path);
            && (status.Ok? <==> p != ROOT && p in fs.tree && !HasChild(fs.tree, p))
            && (status.Ok? ==> p !in fs'.tree && SameExcept(fs.tree, fs'.tree, p) && fs'.nextIno == fs.nextIno)
  {
    var p := Split(path);
    if p != ROOT {
      ParentDirErrors(fs.tree, p);
      if !IsDirAt(fs.tree, p) {
        FileIsLeaf(fs.tree, p);
      }
    }
  }

  /** Exactly when `rename` between two different strings succeeds. */
  lemma RenameSucceedsWhen(fs: FS, source: string, target: string)
    requires WellFormed(fs.tree) && source != target
    ensures var o, n := Split(source), Split(target);
            RenameEffect(fs, source, target).status.Ok?
            <==> && o != ROOT && o in fs.tree
                 && !(IsDirAt(fs.tree, o) && TextInside(source, target))
                 && n != ROOT && IsDirAt(fs.tree, Parent(n))
                 && !HasChild(fs.tree, n)
  {
    var o, n := Split(source), Split(target);
    if o != ROOT {
      ParentDirErrors(fs.tree, o);
    }
    if n != ROOT {
      ParentDirErrors(fs.tree, n);
      if !IsDirAt(fs.tree, n) {
        FileIsLeaf(fs.tree, n);
      }
    }
  }

  lemma KeyOfSource<T>(t: map<Path, T>, o: Path, n: Path)
    requires o in RelocatedKeys(t, o, n)
    ensures Under(n, o) && o + o[|n|..] in t
  {
    var p: Path :| p in t && Under(o, p) && o == n + p[|o|..];
    assert o + o[|n|..] == p;
  }

  lemma RelocateEdited<T>(t: map<Path, T>, o: Path, n: Path, e: T)
    requires o in t
    ensures Relocate(t[o := e], o, n) == Relocate(t, o, n)[n := e]
  {
    var t' := t[o := e];
    var r, r' := Relocate(t, o, n), Relocate(t', o, n);
    assert RelocatedKeys(t', o, n) == RelocatedKeys(t, o, n);
    assert n + o[|o|..] == n && o + n[|n|..] == o;
    assert n in RelocatedKeys(t, o, n);
    forall q | q in r' && q != n
      ensures r'[q] == r[q]
    {
      RelocatedKey(t, o, n, q);
      if Under(n, q) && o + q[|n|..] in t {
        assert q == n + q[|n|..];
        assert q[|n|..] != [];
        assert o + q[|n|..] != o;
      } else if o in RelocatedKeys(t, o, n) {
        KeyOfSource(t, o, n);
      }
    }
  }

  /** Stamping an entry leaves the answer of a rename as it is. */
  lemma StampedRename(fs: FS, fs': FS, source: string, target: string)
    requires WellFormed(fs.tree) && WellFormed(fs'.tree) && source != target
    requires fs'.tree.Keys == fs.tree.Keys && fs'.nextIno == fs.nextIno
    requires forall p | p in fs.tree :: fs'.tree[p].stat.mode == fs.tree[p].stat.mode
    requires RenameEffect(fs, source, target).status.Ok?
    ensures RenameEffect(fs', source, target)
            == Effect(fs'.(tree := Moved(fs'.tree, Split(source), Split(target))), DONE)
  {
    assert forall p :: IsDirAt(fs'.tree, p) <==> IsDirAt(fs.tree, p);
    assert forall p :: HasChild(fs'.tree, p) <==> HasChild(fs.tree, p);
    RenameSucceedsWhen(fs, source, target);
    RenameSucceedsWhen(fs', source, target);
  }

  /** The times travel with a renamed entry: stamping it before or after the move gives the
      same file system. */
  lemma UtimesCommutesWithRename(fs: FS, source: string, target: string, atimeMs: int, mtimeMs: int, now: int)
    requires WellFormed(fs.tree) && !Inside(Split(source), Split(target))
    requires RenameEffect(fs, source, target).status.Ok?
    ensures UtimesEffect(RenameEffect(fs, source, target).fs, target, atimeMs, mtimeMs, now).fs
            == RenameEffect(UtimesEffect(fs, source, atimeMs, mtimeMs, now).fs, source, target).fs
  {
    if source != target {
      var o, n := Split(source), Split(target);
      var fs' := UtimesEffect(fs, source, atimeMs, mtimeMs, now).fs;
      RenameSucceedsWhen(fs, source, target);
      UtimesKeepsTree(fs, source, atimeMs, mtimeMs, now);
      StampedRename(fs, fs', source, target);
      StampedRename(fs, fs, source, target);
      hide RenameEffect, WellFormed, Split, IsDirAt;
      RelocateEdited(fs.tree, o, n, fs'.tree[o]);
      RelocatedEntry(fs.tree, o, n);
    }
  }

  lemma RelocatedEntry<T>(t: map<Path, T>, o: Path, n: Path)
    requires o in t
    ensures n in Relocate(t, o, n) && Relocate(t, o, n)[n] == t[o]
  {
    assert n + o[|o|..] == n && o + n[|n|..] == o;
    assert n in RelocatedKeys(t, o, n);
  }

  lemma UtimesKeepsTree(fs: FS, path: string, atimeMs: int, mtimeMs: int, now: int)
    requires WellFormed(fs.tree)
    ensures WellFormed(UtimesEffect(fs, path, atimeMs, mtimeMs, now).fs.tree)
  {
  }

  // ---------------------------------------------------------------------------
  // All calls
  // ---------------------------------------------------------------------------

  /** A call that reports an error has changed nothing. */
  lemma FailureChangesNothing(fs: FS, call: Call)
    requires WellFormed(fs.tree) && Perform(fs, call).status.Err?
    ensures Perform(fs, call).fs == fs
  {
    if call.Mkdir? && call.recursive && Split(call.path) != ROOT {
      var p := Split(call.path);
      assert p[..0] == ROOT;
      MakeDirsAllOrNothing(fs, p, 0, call.mode, call.clock);
    }
  }

  lemma RenameKeepsTree(fs: FS, source: string, target: string)
    requires WellFormed(fs.tree)
    ensures WellFormed(RenameEffect(fs, source, target).fs.tree)
  {
    if source != target && RenameEffect(fs, source, target).status.Ok? {
      var o, n := Split(source), Split(target);
      RenameMoves(fs, source, target);
      if Inside(o, n) {
        DetachKeepsTree(fs.tree, o);
      } else {
        RelocationKeepsTree(fs.tree, o, n);
      }
    }
  }

  lemma MkdirKeepsTree(fs: FS, path: string, recursive: bool, mode: bv32, clock: nat -> int)
    requires WellFormed(fs.tree)
    ensures WellFormed(MkdirEffect(fs, path, recursive, mode, clock).fs.tree)
  {
    var p := Split(path);
    if p != ROOT {
      SplitLegal(path);
      if recursive {
        assert p[..0] == ROOT;
        MakeDirsKeepsTree(fs, p, 0, mode, clock);
      } else {
        ParentDirErrors(fs.tree, p);
      }
    }
  }

  lemma WriteKeepsTree(fs: FS, path: string, data: seq<byte>, now: int)
    requires WellFormed(fs.tree)
    ensures WellFormed(WriteFileEffect(fs, path, data, now).fs.tree)
  {
    var p := Split(path);
    if p != ROOT {
      SplitName(path);
      ParentDirErrors(fs.tree, p);
    }
  }

  lemma AppendKeepsTree(fs: FS, path: string, data: seq<byte>, now: int)
    requires WellFormed(fs.tree)
    ensures WellFormed(AppendFileEffect(fs, path, data, now).fs.tree)
  {
    AppendFileLaw(fs, path, data, now);
    var before := ReadFile(fs, path);
    WriteKeepsTree(fs, path, if before.Ok? then before.value + data else data, now);
  }

  lemma CopyKeepsTree(fs: FS, source: string, target: string)
    requires WellFormed(fs.tree)
    ensures WellFormed(CopyFileEffect(fs, source, target).fs.tree)
  {
    var d := Split(target);
    if d != ROOT {
      SplitName(target);
      ParentDirErrors(fs.tree, d);
    }
  }

  lemma UnlinkKeepsTree(fs: FS, path: string)
    requires WellFormed(fs.tree)
    ensures WellFormed(UnlinkEffect(fs, path).fs.tree)
    ensures WellFormed(RmdirEffect(fs, path).fs.tree)
  {
    UnlinkLaw(fs, path);
    if UnlinkEffect(fs, path).status.Ok? {
      RemoveKeepsTree(fs.tree, Split(path));
    }
  }

  /** Every call on every string keeps a proper tree in which sizes match the data. */
  lemma EveryCallKeepsTree(fs: FS, call: Call)
    requires WellFormed(fs.tree)
    ensures WellFormed(Perform(fs, call).fs.tree)
  {
    match call
    case WriteFile(path, data, now) => WriteKeepsTree(fs, path, data, now);
    case AppendFile(path, data, now) => AppendKeepsTree(fs, path, data, now);
    case Unlink(path) => UnlinkKeepsTree(fs, path);
    case Mkdir(path, recursive, mode, clock) => MkdirKeepsTree(fs, path, recursive, mode, clock);
    case Rmdir(path) => UnlinkKeepsTree(fs, path);
    case Truncate(path, size, now) =>
    case Utimes(path, atimeMs, mtimeMs, now) =>
    case Rename(source, target) => RenameKeepsTree(fs, source, target);
    case CopyFile(source, target) => CopyKeepsTree(fs, source, target);
  }

  /** The file system a new backend starts with. */
  function Empty(now: int): FS {
    FS(map[ROOT := Entry(FreshStat(1, ROOT_MODE, now), [])], 2)
  }

  /** The state after a list of calls, failed ones included. */
  ghost function Run(fs: FS, calls: seq<Call>): FS
    requires WellFormed(fs.tree)
    ensures WellFormed(Run(fs, calls).tree)
    decreases |calls|
  {
    if calls == [] then fs
    else
      EveryCallKeepsTree(fs, calls[0]);
      Run(Perform(fs, calls[0]).fs, calls[1..])
  }

  /** A run is its calls one after the other, failed ones included. */
  lemma {:induction false} RunComposes(fs: FS, first: seq<Call>, second: seq<Call>)
    requires WellFormed(fs.tree)
    ensures Run(fs, first + second) == Run(Run(fs, first), second)
    ensures |first| == 1 ==> Run(fs, first) == Perform(fs, first[0]).fs
    decreases |first|
  {
    if first == [] {
      assert first + second == second;
    } else {
      EveryCallKeepsTree(fs, first[0]);
      assert (first + second)[1..] == first[1..] + second;
      RunComposes(Perform(fs, first[0]).fs, first[1..], second);
    }
  }
}
