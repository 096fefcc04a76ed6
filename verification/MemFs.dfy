/** The in-memory backend: a mutable tree of nodes, addressed by string paths.

    The ghost map `nodes` names every node of the tree by its component list. That the
    map is injective and agrees with the `children` fields says that the heap structure
    is a proper tree: one owner per node, no cycles, no null children. */
module MemFs {
  import opened Types
  import opened Paths
  import opened FlatFs
  import opened FlatFsLaws
  import opened Manual

  /** The identity of a backend. */
  class Token {
  }

  class Node {
    var stat: Stat
    var data: seq<byte>
    var children: map<string, Node?>

    /** The identity of the backend in whose tree the node lives. */
    ghost const owner: object

    constructor (stat: Stat, data: seq<byte>, ghost owner: object)
      ensures this.stat == stat && this.data == data && children == map[]
      ensures this.owner == owner
    {
      this.owner := owner;
      this.stat := stat;
      this.data := data;
      this.children := map[];
    }
  }

  // ---------------------------------------------------------------------------
  // The heap and the flat map
  // ---------------------------------------------------------------------------

  /** The `children` fields link exactly the nodes that `nodes` names. */
  ghost predicate Linked(nodes: map<Path, Node>)
    reads nodes.Values`children
  {
    && (forall p, name {:trigger Child(p, name)} {:trigger name in nodes[p].children} | p in nodes ::
          name in nodes[p].children <==> Child(p, name) in nodes)
    && (forall p, name {:trigger Child(p, name)} {:trigger nodes[p].children[name]} |
          p in nodes && Child(p, name) in nodes ::
          nodes[p].children[name] == nodes[Child(p, name)])
  }

  ghost predicate Injective(nodes: map<Path, Node>) {
    forall p, q | p in nodes && q in nodes && p != q :: nodes[p] != nodes[q]
  }

  ghost predicate OwnedBy(nodes: map<Path, Node>, owner: object) {
    forall p | p in nodes :: nodes[p].owner == owner
  }

  /** The nodes hold the stat records and data of the flat map. */
  ghost predicate Holds(nodes: map<Path, Node>, t: Tree)
    reads nodes.Values`stat, nodes.Values`data
  {
    && (forall p :: p in nodes <==> p in t)
    && (forall p | p in nodes :: nodes[p].stat == t[p].stat && nodes[p].data == t[p].data)
  }

  /** A new backend's tree. */
  lemma RootOnly(r: Node, now: int)
    requires r.children == map[] && r.stat == FreshStat(1, ROOT_MODE, now) && r.data == []
    ensures var nodes: map<Path, Node> := map[ROOT := r];
            Linked(nodes) && Injective(nodes) && Holds(nodes, Empty(now).tree) && WellFormed(Empty(now).tree)
  {
    assert forall name: string :: Child(ROOT, name) != ROOT;
  }

  lemma ChildOf(p: Path)
    requires p != ROOT
    ensures Child(Parent(p), Last(p)) == p
    ensures forall q: Path, name :: Child(q, name) == p <==> q == Parent(p) && name == Last(p)
  {
    assert p == Parent(p) + [Last(p)];
    forall q: Path, name
      ensures Child(q, name) == p <==> q == Parent(p) && name == Last(p)
    {
      assert Parent(Child(q, name)) == q && Last(Child(q, name)) == name;
    }
  }

  /** Which child links a relocated tree has, for a node that moved along. */
  lemma MovedBelow(nodes: map<Path, Node>, o: Path, n: Path, s: Path, name: string)
    requires IsRelocation(nodes, Relocate(nodes, o, n), o, n)
    ensures Child(n + s, name) in Relocate(nodes, o, n) <==> Child(o + s, name) in nodes
    ensures Child(o + s, name) in nodes ==> Relocate(nodes, o, n)[Child(n + s, name)] == nodes[Child(o + s, name)]
  {
    assert Child(o + s, name) == o + Child(s, name);
    assert Child(n + s, name) == n + Child(s, name);
  }

  /** And for one that stayed. */
  lemma MovedBeside(nodes: map<Path, Node>, o: Path, n: Path, q: Path, name: string)
    requires IsRelocation(nodes, Relocate(nodes, o, n), o, n) && o in nodes
    requires !Under(n, q) && !Under(o, q)
    ensures var nodes', c := Relocate(nodes, o, n), Child(q, name);
            if c == n then c in nodes' && nodes'[c] == nodes[o]
            else if c == o then c !in nodes'
            else (c in nodes' <==> c in nodes) && (c in nodes ==> nodes'[c] == nodes[c])
  {
    var c := Child(q, name);
    assert Under(o, c) <==> c == o;
    assert Under(n, c) <==> c == n;
    assert o + [] == o && n + [] == n;
  }

  lemma RelocatedInjective(nodes: map<Path, Node>, o: Path, n: Path)
    requires Injective(nodes) && IsRelocation(nodes, Relocate(nodes, o, n), o, n)
    ensures Injective(Relocate(nodes, o, n))
  {
    var nodes' := Relocate(nodes, o, n);
    forall p, q | p in nodes' && q in nodes' && p != q
      ensures nodes'[p] != nodes'[q]
    {
      OriginKnown(nodes, nodes', o, n, p);
      OriginKnown(nodes, nodes', o, n, q);
      OriginInjective(nodes, nodes', o, n, p, q);
    }
  }

  lemma RelocatedHolds(nodes: map<Path, Node>, t: Tree, o: Path, n: Path)
    requires Holds(nodes, t)
    requires IsRelocation(nodes, Relocate(nodes, o, n), o, n) && IsRelocation(t, Relocate(t, o, n), o, n)
    ensures Holds(Relocate(nodes, o, n), Relocate(t, o, n))
  {
    var nodes', t' := Relocate(nodes, o, n), Relocate(t, o, n);
    forall q
      ensures q in nodes' <==> q in t'
      ensures q in nodes' ==> nodes'[q].stat == t'[q].stat && nodes'[q].data == t'[q].data
    {
      if Under(n, q) {
        assert q == n + q[|n|..];
      }
    }
  }

  // ---------------------------------------------------------------------------
  // Changing one link
  // ---------------------------------------------------------------------------

  /** Overwriting the contents of one node. */
  method SetContents(node: Node, data: seq<byte>, stat: Stat,
                     ghost nodes: map<Path, Node>, ghost t: Tree, ghost p: Path)
    requires Linked(nodes) && Injective(nodes) && Holds(nodes, t)
    requires p in nodes && node == nodes[p]
    modifies node`data, node`stat
    ensures Linked(nodes) && Holds(nodes, t[p := Entry(stat, data)])
  {
    node.data := data;
    node.stat := stat;
  }

  /** `dir->children.erase(name)` for a node without children. */
  method EraseLink(dir: Node, name: string, ghost nodes: map<Path, Node>, ghost p: Path)
    requires Linked(nodes) && Injective(nodes)
    requires p != ROOT && name == Last(p) && Parent(p) in nodes && dir == nodes[Parent(p)]
    requires forall m: string :: Child(p, m) !in nodes
    modifies dir`children
    ensures Linked(nodes - {p})
  {
    ChildOf(p);
    dir.children := dir.children - {name};
  }

  lemma InsertedRest(nodes: map<Path, Node>, t: Tree, p: Path, node: Node)
    requires Injective(nodes) && Holds(nodes, t) && node !in nodes.Values && WellFormed(t)
    requires p != ROOT && LegalName(Last(p)) && IsDirAt(t, Parent(p)) && !IsDirAt(t, p)
    requires node.stat.size == |node.data|
    ensures Parent(p) in nodes && forall m: string :: Child(p, m) !in nodes
    ensures WellFormed(t[p := Entry(node.stat, node.data)])
    ensures Injective(nodes[p := node]) && Holds(nodes[p := node], t[p := Entry(node.stat, node.data)])
    ensures OwnedBy(nodes, node.owner) ==> OwnedBy(nodes[p := node], node.owner)
  {
    FileIsLeaf(t, p);
    assert forall m: string :: Inside(p, Child(p, m));
    PutKeepsTree(t, p, Entry(node.stat, node.data));
  }

  /** `dir->children[name] = std::move(node)` for a node without children. */
  method InsertLink(dir: Node, name: string, node: Node, ghost nodes: map<Path, Node>, ghost p: Path)
    requires Linked(nodes) && Injective(nodes)
    requires p != ROOT && name == Last(p) && Parent(p) in nodes && dir == nodes[Parent(p)]
    requires forall m: string :: Child(p, m) !in nodes
    requires node !in nodes.Values && node.children == map[]
    modifies dir`children
    ensures Linked(nodes[p := node])
  {
    ChildOf(p);
    dir.children := dir.children[name := node];
  }

  /** The entries of the directory `p` after the move of `o` to `n`. */
  ghost function Adjusted(entries: map<string, Node?>, p: Path, o: Path, n: Path, node: Node): map<string, Node?>
    requires o != ROOT && n != ROOT
  {
    var unlinked := if p == Parent(o) then entries - {Last(o)} else entries;
    if p == Parent(n) then unlinked[Last(n) := node] else unlinked
  }

  type Entries = map<Path, map<string, Node?>>

  ghost predicate IsBefore(nodes: map<Path, Node>, before: Entries)
    reads nodes.Values`children
  {
    forall p | p in nodes :: p in before && before[p] == nodes[p].children
  }

  ghost predicate WasMoved(nodes: map<Path, Node>, before: Entries, o: Path, n: Path)
    requires o != ROOT && o in nodes && n != ROOT
    reads nodes.Values`children
  {
    forall p | p in nodes :: p in before && nodes[p].children == Adjusted(before[p], p, o, n, nodes[o])
  }

  /** `Linked`, said of the entries before the move. */
  ghost predicate WasLinked(nodes: map<Path, Node>, before: Entries) {
    && (forall p | p in nodes :: p in before)
    && (forall p, name {:trigger Child(p, name)} {:trigger name in before[p]} | p in nodes ::
          name in before[p] <==> Child(p, name) in nodes)
    && (forall p, name {:trigger Child(p, name)} {:trigger before[p][name]} | p in nodes && Child(p, name) in nodes ::
          before[p][name] == nodes[Child(p, name)])
  }

  lemma LinkedBefore(nodes: map<Path, Node>, before: Entries)
    requires Linked(nodes) && IsBefore(nodes, before)
    ensures WasLinked(nodes, before)
  {
  }

  lemma SlotSteps(c: map<string, Node?>, o: string, n: string, node: Node?)
    ensures c[o := null] - {o} == c - {o}
    ensures c[n := null][o := null] - {o} == c[n := null] - {o}
    ensures c[n := null][n := node] == c[n := node]
    ensures (c[n := null] - {o})[n := node] == (c - {o})[n := node]
  {
  }

  /** The last steps of `rename`: `operator[]` may create a null entry, the node is moved
      out of its old slot, the slot is erased and the new one is filled. */
  method MoveEntry(oldDir: Node, oldName: string, newDir: Node, newName: string)
    requires oldName in oldDir.children
    modifies oldDir`children, newDir`children
    ensures var unlinked := old(oldDir.children) - {oldName};
            if oldDir == newDir then newDir.children == unlinked[newName := old(oldDir.children[oldName])]
            else oldDir.children == unlinked
                 && newDir.children == old(newDir.children)[newName := old(oldDir.children[oldName])]
  {
    SlotSteps(oldDir.children, oldName, newName, oldDir.children[oldName]);
    SlotSteps(newDir.children, oldName, newName, oldDir.children[oldName]);
    if newName !in newDir.children {
      newDir.children := newDir.children[newName := null];
    }
    var node := oldDir.children[oldName];
    oldDir.children := oldDir.children[oldName := null];
    oldDir.children := oldDir.children - {oldName};
    newDir.children := newDir.children[newName := node];
  }

  method MoveLink(oldDir: Node, oldName: string, newDir: Node, newName: string,
                  ghost nodes: map<Path, Node>, ghost before: Entries, ghost o: Path, ghost n: Path)
    requires Injective(nodes) && IsBefore(nodes, before)
    requires o != ROOT && o in nodes && oldName == Last(o) && Parent(o) in nodes && oldDir == nodes[Parent(o)]
    requires oldName in oldDir.children && oldDir.children[oldName] == nodes[o]
    requires n != ROOT && newName == Last(n) && Parent(n) in nodes && newDir == nodes[Parent(n)]
    modifies oldDir`children, newDir`children
    ensures WasMoved(nodes, before, o, n)
  {
    MoveEntry(oldDir, oldName, newDir, newName);
  }

  /** One link of a relocated tree. */
  lemma MovedLink(nodes: map<Path, Node>, o: Path, n: Path, q: Path, m: string, entries: map<string, Node?>)
    requires o != ROOT && o in nodes && n != ROOT && !Inside(o, n)
    requires IsRelocation(nodes, Relocate(nodes, o, n), o, n) && q in Relocate(nodes, o, n)
    requires var p := Origin(o, n, q);
             && (m in entries <==> Child(p, m) in nodes)
             && (m in entries ==> entries[m] == nodes[Child(p, m)])
    ensures var nodes', entries' := Relocate(nodes, o, n), Adjusted(entries, Origin(o, n, q), o, n, nodes[o]);
            && (m in entries' <==> Child(q, m) in nodes')
            && (m in entries' ==> entries'[m] == nodes'[Child(q, m)])
  {
    OriginKnown(nodes, Relocate(nodes, o, n), o, n, q);
    if Under(n, q) {
      var s := q[|n|..];
      assert n + s == q;
      var dirO, dirN := Parent(o), Parent(n);
      assert Under(o, dirN) <==> Inside(o, n);
      assert Under(o, o + s) && !Under(o, dirO);
      MovedBelow(nodes, o, n, s, m);
    } else {
      ChildOf(o);
      ChildOf(n);
      MovedBeside(nodes, o, n, q, m);
    }
  }

  /** Rearranging the links of the old tree as `rename` does links the relocated tree. */
  lemma MovedIsLinked(nodes: map<Path, Node>, before: Entries, o: Path, n: Path)
    requires o != ROOT && o in nodes && n != ROOT && !Inside(o, n)
    requires forall q | q in nodes :: !Inside(n, q)
    requires WasLinked(nodes, before) && WasMoved(nodes, before, o, n)
    ensures Linked(Relocate(nodes, o, n))
  {
    var nodes' := Relocate(nodes, o, n);
    RelocateIsRelocation(nodes, o, n);
    forall q, m | q in nodes'
      ensures m in nodes'[q].children <==> Child(q, m) in nodes'
      ensures Child(q, m) in nodes' ==> nodes'[q].children[m] == nodes'[Child(q, m)]
    {
      OriginKnown(nodes, nodes', o, n, q);
      MovedLink(nodes, o, n, q, m, before[Origin(o, n, q)]);
    }
  }

  lemma DetachedIsLinked(nodes: map<Path, Node>, before: Entries, o: Path, n: Path)
    requires o != ROOT && o in nodes && n != ROOT && Inside(o, n)
    requires WasLinked(nodes, before) && WasMoved(nodes, before, o, n)
    ensures Linked(Detach(nodes, o))
  {
    ChildOf(o);
    var dir := Parent(n);
    assert Under(o, dir);
    forall q: Path, m: string | !Under(o, q)
      ensures Under(o, Child(q, m)) <==> Child(q, m) == o
    {
    }
  }

  lemma DetachedRest(nodes: map<Path, Node>, t: Tree, o: Path)
    requires Injective(nodes) && Holds(nodes, t)
    ensures Injective(Detach(nodes, o)) && Holds(Detach(nodes, o), Detach(t, o))
  {
  }

  lemma RelocatedRest(nodes: map<Path, Node>, t: Tree, o: Path, n: Path)
    requires Injective(nodes) && Holds(nodes, t) && Movable(t, o, n) && !Inside(o, n)
    ensures Injective(Relocate(nodes, o, n)) && Holds(Relocate(nodes, o, n), Relocate(t, o, n))
  {
    ChildlessIsLeaf(t, n);
    RelocateIsRelocation(nodes, o, n);
    RelocateIsRelocation(t, o, n);
    RelocatedInjective(nodes, o, n);
    RelocatedHolds(nodes, t, o, n);
  }

  lemma MovedNodes(nodes: map<Path, Node>, o: Path, n: Path)
    requires o != ROOT && n != ROOT && ROOT in nodes
    ensures ROOT in Moved(nodes, o, n) && Moved(nodes, o, n)[ROOT] == nodes[ROOT]
    ensures forall p | p in Moved(nodes, o, n) :: Moved(nodes, o, n)[p] in nodes.Values
  {
    RelocatedElsewhere(nodes, o, n, ROOT);
    forall p | p in Relocate(nodes, o, n)
      ensures Relocate(nodes, o, n)[p] in nodes.Values
    {
      RelocatedKey(nodes, o, n, p);
    }
  }

  /** After the entries have moved, the moved map describes a proper tree again. */
  lemma MovedIsProper(nodes: map<Path, Node>, before: Entries, t: Tree, o: Path, n: Path)
    requires Injective(nodes) && Holds(nodes, t) && Movable(t, o, n)
    requires WasLinked(nodes, before) && o in nodes && WasMoved(nodes, before, o, n)
    ensures Linked(Moved(nodes, o, n)) && Injective(Moved(nodes, o, n))
    ensures Holds(Moved(nodes, o, n), Moved(t, o, n)) && WellFormed(Moved(t, o, n))
  {
    hide Linked, Injective, Holds, WellFormed, WasLinked, WasMoved;
    if Inside(o, n) {
      DetachedIsLinked(nodes, before, o, n);
      DetachedRest(nodes, t, o);
      DetachKeepsTree(t, o);
    } else {
      LeafInNodes(nodes, t, n);
      MovedIsLinked(nodes, before, o, n);
      RelocatedRest(nodes, t, o, n);
      RelocationKeepsTree(t, o, n);
    }
  }

  lemma LeafInNodes(nodes: map<Path, Node>, t: Tree, n: Path)
    requires Holds(nodes, t) && WellFormed(t) && !HasChild(t, n)
    ensures forall q | q in nodes :: !Inside(n, q)
  {
    ChildlessIsLeaf(t, n);
  }

  // ---------------------------------------------------------------------------
  // The order of std::map
  // ---------------------------------------------------------------------------

  /** `std::string`'s order: the first difference decides. */
  predicate Less(a: string, b: string) {
    if b == "" then false
    else if a == "" then true
    else a[0] < b[0] || (a[0] == b[0] && Less(a[1..], b[1..]))
  }

  /** `b` goes on where `a` ends, or has the greater character where they first differ. */
  ghost predicate DiffersUpwards(a: string, b: string, i: nat) {
    && i <= |a| && i < |b| && a[..i] == b[..i]
    && (i == |a| || a[i] < b[i])
  }

  lemma {:induction false} LessIsFirstDifference(a: string, b: string)
    ensures Less(a, b) <==> exists i: nat :: DiffersUpwards(a, b, i)
    decreases |a|
  {
    if b != "" && (a == "" || a[0] < b[0]) {
      assert DiffersUpwards(a, b, 0);
    } else if b != "" && a[0] == b[0] {
      LessIsFirstDifference(a[1..], b[1..]);
      if i: nat :| DiffersUpwards(a[1..], b[1..], i) {
        FirstDifferenceShifts(a, b, i);
      }
      if i: nat :| DiffersUpwards(a, b, i) {
        assert i > 0;
        FirstDifferenceShifts(a, b, i - 1);
      }
    }
  }

  lemma FirstDifferenceShifts(a: string, b: string, i: nat)
    requires a != "" && b != "" && a[0] == b[0]
    ensures DiffersUpwards(a[1..], b[1..], i) <==> DiffersUpwards(a, b, i + 1)
  {
    if i + 1 <= |a| && i + 1 < |b| {
      assert a[..i + 1] == [a[0]] + a[1..][..i];
      assert b[..i + 1] == [b[0]] + b[1..][..i];
      assert a[..i + 1][1..] == a[1..][..i] && b[..i + 1][1..] == b[1..][..i];
    }
  }

  lemma {:induction false} LessTotal(a: string, b: string)
    ensures a == b || Less(a, b) || Less(b, a)
    decreases |a|
  {
    if a != "" && b != "" && a[0] == b[0] {
      LessTotal(a[1..], b[1..]);
      assert a == [a[0]] + a[1..] && b == [b[0]] + b[1..];
    }
  }

  lemma {:induction false} LessTransitive(a: string, b: string, c: string)
    requires Less(a, b) && Less(b, c)
    ensures Less(a, c)
    decreases |a|
  {
    if a != "" && a[0] == b[0] && b[0] == c[0] {
      LessTransitive(a[1..], b[1..], c[1..]);
    }
  }

  ghost predicate IsLeast(name: string, names: set<string>) {
    name in names && forall m | m in names :: m == name || Less(name, m)
  }

  predicate Ascending(names: seq<string>) {
    forall i, j | 0 <= i < j < |names| :: Less(names[i], names[j])
  }

  method PickLeast(names: set<string>) returns (name: string)
    requires names != {}
    ensures IsLeast(name, names)
  {
    name :| name in names;
    var rest := names - {name};
    while rest != {}
      invariant name in names && rest <= names
      invariant forall m | m in names && m !in rest :: m == name || Less(name, m)
      decreases |rest|
    {
      var m :| m in rest;
      LessTotal(name, m);
      if Less(m, name) {
        forall k | k in names && k !in rest - {m}
          ensures k == m || Less(m, k)
        {
          if k != name && k != m {
            LessTransitive(m, name, k);
          }
        }
        name := m;
      }
      rest := rest - {m};
    }
  }

  /** Iterating over a `std::map` visits its keys in ascending order. */
  method KeysInOrder(entries: map<string, Node?>) returns (names: seq<string>)
    ensures Ascending(names)
    ensures forall name :: name in names <==> name in entries
  {
    names := [];
    var rest := entries.Keys;
    while rest != {}
      invariant Ascending(names)
      invariant forall name :: name in entries <==> name in names || name in rest
      invariant forall i, m | 0 <= i < |names| && m in rest :: Less(names[i], m)
      decreases |rest|
    {
      var name := PickLeast(rest);
      names := names + [name];
      rest := rest - {name};
    }
  }

  // ---------------------------------------------------------------------------
  // The backend
  // ---------------------------------------------------------------------------

  /** Every requested right is among the owner's: read 4 on 0400, write 2 on 0200 and
      execute 1 on 0100. */
  predicate MayAccess(stMode: bv32, mode: bv32) {
    (mode & 7) & (stMode >> 6) == mode & 7
  }

  /** The rights that creation gives: a new directory those of the requested mode's owner
      bits, a new file to read and to write. */
  lemma OwnerRights(fs: FS, path: string, mode: bv32, clock: nat -> int, data: seq<byte>, now: int, asked: bv32)
    requires WellFormed(fs.tree) && Split(path) !in fs.tree
    ensures var made := Perform(fs, Mkdir(path, false, mode, clock));
            made.status.Ok? && StatOf(made.fs, path).Ok? ==>
              (MayAccess(StatOf(made.fs, path).value.mode, asked) <==>
                 && (asked & 4 != 0 ==> mode & 0x100 != 0)
                 && (asked & 2 != 0 ==> mode & 0x80 != 0)
                 && (asked & 1 != 0 ==> mode & 0x40 != 0))
    ensures var written := Perform(fs, WriteFile(path, data, now));
            written.status.Ok? && StatOf(written.fs, path).Ok? ==>
              (MayAccess(StatOf(written.fs, path).value.mode, asked) <==> asked & 1 == 0)
  {
    if Perform(fs, Mkdir(path, false, mode, clock)).status.Ok? {
      MkdirThenStat(fs, path, mode, clock);
    }
    if Perform(fs, WriteFile(path, data, now)).status.Ok? {
      WriteThenStat(fs, path, data, now);
    }
    OwnerBits(mode, asked);
    hide Perform, StatOf, MayAccess;
  }

  lemma OwnerBits(mode: bv32, asked: bv32)
    ensures MayAccess(0x4000 | (mode & 0x1FF), asked) <==>
              && (asked & 4 != 0 ==> mode & 0x100 != 0)
              && (asked & 2 != 0 ==> mode & 0x80 != 0)
              && (asked & 1 != 0 ==> mode & 0x40 != 0)
    ensures MayAccess(0x81A4, asked) <==> asked & 1 == 0
  {
  }

  /** `WalkResult`; the parent is null and the name empty for the root. */
  datatype WalkResult = WalkResult(node: Node, parent: Node?, name: string)

  class MemFSBackend {
    var root: Node
    var nextIno: nat

    /** Every node of the tree under its component list, and the flat map it stands for. */
    ghost var nodes: map<Path, Node>
    ghost var tree: Tree

    /** Marks the nodes of this backend. */
    ghost const token: object

    ghost function Repr(): set<object>
      reads this
    {
      {this} + nodes.Values
    }

    /** The flat file system this tree stands for. */
    ghost function State(): FS
      reads `tree, `nextIno
    {
      FS(tree, nextIno)
    }

    ghost predicate Valid()
      reads this, nodes.Values
    {
      && Linked(nodes)
      && Injective(nodes)
      && Holds(nodes, tree)
      && ROOT in nodes && nodes[ROOT] == root
      && WellFormed(tree)
      && OwnedBy(nodes, token)
    }

    /** A call brings only new nodes into the tree. */
    twostate predicate Grown()
      reads `nodes
    {
      forall p | p in nodes :: nodes[p] in old(nodes.Values) || fresh(nodes[p])
    }

    constructor (now: int)
      ensures Valid() && fresh(Repr()) && fresh(token)
      ensures State() == Empty(now)
    {
      var id := new Token;
      var r := new Node(FreshStat(1, ROOT_MODE, now), [], id);
      token := id;
      root := r;
      nextIno := 2;
      nodes := map[ROOT := r];
      tree := Empty(now).tree;
      new;
      hide Linked, Injective, Holds, WellFormed;
      RootOnly(r, now);
    }

    // -------------------------------------------------------------------------
    // Walking
    // -------------------------------------------------------------------------

    lemma OneStep(p: Path, i: nat)
      requires Valid() && i < |p| && p[..i] in nodes
      ensures p[i] in nodes[p[..i]].children <==> p[..i + 1] in nodes
      ensures p[..i + 1] in nodes ==> nodes[p[..i]].children[p[i]] == nodes[p[..i + 1]]
      ensures p[..i + 1] !in nodes ==> p !in nodes
    {
      assert p[..i + 1] == Child(p[..i], p[i]);
      if p in nodes {
        PrefixClosed(tree, p[..i + 1], p);
      }
    }

    method WalkTo(path: string) returns (r: Result<WalkResult>)
      requires Valid()
      ensures var p := Split(path);
              && (r.Ok? <==> p in nodes)
              && (p in nodes <==> p in tree)
              && (r.Ok? ==>
                  && r.value.node.stat == tree[p].stat && r.value.node.data == tree[p].data
                  && r.value.node.stat.size == |r.value.node.data|)
              && (r.Err? ==> r.errno == ENOENT)
              && (r.Ok? ==>
                  && r.value.node == nodes[p]
                  && r.value.parent == (if p == ROOT then null else
                                        if Parent(p) in nodes then nodes[Parent(p)] else null)
                  && r.value.name == if p == ROOT then "" else Last(p))
    {
      var parts := SplitPath(path);
      var node := root;
      var parent: Node? := null;
      var lastName := "";
      var i := 0;
      while i < |parts|
        invariant 0 <= i <= |parts|
        invariant parts[..i] in nodes && node == nodes[parts[..i]]
        invariant i == 0 ==> parent == null && lastName == ""
        invariant i > 0 ==> parts[..i - 1] in nodes && parent == nodes[parts[..i - 1]] && lastName == parts[i - 1]
      {
        var part := parts[i];
        parent := node;
        lastName := part;
        OneStep(parts, i);
        if part !in node.children {
          return Err(ENOENT);
        }
        node := node.children[part];
        i := i + 1;
      }
      assert parts[..i] == parts;
      return Ok(WalkResult(node, parent, lastName));
    }

    method ParentDir(path: string) returns (r: Result<Node>)
      requires Valid()
      ensures var d := FlatFs.ParentDir(tree, Split(path));
              && (r.Ok? <==> d.Ok?)
              && (r.Err? ==> r.errno == d.errno)
              && (r.Ok? ==> d.value in nodes && r.value == nodes[d.value])
    {
      var parts := SplitPath(path);
      if parts == [] {
        return Ok(root);
      }
      ghost var p := parts;
      parts := parts[..|parts| - 1];
      if parts == [] {
        return Ok(root);
      }
      var node := root;
      var i := 0;
      while i < |parts|
        invariant 0 <= i <= |parts|
        invariant parts[..i] in nodes && node == nodes[parts[..i]]
      {
        OneStep(parts, i);
        if parts[i] !in node.children {
          return Err(ENOENT);
        }
        node := node.children[parts[i]];
        i := i + 1;
      }
      assert parts[..i] == parts == Parent(p);
      if !node.stat.IsDir() {
        return Err(ENOTDIR);
      }
      return Ok(node);
    }

    /** A node without entries is a node without children in the flat map. */
    lemma NoEntries(p: Path)
      requires Valid() && p in nodes
      ensures nodes[p].children == map[] <==> !HasChild(tree, p)
      ensures !nodes[p].stat.IsDir() ==> !HasChild(tree, p)
    {
      if !nodes[p].stat.IsDir() {
        FileIsLeaf(tree, p);
      }
      if nodes[p].children == map[] {
        assert forall name: string :: name !in nodes[p].children;
      } else {
        var name :| name in nodes[p].children;
        assert Child(p, name) in tree;
      }
    }

    // -------------------------------------------------------------------------
    // Reading
    // -------------------------------------------------------------------------

    /** `readFile` and `readFileBytes`. */
    method ReadFile(path: string) returns (r: Result<seq<byte>>)
      requires Valid()
      ensures r == FlatFs.ReadFile(State(), path)
    {
      var w := WalkTo(path);
      if w.Err? {
        return Err(w.errno);
      }
      if w.value.node.stat.IsDir() {
        return Err(EISDIR);
      }
      return Ok(w.value.node.data);
    }

    /** `stat` and `lstat`. */
    method GetStat(path: string) returns (r: Result<Stat>)
      requires Valid()
      ensures r == StatOf(State(), path)
    {
      var w := WalkTo(path);
      if w.Err? {
        return Err(w.errno);
      }
      return Ok(w.value.node.stat);
    }

    method Exists(path: string) returns (r: bool)
      requires Valid()
      ensures r <==> Split(path) in tree
    {
      var w := WalkTo(path);
      return w.Ok?;
    }

    /** `readdir`: the names of the children, in ascending order. */
    method Readdir(path: string) returns (r: Result<seq<string>>)
      requires Valid()
      ensures var p := Split(path);
              && (r.Err? <==> !IsDirAt(tree, p))
              && (r.Err? ==> r.errno == if p in tree then ENOTDIR else ENOENT)
              && (r.Ok? ==>
                  && Ascending(r.value)
                  && forall name :: name in r.value <==> Child(p, name) in tree)
    {
      var w := WalkTo(path);
      if w.Err? {
        return Err(w.errno);
      }
      if !w.value.node.stat.IsDir() {
        return Err(ENOTDIR);
      }
      var entries := KeysInOrder(w.value.node.children);
      return Ok(entries);
    }

    /** `access`: 0 is no error; the owner bits of the mode decide. */
    method Access(path: string, mode: bv32) returns (r: Status)
      requires Valid()
      ensures var p := Split(path);
              && (p !in tree ==> r == Err(ENOENT))
              && (p in tree ==> (r.Ok? <==> MayAccess(tree[p].stat.mode, mode)) && (r.Err? ==> r.errno == EACCES))
    {
      var w := WalkTo(path);
      if w.Err? {
        return Err(w.errno);
      }
      if mode == 0 {
        return DONE;
      }
      var stMode := w.value.node.stat.mode;
      if mode & 4 != 0 && stMode & 0x100 == 0 {
        return Err(EACCES);
      }
      if mode & 2 != 0 && stMode & 0x80 == 0 {
        return Err(EACCES);
      }
      if mode & 1 != 0 && stMode & 0x40 == 0 {
        return Err(EACCES);
      }
      return DONE;
    }

    // -------------------------------------------------------------------------
    // Writing
    // -------------------------------------------------------------------------

    /** Links a new childless node at `p`, where there was nothing or a file. */
    method Link(dir: Node, name: string, node: Node, ghost p: Path)
      requires Valid()
      requires p != ROOT && LegalName(Last(p)) && name == Last(p)
      requires IsDirAt(tree, Parent(p)) && dir == nodes[Parent(p)]
      requires !IsDirAt(tree, p)
      requires node !in nodes.Values && node.owner == token
      requires node.children == map[] && node.stat.size == |node.data|
      modifies `nodes, `tree, dir`children
      ensures Valid() && nodes == old(nodes)[p := node]
      ensures tree == old(tree)[p := Entry(node.stat, node.data)]
    {
      hide Linked, Injective, Holds, WellFormed, OwnedBy;
      InsertedRest(nodes, tree, p, node);
      InsertLink(dir, name, node, nodes, p);
      tree := tree[p := Entry(node.stat, node.data)];
      nodes := nodes[p := node];
    }

    /** Links a new node with the next inode number at `p`. */
    method CreateAt(dir: Node, name: string, stat: Stat, data: seq<byte>, ghost p: Path) returns (node: Node)
      requires Valid()
      requires p != ROOT && LegalName(Last(p)) && name == Last(p)
      requires IsDirAt(tree, Parent(p)) && dir == nodes[Parent(p)]
      requires !IsDirAt(tree, p) && stat.size == |data|
      modifies `nodes, `tree, `nextIno, dir`children
      ensures Valid() && fresh(node) && nodes == old(nodes)[p := node]
      ensures State() == Create(old(State()), p, Entry(stat, data))
      ensures node.stat == stat.(ino := old(nextIno)) && node.data == data
    {
      node := new Node(stat.(ino := nextIno), data, token);
      nextIno := NextInode(nextIno);
      Link(dir, name, node, p);
    }

    /** Takes the childless node at `p` off its parent. */
    method Drop(dir: Node, name: string, ghost p: Path)
      requires Valid()
      requires p != ROOT && p in nodes && name == Last(p) && !HasChild(tree, p)
      requires Parent(p) in nodes && dir == nodes[Parent(p)]
      modifies `nodes, `tree, dir`children
      ensures Valid() && nodes == old(nodes) - {p}
      ensures tree == old(tree) - {p}
    {
      RemoveKeepsTree(tree, p);
      EraseLink(dir, name, nodes, p);
      nodes := nodes - {p};
      tree := tree - {p};
    }

    /** Assigns the data and stat of one node. */
    method Assign(node: Node, data: seq<byte>, stat: Stat, ghost p: Path)
      requires Valid()
      requires p in nodes && node == nodes[p]
      requires stat.IsDir() <==> node.stat.IsDir()
      requires stat.size == |data|
      modifies `tree, node`data, node`stat
      ensures Valid()
      ensures tree == old(tree)[p := Entry(stat, data)]
    {
      EditKeepsTree(tree, p, Entry(stat, data));
      SetContents(node, data, stat, nodes, tree, p);
      tree := tree[p := Entry(stat, data)];
    }

    /** Moves the subtree at `o` to `n`, or out of the tree if `n` lies inside it. */
    method Move(oldDir: Node, oldName: string, newDir: Node, newName: string, ghost o: Path, ghost n: Path)
      requires Valid() && Movable(tree, o, n)
      requires oldName == Last(o) && Parent(o) in nodes && oldDir == nodes[Parent(o)]
      requires newName == Last(n) && Parent(n) in nodes && newDir == nodes[Parent(n)]
      requires o in nodes && oldName in oldDir.children && oldDir.children[oldName] == nodes[o]
      modifies `nodes, `tree, oldDir`children, newDir`children
      ensures Valid() && forall p | p in nodes :: nodes[p] in old(nodes.Values)
      ensures tree == Moved(old(tree), o, n)
    {
      hide Linked, Injective, Holds, WellFormed, WasLinked, WasMoved, HasChild, Moved;
      ghost var before: Entries := map p | p in nodes :: nodes[p].children;
      LinkedBefore(nodes, before);
      MoveLink(oldDir, oldName, newDir, newName, nodes, before, o, n);
      MovedIsProper(nodes, before, tree, o, n);
      MovedNodes(nodes, o, n);
      nodes := Moved(nodes, o, n);
      tree := Moved(tree, o, n);
    }

    lemma PutTwice(t: Tree, t1: Tree, p: Path, e: Entry)
      requires t1 == t || (p in t1 && t1 == t[p := t1[p]])
      ensures t1[p := e] == t[p := e]
    {
    }

    /** What `parentDir` and a lookup of the last name tell about a path. */
    lemma EntryOf(path: string)
      requires Valid() && Split(path) != ROOT && FlatFs.ParentDir(tree, Split(path)).Ok?
      ensures var p := Split(path);
              && FlatFs.ParentDir(tree, p).value == Parent(p)
              && LegalName(Last(p)) && IsDirAt(tree, Parent(p)) && Parent(p) in nodes
              && (Last(p) in nodes[Parent(p)].children <==> p in nodes)
              && (p in nodes <==> p in tree)
              && (p in nodes ==>
                  && nodes[Parent(p)].children[Last(p)] == nodes[p]
                  && nodes[p].stat == tree[p].stat && nodes[p].data == tree[p].data
                  && nodes[p].stat.size == |nodes[p].data|)
    {
      SplitName(path);
      ParentDirIsParent(tree, Split(path));
      ChildOf(Split(path));
    }

    method WriteFile(path: string, data: seq<byte>, now: int) returns (r: Status)
      requires Valid()
      modifies Repr()
      ensures Valid() && Grown()
      ensures Effect(State(), r) == old(WriteFileEffect(State(), path, data, now))
    {
      hide Linked, Injective, Holds, WellFormed;
      var parts := SplitPath(path);
      if parts == [] {
        return Err(EISDIR);
      }
      var fileName := parts[|parts| - 1];
      var p := ParentDir(path);
      if p.Err? {
        return Err(p.errno);
      }
      var dir := p.value;
      EntryOf(path);
      var file: Node;
      if fileName in dir.children {
        file := dir.children[fileName];
        if file.stat.IsDir() {
          return Err(EISDIR);
        }
      } else {
        file := CreateAt(dir, fileName, FreshStat(0, FILE_MODE, now), [], parts);
      }
      ghost var t := tree;
      var e := Entry(file.stat.(size := |data|, mtimeMs := now), data);
      Assign(file, e.data, e.stat, parts);
      PutTwice(old(tree), t, parts, e);
      return DONE;
    }

    method AppendFile(path: string, data: seq<byte>, now: int) returns (r: Status)
      requires Valid()
      modifies Repr()
      ensures Valid() && Grown()
      ensures Effect(State(), r) == old(AppendFileEffect(State(), path, data, now))
    {
      hide Linked, Injective, Holds, WellFormed;
      var parts := SplitPath(path);
      if parts == [] {
        return Err(EISDIR);
      }
      var fileName := parts[|parts| - 1];
      var p := ParentDir(path);
      if p.Err? {
        return Err(p.errno);
      }
      EntryOf(path);
      if fileName !in p.value.children {
        r := WriteFile(path, data, now);
        return;
      }
      var file := p.value.children[fileName];
      if file.stat.IsDir() {
        return Err(EISDIR);
      }
      Assign(file, file.data + data, file.stat.(size := |file.data + data|, mtimeMs := now), parts);
      return DONE;
    }

    method Unlink(path: string) returns (r: Status)
      requires Valid()
      modifies Repr()
      ensures Valid() && Grown()
      ensures Effect(State(), r) == old(UnlinkEffect(State(), path))
    {
      hide Linked, Injective, Holds, WellFormed;
      var parts := SplitPath(path);
      if parts == [] {
        return Err(EACCES);
      }
      var fileName := parts[|parts| - 1];
      var p := ParentDir(path);
      if p.Err? {
        return Err(p.errno);
      }
      EntryOf(path);
      if fileName !in p.value.children {
        return Err(ENOENT);
      }
      var node := p.value.children[fileName];
      NoEntries(parts);
      if node.stat.IsDir() && node.children != map[] {
        return Err(ENOTEMPTY);
      }
      Drop(p.value, fileName, parts);
      return DONE;
    }

    method Rmdir(path: string) returns (r: Status)
      requires Valid()
      modifies Repr()
      ensures Valid() && Grown()
      ensures Effect(State(), r) == old(RmdirEffect(State(), path))
    {
      hide Linked, Injective, Holds, WellFormed;
      var w := WalkTo(path);
      if w.Err? {
        return Err(w.errno);
      }
      if !w.value.node.stat.IsDir() {
        return Err(ENOTDIR);
      }
      NoEntries(Split(path));
      if w.value.node.children != map[] {
        return Err(ENOTEMPTY);
      }
      r := Unlink(path);
    }

    method Truncate(path: string, size: int, now: int) returns (r: Status)
      requires Valid()
      modifies Repr()
      ensures Valid() && Grown()
      ensures Effect(State(), r) == old(TruncateEffect(State(), path, size, now))
    {
      hide Linked, Injective, Holds, WellFormed;
      if size < 0 {
        return Err(EINVAL);
      }
      var w := WalkTo(path);
      if w.Err? {
        return Err(w.errno);
      }
      var node := w.value.node;
      if node.stat.IsDir() {
        return Err(EISDIR);
      }
      var data := if size > |node.data| then node.data + seq(size - |node.data|, _ => 0) else node.data[..size];
      assert data == Resize(node.data, size);
      Assign(node, data, node.stat.(size := size, mtimeMs := now, ctimeMs := now), Split(path));
      return DONE;
    }

    method Utimes(path: string, atimeMs: int, mtimeMs: int, now: int) returns (r: Status)
      requires Valid()
      modifies Repr()
      ensures Valid() && Grown()
      ensures Effect(State(), r) == old(UtimesEffect(State(), path, atimeMs, mtimeMs, now))
    {
      hide Linked, Injective, Holds, WellFormed;
      var w := WalkTo(path);
      if w.Err? {
        return Err(w.errno);
      }
      var node := w.value.node;
      Assign(node, node.data, node.stat.(atimeMs := atimeMs, mtimeMs := mtimeMs, ctimeMs := now), Split(path));
      return DONE;
    }

    method CopyFile(source: string, target: string) returns (r: Status)
      requires Valid()
      modifies Repr()
      ensures Valid() && Grown()
      ensures Effect(State(), r) == old(CopyFileEffect(State(), source, target))
    {
      hide Linked, Injective, Holds, WellFormed;
      var w := WalkTo(source);
      if w.Err? {
        return Err(w.errno);
      }
      var node := w.value.node;
      if node.stat.IsDir() {
        return Err(EISDIR);
      }
      var parts := SplitPath(target);
      if parts == [] {
        return Err(EISDIR);
      }
      var fileName := parts[|parts| - 1];
      var p := ParentDir(target);
      if p.Err? {
        return Err(p.errno);
      }
      EntryOf(target);
      if fileName in p.value.children {
        if p.value.children[fileName].stat.IsDir() {
          return Err(EISDIR);
        }
      }
      var clone := CreateAt(p.value, fileName, node.stat, node.data, parts);
      return DONE;
    }

    /** In the recursive case `clock(i)` is the time read if the `i`-th directory has to
        be created. */
    method Mkdir(path: string, recursive: bool, mode: bv32, clock: nat -> int) returns (r: Status)
      requires Valid()
      modifies Repr()
      ensures Valid() && Grown()
      ensures old(ROOT in tree) && Effect(State(), r) == old(MkdirEffect(State(), path, recursive, mode, clock))
    {
      hide Linked, Injective, Holds, WellFormed;
      var parts := SplitPath(path);
      NodeAt(ROOT);
      if parts == [] {
        return DONE;
      }
      if recursive {
        r := MkdirRecursive(path, parts, mode, clock);
        return;
      }
      var fileName := parts[|parts| - 1];
      var p := ParentDir(path);
      if p.Err? {
        return Err(p.errno);
      }
      EntryOf(path);
      if fileName in p.value.children {
        return Err(EEXIST);
      }
      var node := CreateAt(p.value, fileName, FreshStat(0, DirMode(mode), clock(0)), [], parts);
      return DONE;
    }

    /** What a node and the flat map know about the same place. */
    lemma NodeAt(p: Path)
      requires Valid()
      ensures p in nodes <==> p in tree
      ensures p in nodes ==> nodes[p].stat == tree[p].stat && nodes[p].data == tree[p].data
      ensures p in nodes ==> nodes[p].stat.size == |nodes[p].data|
      ensures ROOT in nodes && nodes[ROOT].stat.IsDir()
    {
    }

    method MkdirRecursive(path: string, parts: Path, mode: bv32, clock: nat -> int) returns (r: Status)
      requires Valid() && parts == Split(path) && ROOT in tree
      modifies Repr()
      ensures Valid() && Grown()
      ensures old(parts[..0] in tree) && Effect(State(), r) == old(MakeDirs(State(), parts, 0, mode, clock))
    {
      hide Linked, Injective, Holds, WellFormed;
      var current := root;
      var i := 0;
      SplitLegal(path);
      NodeAt(ROOT);
      assert parts[..0] == ROOT;
      while i < |parts|
        invariant 0 <= i <= |parts|
        invariant Valid() && Grown()
        invariant parts[..i] in nodes && current == nodes[parts[..i]] && IsDirAt(tree, parts[..i])
        invariant MakeDirs(State(), parts, i, mode, clock) == old(MakeDirs(State(), parts, 0, mode, clock))
      {
        var part := parts[i];
        ghost var q := parts[..i + 1];
        assert Parent(q) == parts[..i] && Last(q) == part;
        OneStep(parts, i);
        NodeAt(q);
        var child: Node;
        if part !in current.children {
          child := CreateAt(current, part, FreshStat(0, DirMode(mode), clock(i)), [], q);
        } else {
          child := current.children[part];
          if !child.stat.IsDir() {
            return Err(ENOTDIR);
          }
        }
        current := child;
        i := i + 1;
      }
      assert parts[..i] == parts;
      NodeAt(parts);
      Assign(current, current.data, current.stat.(mode := DirMode(mode)), parts);
      return DONE;
    }

    method Rename(source: string, target: string) returns (r: Status)
      requires Valid()
      modifies Repr()
      ensures Valid() && Grown()
      ensures Effect(State(), r) == old(RenameEffect(State(), source, target))
    {
      hide Linked, Injective, Holds, WellFormed;
      if source == target {
        return DONE;
      }
      var oldParts := SplitPath(source);
      if oldParts == [] {
        return Err(EACCES);
      }
      var oldName := oldParts[|oldParts| - 1];
      var oldP := ParentDir(source);
      if oldP.Err? {
        return Err(oldP.errno);
      }
      EntryOf(source);
      if oldName !in oldP.value.children {
        return Err(ENOENT);
      }
      var node := oldP.value.children[oldName];
      if node.stat.IsDir() && |target| > |source| && target[|source|] == '/' && target[..|source|] == source {
        return Err(EINVAL);
      }
      var newParts := SplitPath(target);
      if newParts == [] {
        return Err(EACCES);
      }
      var newName := newParts[|newParts| - 1];
      var newP := ParentDir(target);
      if newP.Err? {
        return Err(newP.errno);
      }
      EntryOf(target);
      if newName in newP.value.children {
        var dst := newP.value.children[newName];
        NoEntries(newParts);
        if dst.stat.IsDir() && dst.children != map[] {
          return Err(ENOTEMPTY);
        }
      }
      assert RenameEffect(State(), source, target).status.Ok?;
      RenameMoves(State(), source, target);
      Move(oldP.value, oldName, newP.value, newName, oldParts, newParts);
      return DONE;
    }

    /** Any mutating call. */
    method Serve(call: Call) returns (r: Status)
      requires Valid()
      modifies Repr()
      ensures Valid() && Grown()
      ensures old(ROOT in tree) && Effect(State(), r) == old(Perform(State(), call))
    {
      NodeAt(ROOT);
      hide Linked, Injective, Holds, WellFormed;
      match call
      case WriteFile(path, data, now) => r := WriteFile(path, data, now);
      case AppendFile(path, data, now) => r := AppendFile(path, data, now);
      case Unlink(path) => r := Unlink(path);
      case Mkdir(path, recursive, mode, clock) => r := Mkdir(path, recursive, mode, clock);
      case Rmdir(path) => r := Rmdir(path);
      case Truncate(path, size, now) => r := Truncate(path, size, now);
      case Utimes(path, atimeMs, mtimeMs, now) => r := Utimes(path, atimeMs, mtimeMs, now);
      case Rename(source, target) => r := Rename(source, target);
      case CopyFile(source, target) => r := CopyFile(source, target);
    }

    /** Any list of mutating calls: the heap structure follows the flat run, and is a
        proper tree again after every call. */
    method ServeAll(calls: seq<Call>)
      requires Valid()
      modifies Repr()
      ensures Valid() && Grown()
      ensures WellFormed(old(tree)) && State() == old(Run(State(), calls))
    {
      hide Linked, Injective, Holds, WellFormed;
      var i := 0;
      assert calls[0..] == calls;
      while i < |calls|
        invariant 0 <= i <= |calls|
        invariant Valid() && Grown()
        invariant Run(State(), calls[i..]) == old(Run(State(), calls))
      {
        assert calls[i..][0] == calls[i] && calls[i..][1..] == calls[i + 1..];
        EveryCallKeepsTree(State(), calls[i]);
        var r := Serve(calls[i]);
        i := i + 1;
      }
    }
  }
}
