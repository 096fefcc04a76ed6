/** The mount router as an object: a table over shared in-memory backends. */
module VirtualFs {
  import opened Types
  import opened Paths
  import opened FlatFs
  import opened FlatFsLaws
  import opened Mounts
  import opened Worlds
  import opened MemFs

  type Backend = MemFSBackend

  /** Distinct backends have distinct identities, and so share no node. */
  ghost predicate Apart(backends: set<Backend>) {
    forall b, c | b in backends && c in backends && b != c :: b.token != c.token
  }

  ghost function NodesOf(backends: set<Backend>): set<Node>
    reads backends`nodes
  {
    set b, n | b in backends && n in b.nodes.Values :: n
  }

  /** The backends are proper trees in the states that `disks` says. */
  ghost predicate Mirrored(disks: map<Backend, FS>)
    reads disks.Keys, NodesOf(disks.Keys)
  {
    && (forall b | b in disks :: b.Valid())
    && (forall b | b in disks :: b.State() == disks[b])
  }

  lemma MirroredWith(disks: map<Backend, FS>, b: Backend)
    requires Mirrored(disks) && b.Valid()
    ensures Mirrored(disks[b := b.State()])
    ensures b in disks ==> disks[b] == b.State()
    ensures disks[b := b.State()].Keys == disks.Keys + {b}
  {
  }

  /** `mount` on the table alone: the conflict check, `lower_bound`, then `insert`. */
  method ExtendTable(mounts: seq<Mount<Backend>>, entry: Mount<Backend>)
    returns (conflict: bool, mounts': seq<Mount<Backend>>)
    requires Descending(mounts) && Consistent(mounts)
    ensures conflict <==> Conflicts(mounts, entry)
    ensures conflict ==> mounts' == mounts
    ensures !conflict ==> mounts' == InsertAt(mounts, LongerCount(mounts, |entry.prefix|), entry)
    ensures Descending(mounts') && Consistent(mounts')
    ensures forall i | 0 <= i < |mounts'| :: mounts'[i] in mounts || mounts'[i] == entry
  {
    conflict := HasConflict(mounts, entry);
    if conflict {
      return true, mounts;
    }
    var k := LowerBound(mounts, entry);
    LowerBoundIsLongerCount(mounts, |entry.prefix|, k);
    InsertKeepsOrder(mounts, k, entry);
    InsertKeepsConsistent(mounts, k, entry);
    InsertedAt(mounts, k, entry);
    mounts' := mounts[..k] + [entry] + mounts[k..];
  }

  lemma MountCases(w: World<Backend>, entry: Mount<Backend>, disk: FS)
    requires entry.backend in w.disks ==> w.disks[entry.backend] == disk
    ensures Conflicts(w.mounts, entry) ==> AddMountEffect(w, entry, disk) == (w, Err(EINVAL))
    ensures !Conflicts(w.mounts, entry) ==>
              AddMountEffect(w, entry, disk)
              == (World(InsertAt(w.mounts, LongerCount(w.mounts, |entry.prefix|), entry),
                        w.disks[entry.backend := disk]), DONE)
  {
    assert entry.backend in w.disks ==> w.disks[entry.backend := disk] == w.disks;
  }

  twostate predicate AllGrown(backends: set<Backend>)
    reads backends`nodes
  {
    forall b | b in backends :: b.Grown()
  }

  /** The same, said of all nodes at once. */
  twostate predicate NodesGrown(backends: set<Backend>)
    reads backends`nodes
  {
    forall n | n in NodesOf(backends) :: n in old(NodesOf(backends)) || fresh(n)
  }

  lemma NoSharedNodes(b: Backend, c: Backend)
    requires b.Valid() && c.Valid() && b.token != c.token
    ensures b.nodes.Values !! c.nodes.Values
  {
  }

  /** One backend serves a call; the others do not notice. */
  method ServeOne(ghost disks: map<Backend, FS>, b: Backend, call: Call) returns (r: Status)
    requires b in disks && Mirrored(disks) && Apart(disks.Keys)
    modifies b.Repr()
    ensures ROOT in disks[b].tree && r == Perform(disks[b], call).status
    ensures Mirrored(disks[b := Perform(disks[b], call).fs])
    ensures AllGrown(disks.Keys)
  {
    hide Linked, Injective, Holds, WellFormed, OwnedBy, Perform, MemFSBackend.Valid;
    forall c | c in disks && c != b
      ensures b.nodes.Values !! c.nodes.Values
    {
      NoSharedNodes(b, c);
    }
    r := b.Serve(call);
  }

  /** `neededPermForAccess`; the existence test needs nothing. */
  function NeededPermForAccess(mode: bv32): (p: Perm)
    ensures p == 0 || p == READ || p == WRITE || p == READ | WRITE
    ensures p & READ != 0 <==> mode & 4 != 0
    ensures p & WRITE != 0 <==> mode & 2 != 0
  {
    (if mode & 4 != 0 then READ else NONE) | (if mode & 2 != 0 then WRITE else NONE)
  }

  class VirtualFS {
    var mounts: seq<Mount<Backend>>

    /** The backends that are mounted or may be mounted later, and their states. */
    ghost var disks: map<Backend, FS>

    ghost predicate Valid()
      reads this, disks.Keys, NodesOf(disks.Keys)
    {
      && (forall i | 0 <= i < |mounts| :: mounts[i].backend in disks)
      && Mirrored(disks)
      && Apart(disks.Keys)
      && Descending(mounts)
      && Consistent(mounts)
    }

    /** The mounted file system this object stands for. */
    ghost function State(): World<Backend>
      reads this
    {
      World(mounts, disks)
    }

    lemma StateIsSound()
      requires Valid()
      ensures Sound(State())
    {
      hide Linked, Injective, Holds, WellFormed, OwnedBy;
    }

    lemma ResolvedBackend(path: string, needed: Perm)
      requires Valid() && Resolve(mounts, path, needed).Ok?
      ensures var b := Resolve(mounts, path, needed).value.backend;
              b in disks && b.Valid() && b.State() == disks[b] && WellFormed(disks[b].tree)
    {
      StateIsSound();
      ResolvedIsMounted(State(), path, needed);
    }

    /** `VirtualFS() = default` */
    constructor ()
      ensures Valid() && mounts == [] && disks == map[]
    {
      mounts := [];
      disks := map[];
    }

    /** The constructor that takes a table; it throws on conflicting permissions. */
    static method Create(mounts: seq<Mount<Backend>>, ghost disks: map<Backend, FS>) returns (r: Result<VirtualFS>)
      requires forall i | 0 <= i < |mounts| :: mounts[i].backend in disks
      requires Mirrored(disks) && Apart(disks.Keys)
      ensures r.Ok? <==> Consistent(mounts)
      ensures r.Ok? ==>
                && fresh(r.value) && r.value.Valid() && r.value.disks == disks
                && multiset(r.value.mounts) == multiset(mounts)
    {
      hide MemFSBackend.Valid;
      var ok := CheckBackendConflict(mounts);
      if !ok {
        return Err(EINVAL);
      }
      var sorted := SortMounts(mounts);
      SameTable(mounts, sorted);
      forall i | 0 <= i < |sorted|
        ensures sorted[i].backend in disks
      {
        assert sorted[i] in mounts;
        var j :| 0 <= j < |mounts| && mounts[j] == sorted[i];
      }
      var vfs := new VirtualFS();
      vfs.mounts := sorted;
      vfs.disks := disks;
      return Ok(vfs);
    }

    /** `mount`; a conflicting entry throws and leaves the table alone. */
    method AddMount(entry: Mount<Backend>) returns (r: Status)
      requires Valid() && entry.backend.Valid() && Apart(disks.Keys + {entry.backend})
      modifies this
      ensures Valid()
      ensures (State(), r) == AddMountEffect(old(State()), entry, entry.backend.State())
    {
      hide MemFSBackend.Valid, Descending, Consistent, Conflicts, AddMountEffect, InsertAt;
      var conflict, extended := ExtendTable(mounts, entry);
      MirroredWith(disks, entry.backend);
      MountCases(State(), entry, entry.backend.State());
      if conflict {
        return Err(EINVAL);
      }
      Install(extended, disks[entry.backend := entry.backend.State()]);
      return DONE;
    }

    /** Puts a backend on record that may be mounted later. */
    ghost method Register(b: Backend)
      requires Valid() && b.Valid() && Apart(disks.Keys + {b})
      modifies this`disks
      ensures Valid() && State() == Know(old(State()), b, b.State())
    {
      hide MemFSBackend.Valid, Descending, Consistent;
      MirroredWith(disks, b);
      disks := disks[b := b.State()];
    }

    /** The new table takes effect. */
    method Install(table: seq<Mount<Backend>>, ghost after: map<Backend, FS>)
      requires forall i | 0 <= i < |table| :: table[i].backend in after
      requires Mirrored(after) && Apart(after.Keys) && Descending(table) && Consistent(table)
      modifies this
      ensures Valid() && mounts == table && disks == after
    {
      mounts := table;
      disks := after;
    }

    // -------------------------------------------------------------------------
    // Dispatch
    // -------------------------------------------------------------------------

    /** Hands a call to a mounted backend. */
    method HandOver(b: Backend, call: Call) returns (r: Status)
      requires Valid() && b in disks
      modifies this`disks, disks.Keys, NodesOf(disks.Keys)
      ensures Valid() && disks.Keys == old(disks.Keys) && AllGrown(disks.Keys)
      ensures ROOT in old(disks)[b].tree && (State(), r) == PerformOn(old(State()), b, call)
    {
      hide MemFSBackend.Valid, Perform, Consistent, Descending, Apart;
      r := ServeOne(disks, b, call);
      ghost var after := disks[b := Perform(disks[b], call).fs];
      assert after.Keys == disks.Keys;
      disks := after;
    }

    /** `VFS_DISPATCH_WRITE`: `writeFile`, `appendFile`, `unlink`, `mkdir`, `rmdir`,
        `truncate` and `utimes`. */
    method DispatchWrite(call: Call) returns (r: Status)
      requires Valid() && !call.Rename? && !call.CopyFile?
      modifies this`disks, disks.Keys, NodesOf(disks.Keys)
      ensures Valid() && disks.Keys == old(disks.Keys) && AllGrown(disks.Keys)
      ensures Sound(old(State())) && (State(), r) == OneEffect(old(State()), call)
    {
      StateIsSound();
      hide MemFSBackend.Valid, VirtualFS.Valid, Perform, PerformOn, Resolve, Sound, NodesOf;
      var res := FindMount(mounts, call.path, WRITE);
      if res.Err? {
        return Err(res.errno);
      }
      ResolvedBackend(call.path, WRITE);
      r := HandOver(res.value.backend, call.(path := res.value.subPath));
    }

    /** `VFS_DISPATCH_READ` for `readFile` and `readFileBytes`. */
    method ReadFile(path: string) returns (r: Result<seq<byte>>)
      requires Valid()
      ensures Sound(State()) && r == Read(State(), path)
    {
      StateIsSound();
      var res := FindMount(mounts, path, READ);
      if res.Err? {
        return Err(res.errno);
      }
      ResolvedBackend(path, READ);
      r := res.value.backend.ReadFile(res.value.subPath);
    }

    method Exists(path: string) returns (r: bool)
      requires Valid()
      ensures var res := Resolve(mounts, path, READ);
              r <==> res.Ok? && res.value.backend in disks && Split(res.value.subPath) in res.value.backend.tree
    {
      StateIsSound();
      var res := FindMount(mounts, path, READ);
      if res.Err? {
        return false;
      }
      ResolvedBackend(path, READ);
      r := res.value.backend.Exists(res.value.subPath);
    }

    /** The mount has to grant what the mode asks for before the backend is asked. */
    method Access(path: string, mode: bv32) returns (r: Status)
      requires Valid()
      ensures var res := Resolve(mounts, path, NeededPermForAccess(mode));
              && (res.Err? ==> r == Err(res.errno))
              && (res.Ok? ==>
                  && res.value.backend in disks
                  && var t, p := res.value.backend.tree, Split(res.value.subPath);
                     && (p !in t ==> r == Err(ENOENT))
                     && (p in t ==> (r.Ok? <==> MayAccess(t[p].stat.mode, mode)) && (r.Err? ==> r.errno == EACCES)))
    {
      StateIsSound();
      var res := FindMount(mounts, path, NeededPermForAccess(mode));
      if res.Err? {
        return Err(res.errno);
      }
      ResolvedBackend(path, NeededPermForAccess(mode));
      r := res.value.backend.Access(res.value.subPath, mode);
    }

    method Rename(source: string, target: string) returns (r: Status)
      requires Valid()
      modifies this`disks, disks.Keys, NodesOf(disks.Keys)
      ensures Valid() && disks.Keys == old(disks.Keys) && AllGrown(disks.Keys)
      ensures Sound(old(State())) && (State(), r) == MoveEffect(old(State()), source, target)
    {
      StateIsSound();
      MoveCases(State(), source, target);
      hide MoveEffect, MemFSBackend.Valid, VirtualFS.Valid, Perform, PerformOn, Resolve, Sound, NodesOf;
      var oldR := FindMount(mounts, source, WRITE);
      if oldR.Err? {
        return Err(oldR.errno);
      }
      var newR := FindMount(mounts, target, WRITE);
      if newR.Err? {
        return Err(newR.errno);
      }
      if oldR.value.backend != newR.value.backend {
        return Err(EXDEV);
      }
      r := HandOver(oldR.value.backend, Call.Rename(oldR.value.subPath, newR.value.subPath));
    }

    /** `copyFile` once both paths are resolved. */
    method CopyResolved(src: Resolved<Backend>, dst: Resolved<Backend>, now: int) returns (r: Status)
      requires Valid() && src.backend in disks && dst.backend in disks
      modifies this`disks, disks.Keys, NodesOf(disks.Keys)
      ensures Valid() && disks.Keys == old(disks.Keys) && AllGrown(disks.Keys)
      ensures ROOT in old(disks)[src.backend].tree && ROOT in old(disks)[dst.backend].tree
      ensures (State(), r) == CopyBetween(old(State()), src, dst, now)
    {
      StateIsSound();
      hide MemFSBackend.Valid, Perform, PerformOn, Sound;
      if src.backend == dst.backend {
        r := HandOver(src.backend, Call.CopyFile(src.subPath, dst.subPath));
        return;
      }
      var data := src.backend.ReadFile(src.subPath);
      if data.Err? {
        return Err(data.errno);
      }
      r := HandOver(dst.backend, Call.WriteFile(dst.subPath, data.value, now));
    }

    method CopyFile(source: string, target: string, now: int) returns (r: Status)
      requires Valid()
      modifies this`disks, disks.Keys, NodesOf(disks.Keys)
      ensures Valid() && disks.Keys == old(disks.Keys) && AllGrown(disks.Keys)
      ensures Sound(old(State())) && (State(), r) == CopyEffect(old(State()), source, target, now)
    {
      StateIsSound();
      CopyCases(State(), source, target, now);
      hide CopyEffect, CopyBetween, MemFSBackend.Valid, Perform, PerformOn, Resolve, Sound;
      var srcR := FindMount(mounts, source, READ);
      if srcR.Err? {
        return Err(srcR.errno);
      }
      var dstR := FindMount(mounts, target, WRITE);
      if dstR.Err? {
        return Err(dstR.errno);
      }
      r := CopyResolved(srcR.value, dstR.value, now);
    }

    // -------------------------------------------------------------------------
    // Runs
    // -------------------------------------------------------------------------

    /** Any request; a mount may bring in any backend on record. */
    method ServeRequest(request: Request<Backend>) returns (r: Status)
      requires Valid() && Acceptable(request)
      requires request.AddMount? ==> request.entry.backend in disks
      modifies this, disks.Keys, NodesOf(disks.Keys)
      ensures Valid() && disks.Keys == old(disks.Keys) && AllGrown(disks.Keys)
      ensures Sound(old(State())) && (State(), r) == Worlds.Serve(old(State()), request)
    {
      StateIsSound();
      hide MemFSBackend.Valid, Sound, OneEffect, MoveEffect, CopyEffect;
      match request
      case One(call) => r := DispatchWrite(call);
      case Move(source, target) => r := Rename(source, target);
      case Copy(source, target, now) => r := CopyFile(source, target, now);
      case AddMount(entry, _) => r := MountKnown(entry, request.disk);
    }

    method ServeNext(request: Request<Backend>) returns (r: Status)
      requires Valid() && Acceptable(request)
      requires request.AddMount? ==> request.entry.backend in disks
      modifies this, disks.Keys, NodesOf(disks.Keys)
      ensures Valid() && disks.Keys == old(disks.Keys) && NodesGrown(disks.Keys)
      ensures Sound(old(State())) && (State(), r) == Worlds.Serve(old(State()), request)
    {
      hide MemFSBackend.Valid, VirtualFS.Valid, Sound, Worlds.Serve, Acceptable;
      r := ServeRequest(request);
    }

    /** `mount` of a backend on record. */
    method MountKnown(entry: Mount<Backend>, ghost disk: FS) returns (r: Status)
      requires Valid() && entry.backend in disks
      modifies this
      ensures Valid() && disks.Keys == old(disks.Keys)
      ensures (State(), r) == AddMountEffect(old(State()), entry, disk)
    {
      hide Linked, Injective, Holds, WellFormed, OwnedBy, Descending, Consistent, Conflicts, InsertAt, LongerCount;
      assert disks.Keys + {entry.backend} == disks.Keys;
      r := AddMount(entry);
    }

    /** Any list of requests, mounts of further backends included: the object follows the
        run of the simple model. */
    method ServeAll(requests: seq<Request<Backend>>)
      requires Valid()
      requires AllAcceptable(requests)
      requires forall i | 0 <= i < |requests| :: requests[i].AddMount? ==> requests[i].entry.backend in disks
      modifies this, disks.Keys, NodesOf(disks.Keys)
      ensures Valid() && disks.Keys == old(disks.Keys) && NodesGrown(disks.Keys)
      ensures Sound(old(State())) && State() == RunRequests(old(State()), requests)
      decreases |requests|
    {
      StateIsSound();
      RunFirst(State(), requests);
      hide MemFSBackend.Valid, VirtualFS.Valid, Sound, Worlds.Serve, Acceptable, AllAcceptable, RunRequests, NodesOf;
      if requests == [] {
        return;
      }
      var r := ServeNext(requests[0]);
      ServeAll(requests[1..]);
    }

    /** Along such a list the nodes of a backend mounted without Write keep their contents. */
    method ServeAllReadOnly(requests: seq<Request<Backend>>, b: Backend)
      requires Valid()
      requires AllAcceptable(requests)
      requires forall i | 0 <= i < |requests| :: requests[i].AddMount? ==> requests[i].entry.backend in disks
      requires b in disks && ReadOnly(State(), b)
      modifies this, disks.Keys, NodesOf(disks.Keys)
      ensures b.Valid() && b.State() == old(b.State())
    {
      ghost var w := State();
      hide MemFSBackend.Valid, Sound, Acceptable, AllAcceptable, RunRequests, ReadOnly;
      ServeAll(requests);
      ReadOnlyRun(w, requests, b);
    }
  }

  ghost predicate AllAcceptable(requests: seq<Request<Backend>>) {
    forall i | 0 <= i < |requests| :: Acceptable(requests[i])
  }

  lemma RunFirst(w: World<Backend>, requests: seq<Request<Backend>>)
    requires Sound(w) && AllAcceptable(requests)
    ensures requests == [] ==> RunRequests(w, requests) == w
    ensures requests != [] ==>
              && Acceptable(requests[0]) && AllAcceptable(requests[1..])
              && Sound(Worlds.Serve(w, requests[0]).0)
              && RunRequests(w, requests) == RunRequests(Worlds.Serve(w, requests[0]).0, requests[1..])
  {
    if requests != [] {
      EveryRequestKeepsSound(w, requests[0]);
    }
  }

  lemma ReadOnlyRun(w: World<Backend>, requests: seq<Request<Backend>>, b: Backend)
    requires Sound(w) && AllAcceptable(requests) && ReadOnly(w, b) && b in w.disks
    ensures var w' := RunRequests(w, requests);
            b in w'.disks && w'.disks[b] == w.disks[b]
  {
    ReadOnlyBackendIsConstant(w, requests, b);
  }

  /** Sorting does not affect which permissions meet which backends. */
  lemma SameTable<B>(mounts: seq<Mount<B>>, sorted: seq<Mount<B>>)
    requires Consistent(mounts) && multiset(sorted) == multiset(mounts)
    ensures Consistent(sorted)
    ensures forall m :: m in sorted <==> m in mounts
  {
    forall m
      ensures m in sorted <==> m in mounts
    {
      assert m in sorted <==> m in multiset(sorted);
      assert m in mounts <==> m in multiset(mounts);
    }
    forall i, j | 0 <= i < j < |sorted| && sorted[i].backend == sorted[j].backend
      ensures sorted[i].perm == sorted[j].perm
    {
      assert sorted[i] in mounts && sorted[j] in mounts;
      var a :| 0 <= a < |mounts| && mounts[a] == sorted[i];
      var b :| 0 <= b < |mounts| && mounts[b] == sorted[j];
    }
  }
}
