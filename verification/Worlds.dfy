/** The mounted file system as a whole, over flat backends: the table, one flat file
    system per backend, and the requests a client can make. */
module Worlds {
  import opened Types
  import opened Paths
  import opened FlatFs
  import opened FlatFsLaws
  import opened Manual
  import opened Mounts

  datatype World<B> = World(mounts: seq<Mount<B>>, disks: map<B, FS>)

  /** The table is ordered and consistent and every disk is a proper tree. */
  ghost predicate Sound<B>(w: World<B>) {
    && Descending(w.mounts)
    && Consistent(w.mounts)
    && (forall i | 0 <= i < |w.mounts| :: w.mounts[i].backend in w.disks)
    && (forall b | b in w.disks :: WellFormed(w.disks[b].tree))
  }

  /** A request; a copy between backends reads the clock, and a mount brings the state
      of a backend that was not mounted before. */
  datatype Request<B> =
    | One(call: Call)
    | Move(source: string, target: string)
    | Copy(source: string, target: string, now: int)
    | AddMount(entry: Mount<B>, disk: FS)

  ghost predicate Acceptable<B>(request: Request<B>) {
    match request
    case One(call) => !call.Rename? && !call.CopyFile?
    case AddMount(_, disk) => WellFormed(disk.tree)
    case _ => true
  }

  lemma ResolvedIsMounted<B>(w: World<B>, path: string, needed: Perm)
    requires Sound(w) && Resolve(w.mounts, path, needed).Ok?
    ensures Resolve(w.mounts, path, needed).value.backend in w.disks
    ensures WellFormed(w.disks[Resolve(w.mounts, path, needed).value.backend].tree)
  {
    GrantedByTable(w.mounts, Normal(path), needed);
  }

  ghost function PerformOn<B>(w: World<B>, b: B, call: Call): (World<B>, Status)
    requires b in w.disks && ROOT in w.disks[b].tree
  {
    var e := Perform(w.disks[b], call);
    (w.(disks := w.disks[b := e.fs]), e.status)
  }

  /** The calls with one path: resolve for writing, then hand over. */
  ghost function OneEffect<B>(w: World<B>, call: Call): (World<B>, Status)
    requires Sound(w) && !call.Rename? && !call.CopyFile?
  {
    var r := Resolve(w.mounts, call.path, WRITE);
    if r.Err? then (w, Err(r.errno)) else
    ResolvedIsMounted(w, call.path, WRITE);
    PerformOn(w, r.value.backend, call.(path := r.value.subPath))
  }

  ghost function MoveEffect<B>(w: World<B>, source: string, target: string): (World<B>, Status)
    requires Sound(w)
  {
    var o := Resolve(w.mounts, source, WRITE);
    if o.Err? then (w, Err(o.errno)) else
    var n := Resolve(w.mounts, target, WRITE);
    if n.Err? then (w, Err(n.errno)) else
    if o.value.backend != n.value.backend then (w, Err(EXDEV)) else
    ResolvedIsMounted(w, source, WRITE);
    PerformOn(w, o.value.backend, Rename(o.value.subPath, n.value.subPath))
  }

  ghost function CopyEffect<B>(w: World<B>, source: string, target: string, now: int): (World<B>, Status)
    requires Sound(w)
  {
    var s := Resolve(w.mounts, source, READ);
    if s.Err? then (w, Err(s.errno)) else
    var d := Resolve(w.mounts, target, WRITE);
    if d.Err? then (w, Err(d.errno)) else
    ResolvedIsMounted(w, source, READ);
    ResolvedIsMounted(w, target, WRITE);
    CopyBetween(w, s.value, d.value, now)
  }

  /** Within one backend it is the backend's copy; between two it is a read and a write. */
  ghost function CopyBetween<B>(w: World<B>, s: Resolved<B>, d: Resolved<B>, now: int): (World<B>, Status)
    requires s.backend in w.disks && ROOT in w.disks[s.backend].tree
    requires d.backend in w.disks && ROOT in w.disks[d.backend].tree
  {
    if s.backend == d.backend then PerformOn(w, s.backend, CopyFile(s.subPath, d.subPath)) else
    var data := FlatFs.ReadFile(w.disks[s.backend], s.subPath);
    if data.Err? then (w, Err(data.errno)) else
    PerformOn(w, d.backend, WriteFile(d.subPath, data.value, now))
  }

  /** The answers of `rename` and `copyFile`, case by case. */
  lemma MoveCases<B>(w: World<B>, source: string, target: string)
    requires Sound(w)
    ensures var o, n := Resolve(w.mounts, source, WRITE), Resolve(w.mounts, target, WRITE);
            && (o.Err? ==> MoveEffect(w, source, target) == (w, Err(o.errno)))
            && (o.Ok? && n.Err? ==> MoveEffect(w, source, target) == (w, Err(n.errno)))
            && (o.Ok? && n.Ok? && o.value.backend != n.value.backend ==>
                  MoveEffect(w, source, target) == (w, Err(EXDEV)))
            && (o.Ok? && n.Ok? && o.value.backend == n.value.backend ==>
                  var b := o.value.backend;
                  && b in w.disks && ROOT in w.disks[b].tree
                  && MoveEffect(w, source, target) == PerformOn(w, b, Rename(o.value.subPath, n.value.subPath)))
  {
    if Resolve(w.mounts, source, WRITE).Ok? {
      ResolvedIsMounted(w, source, WRITE);
    }
  }

  lemma CopyCases<B>(w: World<B>, source: string, target: string, now: int)
    requires Sound(w)
    ensures var s, d := Resolve(w.mounts, source, READ), Resolve(w.mounts, target, WRITE);
            && (s.Err? ==> CopyEffect(w, source, target, now) == (w, Err(s.errno)))
            && (s.Ok? && d.Err? ==> CopyEffect(w, source, target, now) == (w, Err(d.errno)))
            && (s.Ok? && d.Ok? ==>
                  var b, c := s.value.backend, d.value.backend;
                  && b in w.disks && ROOT in w.disks[b].tree && c in w.disks && ROOT in w.disks[c].tree
                  && CopyEffect(w, source, target, now) == CopyBetween(w, s.value, d.value, now))
  {
    if Resolve(w.mounts, source, READ).Ok? {
      ResolvedIsMounted(w, source, READ);
    }
    if Resolve(w.mounts, target, WRITE).Ok? {
      ResolvedIsMounted(w, target, WRITE);
    }
  }

  /** How many mounts have a longer prefix text. */
  function LongerCount<B>(mounts: seq<Mount<B>>, size: nat): (k: nat)
    ensures k <= |mounts|
  {
    if mounts == [] || |mounts[0].prefix| <= size then 0 else 1 + LongerCount(mounts[1..], size)
  }

  lemma {:induction false} LowerBoundIsLongerCount<B>(mounts: seq<Mount<B>>, size: nat, k: nat)
    requires Descending(mounts)
    ensures IsLowerBound(mounts, size, k) <==> k == LongerCount(mounts, size)
  {
    if mounts != [] && |mounts[0].prefix| > size {
      if k > 0 {
        LowerBoundIsLongerCount(mounts[1..], size, k - 1);
        LowerBoundShift(mounts, size, k);
      }
    }
  }

  lemma LowerBoundShift<B>(mounts: seq<Mount<B>>, size: nat, k: nat)
    requires mounts != [] && |mounts[0].prefix| > size && k > 0
    ensures IsLowerBound(mounts, size, k) <==> IsLowerBound(mounts[1..], size, k - 1)
  {
    var rest := mounts[1..];
    assert forall i | 1 <= i < |mounts| :: mounts[i] == rest[i - 1];
  }

  /** A mount added at a prefix that is taken shadows the older one. */
  lemma NewestMountWins<B>(mounts: seq<Mount<B>>, entry: Mount<B>, needed: Perm)
    requires Descending(mounts) && Normal(entry.prefix) == entry.prefix
    ensures Matches(entry, entry.prefix)
    ensures Resolve(InsertAt(mounts, LongerCount(mounts, |entry.prefix|), entry), entry.prefix, needed)
            == Answer(entry, entry.prefix, needed)
  {
    var k := LongerCount(mounts, |entry.prefix|);
    LowerBoundIsLongerCount(mounts, |entry.prefix|, k);
    InsertedAt(mounts, k, entry);
    CanonicalNormal(entry.prefix);
    RenderShape(Canonical(entry.prefix));
    FirstHit(InsertAt(mounts, k, entry), k, entry.prefix, needed);
  }

  /** `mount`: a conflicting entry is rejected with an exception, which is reported here
      as EINVAL, and changes nothing. */
  ghost function AddMountEffect<B>(w: World<B>, entry: Mount<B>, disk: FS): (World<B>, Status) {
    if Conflicts(w.mounts, entry) then (w, Err(EINVAL))
    else
      (World(InsertAt(w.mounts, LongerCount(w.mounts, |entry.prefix|), entry),
             if entry.backend in w.disks then w.disks else w.disks[entry.backend := disk]), DONE)
  }

  ghost function Serve<B>(w: World<B>, request: Request<B>): (World<B>, Status)
    requires Sound(w) && Acceptable(request)
  {
    match request
    case One(call) => OneEffect(w, call)
    case Move(source, target) => MoveEffect(w, source, target)
    case Copy(source, target, now) => CopyEffect(w, source, target, now)
    case AddMount(entry, disk) => AddMountEffect(w, entry, disk)
  }

  ghost function Read<B>(w: World<B>, path: string): Result<seq<byte>>
    requires Sound(w)
  {
    var r := Resolve(w.mounts, path, READ);
    if r.Err? then Err(r.errno) else
    ResolvedIsMounted(w, path, READ);
    FlatFs.ReadFile(w.disks[r.value.backend], r.value.subPath)
  }

  // ---------------------------------------------------------------------------
  // Every request
  // ---------------------------------------------------------------------------

  lemma PerformOnKeepsSound<B>(w: World<B>, b: B, call: Call)
    requires Sound(w) && b in w.disks
    ensures ROOT in w.disks[b].tree && Sound(PerformOn(w, b, call).0)
  {
    EveryCallKeepsTree(w.disks[b], call);
  }

  lemma EveryRequestKeepsSound<B>(w: World<B>, request: Request<B>)
    requires Sound(w) && Acceptable(request)
    ensures Sound(Serve(w, request).0)
  {
    match request
    case One(call) =>
      var r := Resolve(w.mounts, call.path, WRITE);
      if r.Ok? {
        ResolvedIsMounted(w, call.path, WRITE);
        PerformOnKeepsSound(w, r.value.backend, call.(path := r.value.subPath));
      }
    case Move(source, target) =>
      var o, n := Resolve(w.mounts, source, WRITE), Resolve(w.mounts, target, WRITE);
      if o.Ok? && n.Ok? {
        ResolvedIsMounted(w, source, WRITE);
        PerformOnKeepsSound(w, o.value.backend, Rename(o.value.subPath, n.value.subPath));
      }
    case Copy(source, target, now) =>
      CopyKeepsSound(w, source, target, now);
    case AddMount(entry, disk) =>
      AddMountKeepsSound(w, entry, disk);
  }

  lemma CopyKeepsSound<B>(w: World<B>, source: string, target: string, now: int)
    requires Sound(w)
    ensures Sound(CopyEffect(w, source, target, now).0)
  {
    var s, d := Resolve(w.mounts, source, READ), Resolve(w.mounts, target, WRITE);
    if s.Ok? && d.Ok? {
      ResolvedIsMounted(w, source, READ);
      ResolvedIsMounted(w, target, WRITE);
      PerformOnKeepsSound(w, s.value.backend, CopyFile(s.value.subPath, d.value.subPath));
      var data := FlatFs.ReadFile(w.disks[s.value.backend], s.value.subPath);
      if data.Ok? {
        PerformOnKeepsSound(w, d.value.backend, WriteFile(d.value.subPath, data.value, now));
      }
    }
  }

  lemma AddMountKeepsSound<B>(w: World<B>, entry: Mount<B>, disk: FS)
    requires Sound(w) && WellFormed(disk.tree)
    ensures Sound(AddMountEffect(w, entry, disk).0)
  {
    if !Conflicts(w.mounts, entry) {
      var k := LongerCount(w.mounts, |entry.prefix|);
      LowerBoundIsLongerCount(w.mounts, |entry.prefix|, k);
      InsertKeepsOrder(w.mounts, k, entry);
      InsertKeepsConsistent(w.mounts, k, entry);
      InsertedAt(w.mounts, k, entry);
    }
  }

  /** A request that reports an error has changed nothing. */
  lemma FailedRequestChangesNothing<B>(w: World<B>, request: Request<B>)
    requires Sound(w) && Acceptable(request) && Serve(w, request).1.Err?
    ensures Serve(w, request).0 == w
  {
    match request
    case One(call) =>
      var r := Resolve(w.mounts, call.path, WRITE);
      if r.Ok? {
        ResolvedIsMounted(w, call.path, WRITE);
        FailureChangesNothing(w.disks[r.value.backend], call.(path := r.value.subPath));
      }
    case Move(source, target) =>
      var o, n := Resolve(w.mounts, source, WRITE), Resolve(w.mounts, target, WRITE);
      if o.Ok? && n.Ok? && o.value.backend == n.value.backend {
        ResolvedIsMounted(w, source, WRITE);
        FailureChangesNothing(w.disks[o.value.backend], Rename(o.value.subPath, n.value.subPath));
      }
    case Copy(source, target, now) =>
      FailedCopyChangesNothing(w, source, target, now);
    case AddMount(entry, disk) =>
  }

  lemma FailedCopyChangesNothing<B>(w: World<B>, source: string, target: string, now: int)
    requires Sound(w) && CopyEffect(w, source, target, now).1.Err?
    ensures CopyEffect(w, source, target, now).0 == w
  {
    var s, d := Resolve(w.mounts, source, READ), Resolve(w.mounts, target, WRITE);
    if s.Ok? && d.Ok? {
      ResolvedIsMounted(w, source, READ);
      ResolvedIsMounted(w, target, WRITE);
      if s.value.backend == d.value.backend {
        FailureChangesNothing(w.disks[s.value.backend], CopyFile(s.value.subPath, d.value.subPath));
      } else {
        var data := FlatFs.ReadFile(w.disks[s.value.backend], s.value.subPath);
        if data.Ok? {
          FailureChangesNothing(w.disks[d.value.backend], WriteFile(d.value.subPath, data.value, now));
        }
      }
    }
  }

  // ---------------------------------------------------------------------------
  // Permissions over whole runs
  // ---------------------------------------------------------------------------

  ghost predicate ReadOnly<B>(w: World<B>, b: B) {
    exists i | 0 <= i < |w.mounts| :: w.mounts[i].backend == b && w.mounts[i].perm & WRITE == 0
  }

  /** A backend mounted without Write is never the one a write resolves to. */
  lemma WritesMissReadOnly<B>(w: World<B>, path: string, b: B)
    requires Sound(w) && ReadOnly(w, b)
    ensures Resolve(w.mounts, path, WRITE).Ok? ==> Resolve(w.mounts, path, WRITE).value.backend != b
  {
    var i :| 0 <= i < |w.mounts| && w.mounts[i].backend == b && w.mounts[i].perm & WRITE == 0;
    if Resolve(w.mounts, path, WRITE).Ok? && Resolve(w.mounts, path, WRITE).value.backend == b {
      GrantedByAllMounts(w.mounts, path, WRITE, w.mounts[i]);
    }
  }

  lemma RequestKeepsReadOnly<B>(w: World<B>, request: Request<B>, b: B)
    requires Sound(w) && Acceptable(request) && ReadOnly(w, b)
    ensures var w' := Serve(w, request).0;
            ReadOnly(w', b) && (b in w.disks ==> b in w'.disks && w'.disks[b] == w.disks[b])
  {
    hide Perform, Resolve, AddMountEffect, Sound;
    match request
    case One(call) =>
      WritesMissReadOnly(w, call.path, b);
    case Move(source, target) =>
      WritesMissReadOnly(w, source, b);
    case Copy(source, target, now) =>
      WritesMissReadOnly(w, target, b);
    case AddMount(entry, disk) =>
      MountKeepsReadOnly(w, entry, disk, b);
  }

  lemma MountKeepsReadOnly<B>(w: World<B>, entry: Mount<B>, disk: FS, b: B)
    requires ReadOnly(w, b)
    ensures var w' := AddMountEffect(w, entry, disk).0;
            ReadOnly(w', b) && (b in w.disks ==> b in w'.disks && w'.disks[b] == w.disks[b])
  {
    if !Conflicts(w.mounts, entry) {
      var k := LongerCount(w.mounts, |entry.prefix|);
      InsertedAt(w.mounts, k, entry);
      var i :| 0 <= i < |w.mounts| && w.mounts[i].backend == b && w.mounts[i].perm & WRITE == 0;
      var r := InsertAt(w.mounts, k, entry);
      var i' := if i < k then i else i + 1;
      assert r[i'] == w.mounts[i];
    }
  }

  ghost function RunRequests<B>(w: World<B>, requests: seq<Request<B>>): World<B>
    requires Sound(w) && forall i | 0 <= i < |requests| :: Acceptable(requests[i])
    ensures Sound(RunRequests(w, requests))
    decreases |requests|
  {
    if requests == [] then w
    else
      EveryRequestKeepsSound(w, requests[0]);
      RunRequests(Serve(w, requests[0]).0, requests[1..])
  }

  /** A run is its requests one after the other, failed ones included. */
  lemma {:induction false} RunsCompose<B>(w: World<B>, first: seq<Request<B>>, second: seq<Request<B>>)
    requires Sound(w)
    requires forall i | 0 <= i < |first| :: Acceptable(first[i])
    requires forall i | 0 <= i < |second| :: Acceptable(second[i])
    ensures RunRequests(w, first + second) == RunRequests(RunRequests(w, first), second)
    ensures |first| == 1 ==> RunRequests(w, first) == Serve(w, first[0]).0
    decreases |first|
  {
    if first == [] {
      assert first + second == second;
    } else {
      EveryRequestKeepsSound(w, first[0]);
      assert (first + second)[1..] == first[1..] + second;
      RunsCompose(Serve(w, first[0]).0, first[1..], second);
    }
  }

  /** The state of a backend mounted without Write is constant along every run of
      requests and further mounts. */
  lemma {:induction false} ReadOnlyBackendIsConstant<B>(w: World<B>, requests: seq<Request<B>>, b: B)
    requires Sound(w) && forall i | 0 <= i < |requests| :: Acceptable(requests[i])
    requires ReadOnly(w, b) && b in w.disks
    ensures var w' := RunRequests(w, requests);
            ReadOnly(w', b) && b in w'.disks && w'.disks[b] == w.disks[b]
    decreases |requests|
  {
    if requests != [] {
      EveryRequestKeepsSound(w, requests[0]);
      RequestKeepsReadOnly(w, requests[0], b);
      ReadOnlyBackendIsConstant(Serve(w, requests[0]).0, requests[1..], b);
    }
  }

  // ---------------------------------------------------------------------------
  // Backends that are not mounted yet
  // ---------------------------------------------------------------------------

  /** The same world with the state of a backend on record that may be mounted later. */
  ghost function Know<B>(w: World<B>, b: B, disk: FS): World<B> {
    if b in w.disks then w else w.(disks := w.disks[b := disk])
  }

  lemma KnowIsSound<B>(w: World<B>, b: B, disk: FS)
    requires Sound(w) && WellFormed(disk.tree)
    ensures Sound(Know(w, b, disk))
  {
  }

  lemma KnownPerform<B>(w: World<B>, x: B, call: Call, b: B, disk: FS)
    requires x in w.disks && ROOT in w.disks[x].tree
    ensures PerformOn(Know(w, b, disk), x, call) == (Know(PerformOn(w, x, call).0, b, disk), PerformOn(w, x, call).1)
  {
    var e := Perform(w.disks[x], call);
    if b !in w.disks {
      assert w.disks[b := disk][x := e.fs] == w.disks[x := e.fs][b := disk];
    }
  }

  lemma KnownCopy<B>(w: World<B>, source: string, target: string, now: int, b: B, disk: FS)
    requires Sound(w) && Sound(Know(w, b, disk))
    ensures var (w', status) := CopyEffect(w, source, target, now);
            CopyEffect(Know(w, b, disk), source, target, now) == (Know(w', b, disk), status)
  {
    CopyCases(w, source, target, now);
    CopyCases(Know(w, b, disk), source, target, now);
    var s, d := Resolve(w.mounts, source, READ), Resolve(w.mounts, target, WRITE);
    hide CopyEffect, Resolve, PerformOn, Perform, Sound;
    if s.Ok? && d.Ok? {
      KnownPerform(w, s.value.backend, CopyFile(s.value.subPath, d.value.subPath), b, disk);
      var data := FlatFs.ReadFile(w.disks[s.value.backend], s.value.subPath);
      if data.Ok? {
        KnownPerform(w, d.value.backend, WriteFile(d.value.subPath, data.value, now), b, disk);
      }
    }
  }

  lemma KnownOne<B>(w: World<B>, call: Call, b: B, disk: FS)
    requires Sound(w) && Sound(Know(w, b, disk)) && !call.Rename? && !call.CopyFile?
    ensures var (w', status) := OneEffect(w, call);
            OneEffect(Know(w, b, disk), call) == (Know(w', b, disk), status)
  {
    var r := Resolve(w.mounts, call.path, WRITE);
    hide PerformOn, Resolve;
    if r.Ok? {
      ResolvedIsMounted(w, call.path, WRITE);
      KnownPerform(w, r.value.backend, call.(path := r.value.subPath), b, disk);
    }
  }

  lemma KnownMove<B>(w: World<B>, source: string, target: string, b: B, disk: FS)
    requires Sound(w) && Sound(Know(w, b, disk))
    ensures var (w', status) := MoveEffect(w, source, target);
            MoveEffect(Know(w, b, disk), source, target) == (Know(w', b, disk), status)
  {
    var o, n := Resolve(w.mounts, source, WRITE), Resolve(w.mounts, target, WRITE);
    hide PerformOn, Resolve;
    if o.Ok? && n.Ok? {
      ResolvedIsMounted(w, source, WRITE);
      KnownPerform(w, o.value.backend, Rename(o.value.subPath, n.value.subPath), b, disk);
    }
  }

  lemma KnownMount<B>(w: World<B>, entry: Mount<B>, added: FS, b: B, disk: FS)
    requires entry.backend == b ==> added == disk
    ensures var (w', status) := AddMountEffect(w, entry, added);
            AddMountEffect(Know(w, b, disk), entry, added) == (Know(w', b, disk), status)
  {
    if b !in w.disks && entry.backend != b {
      assert w.disks[b := disk][entry.backend := added] == w.disks[entry.backend := added][b := disk];
    }
  }

  /** No request looks at a backend that is not mounted, or changes it. */
  lemma KnownServe<B>(w: World<B>, request: Request<B>, b: B, disk: FS)
    requires Sound(w) && Sound(Know(w, b, disk)) && Acceptable(request)
    requires request.AddMount? && request.entry.backend == b ==> request.disk == disk
    ensures var (w', status) := Serve(w, request);
            Serve(Know(w, b, disk), request) == (Know(w', b, disk), status)
  {
    hide OneEffect, MoveEffect, CopyEffect, AddMountEffect, Know, Sound;
    match request
    case One(call) => KnownOne(w, call, b, disk);
    case Move(source, target) => KnownMove(w, source, target, b, disk);
    case Copy(source, target, now) => KnownCopy(w, source, target, now, b, disk);
    case AddMount(entry, added) => KnownMount(w, entry, added, b, disk);
  }

  /** So it makes no difference to a run whether a backend's state is on record from the
      start or only from the moment it is mounted. */
  lemma {:induction false} KnowingChangesNothing<B>(w: World<B>, requests: seq<Request<B>>, b: B, disk: FS)
    requires Sound(w) && WellFormed(disk.tree)
    requires forall i | 0 <= i < |requests| :: Acceptable(requests[i])
    requires forall i | 0 <= i < |requests| && requests[i].AddMount? && requests[i].entry.backend == b ::
               requests[i].disk == disk
    ensures Sound(Know(w, b, disk))
    ensures RunRequests(Know(w, b, disk), requests) == Know(RunRequests(w, requests), b, disk)
    decreases |requests|
  {
    KnowIsSound(w, b, disk);
    if requests != [] {
      var w1 := Serve(w, requests[0]).0;
      KnownServe(w, requests[0], b, disk);
      EveryRequestKeepsSound(w, requests[0]);
      KnowingChangesNothing(w1, requests[1..], b, disk);
    }
  }

  // ---------------------------------------------------------------------------
  // End to end
  // ---------------------------------------------------------------------------

  /** The outcome of a request on one disk; all other disks and the table are as before. */
  ghost predicate OnDisk<B>(w: World<B>, b: B, w': World<B>) {
    b in w.disks && b in w'.disks && w' == w.(disks := w.disks[b := w'.disks[b]])
  }

  lemma PageIgnoresText(fs: FS, call: Call, q: string, e: Effect)
    requires WellFormed(fs.tree) && !call.Rename? && !call.CopyFile?
    requires e == Perform(fs, call.(path := q))
    ensures OnePage(fs, call, Split(q), e)
  {
    EveryCallKeepsPage(fs, call.(path := q));
    hide WriteFilePage, UnlinkPage, RmdirPage, MkdirPage, MkdirsPage, TruncatePage, UtimesPage, Perform;
  }

  /** Every mutating request with one path: without the Write bit on the best mount it is
      EACCES and nothing happens. With it, the request has the outcome that its page
      promises, at the landing of the path, and on no other disk. */
  lemma OneRequest<B>(w: World<B>, i: nat, call: Call)
    requires Sound(w) && !call.Rename? && !call.CopyFile? && IsBest(w.mounts, i, Canonical(call.path))
    ensures var m, c := w.mounts[i], Canonical(call.path);
            var (w', status) := Serve(w, One(call));
            if m.perm & WRITE == 0 then w' == w && status == Err(EACCES)
            else OnDisk(w, m.backend, w')
                 && OnePage(w.disks[m.backend], call, Landing(m, c), Effect(w'.disks[m.backend], status))
  {
    var m := w.mounts[i];
    LongestPrefixWins(w.mounts, i, call.path, WRITE);
    PermissionDecides(w.mounts, i, call.path, WRITE);
    var r := Resolve(w.mounts, call.path, WRITE);
    hide OnePage, Perform, Resolve, Landing;
    if r.Ok? {
      ResolvedIsMounted(w, call.path, WRITE);
      PageIgnoresText(w.disks[m.backend], call, r.value.subPath,
                      Perform(w.disks[m.backend], call.(path := r.value.subPath)));
    }
  }

  lemma UncoveredRequest<B>(w: World<B>, path: string, call: Call, other: string, now: int)
    requires Sound(w) && forall j | 0 <= j < |w.mounts| :: !Covers(w.mounts[j], Canonical(path))
    requires !call.Rename? && !call.CopyFile? && call.path == path
    ensures Serve(w, One(call)) == (w, Err(EACCES)) && Read(w, path) == Err(EACCES)
    ensures Serve(w, Move(path, other)) == (w, Err(EACCES))
    ensures Serve(w, Move(other, path)) == (w, Err(EACCES))
    ensures Serve(w, Copy(path, other, now)) == (w, Err(EACCES))
    ensures Serve(w, Copy(other, path, now)) == (w, Err(EACCES))
  {
    UncoveredIsRefused(w.mounts, path, WRITE);
    UncoveredIsRefused(w.mounts, path, READ);
    RefusalIsAccess(w.mounts, other, WRITE);
    RefusalIsAccess(w.mounts, other, READ);
  }

  lemma {:induction false} RefusalIsAccess<B>(mounts: seq<Mount<B>>, path: string, needed: Perm)
    ensures Resolve(mounts, path, needed).Err? ==> Resolve(mounts, path, needed).errno == EACCES
  {
    RefusedText(mounts, Normal(path), needed);
  }

  lemma {:induction false} RefusedText<B>(mounts: seq<Mount<B>>, norm: string, needed: Perm)
    ensures ResolveText(mounts, norm, needed).Err? ==> ResolveText(mounts, norm, needed).errno == EACCES
  {
    if mounts != [] {
      RefusedText(mounts[1..], norm, needed);
    }
  }

  /** What a file holds, or why it cannot be read. */
  ghost predicate ReadPage(fs: FS, p: Path, r: Result<seq<byte>>) {
    && (p !in fs.tree ==> r == Err(ENOENT))
    && (IsDirAt(fs.tree, p) ==> r == Err(EISDIR))
    && (p in fs.tree && !IsDirAt(fs.tree, p) ==> r == Ok(fs.tree[p].data))
  }

  /** A read needs the Read bit of the best mount and then sees the landing of the path. */
  lemma ReadRequest<B>(w: World<B>, i: nat, path: string)
    requires Sound(w) && IsBest(w.mounts, i, Canonical(path))
    ensures var m := w.mounts[i];
            if m.perm & READ == 0 then Read(w, path) == Err(EACCES)
            else m.backend in w.disks && ReadPage(w.disks[m.backend], Landing(m, Canonical(path)), Read(w, path))
  {
    LongestPrefixWins(w.mounts, i, path, READ);
    PermissionDecides(w.mounts, i, path, READ);
    if Resolve(w.mounts, path, READ).Ok? {
      ResolvedIsMounted(w, path, READ);
    }
  }

  /** A rename needs the Write bit of both mounts and stays within one backend. */
  lemma MoveRequest<B>(w: World<B>, i: nat, j: nat, source: string, target: string)
    requires Sound(w)
    requires IsBest(w.mounts, i, Canonical(source)) && IsBest(w.mounts, j, Canonical(target))
    ensures var m, k := w.mounts[i], w.mounts[j];
            var (w', status) := Serve(w, Move(source, target));
            if m.perm & WRITE == 0 || k.perm & WRITE == 0 then w' == w && status == Err(EACCES)
            else if m.backend != k.backend then w' == w && status == Err(EXDEV)
            else && OnDisk(w, m.backend, w') && Matches(m, Normal(source)) && Matches(k, Normal(target))
                 && RenamePage(w.disks[m.backend], Shown(m, Normal(source)), Shown(k, Normal(target)),
                               Landing(m, Canonical(source)), Landing(k, Canonical(target)),
                               Effect(w'.disks[m.backend], status))
  {
    var m, k := w.mounts[i], w.mounts[j];
    BestAnswers(w.mounts, i, source, WRITE);
    BestAnswers(w.mounts, j, target, WRITE);
    PermissionDecides(w.mounts, i, source, WRITE);
    PermissionDecides(w.mounts, j, target, WRITE);
    CanonicalNormal(source);
    CanonicalNormal(target);
    AnswerIsLanding(m, Canonical(source));
    AnswerIsLanding(k, Canonical(target));
    MoveCases(w, source, target);
    hide RenamePage, MoveEffect, Perform, Resolve, Landing, Shown, Matches;
    if m.perm & WRITE != 0 && k.perm & WRITE != 0 && m.backend == k.backend {
      RenameKeepsPage(w.disks[m.backend], Shown(m, Normal(source)), Shown(k, Normal(target)));
    }
  }

  /** A copy needs the Read bit of the source's mount and the Write bit of the target's.
      Between backends it is a read and a write. */
  lemma CopyRequest<B>(w: World<B>, i: nat, j: nat, source: string, target: string, now: int)
    requires Sound(w)
    requires IsBest(w.mounts, i, Canonical(source)) && IsBest(w.mounts, j, Canonical(target))
    ensures var m, k := w.mounts[i], w.mounts[j];
            var s, d := Landing(m, Canonical(source)), Landing(k, Canonical(target));
            var (w', status) := Serve(w, Copy(source, target, now));
            if m.perm & READ == 0 || k.perm & WRITE == 0 then w' == w && status == Err(EACCES)
            else
              && OnDisk(w, k.backend, w') && m.backend in w.disks
              && var e := Effect(w'.disks[k.backend], status);
                 if m.backend == k.backend then CopyFilePage(w.disks[k.backend], s, d, e)
                 else if s !in w.disks[m.backend].tree then Fails(w.disks[k.backend], e, ENOENT)
                 else if IsDirAt(w.disks[m.backend].tree, s) then Fails(w.disks[k.backend], e, EISDIR)
                 else WriteFilePage(w.disks[k.backend], d, w.disks[m.backend].tree[s].data, now, e)
  {
    var m, k := w.mounts[i], w.mounts[j];
    LongestPrefixWins(w.mounts, i, source, READ);
    LongestPrefixWins(w.mounts, j, target, WRITE);
    PermissionDecides(w.mounts, i, source, READ);
    PermissionDecides(w.mounts, j, target, WRITE);
    CopyCases(w, source, target, now);
    var r, q := Resolve(w.mounts, source, READ), Resolve(w.mounts, target, WRITE);
    hide CopyFilePage, WriteFilePage, CopyEffect, Perform, Resolve, Landing, IsBest;
    if r.Ok? && q.Ok? {
      var fs := w.disks[k.backend];
      SameDisk(w, k.backend);
      CopyFileKeepsPage(fs, r.value.subPath, q.value.subPath);
      var data := FlatFs.ReadFile(w.disks[m.backend], r.value.subPath);
      if data.Ok? {
        WriteFileKeepsPage(fs, q.value.subPath, data.value, now);
      }
    }
  }

  lemma SameDisk<B>(w: World<B>, b: B)
    requires b in w.disks
    ensures w.disks[b := w.disks[b]] == w.disks
  {
  }

  /** `mount` is accepted exactly if no mount of the same backend has another permission;
      then the table has one more entry, which answers first at its own prefix, and a
      backend that was known keeps its state. */
  lemma MountRequest<B>(w: World<B>, entry: Mount<B>, disk: FS, needed: Perm)
    requires Sound(w) && WellFormed(disk.tree)
    ensures var (w', status) := Serve(w, AddMount(entry, disk));
            && (status.Ok? <==>
                  forall i | 0 <= i < |w.mounts| && w.mounts[i].backend == entry.backend ::
                    w.mounts[i].perm == entry.perm)
            && (status.Err? ==> w' == w)
            && (status.Ok? ==>
                && multiset(w'.mounts) == multiset(w.mounts) + multiset{entry}
                && w'.disks == (if entry.backend in w.disks then w.disks else w.disks[entry.backend := disk])
                && (Normal(entry.prefix) == entry.prefix ==>
                      && Matches(entry, entry.prefix)
                      && Resolve(w'.mounts, entry.prefix, needed) == Answer(entry, entry.prefix, needed)))
  {
    if !Conflicts(w.mounts, entry) {
      InsertMembers(w.mounts, LongerCount(w.mounts, |entry.prefix|), entry);
      if Normal(entry.prefix) == entry.prefix {
        NewestMountWins(w.mounts, entry, needed);
      }
    }
  }

  /** Whichever permission is asked for, the answer is the same place. */
  lemma {:induction false} AnswerIgnoresPermission<B>(mounts: seq<Mount<B>>, norm: string, needed: Perm, needed': Perm)
    requires ResolveText(mounts, norm, needed).Ok? && ResolveText(mounts, norm, needed').Ok?
    ensures ResolveText(mounts, norm, needed) == ResolveText(mounts, norm, needed')
  {
    if !Matches(mounts[0], norm) {
      AnswerIgnoresPermission(mounts[1..], norm, needed, needed');
    }
  }

  /** Two virtual paths lead to the same file of the same backend. */
  ghost predicate SameFile<B>(p: Resolved<B>, q: Resolved<B>) {
    p.backend == q.backend && Split(p.subPath) == Split(q.subPath)
  }

  /** After a successful write, a path that leads to the same file reads what was
      written, and every other path reads what it read before. */
  lemma WriteThenRead<B>(w: World<B>, p: string, data: seq<byte>, now: int, q: string)
    requires Sound(w) && Serve(w, One(WriteFile(p, data, now))).1.Ok?
    requires Resolve(w.mounts, q, READ).Ok?
    ensures var w' := Serve(w, One(WriteFile(p, data, now))).0;
            Sound(w') && Resolve(w.mounts, p, WRITE).Ok? &&
            Read(w', q) == if SameFile(Resolve(w.mounts, p, WRITE).value, Resolve(w.mounts, q, READ).value)
                           then Ok(data) else Read(w, q)
  {
    EveryRequestKeepsSound(w, One(WriteFile(p, data, now)));
    ResolvedIsMounted(w, p, WRITE);
    ResolvedIsMounted(w, q, READ);
    var r, s := Resolve(w.mounts, p, WRITE).value, Resolve(w.mounts, q, READ).value;
    hide Resolve, Perform, Sound;
    DiskReadAfter(w.disks[r.backend], WriteFile(r.subPath, data, now), s.subPath);
    if Split(s.subPath) == Split(r.subPath) {
      WriteThenStat(w.disks[r.backend], r.subPath, data, now);
    }
  }

  lemma DiskReadAfter(fs: FS, call: Call, q: string)
    requires WellFormed(fs.tree) && call.WriteFile?
    ensures Split(q) != Split(call.path) ==> FlatFs.ReadFile(Perform(fs, call).fs, q) == FlatFs.ReadFile(fs, q)
  {
    if Split(q) != Split(call.path) {
      OtherPathsAreUntouched(fs, call, q);
    }
  }

  /** In particular every other spelling of the same virtual path. */
  lemma WriteThenReadBack<B>(w: World<B>, p: string, data: seq<byte>, now: int, q: string)
    requires Sound(w) && Serve(w, One(WriteFile(p, data, now))).1.Ok?
    requires Resolve(w.mounts, q, READ).Ok? && Normal(p) == Normal(q)
    ensures Sound(Serve(w, One(WriteFile(p, data, now))).0)
    ensures Read(Serve(w, One(WriteFile(p, data, now))).0, q) == Ok(data)
  {
    WriteThenRead(w, p, data, now, q);
    AnswerIgnoresPermission(w.mounts, Normal(p), WRITE, READ);
  }

  /** The backend reads the very path the table means exactly when the answering mount
      is plain, or stands elsewhere than at the root and is addressed at its own place. */
  lemma BackendSeesTarget<B>(mounts: seq<Mount<B>>, i: nat, path: string, needed: Perm)
    requires Descending(mounts) && IsBest(mounts, i, Canonical(path))
    requires Resolve(mounts, path, needed).Ok?
    ensures var m, c, r := mounts[i], Canonical(path), Resolve(mounts, path, needed).value;
            && r.backend == m.backend
            && (Split(r.subPath) == Target(m, c) <==> Plain(m) || (Rooted(m) && c == At(m)))
  {
    LongestPrefixWins(mounts, i, path, needed);
    LandingIsTarget(mounts[i], Canonical(path));
  }

  /** So within one mount the written file is the one read exactly when the two virtual
      paths have the same canonical form, or are the two that a mount with a one-letter
      backend path folds into one. */
  lemma SameMountSameFile<B>(mounts: seq<Mount<B>>, i: nat, p: string, q: string)
    requires Descending(mounts)
    requires IsBest(mounts, i, Canonical(p)) && IsBest(mounts, i, Canonical(q))
    requires Resolve(mounts, p, WRITE).Ok? && Resolve(mounts, q, READ).Ok?
    ensures var m, c, d := mounts[i], Canonical(p), Canonical(q);
            SameFile(Resolve(mounts, p, WRITE).value, Resolve(mounts, q, READ).value)
            <==> Normal(p) == Normal(q) || Folds(m, c, d) || Folds(m, d, c)
  {
    LongestPrefixWins(mounts, i, p, WRITE);
    LongestPrefixWins(mounts, i, q, READ);
    LandingInjective(mounts[i], Canonical(p), Canonical(q));
    CanonicalNormal(p);
    CanonicalNormal(q);
    if Normal(p) == Normal(q) {
      RenderInjective(Canonical(p), Canonical(q));
    }
  }

  /** Both paths of a rename land where the backend's cycle test cannot be tricked:
      under canonically spelled mounts, or under one plain mount however its backend path
      is spelled. */
  predicate SafePair<B(==)>(m: Mount<B>, k: Mount<B>) {
    (NormalMount(m) && NormalMount(k)) || (m == k && Plain(m) && m.prefix != "")
  }

  lemma JoinInside(dir: string, r: Path, q: Path)
    requires LegalPath(r) && LegalPath(q) && Inside(r, q)
    ensures TextInside(dir + Join(r), dir + Join(q))
  {
    var tail := q[|r|..];
    JoinConcat(r, tail);
    assert r + tail == q;
    assert Join(tail) == "/" + (tail[0] + Join(tail[1..]));
    assert dir + Join(q) == (dir + Join(r)) + Join(tail);
  }

  /** Under one plain mount a landing strictly inside another is seen on the texts. */
  lemma InsideIsSeen<B>(m: Mount<B>, c: Path, d: Path)
    requires Plain(m) && m.prefix != "" && NormalPath(c) && NormalPath(d) && Covers(m, c) && Covers(m, d)
    requires Landing(m, c) != ROOT && Inside(Landing(m, c), Landing(m, d))
    ensures Matches(m, Render(c)) && Matches(m, Render(d))
    ensures TextInside(Shown(m, Render(c)), Shown(m, Render(d)))
  {
    MatchIsCover(m, c);
    MatchIsCover(m, d);
    SpelledShape(m);
    if Rooted(m) {
      RootedInsideIsSeen(m, c, d);
    } else {
      TextInsideIsInside(c, d);
    }
  }

  /** What a mount below the root hands over for the rest of a path. */
  function Glued(dir: string, rest: Path): string {
    if rest == [] || |dir| > 1 then dir + Join(rest) else Join(rest)
  }

  lemma RootedShown<B>(m: Mount<B>, c: Path)
    requires NormalPath(c) && Covers(m, c) && Rooted(m)
    ensures Matches(m, Render(c))
    ensures var rest := c[|At(m)|..];
            LegalPath(rest) && Shown(m, Render(c)) == Glued(m.backendPath, rest)
  {
    MatchIsCover(m, c);
    SpelledShape(m);
    TextUnderIsPrefix(At(m), c);
    AtItsPlace(m, c);
  }

  lemma GluedInside(dir: string, r: Path, q: Path)
    requires LegalPath(r) && LegalPath(q) && Inside(r, q) && (|dir| > 1 || r != [])
    ensures TextInside(Glued(dir, r), Glued(dir, q))
  {
    if |dir| > 1 {
      JoinInside(dir, r, q);
    } else {
      JoinInside("", r, q);
      assert "" + Join(r) == Join(r) && "" + Join(q) == Join(q);
    }
  }

  lemma InsideOfRests<B>(m: Mount<B>, c: Path, d: Path)
    requires Plain(m) && Rooted(m) && Covers(m, c) && Covers(m, d)
    requires Inside(Landing(m, c), Landing(m, d))
    ensures Inside(c[|At(m)|..], d[|At(m)|..])
    ensures Landing(m, c) != ROOT ==> |m.backendPath| > 1 || c[|At(m)|..] != []
  {
    var r, q := c[|At(m)|..], d[|At(m)|..];
    LandingIsTarget(m, c);
    LandingIsTarget(m, d);
    hide Landing, Into, At, Covers;
    assert (Into(m) + r)[|Into(m)|..] == r && (Into(m) + q)[|Into(m)|..] == q;
  }

  lemma RootedInsideIsSeen<B>(m: Mount<B>, c: Path, d: Path)
    requires Plain(m) && Rooted(m) && NormalPath(c) && NormalPath(d) && Covers(m, c) && Covers(m, d)
    requires Landing(m, c) != ROOT && Inside(Landing(m, c), Landing(m, d))
    ensures Matches(m, Render(c)) && Matches(m, Render(d))
    ensures TextInside(Shown(m, Render(c)), Shown(m, Render(d)))
  {
    var r, q := c[|At(m)|..], d[|At(m)|..];
    RootedShown(m, c);
    RootedShown(m, d);
    InsideOfRests(m, c, d);
    hide Landing, Into, Shown, Matches, TextInside, Join, Glued;
    GluedInside(m.backendPath, r, q);
  }

  lemma MoveResolves<B>(w: World<B>, i: nat, j: nat, source: string, target: string)
    requires Sound(w)
    requires IsBest(w.mounts, i, Canonical(source)) && IsBest(w.mounts, j, Canonical(target))
    requires MoveEffect(w, source, target).1.Ok?
    ensures var m, k := w.mounts[i], w.mounts[j];
            var b := m.backend;
            && b == k.backend && b in w.disks && WellFormed(w.disks[b].tree)
            && Matches(m, Normal(source)) && Matches(k, Normal(target))
            && MoveEffect(w, source, target)
               == PerformOn(w, b, Rename(Shown(m, Normal(source)), Shown(k, Normal(target))))
            && Split(Shown(m, Normal(source))) == Landing(m, Canonical(source))
            && Split(Shown(k, Normal(target))) == Landing(k, Canonical(target))
  {
    BestAnswers(w.mounts, i, source, WRITE);
    BestAnswers(w.mounts, j, target, WRITE);
    CanonicalNormal(source);
    CanonicalNormal(target);
    AnswerIsLanding(w.mounts[i], Canonical(source));
    AnswerIsLanding(w.mounts[j], Canonical(target));
    ResolvedIsMounted(w, source, WRITE);
  }

  /** A safe pair never lands inside itself. */
  lemma SafePairIsApart<B>(m: Mount<B>, k: Mount<B>, c: Path, d: Path, fs: FS)
    requires WellFormed(fs.tree) && SafePair(m, k)
    requires NormalPath(c) && NormalPath(d) && Covers(m, c) && Covers(k, d)
    requires Matches(m, Render(c)) && Matches(k, Render(d)) && Shown(m, Render(c)) != Shown(k, Render(d))
    requires RenameEffect(fs, Shown(m, Render(c)), Shown(k, Render(d))).status.Ok?
    ensures !Inside(Landing(m, c), Landing(k, d))
  {
    var s, t, o, n := Shown(m, Render(c)), Shown(k, Render(d)), Landing(m, c), Landing(k, d);
    AnswerIsLanding(m, c);
    AnswerIsLanding(k, d);
    if Inside(o, n) {
      RenameMoves(fs, s, t);
      if NormalMount(m) && NormalMount(k) {
        NormalAnswer(m, c);
        NormalAnswer(k, d);
        SplitRender(Target(m, c));
        SplitRender(Target(k, d));
        TextInsideIsInside(o, n);
      } else {
        InsideIsSeen(m, c, d);
      }
      if !IsDirAt(fs.tree, o) {
        FileHasNothingInside(fs.tree, o, n);
      }
    }
  }

  /** A rename through the router, with any table: it is an exact relocation in its backend
      exactly when the target does not land inside the source, and between two paths of a
      safe pair of mounts it always is one. */
  lemma MoveRelocates<B>(w: World<B>, i: nat, j: nat, source: string, target: string)
    requires Sound(w)
    requires IsBest(w.mounts, i, Canonical(source)) && IsBest(w.mounts, j, Canonical(target))
    requires Serve(w, Move(source, target)).1.Ok?
    ensures Resolve(w.mounts, source, WRITE).Ok? && Resolve(w.mounts, target, WRITE).Ok?
    ensures var o, n := Landing(w.mounts[i], Canonical(source)), Landing(w.mounts[j], Canonical(target));
            var s, t := Resolve(w.mounts, source, WRITE).value.subPath, Resolve(w.mounts, target, WRITE).value.subPath;
            var b := w.mounts[i].backend;
            var w' := Serve(w, Move(source, target)).0;
            && b in w.disks && b in w'.disks
            && w' == w.(disks := w.disks[b := w'.disks[b]])
            && (s == t ==> o == n && w'.disks[b] == w.disks[b])
            && (s != t ==> (IsRelocation(w.disks[b].tree, w'.disks[b].tree, o, n) <==> !Inside(o, n)))
            && (SafePair(w.mounts[i], w.mounts[j]) ==> !Inside(o, n))
  {
    var c, d := Canonical(source), Canonical(target);
    var m, k := w.mounts[i], w.mounts[j];
    CanonicalNormal(source);
    CanonicalNormal(target);
    BestAnswers(w.mounts, i, source, WRITE);
    BestAnswers(w.mounts, j, target, WRITE);
    MoveResolves(w, i, j, source, target);
    var s, t := Shown(m, Normal(source)), Shown(k, Normal(target));
    if s != t {
      RenameRelocates(w.disks[m.backend], s, t);
      if SafePair(m, k) {
        SafePairIsApart(m, k, c, d, w.disks[m.backend]);
      }
    }
  }

  lemma LetterPaths()
    ensures Normal("/a") == "/a" && Normal("/a/a/b") == "/a/a/b"
    ensures Split("a") == ["a"]
  {
    var c, d := ["a"], ["a", "a", "b"];
    assert c[1..] == [] && d[1..] == ["a", "b"] && d[1..][1..] == ["b"] && ["b"][1..] == [];
    assert Join(["b"]) == "/b" && Join(["a", "b"]) == "/a/b";
    assert Render(c) == "/a" && Render(d) == "/a/a/b";
    CanonicalRender(c);
    CanonicalRender(d);
    SegmentsOfName("a");
    KeptLegal(["a"]);
  }

  lemma LetterAnswers<B>(m: Mount<B>)
    requires m.prefix == "/a" && m.backendPath == "a" && m.perm == WRITE
    ensures Matches(m, "/a") && Answer(m, "/a", WRITE) == Ok(Resolved(m.backend, "a"))
    ensures Matches(m, "/a/a/b") && Answer(m, "/a/a/b", WRITE) == Ok(Resolved(m.backend, "/a/b"))
  {
  }

  lemma LetterRename(fs: FS)
    requires WellFormed(fs.tree) && fs.tree.Keys == {ROOT, ["a"]} && IsDirAt(fs.tree, ["a"])
    ensures RenameEffect(fs, "a", "/a/b") == Effect(fs.(tree := fs.tree - {["a"]}), DONE)
  {
    var o, n := ["a"], ["a", "b"];
    hide Split, Normal;
    SlashPaths();
    LetterPaths();
    assert Parent(n) == o && Parent(o) == ROOT;
    assert Detach(fs.tree, o) == fs.tree - {o};
    assert !HasChild(fs.tree, n) && Inside(o, n);
    assert !TextInside("a", "/a/b");
  }

  /** A pair that is not safe: `/a` shows the relative path `a` of its backend. Renaming
      `/a` to `/a/a/b` reports success and the directory is gone. */
  lemma RelativeBackendPathLosesDirectory<B>(w: World<B>, b: B)
    requires Sound(w) && w.mounts == [Mount("/a", WRITE, b, "a")] && b in w.disks
    requires w.disks[b].tree.Keys == {ROOT, ["a"]} && IsDirAt(w.disks[b].tree, ["a"])
    ensures var fs := w.disks[b];
            Serve(w, Move("/a", "/a/a/b")) == (w.(disks := w.disks[b := fs.(tree := fs.tree - {["a"]})]), DONE)
  {
    hide Matches, Answer, Shown, ResolveText, Normal, Split, RenameEffect, MoveEffect;
    LetterPaths();
    LetterAnswers(w.mounts[0]);
    FirstHit(w.mounts, 0, "/a", WRITE);
    FirstHit(w.mounts, 0, "/a/a/b", WRITE);
    MoveCases(w, "/a", "/a/a/b");
    LetterRename(w.disks[b]);
  }

  /** A copy arrives: a path that leads to the target reads what the source read, and every
      other path what it read before, within one backend and between two. */
  lemma CopyArrives<B>(w: World<B>, source: string, target: string, now: int, q: string)
    requires Sound(w) && Serve(w, Copy(source, target, now)).1.Ok?
    requires Resolve(w.mounts, q, READ).Ok?
    ensures var w' := Serve(w, Copy(source, target, now)).0;
            Sound(w') && Resolve(w.mounts, target, WRITE).Ok? &&
            Read(w', q) == if SameFile(Resolve(w.mounts, target, WRITE).value, Resolve(w.mounts, q, READ).value)
                           then Read(w, source) else Read(w, q)
  {
    CopyKeepsSound(w, source, target, now);
    ResolvedIsMounted(w, source, READ);
    ResolvedIsMounted(w, target, WRITE);
    ResolvedIsMounted(w, q, READ);
    var s, d := Resolve(w.mounts, source, READ).value, Resolve(w.mounts, target, WRITE).value;
    var e := Resolve(w.mounts, q, READ).value;
    CopyCases(w, source, target, now);
    hide Resolve, Perform, Sound, CopyEffect;
    if s.backend == d.backend {
      CopyWithin(w.disks[d.backend], s.subPath, d.subPath, e.subPath);
    } else {
      var data := FlatFs.ReadFile(w.disks[s.backend], s.subPath).value;
      DiskReadAfter(w.disks[d.backend], WriteFile(d.subPath, data, now), e.subPath);
      WriteThenStat(w.disks[d.backend], d.subPath, data, now);
    }
  }

  lemma CopyWithin(fs: FS, s: string, d: string, q: string)
    requires WellFormed(fs.tree) && Perform(fs, CopyFile(s, d)).status.Ok?
    ensures FlatFs.ReadFile(Perform(fs, CopyFile(s, d)).fs, q)
            == if Split(q) == Split(d) then FlatFs.ReadFile(fs, s) else FlatFs.ReadFile(fs, q)
  {
    CopyThenStat(fs, s, d);
    if Split(q) != Split(d) {
      CopyElsewhere(fs, s, d, q);
    }
  }
}
