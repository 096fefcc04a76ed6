/** The mount table: how a virtual path is routed to a backend and a path in it. */
module Mounts {
  import opened Types
  import opened Paths

  /** A mount of a backend, which is identified by a value of type `B`. */
  datatype Mount<B> = Mount(prefix: string, perm: Perm, backend: B, backendPath: string)

  datatype Resolved<B> = Resolved(backend: B, subPath: string)

  // ---------------------------------------------------------------------------
  // What the router computes on strings
  // ---------------------------------------------------------------------------

  function SubPath<B>(m: Mount<B>, norm: string): string
    requires |m.prefix| <= |norm|
  {
    if norm == m.prefix then m.backendPath
    else if |m.backendPath| > 1 then m.backendPath + norm[|m.prefix|..]
    else norm[|m.prefix|..]
  }

  predicate Matches<B>(m: Mount<B>, norm: string) {
    m.prefix == "/" || TextUnder(m.prefix, norm)
  }

  /** The path handed to the backend. */
  function Shown<B>(m: Mount<B>, norm: string): string
    requires Matches(m, norm)
  {
    if m.prefix == "/" then norm else SubPath(m, norm)
  }

  function Answer<B>(m: Mount<B>, norm: string, needed: Perm): Result<Resolved<B>>
    requires Matches(m, norm)
  {
    if Grants(m.perm, needed) then Ok(Resolved(m.backend, Shown(m, norm))) else Err(EACCES)
  }

  /** The first mount whose prefix matches answers. */
  function ResolveText<B>(mounts: seq<Mount<B>>, norm: string, needed: Perm): Result<Resolved<B>> {
    if mounts == [] then Err(EACCES)
    else if Matches(mounts[0], norm) then Answer(mounts[0], norm, needed)
    else ResolveText(mounts[1..], norm, needed)
  }

  function Resolve<B>(mounts: seq<Mount<B>>, path: string, needed: Perm): Result<Resolved<B>> {
    ResolveText(mounts, Normal(path), needed)
  }

  // ---------------------------------------------------------------------------
  // The table
  // ---------------------------------------------------------------------------

  predicate Descending<B>(mounts: seq<Mount<B>>) {
    forall i, j | 0 <= i < j < |mounts| :: |mounts[i].prefix| >= |mounts[j].prefix|
  }

  /** No backend is mounted with two different permissions. */
  predicate Consistent<B(==)>(mounts: seq<Mount<B>>) {
    forall i, j | 0 <= i < j < |mounts| :: mounts[i].backend == mounts[j].backend ==> mounts[i].perm == mounts[j].perm
  }

  predicate Conflicts<B(==)>(mounts: seq<Mount<B>>, entry: Mount<B>) {
    exists i | 0 <= i < |mounts| :: mounts[i].backend == entry.backend && mounts[i].perm != entry.perm
  }

  /** The place of a new mount: in front of the first one whose prefix is not longer. */
  ghost predicate IsLowerBound<B>(mounts: seq<Mount<B>>, size: nat, k: nat) {
    && k <= |mounts|
    && (forall i | 0 <= i < k :: |mounts[i].prefix| > size)
    && (forall i | k <= i < |mounts| :: |mounts[i].prefix| <= size)
  }

  function InsertAt<B>(mounts: seq<Mount<B>>, k: nat, entry: Mount<B>): seq<Mount<B>>
    requires k <= |mounts|
  {
    mounts[..k] + [entry] + mounts[k..]
  }

  lemma InsertedAt<B>(mounts: seq<Mount<B>>, k: nat, entry: Mount<B>)
    requires k <= |mounts|
    ensures var r := InsertAt(mounts, k, entry);
            && |r| == |mounts| + 1
            && forall i | 0 <= i < |r| :: r[i] == if i < k then mounts[i] else if i == k then entry else mounts[i - 1]
  {
  }

  lemma InsertKeepsOrder<B>(mounts: seq<Mount<B>>, k: nat, entry: Mount<B>)
    requires Descending(mounts) && IsLowerBound(mounts, |entry.prefix|, k)
    ensures Descending(InsertAt(mounts, k, entry))
  {
    InsertedAt(mounts, k, entry);
    var r := InsertAt(mounts, k, entry);
    forall i, j | 0 <= i < j < |r|
      ensures |r[i].prefix| >= |r[j].prefix|
    {
    }
  }

  lemma InsertKeepsConsistent<B>(mounts: seq<Mount<B>>, k: nat, entry: Mount<B>)
    requires k <= |mounts| && Consistent(mounts) && !Conflicts(mounts, entry)
    ensures Consistent(InsertAt(mounts, k, entry))
  {
    InsertedAt(mounts, k, entry);
    var r := InsertAt(mounts, k, entry);
    forall i, j | 0 <= i < j < |r|
      ensures r[i].backend == r[j].backend ==> r[i].perm == r[j].perm
    {
    }
  }

  lemma InsertMembers<B>(mounts: seq<Mount<B>>, k: nat, entry: Mount<B>)
    requires k <= |mounts|
    ensures forall m :: m in InsertAt(mounts, k, entry) <==> m == entry || m in mounts
    ensures multiset(InsertAt(mounts, k, entry)) == multiset(mounts) + multiset{entry}
  {
    assert mounts == mounts[..k] + mounts[k..];
  }

  /** `checkBackendConflict`: compares every pair. */
  method CheckBackendConflict<B(==)>(mounts: seq<Mount<B>>) returns (ok: bool)
    ensures ok <==> Consistent(mounts)
  {
    for i := 0 to |mounts|
      invariant forall a, b | 0 <= a < i && a < b < |mounts| ::
                  mounts[a].backend == mounts[b].backend ==> mounts[a].perm == mounts[b].perm
    {
      for j := i + 1 to |mounts|
        invariant forall b | i < b < j ::
                    mounts[i].backend == mounts[b].backend ==> mounts[i].perm == mounts[b].perm
      {
        if mounts[i].backend == mounts[j].backend && mounts[i].perm != mounts[j].perm {
          return false;
        }
      }
    }
    return true;
  }

  /** The check at the head of `mount`. */
  method HasConflict<B(==)>(mounts: seq<Mount<B>>, entry: Mount<B>) returns (r: bool)
    ensures r <==> Conflicts(mounts, entry)
  {
    for i := 0 to |mounts|
      invariant forall j | 0 <= j < i :: !(mounts[j].backend == entry.backend && mounts[j].perm != entry.perm)
    {
      if mounts[i].backend == entry.backend && mounts[i].perm != entry.perm {
        return true;
      }
    }
    return false;
  }

  /** `std::lower_bound` over the descending prefix sizes. */
  method LowerBound<B>(mounts: seq<Mount<B>>, entry: Mount<B>) returns (k: nat)
    requires Descending(mounts)
    ensures IsLowerBound(mounts, |entry.prefix|, k)
  {
    var lo, hi := 0, |mounts|;
    while lo < hi
      invariant 0 <= lo <= hi <= |mounts|
      invariant forall i | 0 <= i < lo :: |mounts[i].prefix| > |entry.prefix|
      invariant forall i | hi <= i < |mounts| :: |mounts[i].prefix| <= |entry.prefix|
    {
      var mid := (lo + hi) / 2;
      if |mounts[mid].prefix| > |entry.prefix| {
        lo := mid + 1;
      } else {
        hi := mid;
      }
    }
    return lo;
  }

  /** `std::sort` by descending prefix size, of which only the result matters: some
      descending arrangement of the same mounts. */
  method SortMounts<B>(mounts: seq<Mount<B>>) returns (sorted: seq<Mount<B>>)
    ensures Descending(sorted) && multiset(sorted) == multiset(mounts)
  {
    sorted := [];
    for i := 0 to |mounts|
      invariant Descending(sorted) && multiset(sorted) == multiset(mounts[..i])
    {
      var k := LowerBound(sorted, mounts[i]);
      InsertKeepsOrder(sorted, k, mounts[i]);
      InsertMembers(sorted, k, mounts[i]);
      sorted := InsertAt(sorted, k, mounts[i]);
      assert mounts[..i + 1] == mounts[..i] + [mounts[i]];
    }
    assert mounts[..|mounts|] == mounts;
  }

  lemma NextMount<B>(mounts: seq<Mount<B>>, i: nat, norm: string, needed: Perm)
    requires i < |mounts|
    ensures ResolveText(mounts[i..], norm, needed)
            == if Matches(mounts[i], norm) then Answer(mounts[i], norm, needed)
               else ResolveText(mounts[i + 1..], norm, needed)
  {
    assert mounts[i..][0] == mounts[i] && mounts[i..][1..] == mounts[i + 1..];
  }

  /** The loop of `VirtualFS::resolve`. */
  method FindMount<B>(mounts: seq<Mount<B>>, path: string, neededPerm: Perm) returns (r: Result<Resolved<B>>)
    ensures r == Resolve(mounts, path, neededPerm)
  {
    var normPath := Normalize(path);
    var i := 0;
    assert mounts[0..] == mounts && ResolveText<B>([], normPath, neededPerm) == Err(EACCES);
    hide Normal, ResolveText;
    while i < |mounts|
      invariant 0 <= i <= |mounts|
      invariant ResolveText(mounts[i..], normPath, neededPerm) == Resolve(mounts, path, neededPerm)
    {
      var m := mounts[i];
      NextMount(mounts, i, normPath, neededPerm);
      i := i + 1;
      if m.prefix == "/" {
        if m.perm & neededPerm != neededPerm {
          return Err(EACCES);
        }
        return Ok(Resolved(m.backend, normPath));
      }
      if |normPath| < |m.prefix| {
        continue;
      }
      if normPath[..|m.prefix|] != m.prefix {
        continue;
      }
      if |normPath| != |m.prefix| && normPath[|m.prefix|] != '/' {
        continue;
      }
      if m.perm & neededPerm != neededPerm {
        return Err(EACCES);
      }
      var subPath;
      if normPath == m.prefix {
        subPath := m.backendPath;
      } else {
        subPath := normPath[|m.prefix|..];
        if |m.backendPath| > 1 {
          subPath := m.backendPath + subPath;
        }
      }
      return Ok(Resolved(m.backend, subPath));
    }
    return Err(EACCES);
  }

  // ---------------------------------------------------------------------------
  // What the table means on component lists
  // ---------------------------------------------------------------------------

  /** The directory a mount stands at, and the one that its backend path names there. */
  function At<B>(m: Mount<B>): Path {
    Canonical(m.prefix)
  }

  function Into<B>(m: Mount<B>): Path {
    Split(m.backendPath)
  }

  /** The prefixes that can match: canonically spelled ones and the empty one. */
  predicate Spelled<B>(m: Mount<B>) {
    m.prefix == "" || Normal(m.prefix) == m.prefix
  }

  predicate Covers<B>(m: Mount<B>, c: Path) {
    Spelled(m) && Under(At(m), c)
  }

  /** The path that the mount is meant to show at `c`. */
  function Target<B>(m: Mount<B>, c: Path): Path
    requires Covers(m, c)
  {
    Into(m) + c[|At(m)|..]
  }

  /** The mount stands at a directory other than the root. */
  predicate Rooted<B>(m: Mount<B>) {
    m.prefix != "/" && m.prefix != ""
  }

  /** The path that the backend gets to see for `c`: a mount at `/` and, below its own
      place, one whose backend path has a single character leave the backend path out. */
  function Landing<B>(m: Mount<B>, c: Path): Path
    requires Covers(m, c)
  {
    var rest := c[|At(m)|..];
    if m.prefix == "/" then c
    else if (Rooted(m) && rest == []) || |m.backendPath| > 1 then Into(m) + rest
    else rest
  }

  /** Leaving the backend path out makes no difference, or it is never left out. */
  predicate Plain<B>(m: Mount<B>) {
    Into(m) == ROOT || (m.prefix != "/" && |m.backendPath| > 1)
  }

  /** Prefix and backend path are spelled canonically, and a mount at `/` shows the
      root of its backend. */
  predicate NormalMount<B>(m: Mount<B>) {
    && Normal(m.prefix) == m.prefix
    && Normal(m.backendPath) == m.backendPath
    && (m.prefix == "/" ==> m.backendPath == "/")
  }

  predicate DistinctPrefixes<B>(mounts: seq<Mount<B>>) {
    forall i, j | 0 <= i < j < |mounts| :: mounts[i].prefix != mounts[j].prefix
  }

  /** Among the mounts that cover `c`, number `i` is the one with the longest component
      prefix, and the first such. */
  ghost predicate IsBest<B>(mounts: seq<Mount<B>>, i: nat, c: Path) {
    && i < |mounts|
    && Covers(mounts[i], c)
    && forall j | 0 <= j < |mounts| && Covers(mounts[j], c) ::
         |At(mounts[j])| < |At(mounts[i])| || (|At(mounts[j])| == |At(mounts[i])| && i <= j)
  }

  lemma RenderShape(p: Path)
    requires LegalPath(p)
    ensures |Render(p)| > 1 <==> p != ROOT
    ensures |Render(p)| >= 1 && Render(p)[0] == '/'
  {
    if p != ROOT {
      assert Render(p) == "/" + (p[0] + Join(p[1..]));
    }
  }

  lemma SpelledShape<B>(m: Mount<B>)
    requires Spelled(m)
    ensures NormalPath(At(m)) && (m.prefix == "" || m.prefix == Render(At(m)))
    ensures At(m) == ROOT <==> !Rooted(m)
    ensures |m.prefix| > 1 <==> Rooted(m)
  {
    CanonicalNormal(m.prefix);
    EmptyPathIsRoot();
    RenderShape(At(m));
  }

  /** A text that ends at a separator reaches at least to the end of the first name. */
  lemma FirstNameFits(prefix: string, name: string, rest: string)
    requires SepFree(name) && prefix != "" && TextUnder(prefix, "/" + name + rest)
    ensures |name| + 1 <= |prefix| && prefix[..|name| + 1] == "/" + name
    ensures TextUnder(prefix[|name| + 1..], rest)
  {
    var s, n := "/" + name + rest, |name| + 1;
    assert s[..n] == "/" + name && s[n..] == rest;
    assert forall x | 1 <= x < n :: s[x] == name[x - 1];
    assert n <= |prefix|;
    assert prefix[..n] == s[..|prefix|][..n] == s[..n];
    assert prefix[n..] == s[n..|prefix|] == rest[..|prefix| - n];
  }

  /** A text that ends at a separator of a printed list is a printed prefix of it. */
  lemma {:induction false} PrefixTextIsJoin(prefix: string, c: Path) returns (k: nat)
    requires LegalPath(c) && TextUnder(prefix, Join(c))
    ensures k <= |c| && prefix == Join(c[..k])
    decreases |c|
  {
    if prefix == "" {
      k := 0;
    } else {
      var name, rest := c[0], c[1..];
      assert Join(c) == "/" + name + Join(rest);
      FirstNameFits(prefix, name, Join(rest));
      var l := PrefixTextIsJoin(prefix[|name| + 1..], rest);
      k := l + 1;
      assert c[..k] == [name] + rest[..l];
      JoinConcat([name], rest[..l]);
      assert Join([name]) == "/" + name by {
        assert [name][1..] == [];
      }
      assert prefix == prefix[..|name| + 1] + prefix[|name| + 1..];
    }
  }

  /** Only canonical spellings match what the router prints. */
  lemma MatchingIsSpelled(prefix: string, c: Path)
    requires NormalPath(c) && prefix != "" && prefix != "/" && TextUnder(prefix, Render(c))
    ensures Normal(prefix) == prefix
  {
    if c != ROOT {
      var k := PrefixTextIsJoin(prefix, c);
      assert NormalPath(c[..k]);
      assert prefix == Render(c[..k]);
      CanonicalRender(c[..k]);
    }
  }

  /** The test on strings is the test on component lists, whatever the mount. */
  lemma MatchIsCover<B>(m: Mount<B>, c: Path)
    requires NormalPath(c)
    ensures Matches(m, Render(c)) <==> Covers(m, c)
  {
    EmptyPathIsRoot();
    RenderShape(c);
    if Spelled(m) {
      SpelledShape(m);
      if Rooted(m) {
        TextUnderIsPrefix(At(m), c);
      }
    } else if TextUnder(m.prefix, Render(c)) {
      MatchingIsSpelled(m.prefix, c);
    }
  }

  lemma SplitAppend(dir: string, rest: Path)
    requires LegalPath(rest)
    ensures Split(dir + Join(rest)) == Split(dir) + rest
    ensures Split(dir + Render(rest)) == Split(dir) + rest
  {
    if rest == [] {
      assert dir + "" == dir;
      EmptyPathIsRoot();
      SplitConcat(dir, "");
      assert dir + "/" + "" == dir + "/";
    } else {
      var x := rest[0] + Join(rest[1..]);
      assert Split(x) == rest by {
        SegmentsOfTail(rest);
        KeptLegal(rest);
      }
      hide Split;
      SplitConcat(dir, x);
      ConcatAssociative(dir, "/", x);
    }
  }

  /** What the backend's parser reads from the string glued together. */
  lemma AnswerIsLanding<B>(m: Mount<B>, c: Path)
    requires NormalPath(c) && Covers(m, c)
    ensures Matches(m, Render(c)) && Split(Shown(m, Render(c))) == Landing(m, c)
  {
    MatchIsCover(m, c);
    SpelledShape(m);
    var rest := c[|At(m)|..];
    assert LegalPath(rest);
    if m.prefix == "/" {
      SplitRender(c);
    } else if m.prefix == "" {
      assert rest == c;
      SplitAppend(m.backendPath, c);
      SplitRender(c);
      assert Render(c)[0..] == Render(c);
    } else {
      TextUnderIsPrefix(At(m), c);
      SplitAppend(m.backendPath, rest);
      AtItsPlace(m, c);
      if rest != [] {
        SplitRender(rest);
      }
    }
  }

  lemma AtItsPlace<B>(m: Mount<B>, c: Path)
    requires NormalPath(c) && Covers(m, c) && Rooted(m)
    ensures Render(c) == m.prefix <==> c[|At(m)|..] == []
  {
    SpelledShape(m);
    if Render(c) == m.prefix {
      RenderInjective(c, At(m));
    }
    if c[|At(m)|..] == [] {
      assert c == At(m);
    }
  }

  /** The backend sees the meant path exactly when the mount is plain, or at the very
      place of a mount that does not stand at the root. */
  lemma LandingIsTarget<B>(m: Mount<B>, c: Path)
    requires Covers(m, c)
    ensures Landing(m, c) == Target(m, c) <==> Plain(m) || (Rooted(m) && c == At(m))
  {
    SpelledShape(m);
    var rest := c[|At(m)|..];
    assert c == At(m) + rest;
    assert |Into(m) + rest| == |Into(m)| + |rest|;
    if Into(m) == ROOT {
      assert Into(m) + rest == rest;
    }
  }

  lemma NormalShape<B>(m: Mount<B>)
    requires NormalMount(m)
    ensures Spelled(m) && Plain(m) && LegalPath(Into(m)) && m.backendPath == Render(Into(m))
  {
    SplitOfNormal(m.backendPath);
    SplitLegal(m.backendPath);
    RenderShape(Into(m));
    EmptyPathIsRoot();
  }

  /** On canonical spellings the string itself is the printed target. */
  lemma NormalAnswer<B>(m: Mount<B>, c: Path)
    requires NormalMount(m) && NormalPath(c) && Covers(m, c)
    ensures Matches(m, Render(c)) && LegalPath(Target(m, c)) && Shown(m, Render(c)) == Render(Target(m, c))
  {
    NormalShape(m);
    MatchIsCover(m, c);
    SpelledShape(m);
    var rest := c[|At(m)|..];
    if m.prefix == "/" {
      EmptyPathIsRoot();
      assert Target(m, c) == c;
    } else {
      TextUnderIsPrefix(At(m), c);
      AtItsPlace(m, c);
      RenderShape(Into(m));
      JoinConcat(Into(m), rest);
      if rest == [] {
        assert Into(m) + rest == Into(m);
      }
    }
  }

  // ---------------------------------------------------------------------------
  // The longest component prefix wins
  // ---------------------------------------------------------------------------

  lemma LongerPrefixLongerText(p: Path, q: Path)
    requires LegalPath(p) && LegalPath(q) && p <= q
    ensures |Render(p)| <= |Render(q)|
    ensures p != q ==> |Render(p)| < |Render(q)|
  {
    RenderShape(p);
    RenderShape(q);
    if p != q && p != ROOT {
      JoinConcat(p, q[|p|..]);
      assert p + q[|p|..] == q;
      RenderShape(q[|p|..]);
    }
  }

  /** Of two mounts that cover the same path the one with the longer text has the longer
      component list. */
  lemma TextOrderIsPathOrder<B>(m: Mount<B>, k: Mount<B>, c: Path)
    requires Covers(m, c) && Covers(k, c)
    requires |m.prefix| >= |k.prefix|
    ensures |At(m)| >= |At(k)|
  {
    SpelledShape(m);
    SpelledShape(k);
    if |At(m)| < |At(k)| {
      assert At(m) <= At(k);
      LongerPrefixLongerText(At(m), At(k));
    }
  }

  lemma {:induction false} FirstHit<B>(mounts: seq<Mount<B>>, i: nat, norm: string, needed: Perm)
    requires i < |mounts| && Matches(mounts[i], norm)
    requires forall j | 0 <= j < i :: !Matches(mounts[j], norm)
    ensures ResolveText(mounts, norm, needed) == Answer(mounts[i], norm, needed)
  {
    if i > 0 {
      FirstHit(mounts[1..], i - 1, norm, needed);
    }
  }

  lemma {:induction false} NoHit<B>(mounts: seq<Mount<B>>, norm: string, needed: Perm)
    requires forall j | 0 <= j < |mounts| :: !Matches(mounts[j], norm)
    ensures ResolveText(mounts, norm, needed) == Err(EACCES)
  {
    if mounts != [] {
      NoHit(mounts[1..], norm, needed);
    }
  }

  /** In any table the router's answer is the one of the mount with the longest component
      prefix; a refusal of that mount is final. The backend then reads the landing of the
      path, which on canonical spellings is handed over as the printed target. */
  lemma LongestPrefixWins<B>(mounts: seq<Mount<B>>, i: nat, path: string, needed: Perm)
    requires Descending(mounts) && IsBest(mounts, i, Canonical(path))
    ensures var m, c, r := mounts[i], Canonical(path), Resolve(mounts, path, needed);
            if !Grants(m.perm, needed) then r == Err(EACCES)
            else && r.Ok? && r.value.backend == m.backend
                 && Split(r.value.subPath) == Landing(m, c)
                 && (NormalMount(m) ==> r.value.subPath == Render(Target(m, c)))
  {
    BestAnswers(mounts, i, path, needed);
    CanonicalNormal(path);
    AnswerIsLanding(mounts[i], Canonical(path));
    if NormalMount(mounts[i]) {
      NormalAnswer(mounts[i], Canonical(path));
    }
  }

  lemma BestAnswers<B>(mounts: seq<Mount<B>>, i: nat, path: string, needed: Perm)
    requires Descending(mounts) && IsBest(mounts, i, Canonical(path))
    ensures Matches(mounts[i], Normal(path))
    ensures Resolve(mounts, path, needed) == Answer(mounts[i], Normal(path), needed)
  {
    var c := Canonical(path);
    CanonicalNormal(path);
    MatchIsCover(mounts[i], c);
    forall j | 0 <= j < i
      ensures !Matches(mounts[j], Render(c))
    {
      MatchIsCover(mounts[j], c);
      if Covers(mounts[j], c) {
        TextOrderIsPathOrder(mounts[j], mounts[i], c);
      }
    }
    FirstHit(mounts, i, Render(c), needed);
  }

  /** Every right that is asked for has its bit in the mask. */
  predicate HasRights(perm: Perm, needed: Perm) {
    && (needed & READ != 0 ==> perm & READ != 0)
    && (needed & WRITE != 0 ==> perm & WRITE != 0)
  }

  lemma GrantsIsBitwise(perm: Perm, needed: Perm)
    ensures Grants(perm, needed) ==> HasRights(perm, needed)
    ensures needed == NONE || needed == READ || needed == WRITE || needed == READ | WRITE ==>
              (Grants(perm, needed) <==> HasRights(perm, needed))
  {
  }

  /** Access is granted exactly if the best mount's mask has the bit of every right asked
      for; otherwise it is EACCES. */
  lemma PermissionDecides<B>(mounts: seq<Mount<B>>, i: nat, path: string, needed: Perm)
    requires Descending(mounts) && IsBest(mounts, i, Canonical(path))
    requires needed == NONE || needed == READ || needed == WRITE || needed == READ | WRITE
    ensures Resolve(mounts, path, needed).Ok? <==> HasRights(mounts[i].perm, needed)
    ensures Resolve(mounts, path, needed).Err? ==> Resolve(mounts, path, needed).errno == EACCES
  {
    LongestPrefixWins(mounts, i, path, needed);
    GrantsIsBitwise(mounts[i].perm, needed);
  }

  /** There is a best mount exactly when some mount covers the path; otherwise the
      answer is EACCES. */
  lemma {:induction false} BestExists<B>(mounts: seq<Mount<B>>, c: Path)
    ensures (exists i: nat :: IsBest(mounts, i, c)) <==> exists j | 0 <= j < |mounts| :: Covers(mounts[j], c)
  {
    if j :| 0 <= j < |mounts| && Covers(mounts[j], c) {
      var i := BestOf(mounts, c, j);
    }
  }

  lemma {:induction false} BestOf<B>(mounts: seq<Mount<B>>, c: Path, j: nat) returns (i: nat)
    requires j < |mounts| && Covers(mounts[j], c)
    ensures IsBest(mounts, i, c)
  {
    i := j;
    var k := 0;
    while k < |mounts|
      invariant 0 <= k <= |mounts|
      invariant i < |mounts| && Covers(mounts[i], c) && (i < k || i == j)
      invariant forall l | 0 <= l < k && Covers(mounts[l], c) ::
                  |At(mounts[l])| < |At(mounts[i])| || (|At(mounts[l])| == |At(mounts[i])| && i <= l)
    {
      if Covers(mounts[k], c) {
        if |At(mounts[k])| > |At(mounts[i])| || (|At(mounts[k])| == |At(mounts[i])| && k < i) {
          i := k;
        }
      }
      k := k + 1;
    }
  }

  lemma UncoveredIsRefused<B>(mounts: seq<Mount<B>>, path: string, needed: Perm)
    requires forall j | 0 <= j < |mounts| :: !Covers(mounts[j], Canonical(path))
    ensures Resolve(mounts, path, needed) == Err(EACCES)
  {
    CanonicalNormal(path);
    forall j | 0 <= j < |mounts|
      ensures !Matches(mounts[j], Normal(path))
    {
      MatchIsCover(mounts[j], Canonical(path));
    }
    NoHit(mounts, Normal(path), needed);
  }

  // ---------------------------------------------------------------------------
  // Consequences
  // ---------------------------------------------------------------------------

  /** Which mounts are in the table decides, not how they came to be ordered. */
  lemma OrderIsIrrelevant<B>(mounts: seq<Mount<B>>, mounts': seq<Mount<B>>, path: string, needed: Perm)
    requires Descending(mounts) && DistinctPrefixes(mounts) && Descending(mounts')
    requires forall m :: m in mounts <==> m in mounts'
    ensures Resolve(mounts, path, needed) == Resolve(mounts', path, needed)
  {
    var c := Canonical(path);
    BestExists(mounts, c);
    BestExists(mounts', c);
    if i: nat :| IsBest(mounts, i, c) {
      assert mounts[i] in mounts';
      var j: nat :| IsBest(mounts', j, c);
      assert mounts'[j] in mounts;
      SameBest(mounts, mounts', i, j, c);
      BestAnswers(mounts, i, path, needed);
      BestAnswers(mounts', j, path, needed);
    } else {
      forall j | 0 <= j < |mounts'|
        ensures !Covers(mounts'[j], c)
      {
        assert mounts'[j] in mounts;
      }
      UncoveredIsRefused(mounts, path, needed);
      UncoveredIsRefused(mounts', path, needed);
    }
  }

  /** A mount at the same place as the best one has the same prefix, unless it is the
      empty one beside `/`, which comes later. */
  lemma SamePlace<B>(mounts: seq<Mount<B>>, i: nat, y: nat, c: Path)
    requires Descending(mounts) && IsBest(mounts, i, c) && y < |mounts| && Covers(mounts[y], c)
    requires |At(mounts[y])| == |At(mounts[i])|
    ensures |mounts[y].prefix| <= |mounts[i].prefix|
    ensures |mounts[y].prefix| == |mounts[i].prefix| ==> mounts[y].prefix == mounts[i].prefix
  {
    SpelledShape(mounts[i]);
    SpelledShape(mounts[y]);
    assert At(mounts[y]) == c[..|At(mounts[y])|] == At(mounts[i]);
  }

  lemma SameBest<B>(mounts: seq<Mount<B>>, mounts': seq<Mount<B>>, i: nat, j: nat, c: Path)
    requires Descending(mounts) && DistinctPrefixes(mounts) && Descending(mounts')
    requires forall m :: m in mounts <==> m in mounts'
    requires IsBest(mounts, i, c) && IsBest(mounts', j, c)
    ensures mounts[i] == mounts'[j]
  {
    var m, k := mounts[i], mounts'[j];
    assert m in mounts' && k in mounts;
    var x :| 0 <= x < |mounts'| && mounts'[x] == m;
    var y :| 0 <= y < |mounts| && mounts[y] == k;
    assert |At(m)| == |At(k)|;
    SamePlace(mounts, i, y, c);
    SamePlace(mounts', j, x, c);
    assert mounts[y].prefix == mounts[i].prefix;
  }

  /** `c` is the place of a mount with a one-letter backend path and `d` the path below it
      that lands in the same file, because the letter is left out there. */
  predicate Folds<B>(m: Mount<B>, c: Path, d: Path) {
    Rooted(m) && |m.backendPath| == 1 && Into(m) != ROOT && c == At(m) && d == At(m) + Into(m)
  }

  /** Within one mount different virtual paths do not meet in the backend, with exactly
      one exception. */
  lemma LandingInjective<B>(m: Mount<B>, c: Path, d: Path)
    requires Covers(m, c) && Covers(m, d)
    ensures Landing(m, c) == Landing(m, d) <==> c == d || Folds(m, c, d) || Folds(m, d, c)
  {
    var e, f := c[|At(m)|..], d[|At(m)|..];
    assert c == At(m) + e && d == At(m) + f;
    assert (Into(m) + e)[|Into(m)|..] == e && (Into(m) + f)[|Into(m)|..] == f;
    assert Into(m) + [] == Into(m);
    if |m.backendPath| == 0 {
      EmptyPathIsRoot();
      assert Into(m) == ROOT && ROOT + e == e && ROOT + f == f;
    }
    if Into(m) == ROOT {
      assert ROOT + e == e && ROOT + f == f;
    }
  }

  /** Two answers mean the same to a client: the same refusal, or the same file of the
      same backend. */
  predicate SameAnswer<B(==)>(r: Result<Resolved<B>>, r': Result<Resolved<B>>) {
    if r.Err? || r'.Err? then r == r'
    else r.value.backend == r'.value.backend && Split(r.value.subPath) == Split(r'.value.subPath)
  }

  /** `nested` stands `d` below `m` and names, in the same backend and with the same
      permission, the directory that `m` shows there. */
  ghost predicate Extends<B>(nested: Mount<B>, m: Mount<B>, d: Path) {
    && Spelled(nested) && Spelled(m) && d != ROOT && At(nested) == At(m) + d
    && Into(nested) == Landing(m, At(nested))
    && nested.backend == m.backend && nested.perm == m.perm
  }

  /** A table with one more mount answers as before unless the new mount comes first. */
  lemma {:induction false} InsertResolves<B>(mounts: seq<Mount<B>>, k: nat, entry: Mount<B>, norm: string, needed: Perm)
    requires k <= |mounts|
    ensures ResolveText(InsertAt(mounts, k, entry), norm, needed)
            == if Matches(entry, norm) && forall j | 0 <= j < k :: !Matches(mounts[j], norm)
               then Answer(entry, norm, needed) else ResolveText(mounts, norm, needed)
  {
    var r := InsertAt(mounts, k, entry);
    if k == 0 {
      assert r[0] == entry && r[1..] == mounts;
    } else {
      var rest := mounts[1..];
      assert r[0] == mounts[0] && r[1..] == InsertAt(rest, k - 1, entry);
      InsertResolves(rest, k - 1, entry, norm, needed);
      assert forall j | 0 <= j < k - 1 :: rest[j] == mounts[j + 1];
      assert (forall j | 0 <= j < k :: !Matches(mounts[j], norm))
        <==> !Matches(mounts[0], norm) && forall j | 0 <= j < k - 1 :: !Matches(rest[j], norm);
    }
  }

  /** An inserted mount is the best for a path exactly when it comes first for it. */
  lemma InsertedIsBest<B>(mounts: seq<Mount<B>>, k: nat, entry: Mount<B>, c: Path)
    requires Descending(mounts) && IsLowerBound(mounts, |entry.prefix|, k)
    ensures IsBest(InsertAt(mounts, k, entry), k, c)
            <==> Covers(entry, c) && forall j | 0 <= j < k :: !Covers(mounts[j], c)
  {
    var r := InsertAt(mounts, k, entry);
    InsertedAt(mounts, k, entry);
    if Covers(entry, c) {
      forall j | 0 <= j < |r| && Covers(r[j], c)
        ensures if j < k then |At(r[j])| >= |At(entry)| else |At(r[j])| <= |At(entry)|
      {
        if j < k {
          TextOrderIsPathOrder(r[j], entry, c);
        } else {
          TextOrderIsPathOrder(entry, r[j], c);
        }
      }
      assert forall j | 0 <= j < k :: r[j] == mounts[j];
    }
  }

  /** Where the nested mount is the best, the outer one was the best before. */
  lemma NestedHit<B>(mounts: seq<Mount<B>>, k: nat, i: nat, nested: Mount<B>, c: Path)
    requires Descending(mounts) && IsLowerBound(mounts, |nested.prefix|, k)
    requires IsBest(mounts, i, At(nested)) && Covers(nested, c)
    requires forall j | 0 <= j < k :: !Covers(mounts[j], c)
    ensures IsBest(mounts, i, c)
  {
    forall l | 0 <= l < |mounts| && Covers(mounts[l], c)
      ensures Covers(mounts[l], At(nested))
    {
      TextOrderIsPathOrder(nested, mounts[l], c);
    }
  }

  lemma NestedRest(at: Path, d: Path, rest: Path, c: Path)
    requires at + d <= c && rest == c[|at + d|..]
    ensures at <= c && c[|at|..] == d + rest && c == (at + d) + rest && (at + d)[|at|..] == d
  {
  }

  lemma NestedTarget<B>(nested: Mount<B>, m: Mount<B>, d: Path, c: Path)
    requires Extends(nested, m, d) && Covers(nested, c)
    ensures Covers(m, c) && Landing(m, c) == Target(nested, c)
  {
    hide At, Into;
    var rest := c[|At(nested)|..];
    NestedRest(At(m), d, rest, c);
    ConcatAssociative(Into(m), d, rest);
  }

  /** Mounting again, at its own place, a directory that is visible there already: which
      paths lead elsewhere from then on is decided by the new mount alone. Unless it
      leaves its backend path out, none does. */
  lemma NestedMountIsTransparent<B>(mounts: seq<Mount<B>>, k: nat, i: nat, nested: Mount<B>, d: Path,
                                    path: string, needed: Perm)
    requires Descending(mounts) && IsLowerBound(mounts, |nested.prefix|, k)
    requires IsBest(mounts, i, At(nested)) && Extends(nested, mounts[i], d)
    ensures var mounts', c := InsertAt(mounts, k, nested), Canonical(path);
            SameAnswer(Resolve(mounts', path, needed), Resolve(mounts, path, needed))
            <==> Plain(nested) || c == At(nested) || !Grants(nested.perm, needed) || !IsBest(mounts', k, c)
  {
    var c := Canonical(path);
    CanonicalNormal(path);
    InsertResolves(mounts, k, nested, Render(c), needed);
    InsertedIsBest(mounts, k, nested, c);
    MatchIsCover(nested, c);
    forall j | 0 <= j < k
      ensures Matches(mounts[j], Render(c)) <==> Covers(mounts[j], c)
    {
      MatchIsCover(mounts[j], c);
    }
    if IsBest(InsertAt(mounts, k, nested), k, c) {
      NestedHit(mounts, k, i, nested, c);
      LongestPrefixWins(mounts, i, path, needed);
      NestedTarget(nested, mounts[i], d, c);
      AnswerIsLanding(nested, c);
      LandingIsTarget(nested, c);
      SpelledShape(nested);
    }
  }

  /** In any table a mount at `/` answers with the path itself, whatever its backend path;
      that is the path it is meant to show exactly when the backend path names the root. */
  lemma RootMountIgnoresBackendPath<B>(mounts: seq<Mount<B>>, i: nat, path: string, needed: Perm)
    requires Descending(mounts) && IsBest(mounts, i, Canonical(path))
    requires mounts[i].prefix == "/" && Grants(mounts[i].perm, needed)
    ensures Resolve(mounts, path, needed) == Ok(Resolved(mounts[i].backend, Normal(path)))
    ensures Split(Normal(path)) == Target(mounts[i], Canonical(path)) <==> Into(mounts[i]) == ROOT
    ensures Normal(mounts[i].backendPath) == mounts[i].backendPath ==>
              (Into(mounts[i]) == ROOT <==> mounts[i].backendPath == "/")
  {
    BestAnswers(mounts, i, path, needed);
    SplitOfNormal(path);
    LandingIsTarget(mounts[i], Canonical(path));
    SplitOfNormal(mounts[i].backendPath);
    EmptyPathIsRoot();
  }

  /** What a granted answer says about the table: some mount of that backend has every
      needed permission, and under a consistent table then all its mounts do. */
  lemma {:induction false} GrantedByTable<B>(mounts: seq<Mount<B>>, norm: string, needed: Perm)
    requires ResolveText(mounts, norm, needed).Ok?
    ensures exists i | 0 <= i < |mounts| ::
              mounts[i].backend == ResolveText(mounts, norm, needed).value.backend && Grants(mounts[i].perm, needed)
  {
    if Matches(mounts[0], norm) {
      assert mounts[0].backend == ResolveText(mounts, norm, needed).value.backend;
    } else {
      GrantedByTable(mounts[1..], norm, needed);
      var i :| 0 <= i < |mounts[1..]| && mounts[1..][i].backend == ResolveText(mounts, norm, needed).value.backend
               && Grants(mounts[1..][i].perm, needed);
      assert mounts[i + 1] == mounts[1..][i];
    }
  }

  lemma GrantedByAllMounts<B>(mounts: seq<Mount<B>>, path: string, needed: Perm, m: Mount<B>)
    requires Consistent(mounts) && m in mounts
    requires Resolve(mounts, path, needed).Ok? && Resolve(mounts, path, needed).value.backend == m.backend
    ensures HasRights(m.perm, needed)
  {
    GrantedByTable(mounts, Normal(path), needed);
    GrantsIsBitwise(m.perm, needed);
    var i :| 0 <= i < |mounts| && mounts[i].backend == m.backend && Grants(mounts[i].perm, needed);
    var j :| 0 <= j < |mounts| && mounts[j] == m;
    if i < j {
      assert mounts[i].perm == mounts[j].perm;
    } else if j < i {
      assert mounts[j].perm == mounts[i].perm;
    }
  }
}
