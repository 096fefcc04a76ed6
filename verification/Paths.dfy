/** String paths and the component lists they stand for.

    Both parsers of the program are modelled: the one of the mount router, which
    resolves `.` and `..` and prints the result again, and the one of the in-memory
    backend, which only drops empty and `.` components. */
module Paths {

  /** A component list; the root directory is the empty list. */
  type Path = seq<string>

  const ROOT: Path := []

  function Parent(p: Path): Path
    requires p != []
  {
    p[..|p| - 1]
  }

  function Last(p: Path): string
    requires p != []
  {
    p[|p| - 1]
  }

  function Child(p: Path, name: string): Path {
    p + [name]
  }

  /** `p` is `dir` or lies below it. */
  predicate Under(dir: Path, p: Path) {
    dir <= p
  }

  /** `p` lies strictly below `dir`. */
  predicate Inside(dir: Path, p: Path) {
    dir < p
  }

  // ---------------------------------------------------------------------------
  // Component names
  // ---------------------------------------------------------------------------

  predicate IsSep(c: char) {
    c == '/' || c == '\\'
  }

  predicate SepFree(s: string) {
    forall i | 0 <= i < |s| :: !IsSep(s[i])
  }

  /** What the in-memory backend accepts as a directory-entry name. */
  predicate LegalName(s: string) {
    s != "" && s != "." && SepFree(s)
  }

  predicate LegalPath(p: Path) {
    forall i | 0 <= i < |p| :: LegalName(p[i])
  }

  /** The component lists the router produces: no `..` either. */
  predicate NormalPath(p: Path) {
    forall i | 0 <= i < |p| :: LegalName(p[i]) && p[i] != ".."
  }

  // ---------------------------------------------------------------------------
  // Reading and printing paths
  // ---------------------------------------------------------------------------

  /** The length of the longest separator-free prefix. */
  function FirstSep(s: string): (i: nat)
    ensures i <= |s| && forall k | 0 <= k < i :: !IsSep(s[k])
    ensures i < |s| ==> IsSep(s[i])
  {
    if s == "" || IsSep(s[0]) then 0
    else
      var i := 1 + FirstSep(s[1..]);
      assert forall k | 1 <= k < i :: s[k] == s[1..][k - 1];
      i
  }

  /** The text between the separators, empty pieces included. */
  function Segments(s: string): (r: seq<string>)
    decreases |s|
  {
    var i := FirstSep(s);
    if i == |s| then [s] else [s[..i]] + Segments(s[i + 1..])
  }

  /** The segments that name something: neither empty nor `.`. */
  function Kept(segs: seq<string>): Path {
    if segs == [] then []
    else if segs[0] == "" || segs[0] == "." then Kept(segs[1..])
    else [segs[0]] + Kept(segs[1..])
  }

  /** The directory reached from `dir` by following one segment. */
  function Enter(dir: Path, seg: string): Path {
    if seg == "" || seg == "." then dir
    else if seg == ".." then if dir == [] then [] else Parent(dir)
    else dir + [seg]
  }

  /** The directory reached from `dir` by following the segments one by one. */
  function Follow(dir: Path, segs: seq<string>): Path
    decreases |segs|
  {
    if segs == [] then dir else Follow(Enter(dir, segs[0]), segs[1..])
  }

  /** What the in-memory backend reads from a path. */
  function Split(path: string): Path {
    Kept(Segments(path))
  }

  /** What the router reads from a path. */
  function Canonical(path: string): Path {
    Follow(ROOT, Segments(path))
  }

  function Join(p: Path): string {
    if p == [] then "" else "/" + (p[0] + Join(p[1..]))
  }

  function Render(p: Path): string {
    if p == [] then "/" else Join(p)
  }

  /** The router's canonical spelling of a path. */
  function Normal(path: string): string {
    Render(Canonical(path))
  }

  // ---------------------------------------------------------------------------
  // Segments
  // ---------------------------------------------------------------------------

  /** The first cut of a string, wherever its first separator is. */
  lemma SegmentsCut(s: string, i: nat)
    requires i <= |s| && SepFree(s[..i])
    requires i < |s| ==> IsSep(s[i])
    ensures FirstSep(s) == i
    ensures Segments(s) == if i == |s| then [s] else [s[..i]] + Segments(s[i + 1..])
  {
    assert forall k | 0 <= k < i :: s[k] == s[..i][k];
  }

  /** A separator cuts the list of segments in two. */
  lemma {:induction false} SegmentsConcat(a: string, c: char, b: string)
    requires IsSep(c)
    ensures Segments(a + [c] + b) == Segments(a) + Segments(b)
    decreases |a|
  {
    var s := a + [c] + b;
    var i := FirstSep(a);
    SegmentsCut(a, i);
    assert s[..i] == a[..i];
    SegmentsCut(s, i);
    if i == |a| {
      assert s[i + 1..] == b;
      assert s[..i] == a;
    } else {
      var rest := a[i + 1..];
      assert s[i + 1..] == rest + [c] + b;
      SegmentsConcat(rest, c, b);
      ConcatAssociative([a[..i]], Segments(rest), Segments(b));
    }
  }

  lemma ConcatAssociative<T>(x: seq<T>, y: seq<T>, z: seq<T>)
    ensures x + (y + z) == (x + y) + z
  {
  }

  lemma {:induction false} SegmentsSepFree(s: string)
    ensures forall i | 0 <= i < |Segments(s)| :: SepFree(Segments(s)[i])
    decreases |s|
  {
    var i := FirstSep(s);
    if i == |s| {
      assert s[..i] == s;
    } else {
      SegmentsSepFree(s[i + 1..]);
    }
  }

  lemma SegmentsOfName(s: string)
    requires SepFree(s)
    ensures Segments(s) == [s]
  {
    assert s[..|s|] == s;
    SegmentsCut(s, |s|);
  }

  lemma {:induction false} SegmentsOfJoin(p: Path)
    requires forall i | 0 <= i < |p| :: SepFree(p[i])
    ensures Segments(Join(p)) == [""] + p
  {
    SegmentsOfName("");
    if p != [] {
      SegmentsOfTail(p);
      SegmentsConcat("", '/', p[0] + Join(p[1..]));
      assert "" + ['/'] + (p[0] + Join(p[1..])) == Join(p);
    }
  }

  lemma {:induction false} SegmentsOfTail(p: Path)
    requires p != [] && forall i | 0 <= i < |p| :: SepFree(p[i])
    ensures Segments(p[0] + Join(p[1..])) == p
  {
    var rest := p[1..];
    SegmentsOfName(p[0]);
    assert p == [p[0]] + rest;
    if rest == [] {
      assert p[0] + Join(rest) == p[0];
    } else {
      assert forall i | 0 <= i < |rest| :: rest[i] == p[i + 1];
      SegmentsOfTail(rest);
      var tail := rest[0] + Join(rest[1..]);
      SegmentsConcat(p[0], '/', tail);
      ConcatAssociative(p[0], ['/'], tail);
    }
  }

  lemma {:induction false} KeptConcat(a: seq<string>, b: seq<string>)
    ensures Kept(a + b) == Kept(a) + Kept(b)
  {
    if a == [] {
      assert a + b == b;
    } else {
      assert (a + b)[1..] == a[1..] + b;
      KeptConcat(a[1..], b);
    }
  }

  lemma {:induction false} FollowConcat(dir: Path, a: seq<string>, b: seq<string>)
    ensures Follow(dir, a + b) == Follow(Follow(dir, a), b)
    decreases |a|
  {
    if a == [] {
      assert a + b == b;
    } else {
      assert (a + b)[1..] == a[1..] + b;
      FollowConcat(Enter(dir, a[0]), a[1..], b);
    }
  }

  lemma {:induction false} KeptLegal(p: Path)
    requires LegalPath(p)
    ensures Kept(p) == p
  {
    if p != [] {
      assert forall i | 0 <= i < |p[1..]| :: p[1..][i] == p[i + 1];
      KeptLegal(p[1..]);
    }
  }

  lemma {:induction false} FollowNormal(dir: Path, p: Path)
    requires NormalPath(p)
    ensures Follow(dir, p) == dir + p
    decreases |p|
  {
    if p != [] {
      assert forall i | 0 <= i < |p[1..]| :: p[1..][i] == p[i + 1];
      FollowNormal(dir + [p[0]], p[1..]);
      assert dir + [p[0]] + p[1..] == dir + p;
    }
  }

  // ---------------------------------------------------------------------------
  // The parsers
  // ---------------------------------------------------------------------------

  /** Whatever the string, the backend's parser yields legal names. */
  lemma {:induction false} SplitLegal(path: string)
    ensures LegalPath(Split(path))
  {
    SegmentsSepFree(path);
    KeptOfSepFree(Segments(path));
  }

  lemma {:induction false} KeptOfSepFree(segs: seq<string>)
    requires forall i | 0 <= i < |segs| :: SepFree(segs[i])
    ensures LegalPath(Kept(segs))
  {
    if segs != [] {
      assert forall i | 0 <= i < |segs[1..]| :: segs[1..][i] == segs[i + 1];
      KeptOfSepFree(segs[1..]);
    }
  }

  /** Whatever the string, the router's parser yields no empty, `.` or `..` component. */
  lemma {:induction false} CanonicalNormal(path: string)
    ensures NormalPath(Canonical(path))
  {
    SegmentsSepFree(path);
    FollowKeepsNormal(ROOT, Segments(path));
  }

  lemma {:induction false} FollowKeepsNormal(dir: Path, segs: seq<string>)
    requires NormalPath(dir)
    requires forall i | 0 <= i < |segs| :: SepFree(segs[i])
    ensures NormalPath(Follow(dir, segs))
    decreases |segs|
  {
    if segs != [] {
      assert forall i | 0 <= i < |segs[1..]| :: segs[1..][i] == segs[i + 1];
      FollowKeepsNormal(Enter(dir, segs[0]), segs[1..]);
    }
  }

  /** Printing a legal component list and splitting the text gives the list back. */
  lemma SplitRender(p: Path)
    requires LegalPath(p)
    ensures Split(Render(p)) == p
  {
    SegmentsOfPrinted(p);
    KeptConcat([""], p);
    KeptConcat([""], [""]);
    KeptLegal(p);
  }

  lemma SegmentsOfPrinted(p: Path)
    requires forall i | 0 <= i < |p| :: SepFree(p[i])
    ensures Segments(Render(p)) == if p == [] then ["", ""] else [""] + p
  {
    SegmentsOfJoin(p);
    if p == [] {
      SegmentsConcat("", '/', "");
      assert "" + ['/'] + "" == "/";
    }
  }

  /** Printing a normal component list and canonicalising the text gives the list back. */
  lemma CanonicalRender(p: Path)
    requires NormalPath(p)
    ensures Canonical(Render(p)) == p
  {
    SegmentsOfPrinted(p);
    FollowConcat(ROOT, [""], p);
    FollowConcat(ROOT, [""], [""]);
    FollowNormal(ROOT, p);
    assert ROOT + p == p;
  }

  /** The router's output is a fixed point of the router's parser. */
  lemma NormalIdempotent(path: string)
    ensures Canonical(Normal(path)) == Canonical(path)
    ensures Normal(Normal(path)) == Normal(path)
  {
    CanonicalNormal(path);
    CanonicalRender(Canonical(path));
  }

  /** A path appended to another is followed from where the first one leads. */
  lemma CanonicalConcat(a: string, b: string)
    ensures Canonical(a + "/" + b) == Follow(Canonical(a), Segments(b))
  {
    SegmentsConcat(a, '/', b);
    assert a + ['/'] + b == a + "/" + b;
    FollowConcat(ROOT, Segments(a), Segments(b));
  }

  /** The first half of a path may be normalised beforehand. */
  lemma NormalCompositional(a: string, b: string)
    ensures Normal(Normal(a) + "/" + b) == Normal(a + "/" + b)
  {
    CanonicalConcat(a, b);
    CanonicalConcat(Normal(a), b);
    NormalIdempotent(a);
  }

  lemma SplitConcat(a: string, b: string)
    ensures Split(a + "/" + b) == Split(a) + Split(b)
  {
    SegmentsConcat(a, '/', b);
    assert a + ['/'] + b == a + "/" + b;
    KeptConcat(Segments(a), Segments(b));
  }

  /** The two parsers agree on exactly the paths without a `..` component. */
  lemma ParsersAgree(path: string)
    ensures Split(path) == Canonical(path) <==> ".." !in Split(path)
  {
    CanonicalNormal(path);
    if ".." in Split(path) {
      var i :| 0 <= i < |Split(path)| && Split(path)[i] == "..";
      assert Split(path) != Canonical(path);
    } else {
      FollowWithoutUp(ROOT, Segments(path));
      assert ROOT + Split(path) == Split(path);
    }
  }

  lemma {:induction false} FollowWithoutUp(dir: Path, segs: seq<string>)
    requires ".." !in Kept(segs)
    ensures Follow(dir, segs) == dir + Kept(segs)
    decreases |segs|
  {
    if segs != [] {
      FollowWithoutUp(Enter(dir, segs[0]), segs[1..]);
    }
  }

  /** On what the router prints, the backend reads what the router meant. */
  lemma SplitOfNormal(path: string)
    ensures Split(Normal(path)) == Canonical(path)
  {
    CanonicalNormal(path);
    SplitRender(Canonical(path));
  }

  // ---------------------------------------------------------------------------
  // The parsers, segment by segment
  // ---------------------------------------------------------------------------

  predicate OneSegment(seg: string) {
    '/' !in seg && '\\' !in seg
  }

  lemma OneSegmentCut(seg: string)
    requires OneSegment(seg)
    ensures Segments(seg) == [seg]
  {
    SegmentsOfName(seg);
  }

  /** What one more segment does, behind a separator of either kind: empty segments and
      `.` do nothing, `..` takes the router to the parent and stays at the root, and any
      other name is entered. The backend enters `..` like any other name. */
  lemma OneMoreSegment(a: string, c: char, seg: string)
    requires (c == '/' || c == '\\') && OneSegment(seg)
    ensures var before, after := Canonical(a), Canonical(a + [c] + seg);
            if seg == "" || seg == "." then after == before
            else if seg == ".." then after == if before == ROOT then ROOT else before[..|before| - 1]
            else after == before + [seg]
    ensures Split(a + [c] + seg) == if seg == "" || seg == "." then Split(a) else Split(a) + [seg]
  {
    OneSegmentCut(seg);
    assert [seg][1..] == [];
    SegmentsConcat(a, c, seg);
    FollowConcat(ROOT, Segments(a), [seg]);
    KeptConcat(Segments(a), [seg]);
  }

  /** The segment a path begins with. With the lemma above this determines both parsers on
      every string. */
  lemma FirstSegment(seg: string)
    requires OneSegment(seg)
    ensures Canonical(seg) == if seg == "" || seg == "." || seg == ".." then ROOT else [seg]
    ensures Split(seg) == if seg == "" || seg == "." then ROOT else [seg]
  {
    OneSegmentCut(seg);
    assert [seg][1..] == [] && Kept([seg][1..]) == [] && Follow(ROOT, [seg]) == Enter(ROOT, seg);
    assert Kept([seg]) == if seg == "" || seg == "." then [] else [seg] + [];
  }

  lemma {:induction false} JoinHasNoBackslash(p: Path)
    requires LegalPath(p)
    ensures '\\' !in Join(p)
  {
    if p != [] {
      assert forall i | 0 <= i < |p[1..]| :: p[1..][i] == p[i + 1];
      JoinHasNoBackslash(p[1..]);
    }
  }

  /** The router prints forward slashes only, one in front of every component and nothing
      else; this determines the text. */
  lemma NormalText(path: string)
    ensures '\\' !in Normal(path)
    ensures Segments(Normal(path)) == if Canonical(path) == ROOT then ["", ""] else [""] + Canonical(path)
  {
    CanonicalNormal(path);
    SegmentsOfPrinted(Canonical(path));
    JoinHasNoBackslash(Canonical(path));
  }

  // ---------------------------------------------------------------------------
  // String prefixes and component prefixes
  // ---------------------------------------------------------------------------

  /** Both tests on raw strings ask whether a text goes on with a slash. */
  lemma TestsOnText(s: string, t: string)
    ensures TextInside(s, t) <==> exists x :: t == s + "/" + x
    ensures TextUnder(s, t) <==> t == s || exists x :: t == s + "/" + x
  {
    if TextInside(s, t) || (TextUnder(s, t) && t != s) {
      assert |s| < |t|;
      assert t == s + "/" + t[|s| + 1..];
    }
    if x :| t == s + "/" + x {
      assert t[..|s|] == s;
    }
  }

  /** The router's prefix test: equal, or a prefix that ends at a `/`. */
  predicate TextUnder(prefix: string, s: string) {
    |prefix| <= |s| && s[..|prefix|] == prefix && (|s| == |prefix| || s[|prefix|] == '/')
  }

  /** The in-memory backend's test for a rename into the renamed directory. */
  predicate TextInside(source: string, target: string) {
    |source| < |target| && target[|source|] == '/' && target[..|source|] == source
  }

  lemma {:induction false} JoinConcat(a: Path, b: Path)
    ensures Join(a + b) == Join(a) + Join(b)
  {
    if a == [] {
      assert a + b == b;
    } else {
      assert (a + b)[1..] == a[1..] + b;
      JoinConcat(a[1..], b);
    }
  }

  /** Cutting the string at a prefix that ends at a `/` cuts the component list. */
  lemma TextUnderIsPrefix(o: Path, n: Path)
    requires o != [] && LegalPath(o) && LegalPath(n)
    ensures TextUnder(Render(o), Render(n)) <==> o <= n
    ensures o <= n ==> Render(n)[|Render(o)|..] == Join(n[|o|..])
  {
    if o <= n {
      PrefixIsTextUnder(o, n);
    }
    if TextUnder(Render(o), Render(n)) {
      TextUnderSound(Render(o), Render(n));
      SplitRender(o);
      SplitRender(n);
    }
  }

  lemma PrefixIsTextUnder(o: Path, n: Path)
    requires o != [] && o <= n
    ensures TextUnder(Render(o), Render(n))
    ensures Render(n)[|Render(o)|..] == Join(n[|o|..])
  {
    JoinConcat(o, n[|o|..]);
    assert o + n[|o|..] == n;
  }

  /** Whatever the strings, a prefix that ends at a `/` is a component prefix. */
  lemma TextUnderSound(prefix: string, s: string)
    requires TextUnder(prefix, s)
    ensures Split(prefix) <= Split(s)
  {
    if |s| == |prefix| {
      assert s == prefix;
    } else {
      var x := s[|prefix| + 1..];
      assert s == prefix + "/" + x;
      SplitConcat(prefix, x);
    }
  }

  /** On printed component lists the test on the raw strings is exactly the test
      for a strict component descendant. */
  lemma TextInsideIsInside(o: Path, n: Path)
    requires o != [] && LegalPath(o) && LegalPath(n)
    ensures TextInside(Render(o), Render(n)) <==> Inside(o, n)
  {
    TextUnderIsPrefix(o, n);
    if |Render(o)| == |Render(n)| && o <= n {
      assert Render(n)[|Render(o)|..] == "";
      assert n[|o|..] == [];
    }
    if o <= n && o != n {
      assert n[|o|..] != [];
      JoinConcat(o, n[|o|..]);
      assert o + n[|o|..] == n;
    }
  }

  /** On any two strings a positive test means a component descendant, or the
      same component list spelled differently. */
  lemma TextInsideSound(source: string, target: string)
    requires TextInside(source, target)
    ensures Split(source) <= Split(target)
  {
    TextUnderSound(source, target);
  }

  lemma RenderInjective(p: Path, q: Path)
    requires LegalPath(p) && LegalPath(q) && Render(p) == Render(q)
    ensures p == q
  {
    SplitRender(p);
    SplitRender(q);
  }

  // ---------------------------------------------------------------------------
  // The loops
  // ---------------------------------------------------------------------------

  /** The segments a scan that has reached `start` still has to deliver. */
  function SegmentsFrom(s: string, start: nat): seq<string> {
    if start <= |s| then Segments(s[start..]) else []
  }

  lemma SegmentsFromCut(s: string, start: nat, i: nat)
    requires start <= i <= |s| && forall k | start <= k < i :: !IsSep(s[k])
    requires i < |s| ==> IsSep(s[i])
    ensures SegmentsFrom(s, start) == [s[start..i]] + SegmentsFrom(s, i + 1)
  {
    var t := s[start..];
    assert t[..i - start] == s[start..i];
    SegmentsCut(t, i - start);
    if i < |s| {
      assert t[i - start + 1..] == s[i + 1..];
    } else {
      assert t == s[start..i];
    }
  }

  lemma KeptFromCut(parts: Path, s: string, start: nat, i: nat)
    requires start <= i <= |s| && forall k | start <= k < i :: !IsSep(s[k])
    requires i < |s| ==> IsSep(s[i])
    ensures var seg := s[start..i];
            parts + Kept(SegmentsFrom(s, start))
            == (if start < i && seg != "." then parts + [seg] else parts) + Kept(SegmentsFrom(s, i + 1))
  {
    SegmentsFromCut(s, start, i);
    KeptPush(parts, s[start..i], SegmentsFrom(s, i + 1));
    assert s[start..i] == "" <==> start == i;
  }

  lemma KeptFromStart(s: string)
    ensures Kept(SegmentsFrom(s, 0)) == Split(s) && Kept(SegmentsFrom(s, |s| + 1)) == []
  {
    assert s[0..] == s;
  }

  lemma KeptPush(parts: Path, seg: string, rest: seq<string>)
    ensures parts + Kept([seg] + rest)
            == (if seg == "" || seg == "." then parts else parts + [seg]) + Kept(rest)
  {
    assert ([seg] + rest)[1..] == rest;
    ConcatAssociative(parts, [seg], Kept(rest));
  }

  /** A leading separator makes no difference to either parser. */
  lemma LeadingSeparator(c: char, s: string)
    requires IsSep(c)
    ensures Split([c] + s) == Split(s)
    ensures Canonical([c] + s) == Canonical(s)
  {
    SegmentsConcat("", c, s);
    assert "" + [c] + s == [c] + s;
    SegmentsOfName("");
    KeptConcat([""], Segments(s));
    FollowConcat(ROOT, [""], Segments(s));
  }

  lemma EmptyPathIsRoot()
    ensures Split("") == Split("/") == ROOT
    ensures Canonical("") == Canonical("/") == ROOT
  {
    SegmentsOfName("");
    LeadingSeparator('/', "");
    assert ['/'] + "" == "/";
  }

  /** `splitPath`, after its early exit and its first separator. */
  method Tokenize(sv: string) returns (parts: Path)
    ensures parts == Split(sv)
  {
    parts := [];
    var start, i := 0, 0;
    hide Split, Segments, Kept, SegmentsFrom;
    KeptFromStart(sv);
    while i <= |sv|
      invariant 0 <= start <= i <= |sv| + 1
      invariant i <= |sv| ==> forall k | start <= k < i :: !IsSep(sv[k])
      invariant i == |sv| + 1 ==> start == i
      invariant parts + Kept(SegmentsFrom(sv, start)) == Split(sv)
    {
      var c := if i == |sv| then '/' else sv[i];
      if c == '/' || c == '\\' {
        KeptFromCut(parts, sv, start, i);
        var seg := sv[start..i];
        if i > start {
          if seg != "." {
            parts := parts + [seg];
          }
        }
        start := i + 1;
      }
      i := i + 1;
    }
  }

  /** `splitPath`: one scan over the characters, cutting at every separator. */
  method SplitPath(path: string) returns (parts: Path)
    ensures parts == Split(path)
  {
    if path == "" || path == "/" {
      EmptyPathIsRoot();
      return [];
    }
    var sv := path;
    if sv[0] == '/' || sv[0] == '\\' {
      LeadingSeparator(path[0], path[1..]);
      assert [path[0]] + path[1..] == path;
      sv := sv[1..];
    }
    parts := Tokenize(sv);
  }

  lemma {:induction false} SegmentsOfSameShape(s: string, t: string)
    requires |s| == |t|
    requires forall i | 0 <= i < |s| :: if IsSep(s[i]) then IsSep(t[i]) else t[i] == s[i]
    ensures Segments(s) == Segments(t)
    decreases |s|
  {
    var i := FirstSep(s);
    assert forall k | 0 <= k < i :: s[..i][k] == s[k];
    assert s[..i] == t[..i];
    SegmentsCut(t, i);
    if i < |s| {
      SegmentsOfSameShape(s[i + 1..], t[i + 1..]);
    } else {
      assert s == s[..i] && t == t[..i];
    }
  }

  /** `std::replace(p.begin(), p.end(), '\\', '/')`. */
  method ReplaceBackslashes(s: string) returns (p: string)
    ensures Segments(p) == Segments(s)
    ensures '\\' !in p
  {
    p := s;
    var k := 0;
    while k < |p|
      invariant 0 <= k <= |p| == |s|
      invariant forall j | 0 <= j < k :: p[j] == if s[j] == '\\' then '/' else s[j]
      invariant forall j | k <= j < |p| :: p[j] == s[j]
    {
      if p[k] == '\\' {
        p := p[k := '/'];
      }
      k := k + 1;
    }
    SegmentsOfSameShape(s, p);
  }

  /** `std::getline(ss, part, '/')` from position `pos`. */
  method GetLine(p: string, pos: nat) returns (part: string, next: nat)
    requires pos < |p| && '\\' !in p
    ensures pos < next <= |p| + 1
    ensures SegmentsFrom(p, pos) == [part] + SegmentsFrom(p, next)
  {
    hide Segments, SegmentsFrom;
    var end := pos;
    while end < |p| && p[end] != '/'
      invariant pos <= end <= |p|
      invariant forall k | pos <= k < end :: !IsSep(p[k])
    {
      assert p[end] in p;
      end := end + 1;
    }
    SegmentsFromCut(p, pos, end);
    return p[pos..end], end + 1;
  }

  /** The last loop of `VirtualFS::normalize`. */
  method Print(parts: Path) returns (r: string)
    ensures r == Join(parts)
  {
    r := "";
    var i := 0;
    while i < |parts|
      invariant 0 <= i <= |parts|
      invariant r == Join(parts[..i])
    {
      JoinConcat(parts[..i], [parts[i]]);
      assert parts[..i + 1] == parts[..i] + [parts[i]];
      r := r + "/";
      r := r + parts[i];
      i := i + 1;
    }
    assert parts[..i] == parts;
  }

  /** `VirtualFS::normalize`: a stack of components, then printed. */
  method Normalize(path: string) returns (r: string)
    ensures r == Normal(path)
  {
    if path == "" {
      EmptyPathIsRoot();
      return "/";
    }
    var p := path;
    if p[0] != '/' && p[0] != '\\' {
      LeadingSeparator('/', path);
      p := "/" + p;
    }
    p := ReplaceBackslashes(p);

    var parts: Path := [];
    var pos := 0;
    assert p[0..] == p;
    while pos < |p|
      invariant 0 <= pos <= |p| + 1
      invariant Follow(parts, SegmentsFrom(p, pos)) == Canonical(path)
    {
      var part, next := GetLine(p, pos);
      FollowConcat(parts, [part], SegmentsFrom(p, next));
      if part == "" || part == "." {
      } else if part == ".." {
        if parts != [] {
          parts := parts[..|parts| - 1];
        }
      } else {
        parts := parts + [part];
      }
      pos := next;
    }
    if pos == |p| {
      SegmentsOfName("");
      assert SegmentsFrom(p, pos) == [""];
    }

    if parts == [] {
      return "/";
    }
    r := Print(parts);
  }
}
