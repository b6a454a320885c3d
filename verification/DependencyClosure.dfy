/** Which locked packages the third-party notices list. */
module DependencyClosure {
  import opened Text

  // ----- reachability -----

  ghost predicate Path<T(!new)>(edge: (T, T) -> bool, path: seq<T>) {
    |path| > 0 && forall i :: 0 <= i < |path| - 1 ==> edge(path[i], path[i + 1])
  }

  ghost predicate Joins<T(!new)>(edge: (T, T) -> bool, path: seq<T>, from: T, to: T) {
    Path(edge, path) && path[0] == from && path[|path| - 1] == to
  }

  ghost predicate Reaches<T(!new)>(edge: (T, T) -> bool, from: T, to: T) {
    exists path :: Joins(edge, path, from, to)
  }

  lemma ReachesItself<T(!new)>(edge: (T, T) -> bool, a: T)
    ensures Reaches(edge, a, a)
  {
    assert Joins(edge, [a], a, a);
  }

  lemma ReachesFurther<T(!new)>(edge: (T, T) -> bool, a: T, b: T, c: T)
    requires Reaches(edge, a, b) && edge(b, c)
    ensures Reaches(edge, a, c)
  {
    var path :| Joins(edge, path, a, b);
    assert Joins(edge, path + [c], a, c);
  }

  lemma ReachesFromBefore<T(!new)>(edge: (T, T) -> bool, a: T, b: T, c: T)
    requires edge(a, b) && Reaches(edge, b, c)
    ensures Reaches(edge, a, c)
  {
    var path :| Joins(edge, path, b, c);
    assert Joins(edge, [a] + path, a, c);
  }

  ghost predicate ClosedUnder<T(!new)>(edge: (T, T) -> bool, s: set<T>) {
    forall a, b :: a in s && edge(a, b) ==> b in s
  }

  /** A closed set holds everything its members reach. */
  lemma {:induction false} ClosedHoldsReached<T(!new)>(edge: (T, T) -> bool, s: set<T>, path: seq<T>)
    requires ClosedUnder(edge, s) && Path(edge, path) && path[0] in s
    ensures path[|path| - 1] in s
  {
    if |path| > 1 {
      assert edge(path[0], path[1]);
      var rest := path[1..];
      forall i | 0 <= i < |rest| - 1 ensures edge(rest[i], rest[i + 1]) { assert edge(path[i + 1], path[i + 1 + 1]); }
      ClosedHoldsReached(edge, s, rest);
    }
  }

  // ----- Python packages: the worklist -----

  /** `enabled` is the value of the dependency's marker; a missing marker counts as enabled. */
  datatype Dependency = Dependency(name: string, enabled: bool)

  predicate Enables(dependencies: seq<Dependency>, name: string) {
    exists i :: 0 <= i < |dependencies| && dependencies[i] == Dependency(name, true)
  }

  ghost function PackageEdge(packages: map<string, seq<Dependency>>): (string, string) -> bool {
    (a, b) => a in packages && Enables(packages[a], b)
  }

  /** Reachable from the root package over enabled dependencies. */
  ghost predicate Wanted(packages: map<string, seq<Dependency>>, root: seq<Dependency>, name: string) {
    exists first :: Enables(root, first) && Reaches(PackageEdge(packages), first, name)
  }

  lemma WantedFurther(packages: map<string, seq<Dependency>>, root: seq<Dependency>, a: string, b: string)
    requires Wanted(packages, root, a) && a in packages && Enables(packages[a], b)
    ensures Wanted(packages, root, b)
  {
    var first :| Enables(root, first) && Reaches(PackageEdge(packages), first, a);
    ReachesFurther(PackageEdge(packages), first, a, b);
  }

  lemma WantedAtOnce(packages: map<string, seq<Dependency>>, root: seq<Dependency>, a: string)
    requires Enables(root, a)
    ensures Wanted(packages, root, a)
  {
    ReachesItself(PackageEdge(packages), a);
  }

  ghost predicate Covered(packages: map<string, seq<Dependency>>, root: seq<Dependency>, wanted: set<string>,
    pending: seq<Dependency>)
  {
    wanted <= packages.Keys
    && (forall n :: Enables(root, n) ==> n in wanted || Enables(pending, n))
    && (forall m, n :: m in wanted && Enables(packages[m], n) ==> n in wanted || Enables(pending, n))
  }

  ghost predicate AllWanted(packages: map<string, seq<Dependency>>, root: seq<Dependency>, wanted: set<string>,
    pending: seq<Dependency>)
  {
    (forall n :: n in wanted ==> Wanted(packages, root, n))
      && (forall n :: Enables(pending, n) ==> Wanted(packages, root, n))
  }

  /** Exactly the packages reachable over enabled dependencies; None when one of them is not locked. */
  method RuntimePackages(packages: map<string, seq<Dependency>>, root: seq<Dependency>)
    returns (result: Option<set<string>>)
    ensures result.None? <==> exists name :: Wanted(packages, root, name) && name !in packages
    ensures result.Some? ==> forall name :: name in result.value <==> Wanted(packages, root, name)
  {
    hide Covered, AllWanted, Wanted, Enables;
    var wanted: set<string> := {};
    var pending := root;
    Start(packages, root);
    while pending != []
      invariant wanted <= packages.Keys
      invariant Covered(packages, root, wanted, pending) && AllWanted(packages, root, wanted, pending)
      decreases packages.Keys - wanted, |pending|
    {
      var dependency := pending[|pending| - 1];
      ghost var before := pending;
      pending := pending[..|pending| - 1];
      Pop(packages, root, wanted, before);
      if !dependency.enabled || dependency.name in wanted { continue; }
      var name := dependency.name;
      if name !in packages { return None; }
      wanted := wanted + {name};
      pending := pending + packages[name];
      Add(packages, root, wanted - {name}, before);
      assert wanted - {name} + {name} == wanted;
    }
    forall n | Wanted(packages, root, n) ensures n in wanted { ClosedIsAll(packages, root, wanted, n); }
    WantedOnly(packages, root, wanted);
    return Some(wanted);
  }

  lemma Start(packages: map<string, seq<Dependency>>, root: seq<Dependency>)
    ensures Covered(packages, root, {}, root) && AllWanted(packages, root, {}, root)
  {
    hide Wanted;
    forall n | Enables(root, n) ensures Wanted(packages, root, n) { WantedAtOnce(packages, root, n); }
  }

  lemma WantedOnly(packages: map<string, seq<Dependency>>, root: seq<Dependency>, wanted: set<string>)
    requires AllWanted(packages, root, wanted, [])
    ensures forall n :: n in wanted ==> Wanted(packages, root, n)
  {
  }

  /** Taking the last dependency off: it is wanted when enabled, and needs no cover when skipped. */
  lemma Pop(packages: map<string, seq<Dependency>>, root: seq<Dependency>, wanted: set<string>,
    pending: seq<Dependency>)
    requires pending != [] && Covered(packages, root, wanted, pending) && AllWanted(packages, root, wanted, pending)
    ensures var last, rest := pending[|pending| - 1], pending[..|pending| - 1];
      AllWanted(packages, root, wanted, rest)
      && (last.enabled ==> Wanted(packages, root, last.name))
      && (!last.enabled || last.name in wanted ==> Covered(packages, root, wanted, rest))
  {
    hide Enables, Wanted;
    PopKeeps(pending);
  }

  /** Adding the package of the last dependency and its own dependencies. */
  lemma Add(packages: map<string, seq<Dependency>>, root: seq<Dependency>, wanted: set<string>,
    pending: seq<Dependency>)
    requires pending != [] && Covered(packages, root, wanted, pending) && AllWanted(packages, root, wanted, pending)
    requires pending[|pending| - 1].enabled && pending[|pending| - 1].name in packages
    ensures var name := pending[|pending| - 1].name;
      var next := pending[..|pending| - 1] + packages[name];
      Covered(packages, root, wanted + {name}, next) && AllWanted(packages, root, wanted + {name}, next)
  {
    hide Enables, Wanted;
    var name, rest := pending[|pending| - 1].name, pending[..|pending| - 1];
    PopKeeps(pending);
    ExtendKeeps(rest, packages[name]);
    forall n | Enables(packages[name], n) ensures Wanted(packages, root, n) { WantedFurther(packages, root, name, n); }
  }

  lemma PopKeeps(pending: seq<Dependency>)
    requires pending != []
    ensures forall n :: Enables(pending, n) <==>
      Enables(pending[..|pending| - 1], n) || pending[|pending| - 1] == Dependency(n, true)
  {
    ExtendKeeps(pending[..|pending| - 1], [pending[|pending| - 1]]);
    assert pending[..|pending| - 1] + [pending[|pending| - 1]] == pending;
    forall n ensures Enables([pending[|pending| - 1]], n) <==> pending[|pending| - 1] == Dependency(n, true) {
      assert [pending[|pending| - 1]][0] == pending[|pending| - 1];
    }
  }

  lemma ExtendKeeps(a: seq<Dependency>, b: seq<Dependency>)
    ensures forall n :: Enables(a + b, n) <==> Enables(a, n) || Enables(b, n)
  {
    forall n ensures Enables(a + b, n) <==> Enables(a, n) || Enables(b, n) {
      if Enables(a, n) {
        var i :| 0 <= i < |a| && a[i] == Dependency(n, true);
        assert (a + b)[i] == a[i];
      }
      if Enables(b, n) {
        var i :| 0 <= i < |b| && b[i] == Dependency(n, true);
        assert (a + b)[|a| + i] == b[i];
      }
    }
  }

  lemma ClosedIsAll(packages: map<string, seq<Dependency>>, root: seq<Dependency>, wanted: set<string>, name: string)
    requires Covered(packages, root, wanted, []) && Wanted(packages, root, name)
    ensures name in wanted
  {
    var edge := PackageEdge(packages);
    var first :| Enables(root, first) && Reaches(edge, first, name);
    var path :| Joins(edge, path, first, name);
    ClosedHoldsReached(edge, wanted, path);
  }

  // ----- Node packages: nearest enclosing directory -----

  const MARKER := "/node_modules/"

  predicate MarkerAt(s: string, k: nat) {
    k + 14 <= |s| && s[k..k + 14] == MARKER
  }

  /** `rfind` of the marker. */
  function LastMarker(s: string, bound: nat): (r: Option<nat>)
    ensures r.Some? ==> r.value < bound && MarkerAt(s, r.value)
    ensures forall k: nat :: k < bound && MarkerAt(s, k) ==> r.Some? && k <= r.value
  {
    if bound == 0 then None
    else if MarkerAt(s, bound - 1) then Some(bound - 1)
    else LastMarker(s, bound - 1)
  }

  function Candidate(base: string, name: string): string {
    (if base == "" then "" else base + "/") + "node_modules/" + name
  }

  /** A directory around the importer that may have its own `node_modules`. */
  predicate Encloses(base: string, importer: string) {
    base == importer || base == "" || (|base| <= |importer| && base == importer[..|base|] && MarkerAt(importer, |base|))
  }

  /** Below a named directory a package called `node_modules` is on the path. */
  predicate DoubledAt(s: string, k: nat) {
    k > 0 && MarkerAt(s, k) && MarkerAt(s, k + 13)
  }

  ghost predicate NoDoubledMarker(s: string) {
    forall k: nat :: !DoubledAt(s, k)
  }

  /** The first enclosing directory, from the importer outwards, whose candidate is locked. */
  function Resolve(packages: set<string>, base: string, name: string): (r: Option<string>)
    ensures r.Some? ==> r.value in packages
    decreases |base|
  {
    if Candidate(base, name) in packages then Some(Candidate(base, name))
    else
      var index := LastMarker(base, |base|);
      if index.Some? then Resolve(packages, base[..index.value], name)
      else if Candidate("", name) in packages then Some(Candidate("", name))
      else None
  }

  predicate Slashed(path: string, j: nat) {
    j + 14 <= |path| && path[j..j + 14] == "/node_modules/"
  }

  /** No later `/node_modules/` than at this place. */
  ghost predicate LastAt(path: string, k: int) {
    forall j: nat :: j > k ==> !Slashed(path, j)
  }

  /** The search looks into the importer's own packages and then goes on from the directory its last package is in. */
  lemma SearchGoesOutwards(packages: set<string>, outer: string, inner: string, name: string)
    requires LastAt(outer + "/node_modules/" + inner, |outer|)
    ensures var importer := outer + "/node_modules/" + inner;
      Resolve(packages, importer, name) ==
        if importer + "/node_modules/" + name in packages then Some(importer + "/node_modules/" + name)
        else Resolve(packages, outer, name)
  {
    var importer := outer + "/node_modules/" + inner;
    assert importer[|outer|..|outer| + 14] == "/node_modules/" && importer[..|outer|] == outer;
    assert MarkerAt(importer, |outer|);
    assert (importer + "/") + "node_modules/" + name == importer + ("/" + "node_modules/") + name;
    assert "/" + "node_modules/" == "/node_modules/";
    forall j: nat | j > |outer| ensures !MarkerAt(importer, j) { assert !Slashed(importer, j); }
  }

  /** From a path on which no package lies it goes to the root's packages. */
  lemma SearchEndsAtTheRoot(packages: set<string>, importer: string, name: string)
    requires LastAt(importer, -1)
    ensures var own := (if importer == "" then "" else importer + "/") + "node_modules/" + name;
      Resolve(packages, importer, name) ==
        if own in packages then Some(own)
        else if "node_modules/" + name in packages then Some("node_modules/" + name) else None
  {
    forall j: nat ensures !MarkerAt(importer, j) { assert !Slashed(importer, j); }
    assert "" + "node_modules/" + name == "node_modules/" + name;
  }

  method ResolveNodePackage(packages: set<string>, importer: string, name: string) returns (found: Option<string>)
    ensures found == Resolve(packages, importer, name)
  {
    var base := importer;
    while true
      invariant Resolve(packages, importer, name) == Resolve(packages, base, name)
      decreases |base|
    {
      var candidate := Candidate(base, name);
      if candidate in packages { return Some(candidate); }
      var index := LastMarker(base, |base|);
      if index.None? { break; }
      base := base[..index.value];
    }
    if Candidate("", name) in packages { return Some(Candidate("", name)); }
    return None;
  }

  /** The candidate of the deepest enclosing directory that has one; None when no directory has. */
  ghost predicate DeepestCandidate(packages: set<string>, importer: string, name: string, found: Option<string>) {
    match found
    case None => forall base :: Encloses(base, importer) ==> Candidate(base, name) !in packages
    case Some(c) =>
      c in packages && exists base :: Deepest(packages, importer, name, base) && c == Candidate(base, name)
  }

  ghost predicate Deepest(packages: set<string>, importer: string, name: string, base: string) {
    Encloses(base, importer)
    && forall deeper :: Encloses(deeper, importer) && |deeper| > |base| ==> Candidate(deeper, name) !in packages
  }

  lemma ResolutionIsDeepest(packages: set<string>, importer: string, name: string)
    requires NoDoubledMarker(importer)
    ensures DeepestCandidate(packages, importer, name, Resolve(packages, importer, name))
  {
    ResolutionFrom(packages, importer, importer, name);
  }

  lemma {:induction false} ResolutionFrom(packages: set<string>, importer: string, base: string, name: string)
    requires NoDoubledMarker(importer) && Encloses(base, importer)
    requires forall deeper :: Encloses(deeper, importer) && |deeper| > |base| ==> Candidate(deeper, name) !in packages
    ensures DeepestCandidate(packages, importer, name, Resolve(packages, base, name))
    decreases |base|
  {
    hide Candidate, MARKER;
    if Candidate(base, name) !in packages {
      var index := LastMarker(base, |base|);
      if index.Some? {
        var next := base[..index.value];
        MarkerOfPrefix(base, importer, index.value);
        assert Encloses(next, importer);
        forall deeper | Encloses(deeper, importer) && |deeper| > |next| ensures Candidate(deeper, name) !in packages {
          NothingBetween(importer, base, deeper);
        }
        ResolutionFrom(packages, importer, next, name);
      } else {
        forall deeper | Encloses(deeper, importer) && |deeper| > 0 ensures Candidate(deeper, name) !in packages {
          NothingBetween(importer, base, deeper);
        }
      }
    }
  }

  lemma MarkerOfPrefix(base: string, importer: string, k: nat)
    requires Encloses(base, importer) && MarkerAt(base, k)
    ensures MarkerAt(importer, k) && importer[..k] == base[..k]
  {
    hide MARKER;
    assert base == importer[..|base|];
    assert importer[k..k + 14] == base[k..k + 14];
  }

  /** No enclosing directory lies strictly between a directory and the next one the search visits. */
  lemma NothingBetween(importer: string, base: string, other: string)
    requires NoDoubledMarker(importer) && Encloses(base, importer) && Encloses(other, importer)
    requires 0 < |other| && (LastMarker(base, |base|).Some? ==> LastMarker(base, |base|).value < |other|)
    ensures other == base || |other| > |base|
  {
    hide LastMarker, MARKER, DoubledAt;
    if |other| == |base| {
      assert other == importer[..|base|] == base;
    } else if |other| < |base| {
      var k := |other|;
      assert MarkerAt(importer, k);
      if k + 14 <= |base| {
        MarkerInside(importer, base, k);
      } else {
        MarkersDoNotOverlap(importer, k, |base|);
        BothMarkers(importer, k);
      }
    }
  }

  lemma MarkerInside(importer: string, base: string, k: nat)
    requires Encloses(base, importer) && MarkerAt(importer, k) && k + 14 <= |base|
    ensures LastMarker(base, |base|).Some? && k <= LastMarker(base, |base|).value
  {
    hide MARKER, LastMarker;
    assert base == importer[..|base|];
    assert base[k..k + 14] == importer[k..k + 14];
    assert MarkerAt(base, k);
  }

  lemma MarkersDoNotOverlap(s: string, k: nat, j: nat)
    requires MarkerAt(s, k) && MarkerAt(s, j) && k < j < k + 14
    ensures j == k + 13
  {
    assert s[k..k + 14][j - k] == s[j] == s[j..j + 14][0] == '/';
    assert MARKER[j - k] == '/';
    var m := MARKER;
    assert forall i :: 0 < i < 13 ==> m[i] != '/';
  }

  /**
   * A package called `node_modules` hides the directory it is installed in: the candidate there is locked,
   * and the search, which has passed on to a shorter directory, does not find it.
   */
  lemma DoubledMarkerHidesADirectory(importer: string, k: nat, name: string)
    requires DoubledAt(importer, k) && forall j: nat :: DoubledAt(importer, j) ==> j <= k
    ensures Encloses(importer[..k], importer) && Resolve({Candidate(importer[..k], name)}, importer, name).None?
    ensures !DeepestCandidate({Candidate(importer[..k], name)}, importer, name, None)
  {
    hide Candidate, MARKER, Resolve;
    SearchPassesOver(importer, k, importer, name);
    assert Encloses(importer[..k], importer);
  }

  /** From any directory at or below the second marker the search goes on without trying the first one. */
  lemma {:induction false} SearchPassesOver(importer: string, k: nat, base: string, name: string)
    requires DoubledAt(importer, k) && forall j: nat :: DoubledAt(importer, j) ==> j <= k
    requires Encloses(base, importer) && |base| >= k + 13
    ensures Resolve({Candidate(importer[..k], name)}, base, name).None?
    decreases |base|
  {
    hide Candidate, MARKER;
    var a := importer[..k];
    CandidatesDiffer(a, base, name);
    CandidatesDiffer(a, "", name);
    if |base| == k + 13 {
      var index := LastMarker(base, |base|);
      if index.Some? {
        var next := base[..index.value];
        assert |next| < k;
        ShorterMisses(a, next, name);
      }
    } else {
      SecondMarkerInside(importer, k, base);
      MarkerInside(importer, base, k + 13);
      var index := LastMarker(base, |base|).value;
      MarkerOfPrefix(base, importer, index);
      SearchPassesOver(importer, k, base[..index], name);
    }
  }

  lemma SecondMarkerInside(importer: string, k: nat, base: string)
    requires DoubledAt(importer, k) && forall j: nat :: DoubledAt(importer, j) ==> j <= k
    requires Encloses(base, importer) && |base| > k + 13
    ensures k + 27 <= |base|
  {
    hide MARKER;
    if |base| < k + 27 {
      MarkersDoNotOverlap(importer, k + 13, |base|);
      BothMarkers(importer, k + 13);
    }
  }

  lemma BothMarkers(s: string, k: nat)
    requires k > 0 && MarkerAt(s, k) && MarkerAt(s, k + 13)
    ensures DoubledAt(s, k)
  {
    hide MarkerAt;
  }

  /** A directory shorter than `a` never answers the candidate of `a`. */
  lemma {:induction false} ShorterMisses(a: string, base: string, name: string)
    requires a != "" && |base| < |a|
    ensures Resolve({Candidate(a, name)}, base, name).None?
    decreases |base|
  {
    hide Candidate, LastMarker;
    CandidatesDiffer(a, base, name);
    CandidatesDiffer(a, "", name);
    var index := LastMarker(base, |base|);
    if index.Some? { ShorterMisses(a, base[..index.value], name); }
  }

  lemma CandidatesDiffer(a: string, b: string, name: string)
    requires a != "" && |a| != |b|
    ensures Candidate(a, name) != Candidate(b, name)
  {
    assert |Candidate(a, name)| == |a| + 1 + |"node_modules/"| + |name|;
    assert |Candidate(b, name)| == (if b == "" then 0 else |b| + 1) + |"node_modules/"| + |name|;
  }

  /**
   * The search is the nearest-ancestor search, for every lock file and name, exactly on the paths without
   * a package called `node_modules` below a named directory.
   */
  lemma ResolutionIsDeepestExactly(importer: string)
    ensures (forall packages: set<string>, name ::
        DeepestCandidate(packages, importer, name, Resolve(packages, importer, name))) <==> NoDoubledMarker(importer)
  {
    hide Candidate, MARKER, Resolve, DeepestCandidate, DoubledAt;
    if NoDoubledMarker(importer) {
      forall packages: set<string>, name
        ensures DeepestCandidate(packages, importer, name, Resolve(packages, importer, name))
      {
        ResolutionIsDeepest(packages, importer, name);
      }
    } else {
      var k := LastDoubled(importer);
      DoubledMarkerHidesADirectory(importer, k, "");
    }
  }

  lemma LastDoubled(importer: string) returns (k: nat)
    requires !NoDoubledMarker(importer)
    ensures DoubledAt(importer, k) && forall j: nat :: DoubledAt(importer, j) ==> j <= k
  {
    hide MARKER;
    k :| DoubledAt(importer, k);
    var top := |importer|;
    while top > k
      invariant k <= top && DoubledAt(importer, k)
      invariant forall j: nat :: DoubledAt(importer, j) ==> j <= top
    {
      if DoubledAt(importer, top) { k := top; } else { top := top - 1; }
    }
  }
}
