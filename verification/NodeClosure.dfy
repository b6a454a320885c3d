/** The recursive collection of the locked Node packages, with its swallowed failures. */
module NodeClosure {
  import opened Text
  import opened DependencyClosure

  /** The names a locked package requires and those it can do without. */
  datatype Node = Node(required: seq<string>, optional: seq<string>)

  type Lock = map<string, Node>

  // ----- the visit as a function -----

  /**
   * Visiting a package when the packages in `seen` were visited before: what is seen afterwards, and
   * false for the exit raised by a missing requirement.
   */
  function Visited(lock: Lock, path: string, seen: set<string>): (r: (set<string>, bool))
    requires path in lock && seen <= lock.Keys
    ensures seen + {path} <= r.0 <= lock.Keys
    decreases lock.Keys - seen, 0, 0
  {
    if path in seen then (seen, true)
    else
      var required := RequiredVisited(lock, path, lock[path].required, seen + {path});
      if !required.1 then required else (OptionalVisited(lock, path, lock[path].optional, required.0), true)
  }

  /** Visiting what these required names resolve to, in order, up to the first failure. */
  function RequiredVisited(lock: Lock, path: string, names: seq<string>, seen: set<string>): (r: (set<string>, bool))
    requires seen <= lock.Keys
    ensures seen <= r.0 <= lock.Keys
    decreases lock.Keys - seen, 1, |names|
  {
    if names == [] then (seen, true)
    else
      var before := RequiredVisited(lock, path, names[..|names| - 1], seen);
      var target := Resolve(lock.Keys, path, names[|names| - 1]);
      if !before.1 || target.None? then (before.0, false) else Visited(lock, target.value, before.0)
  }

  /** Visiting what these optional names resolve to; failures are swallowed. */
  function OptionalVisited(lock: Lock, path: string, names: seq<string>, seen: set<string>): (r: set<string>)
    requires seen <= lock.Keys
    ensures seen <= r <= lock.Keys
    decreases lock.Keys - seen, 1, |names|
  {
    if names == [] then seen
    else
      var before := OptionalVisited(lock, path, names[..|names| - 1], seen);
      var target := Resolve(lock.Keys, path, names[|names| - 1]);
      if target.None? then before else Visited(lock, target.value, before).0
  }

  /** The packages of the notices: None when a requirement of the root package fails. */
  function Collected(lock: Lock, names: seq<string>): Option<set<string>> {
    var r := RequiredVisited(lock, "", names, {});
    if r.1 then Some(r.0) else None
  }

  lemma NothingVisited(lock: Lock, path: string, seen: set<string>)
    requires seen <= lock.Keys
    ensures RequiredVisited(lock, path, [], seen) == (seen, true) && OptionalVisited(lock, path, [], seen) == seen
  {
  }

  lemma RequiredSnoc(lock: Lock, path: string, names: seq<string>, name: string, seen: set<string>)
    requires seen <= lock.Keys
    ensures var before, target := RequiredVisited(lock, path, names, seen), Resolve(lock.Keys, path, name);
      RequiredVisited(lock, path, names + [name], seen) ==
        if !before.1 || target.None? then (before.0, false) else Visited(lock, target.value, before.0)
  {
    hide Visited, Resolve;
    assert (names + [name])[..|names|] == names;
  }

  lemma OptionalSnoc(lock: Lock, path: string, names: seq<string>, name: string, seen: set<string>)
    requires seen <= lock.Keys
    ensures var before, target := OptionalVisited(lock, path, names, seen), Resolve(lock.Keys, path, name);
      OptionalVisited(lock, path, names + [name], seen) ==
        if target.None? then before else Visited(lock, target.value, before).0
  {
    hide Visited, Resolve;
    assert (names + [name])[..|names|] == names;
  }

  lemma RequiredFailed(lock: Lock, path: string, names: seq<string>, k: nat, seen: set<string>)
    requires seen <= lock.Keys && k <= |names| && !RequiredVisited(lock, path, names[..k], seen).1
    ensures RequiredVisited(lock, path, names, seen) == RequiredVisited(lock, path, names[..k], seen)
  {
    hide Visited, Resolve;
    if k < |names| {
      assert names[..|names| - 1][..k] == names[..k];
      RequiredFailed(lock, path, names[..|names| - 1], k, seen);
    } else {
      assert names[..k] == names;
    }
  }

  // ----- what is reached -----

  /** A resolvable dependency, required or optional. */
  ghost predicate Depends(lock: Lock, path: string, target: string) {
    path in lock && exists name :: (name in lock[path].required || name in lock[path].optional)
                                   && Resolve(lock.Keys, path, name) == Some(target)
  }

  ghost function LockEdge(lock: Lock): (string, string) -> bool {
    (a, b) => Depends(lock, a, b)
  }

  /** Reachable from what one of these names, as written in the package at `from`, resolves to. */
  ghost predicate Below(lock: Lock, from: string, names: seq<string>, path: string) {
    exists name :: name in names && Resolve(lock.Keys, from, name).Some?
                   && Reaches(LockEdge(lock), Resolve(lock.Keys, from, name).value, path)
  }

  /** Reachable from a dependency of the root package. */
  ghost predicate Listed(lock: Lock, names: seq<string>, path: string) {
    Below(lock, "", names, path)
  }

  ghost predicate AllReached(lock: Lock, from: string, paths: set<string>) {
    forall p :: p in paths ==> Reaches(LockEdge(lock), from, p)
  }

  ghost predicate AllBelow(lock: Lock, from: string, names: seq<string>, paths: set<string>) {
    forall p :: p in paths ==> Below(lock, from, names, p)
  }

  lemma {:induction false} VisitedIsReached(lock: Lock, path: string, seen: set<string>)
    requires path in lock && seen <= lock.Keys
    ensures AllReached(lock, path, Visited(lock, path, seen).0 - seen)
    decreases lock.Keys - seen, 0, 0
  {
    if path !in seen {
      var node, start := lock[path], seen + {path};
      var required := RequiredVisited(lock, path, node.required, start);
      RequiredIsBelow(lock, path, node.required, start);
      OptionalIsBelow(lock, path, node.optional, required.0);
      BelowIsReached(lock, path, node.required, required.0 - start);
      BelowIsReached(lock, path, node.optional, OptionalVisited(lock, path, node.optional, required.0) - required.0);
      ReachesItself(LockEdge(lock), path);
      hide RequiredVisited, OptionalVisited, Reaches;
    }
  }

  lemma {:induction false} RequiredIsBelow(lock: Lock, path: string, names: seq<string>, seen: set<string>)
    requires seen <= lock.Keys
    ensures AllBelow(lock, path, names, RequiredVisited(lock, path, names, seen).0 - seen)
    decreases lock.Keys - seen, 1, |names|
  {
    if names != [] {
      var front, name := names[..|names| - 1], names[|names| - 1];
      var before, target := RequiredVisited(lock, path, front, seen).0, Resolve(lock.Keys, path, name);
      assert front + [name] == names;
      RequiredSnoc(lock, path, front, name, seen);
      RequiredIsBelow(lock, path, front, seen);
      if target.Some? { VisitedIsReached(lock, target.value, before); }
      hide RequiredVisited, Resolve, Visited;
      BelowMore(lock, path, front, name, before - seen,
                if target.None? then {} else Visited(lock, target.value, before).0 - before);
    }
  }

  lemma {:induction false} OptionalIsBelow(lock: Lock, path: string, names: seq<string>, seen: set<string>)
    requires seen <= lock.Keys
    ensures AllBelow(lock, path, names, OptionalVisited(lock, path, names, seen) - seen)
    decreases lock.Keys - seen, 1, |names|
  {
    if names != [] {
      var front, name := names[..|names| - 1], names[|names| - 1];
      var before, target := OptionalVisited(lock, path, front, seen), Resolve(lock.Keys, path, name);
      assert front + [name] == names;
      OptionalSnoc(lock, path, front, name, seen);
      OptionalIsBelow(lock, path, front, seen);
      if target.Some? { VisitedIsReached(lock, target.value, before); }
      hide OptionalVisited, Resolve, Visited;
      BelowMore(lock, path, front, name, before - seen,
                if target.None? then {} else Visited(lock, target.value, before).0 - before);
    }
  }

  lemma BelowMore(lock: Lock, from: string, names: seq<string>, name: string, below: set<string>, more: set<string>)
    requires AllBelow(lock, from, names, below)
    requires var target := Resolve(lock.Keys, from, name);
      if target.None? then more == {} else AllReached(lock, target.value, more)
    ensures AllBelow(lock, from, names + [name], below + more)
  {
    hide Resolve, Reaches;
    var all := names + [name];
    forall p | p in below + more ensures Below(lock, from, all, p) {
      if p in below {
        var other :| other in names && Resolve(lock.Keys, from, other).Some?
                     && Reaches(LockEdge(lock), Resolve(lock.Keys, from, other).value, p);
        assert other in all;
      } else {
        assert name in all;
      }
    }
  }

  lemma BelowIsReached(lock: Lock, path: string, names: seq<string>, below: set<string>)
    requires path in lock && (names == lock[path].required || names == lock[path].optional)
    requires AllBelow(lock, path, names, below)
    ensures AllReached(lock, path, below)
  {
    hide Resolve, Reaches;
    forall p | p in below ensures Reaches(LockEdge(lock), path, p) {
      var name :| name in names && Resolve(lock.Keys, path, name).Some?
                  && Reaches(LockEdge(lock), Resolve(lock.Keys, path, name).value, p);
      assert LockEdge(lock)(path, Resolve(lock.Keys, path, name).value);
      ReachesFromBefore(LockEdge(lock), path, Resolve(lock.Keys, path, name).value, p);
    }
  }

  // ----- when a visit succeeds, and what it then holds -----

  /** Whatever is reached over required dependencies alone has all its requirements locked. */
  ghost predicate Sound(lock: Lock, from: string) {
    forall path, name :: path in lock && Reaches(RequiredEdge(lock), from, path) && name in lock[path].required ==>
      Resolve(lock.Keys, path, name).Some?
  }

  ghost predicate Requires(lock: Lock, path: string, target: string) {
    path in lock && exists name :: name in lock[path].required && Resolve(lock.Keys, path, name) == Some(target)
  }

  ghost function RequiredEdge(lock: Lock): (string, string) -> bool {
    (a, b) => Requires(lock, a, b)
  }

  /** Every name resolves, to a sound package. */
  ghost predicate AllSound(lock: Lock, from: string, names: seq<string>) {
    forall name :: name in names ==>
      Resolve(lock.Keys, from, name).Some? && Sound(lock, Resolve(lock.Keys, from, name).value)
  }

  /** All dependencies of the sound packages in `inner` are in `outer`. */
  ghost predicate Closes(lock: Lock, inner: set<string>, outer: set<string>) {
    forall a, b :: a in inner && Sound(lock, a) && Depends(lock, a, b) ==> b in outer
  }

  /** The resolvable ones among these names lead into `seen`. */
  ghost predicate Followed(lock: Lock, path: string, names: seq<string>, seen: set<string>) {
    forall name :: name in names && Resolve(lock.Keys, path, name).Some? ==>
      Resolve(lock.Keys, path, name).value in seen
  }

  lemma SoundRequirements(lock: Lock, path: string)
    requires path in lock && Sound(lock, path)
    ensures AllSound(lock, path, lock[path].required)
  {
    hide Resolve, Reaches;
    var edge := RequiredEdge(lock);
    ReachesItself(edge, path);
    forall name | name in lock[path].required
      ensures Resolve(lock.Keys, path, name).Some? && Sound(lock, Resolve(lock.Keys, path, name).value)
    {
      var target := Resolve(lock.Keys, path, name).value;
      assert edge(path, target);
      forall p | Reaches(edge, target, p) ensures Reaches(edge, path, p) { ReachesFromBefore(edge, path, target, p); }
    }
  }

  /**
   * A visit of a sound package succeeds, and whatever fails on the way, all dependencies of the sound
   * packages it adds are visited.
   */
  lemma {:induction false} VisitedCloses(lock: Lock, path: string, seen: set<string>)
    requires path in lock && seen <= lock.Keys
    ensures var r := Visited(lock, path, seen);
      (Sound(lock, path) ==> r.1) && Closes(lock, r.0 - seen, r.0)
    decreases lock.Keys - seen, 0, 0
  {
    if path !in seen {
      var node, start := lock[path], seen + {path};
      var required := RequiredVisited(lock, path, node.required, start);
      var optional := OptionalVisited(lock, path, node.optional, required.0);
      RequiredCloses(lock, path, node.required, start);
      OptionalCloses(lock, path, node.optional, required.0);
      if Sound(lock, path) { SoundRequirements(lock, path); }
      hide RequiredVisited, OptionalVisited, Sound, AllSound, Resolve, Depends;
      if required.1 {
        assert Followed(lock, path, node.required, optional);
        DependenciesFollowed(lock, path, optional);
      }
    }
  }

  lemma DependenciesFollowed(lock: Lock, path: string, seen: set<string>)
    requires path in lock && Followed(lock, path, lock[path].required, seen)
      && Followed(lock, path, lock[path].optional, seen)
    ensures forall b :: Depends(lock, path, b) ==> b in seen
  {
    hide Resolve;
  }

  lemma {:induction false} RequiredCloses(lock: Lock, path: string, names: seq<string>, seen: set<string>)
    requires seen <= lock.Keys
    ensures var r := RequiredVisited(lock, path, names, seen);
      (AllSound(lock, path, names) ==> r.1) && Closes(lock, r.0 - seen, r.0)
        && (r.1 ==> Followed(lock, path, names, r.0))
    decreases lock.Keys - seen, 1, |names|
  {
    if names != [] {
      var front, name := names[..|names| - 1], names[|names| - 1];
      var before, target := RequiredVisited(lock, path, front, seen), Resolve(lock.Keys, path, name);
      assert front + [name] == names;
      RequiredSnoc(lock, path, front, name, seen);
      RequiredCloses(lock, path, front, seen);
      if target.Some? { VisitedCloses(lock, target.value, before.0); }
      hide RequiredVisited, Resolve, Visited, Sound, Depends;
      assert forall other :: other in names <==> other in front || other == name;
    }
  }

  lemma {:induction false} OptionalCloses(lock: Lock, path: string, names: seq<string>, seen: set<string>)
    requires seen <= lock.Keys
    ensures var r := OptionalVisited(lock, path, names, seen);
      Closes(lock, r - seen, r) && Followed(lock, path, names, r)
    decreases lock.Keys - seen, 1, |names|
  {
    if names != [] {
      var front, name := names[..|names| - 1], names[|names| - 1];
      var before, target := OptionalVisited(lock, path, front, seen), Resolve(lock.Keys, path, name);
      assert front + [name] == names;
      OptionalSnoc(lock, path, front, name, seen);
      OptionalCloses(lock, path, front, seen);
      if target.Some? { VisitedCloses(lock, target.value, before); }
      hide OptionalVisited, Resolve, Visited, Sound, Depends;
      assert forall other :: other in names <==> other in front || other == name;
    }
  }

  // ----- the packages of the notices -----

  /** A dependency of a sound package. */
  ghost function SoundEdge(lock: Lock): (string, string) -> bool {
    (a, b) => Sound(lock, a) && Depends(lock, a, b)
  }

  /** Reachable from a dependency of the root package through sound packages. */
  ghost predicate SoundlyListed(lock: Lock, names: seq<string>, path: string) {
    exists name :: name in names && Resolve(lock.Keys, "", name).Some?
                   && Reaches(SoundEdge(lock), Resolve(lock.Keys, "", name).value, path)
  }

  /**
   * The collection fails only when a requirement is missing along required dependencies; otherwise it holds
   * everything reachable through sound packages, and nothing that is not reachable.
   */
  lemma CollectedMeans(lock: Lock, names: seq<string>)
    ensures AllSound(lock, "", names) ==> Collected(lock, names).Some?
    ensures Collected(lock, names).Some? ==> forall p :: SoundlyListed(lock, names, p) ==>
      p in Collected(lock, names).value
    ensures Collected(lock, names).Some? ==> forall p :: p in Collected(lock, names).value ==> Listed(lock, names, p)
  {
    RequiredCloses(lock, "", names, {});
    RequiredIsBelow(lock, "", names, {});
    hide RequiredVisited, Sound, AllSound, Resolve, Depends, Reaches, Below;
    var r := RequiredVisited(lock, "", names, {});
    assert r.0 - {} == r.0;
    if r.1 {
      forall p | SoundlyListed(lock, names, p) ensures p in r.0 {
        var name :| name in names && Resolve(lock.Keys, "", name).Some?
                    && Reaches(SoundEdge(lock), Resolve(lock.Keys, "", name).value, p);
        ReachedInside(lock, Resolve(lock.Keys, "", name).value, p, r.0);
      }
    }
  }

  lemma ReachedInside(lock: Lock, from: string, to: string, seen: set<string>)
    requires from in seen && Closes(lock, seen, seen) && Reaches(SoundEdge(lock), from, to)
    ensures to in seen
  {
    hide Sound, Depends;
    var path :| Joins(SoundEdge(lock), path, from, to);
    ClosedHoldsReached(SoundEdge(lock), seen, path);
  }

  /** Every required dependency of every package reachable from here resolves. */
  ghost predicate RequiredResolve(lock: Lock, from: string) {
    forall path, name :: path in lock && Reaches(LockEdge(lock), from, path) && name in lock[path].required ==>
      Resolve(lock.Keys, path, name).Some?
  }

  /** Everything the root needs resolves, and so does every requirement reachable from there. */
  ghost predicate Resolvable(lock: Lock, names: seq<string>) {
    forall name :: name in names ==>
      Resolve(lock.Keys, "", name).Some? && RequiredResolve(lock, Resolve(lock.Keys, "", name).value)
  }

  lemma ResolvableIsSound(lock: Lock, from: string)
    requires RequiredResolve(lock, from)
    ensures Sound(lock, from)
  {
    hide Resolve;
    forall p | Reaches(RequiredEdge(lock), from, p) ensures Reaches(LockEdge(lock), from, p) {
      var path :| Joins(RequiredEdge(lock), path, from, p);
      forall i | 0 <= i < |path| - 1 ensures LockEdge(lock)(path[i], path[i + 1]) {
        assert RequiredEdge(lock)(path[i], path[i + 1]);
      }
      assert Joins(LockEdge(lock), path, from, p);
    }
  }

  lemma ResolvableBelow(lock: Lock, from: string, to: string)
    requires RequiredResolve(lock, from) && Depends(lock, from, to)
    ensures RequiredResolve(lock, to)
  {
    hide Resolve, Reaches, Depends;
    var edge := LockEdge(lock);
    assert edge(from, to);
    forall p | Reaches(edge, to, p) ensures Reaches(edge, from, p) { ReachesFromBefore(edge, from, to, p); }
  }

  /** When all reachable requirements resolve, every path goes through sound packages. */
  lemma {:induction false} ResolvablePath(lock: Lock, path: seq<string>)
    requires Path(LockEdge(lock), path) && RequiredResolve(lock, path[0])
    ensures Path(SoundEdge(lock), path)
  {
    hide Sound, Depends, RequiredResolve;
    ResolvableIsSound(lock, path[0]);
    if |path| > 1 {
      var rest := path[1..];
      assert LockEdge(lock)(path[0], path[1]);
      forall i | 0 <= i < |rest| - 1
        ensures LockEdge(lock)(rest[i], rest[i + 1])
      {
        assert LockEdge(lock)(path[i + 1], path[i + 1 + 1]);
      }
      ResolvableBelow(lock, path[0], path[1]);
      ResolvablePath(lock, rest);
      forall i | 0 <= i < |path| - 1 ensures SoundEdge(lock)(path[i], path[i + 1]) {
        if i > 0 { assert SoundEdge(lock)(rest[i - 1], rest[i - 1 + 1]); }
      }
    }
  }

  /** When all reachable requirements resolve, exactly the reachable packages are collected. */
  lemma CollectedExactly(lock: Lock, names: seq<string>)
    requires Resolvable(lock, names)
    ensures Collected(lock, names).Some? && forall p :: p in Collected(lock, names).value <==> Listed(lock, names, p)
  {
    CollectedMeans(lock, names);
    hide Resolve, RequiredResolve, Sound, Collected;
    forall name | name in names ensures Sound(lock, Resolve(lock.Keys, "", name).value) {
      ResolvableIsSound(lock, Resolve(lock.Keys, "", name).value);
    }
    forall p | Listed(lock, names, p) ensures SoundlyListed(lock, names, p) {
      var name :| name in names && Resolve(lock.Keys, "", name).Some?
                  && Reaches(LockEdge(lock), Resolve(lock.Keys, "", name).value, p);
      var from := Resolve(lock.Keys, "", name).value;
      var path :| Joins(LockEdge(lock), path, from, p);
      ResolvablePath(lock, path);
      assert Joins(SoundEdge(lock), path, from, p);
    }
  }

  // ----- without optional dependencies -----

  ghost predicate NoOptional(lock: Lock) {
    forall path :: path in lock ==> lock[path].optional == []
  }

  /** The requirements of these packages all resolve, into `outer`. */
  ghost predicate RequirementsIn(lock: Lock, inner: set<string>, outer: set<string>) {
    forall a, name :: a in inner && a in lock && name in lock[a].required ==>
      Resolve(lock.Keys, a, name).Some? && Resolve(lock.Keys, a, name).value in outer
  }

  /** These names all resolve, into `seen`. */
  ghost predicate AllIn(lock: Lock, path: string, names: seq<string>, seen: set<string>) {
    forall name :: name in names ==>
      Resolve(lock.Keys, path, name).Some? && Resolve(lock.Keys, path, name).value in seen
  }

  lemma {:induction false} VisitedNeedsAll(lock: Lock, path: string, seen: set<string>)
    requires path in lock && seen <= lock.Keys && NoOptional(lock) && Visited(lock, path, seen).1
    ensures RequirementsIn(lock, Visited(lock, path, seen).0 - seen, Visited(lock, path, seen).0)
    decreases lock.Keys - seen, 0, 0
  {
    if path !in seen {
      var start := seen + {path};
      var required := RequiredVisited(lock, path, lock[path].required, start).0;
      RequiredNeedsAll(lock, path, lock[path].required, start);
      assert Visited(lock, path, seen).0 == required;
      hide RequiredVisited, Visited, Resolve;
      assert required - seen == (required - start) + {path};
    }
  }

  lemma {:induction false} RequiredNeedsAll(lock: Lock, path: string, names: seq<string>, seen: set<string>)
    requires seen <= lock.Keys && NoOptional(lock) && RequiredVisited(lock, path, names, seen).1
    ensures var r := RequiredVisited(lock, path, names, seen).0;
      RequirementsIn(lock, r - seen, r) && AllIn(lock, path, names, r)
    decreases lock.Keys - seen, 1, |names|
  {
    if names != [] {
      var front, name := names[..|names| - 1], names[|names| - 1];
      var before, target := RequiredVisited(lock, path, front, seen), Resolve(lock.Keys, path, name);
      assert front + [name] == names;
      RequiredSnoc(lock, path, front, name, seen);
      RequiredNeedsAll(lock, path, front, seen);
      VisitedNeedsAll(lock, target.value, before.0);
      hide RequiredVisited, Resolve, Visited;
      assert forall other :: other in names <==> other in front || other == name;
    }
  }

  /** Without optional dependencies the collection fails exactly when some reachable requirement is not locked. */
  lemma FailsExactly(lock: Lock, names: seq<string>)
    requires NoOptional(lock)
    ensures Collected(lock, names).Some? <==> AllSound(lock, "", names)
  {
    CollectedMeans(lock, names);
    if Collected(lock, names).Some? {
      RequiredNeedsAll(lock, "", names, {});
      var seen := RequiredVisited(lock, "", names, {}).0;
      hide RequiredVisited, Resolve, Sound;
      assert seen - {} == seen;
      forall name | name in names ensures Sound(lock, Resolve(lock.Keys, "", name).value) {
        InsideIsSound(lock, Resolve(lock.Keys, "", name).value, seen);
      }
    }
  }

  lemma InsideIsSound(lock: Lock, from: string, seen: set<string>)
    requires from in seen && RequirementsIn(lock, seen, seen)
    ensures Sound(lock, from)
  {
    hide Resolve;
    var edge := RequiredEdge(lock);
    forall p | Reaches(edge, from, p) ensures p in seen {
      var path :| Joins(edge, path, from, p);
      forall a, b | a in seen && edge(a, b) ensures b in seen {
        var name :| name in lock[a].required && Resolve(lock.Keys, a, name) == Some(b);
      }
      ClosedHoldsReached(edge, seen, path);
    }
  }

  // ----- the closure object -----

  class FrontendClosure {
    const lock: Lock
    var seen: set<string>

    constructor (lock: Lock)
      ensures this.lock == lock && seen == {}
    {
      this.lock, seen := lock, {};
    }

    /**
     * Visits a package and everything below it; false is the exit raised for a missing requirement.
     * An exit inside an optional dependency is swallowed.
     */
    method Visit(path: string) returns (ok: bool)
      requires path in lock && seen <= lock.Keys
      modifies this`seen
      ensures (seen, ok) == Visited(lock, path, old(seen)) && seen <= lock.Keys
      ensures AllReached(lock, path, seen - old(seen))
      ensures (Sound(lock, path) ==> ok) && Closes(lock, seen - old(seen), seen)
      decreases lock.Keys - seen, 1
    {
      hide Sound, Closes, Resolve, AllReached, RequiredVisited, OptionalVisited;
      VisitedIsReached(lock, path, seen);
      VisitedCloses(lock, path, seen);
      if path in seen { return true; }
      seen := seen + {path};
      var node := lock[path];
      NothingVisited(lock, path, seen);
      assert node.required[..0] == [];
      for i := 0 to |node.required|
        invariant old(seen) + {path} <= seen <= lock.Keys
        invariant (seen, true) == RequiredVisited(lock, path, node.required[..i], old(seen) + {path})
      {
        var name := node.required[i];
        var target := Resolve(lock.Keys, path, name);
        RequiredSnoc(lock, path, node.required[..i], name, old(seen) + {path});
        assert node.required[..i] + [name] == node.required[..i + 1];
        ok := false;
        if target.Some? { ok := Visit(target.value); }
        if !ok {
          RequiredFailed(lock, path, node.required, i + 1, old(seen) + {path});
          return false;
        }
      }
      assert node.required[..|node.required|] == node.required;
      ghost var required := seen;
      NothingVisited(lock, path, seen);
      assert node.optional[..0] == [];
      for i := 0 to |node.optional|
        invariant old(seen) + {path} <= seen <= lock.Keys
        invariant seen == OptionalVisited(lock, path, node.optional[..i], required)
      {
        var name := node.optional[i];
        var target := Resolve(lock.Keys, path, name);
        OptionalSnoc(lock, path, node.optional[..i], name, required);
        assert node.optional[..i] + [name] == node.optional[..i + 1];
        if target.Some? { var done := Visit(target.value); }
      }
      assert node.optional[..|node.optional|] == node.optional;
      return true;
    }
  }

  /** The visited packages; None is the exit of a requirement of the root package. */
  method FrontendPackages(lock: Lock, names: seq<string>) returns (result: Option<set<string>>)
    ensures result == Collected(lock, names)
    ensures AllSound(lock, "", names) ==> result.Some?
    ensures result.Some? ==>
      forall p :: (SoundlyListed(lock, names, p) ==> p in result.value)
        && (p in result.value ==> Listed(lock, names, p))
    ensures Resolvable(lock, names) ==> result.Some? && forall p :: p in result.value <==> Listed(lock, names, p)
  {
    hide Resolve, RequiredVisited, Visited, Sound, AllSound, SoundlyListed, Listed, Resolvable, AllReached, Closes;
    CollectedMeans(lock, names);
    if Resolvable(lock, names) { CollectedExactly(lock, names); }
    var closure := new FrontendClosure(lock);
    NothingVisited(lock, "", {});
    assert names[..0] == [];
    for i := 0 to |names|
      invariant closure.lock == lock && closure.seen <= lock.Keys && fresh(closure)
      invariant (closure.seen, true) == RequiredVisited(lock, "", names[..i], {})
    {
      var target := Resolve(lock.Keys, "", names[i]);
      RequiredSnoc(lock, "", names[..i], names[i], {});
      assert names[..i] + [names[i]] == names[..i + 1];
      var ok := false;
      if target.Some? { ok := closure.Visit(target.value); }
      if !ok {
        RequiredFailed(lock, "", names, i + 1, {});
        return None;
      }
    }
    assert names[..|names|] == names;
    return Some(closure.seen);
  }

  // ----- a swallowed failure -----

  function Installed(name: string): string {
    "node_modules/" + name
  }

  /** `a` can do without `b`, which requires the missing `x`; `d` requires `b`. */
  const SWALLOWING: Lock := map[
    Installed("a") := Node([], ["b"]),
    Installed("b") := Node(["x"], []),
    Installed("d") := Node(["b"], [])]

  lemma InstalledIsFound(importer: string, name: string)
    requires |name| == 1 && (importer == "" || exists other :: |other| == 1 && importer == Installed(other))
    ensures Resolve(SWALLOWING.Keys, importer, name) ==
      if Installed(name) in SWALLOWING then Some(Installed(name)) else None
  {
    assert Candidate("", name) == Installed(name);
    if importer != "" {
      assert |importer| == 14 && |Candidate(importer, name)| == 28 + |name|;
      assert forall key :: key in SWALLOWING ==> |key| == 14;
      assert forall k: nat :: k < 14 && MarkerAt(importer, k) ==> k == 0 && importer[0] == '/';
      assert LastMarker(importer, |importer|).None?;
    }
  }

  lemma Distinct()
    ensures Installed("a") != Installed("b") && Installed("a") != Installed("d") && Installed("b") != Installed("d")
    ensures Installed("x") !in SWALLOWING
  {
    assert Installed("a")[13] == 'a' && Installed("b")[13] == 'b' && Installed("d")[13] == 'd'
      && Installed("x")[13] == 'x';
  }

  lemma OneName(path: string, name: string, seen: set<string>)
    requires seen <= SWALLOWING.Keys && |name| == 1
    requires path == "" || exists other :: |other| == 1 && path == Installed(other)
    ensures RequiredVisited(SWALLOWING, path, [name], seen) ==
      if Installed(name) in SWALLOWING then Visited(SWALLOWING, Installed(name), seen) else (seen, false)
    ensures Installed(name) in SWALLOWING ==>
      OptionalVisited(SWALLOWING, path, [name], seen) == Visited(SWALLOWING, Installed(name), seen).0
  {
    hide Visited, Resolve, SWALLOWING, Installed;
    InstalledIsFound(path, name);
    NothingVisited(SWALLOWING, path, seen);
    RequiredSnoc(SWALLOWING, path, [], name, seen);
    OptionalSnoc(SWALLOWING, path, [], name, seen);
    assert [] + [name] == [name];
  }

  /** Visiting `b` for the first time fails, but leaves it seen. */
  lemma VisitOfB(seen: set<string>)
    requires seen <= SWALLOWING.Keys
    ensures var b := Installed("b");
      b in SWALLOWING && Visited(SWALLOWING, b, seen) == if b in seen then (seen, true) else (seen + {b}, false)
  {
    Distinct();
    if Installed("b") !in seen { OneName(Installed("b"), "x", seen + {Installed("b")}); }
    hide RequiredVisited, OptionalVisited, Installed;
  }

  lemma VisitOfA()
    ensures var a, b := Installed("a"), Installed("b");
      a in SWALLOWING && Visited(SWALLOWING, a, {}) == ({a, b}, true)
  {
    Distinct();
    var a := Installed("a");
    NothingVisited(SWALLOWING, a, {a});
    OneName(a, "b", {a});
    VisitOfB({a});
    var none: set<string> := {};
    assert none + {a} == {a} && {a} + {Installed("b")} == {a, Installed("b")};
    hide RequiredVisited, OptionalVisited, Installed;
  }

  lemma VisitOfD(seen: set<string>)
    requires seen <= SWALLOWING.Keys && Installed("d") !in seen
    ensures var b, d := Installed("b"), Installed("d");
      d in SWALLOWING && b in SWALLOWING && Visited(SWALLOWING, d, seen) == (seen + {d, b}, b in seen)
  {
    Distinct();
    var d := Installed("d");
    var start := seen + {d};
    OneName(d, "b", start);
    VisitOfB(start);
    NothingVisited(SWALLOWING, d, start);
    assert start + {Installed("b")} == seen + {d, Installed("b")};
    assert Installed("b") in seen ==> start == seen + {d, Installed("b")};
    hide RequiredVisited, OptionalVisited, Installed;
  }

  /**
   * The outcome depends on the order of the root's names: once `a` has swallowed the failure of `b`, `d`
   * finds `b` visited and succeeds.
   */
  lemma OrderDecidesFailure()
    ensures Collected(SWALLOWING, ["a", "d"]) == Some({Installed("a"), Installed("b"), Installed("d")})
    ensures Collected(SWALLOWING, ["d", "a"]) == None
    ensures !AllSound(SWALLOWING, "", ["a", "d"])
  {
    var a, b, d := Installed("a"), Installed("b"), Installed("d");
    Distinct();
    VisitOfA();
    VisitOfD({a, b});
    VisitOfD({});
    OneName("", "a", {});
    OneName("", "d", {});
    InstalledIsFound("", "d");
    RequiredSnoc(SWALLOWING, "", ["a"], "d", {});
    assert ["a"] + ["d"] == ["a", "d"] && ["d", "a"][..1] == ["d"];
    RequiredFailed(SWALLOWING, "", ["d", "a"], 1, {});
    assert {a, b} + {d, b} == {a, b, d};
    hide RequiredVisited, Visited, Installed, Resolve, Sound;
    if AllSound(SWALLOWING, "", ["a", "d"]) {
      assert Sound(SWALLOWING, d);
      VisitedCloses(SWALLOWING, d, {});
    }
  }
}
