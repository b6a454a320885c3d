/** When each file-manager command is granted, and all that it then does. */
module CommandOutcomes {
  import opened Text
  import opened FileTree
  import opened FileAccess
  import opened FileOperations

  // ----- access modes and capabilities -----

  /** A repository that can be loaded and whose directory exists. */
  predicate Loaded(env: Environment, t: Tree, name: string) {
    var root := ["data", "config_repos", name];
    name in env.repositories && root in t && t[root] == Dir
  }

  /** Inside one of these folders of the data root. */
  ghost predicate InFolder(p: Path, names: set<string>) {
    exists name :: name in names && ["data", name] <= p
  }

  /** Inside one of these folders of a loaded repository. */
  ghost predicate InRepository(env: Environment, t: Tree, p: Path, names: set<string>) {
    exists repository, name ::
      Loaded(env, t, repository) && name in names && ["data", "config_repos", repository, name] <= p
  }

  /** Which paths may be edited, read or only walked through; every other path is unknown. */
  lemma AccessModes(env: Environment, t: Tree, p: Path)
    requires p != [] && p[0] == "data"
    ensures IsEditable(env, t, p) <==>
      InFolder(p, {"files", "skills-template", "templates"})
      || InRepository(env, t, p, {"python_packages", "skill_packages"})
    ensures ModeOf(env, t, p) == Ok(ReadOnly) <==> InRepository(env, t, p, {"components", "agents", "workflows"})
    ensures ModeOf(env, t, p) == Ok(Navigation) <==>
      p in {["data"], ["data", "config_repos"]} || (|p| == 3 && p[1] == "config_repos" && Loaded(env, t, p[2]))
    ensures ModeOf(env, t, p).Err? ==> ModeOf(env, t, p) == Err(NotFound)
  {
    hide Loaded;
    if |p| == 1 { assert p == ["data"]; }
    if |p| == 2 { assert p == ["data", p[1]]; }
    if |p| >= 2 { assert ["data", p[1]] <= p; }
    if |p| >= 3 && p[1] == "config_repos" { LoadedAt(env, t, p); }
    if |p| >= 4 { assert ["data", p[1], p[2], p[3]] <= p; }
  }

  lemma LoadedAt(env: Environment, t: Tree, p: Path)
    requires |p| >= 3 && p[0] == "data" && p[1] == "config_repos"
    ensures Loaded(env, t, p[2]) <==> p[..3] in t && t[p[..3]] == Dir && p[2] in env.repositories
  {
    assert p[..3] == ["data", "config_repos", p[2]];
  }

  function KindAt(t: Tree, p: Path): Kind
    requires p in t
  {
    if t[p] == Dir then Directory else RegularFile
  }

  /** What may be done to an entry: by its access mode, its kind and whether it is a protected root. */
  function Granted(mode: AccessMode, kind: Kind, protected: bool): set<Capability> {
    match (mode, kind)
    case (Navigation, Directory) => {List}
    case (Navigation, RegularFile) => {}
    case (ReadOnly, Directory) => {List, Download, Archive}
    case (ReadOnly, RegularFile) => {Read, Download, Archive}
    case (Editable, Directory) =>
      {List, Create, Upload, Download, Archive} + if protected then {} else {MayRename, MayDelete}
    case (Editable, RegularFile) =>
      {Read, Write, Download, Archive} + if protected then {} else {MayRename, MayDelete}
  }

  /** Exactly these capabilities are granted on an existing entry with a mode, and none on any other path. */
  lemma GrantedExactly(env: Environment, t: Tree, value: string, capability: Capability)
    ensures Require(env, t, value, capability).Ok? <==>
      exists p :: Canonical(p) && value == Join(p, "/") && p in t && ModeOf(env, t, p).Ok?
                  && capability in Granted(ModeOf(env, t, p).value, KindAt(t, p), ProtectedRoot(p))
    ensures Require(env, t, value, capability).Ok? ==>
      var (p, kind) := Require(env, t, value, capability).value;
      value == Join(p, "/") && p in t && kind == KindAt(t, p)
  {
    hide ModeOf, Parts, ValidSegment, ProtectedRoot;
    match Parts(value)
    case Err(_) =>
      forall p | Canonical(p) && value == Join(p, "/") ensures false { PartsAcceptsExactlyPrintedPaths(value, p); }
    case Ok(q) =>
      PartsAcceptsExactlyPrintedPaths(value, q);
      forall p | Canonical(p) && value == Join(p, "/") ensures p == q { PartsAcceptsExactlyPrintedPaths(value, p); }
  }

  /** Why a capability is refused: no such path can be named, it is unknown or missing, or its use is denied. */
  lemma RefusalMeans(env: Environment, t: Tree, value: string, capability: Capability)
    requires Require(env, t, value, capability).Err?
    ensures Require(env, t, value, capability).error ==
      if forall p :: !(Canonical(p) && value == Join(p, "/")) then PathInvalid
      else if exists p :: Canonical(p) && value == Join(p, "/") && p in t && ModeOf(env, t, p).Ok? then Denied
      else NotFound
  {
    hide ModeOf, ValidSegment, ProtectedRoot;
    match Parts(value)
    case Err(_) =>
      PartsErrors(value);
      hide Parts;
      forall p | Canonical(p) && value == Join(p, "/") ensures false { PartsAcceptsExactlyPrintedPaths(value, p); }
    case Ok(q) =>
      hide Parts;
      PartsAcceptsExactlyPrintedPaths(value, q);
      if ModeOf(env, t, q).Err? { ModeErrors(env, t, q); }
      forall p | Canonical(p) && value == Join(p, "/") ensures p == q { PartsAcceptsExactlyPrintedPaths(value, p); }
  }

  lemma PartsErrors(value: string)
    requires Parts(value).Err?
    ensures Parts(value).error == PathInvalid
  {
    hide ValidSegment;
  }

  lemma ModeErrors(env: Environment, t: Tree, p: Path)
    requires p != [] && ModeOf(env, t, p).Err?
    ensures ModeOf(env, t, p).error == NotFound
  {
  }

  // ----- the commands -----

  /** Why a path is no creation target. */
  lemma CreationRefusal(env: Environment, t: Tree, value: string, capability: Capability)
    requires WellFormed(t) && capability in {Create, Upload} && CreationTarget(env, t, value, capability).1.Err?
    ensures CreationTarget(env, t, value, capability).1.error ==
      if forall p :: !(Canonical(p) && value == Join(p, "/")) then PathInvalid
      else if exists p :: Canonical(p) && value == Join(p, "/") && IsEditable(env, t, p) && !ProtectedRoot(p)
      then OperationFailed
      else if exists p :: Canonical(p) && value == Join(p, "/") && ModeOf(env, t, p).Ok? then Denied
      else NotFound
  {
    hide ModeOf, ValidSegment, ProtectedRoot, MkdirParents;
    match Parts(value)
    case Err(_) =>
      PartsErrors(value);
      hide Parts;
      forall p | Canonical(p) && value == Join(p, "/") ensures false { PartsAcceptsExactlyPrintedPaths(value, p); }
    case Ok(q) =>
      hide Parts;
      PartsAcceptsExactlyPrintedPaths(value, q);
      forall p | Canonical(p) && value == Join(p, "/") ensures p == q { PartsAcceptsExactlyPrintedPaths(value, p); }
      if ModeOf(env, t, q).Err? { ModeErrors(env, t, q); }
      if IsEditable(env, t, q) && !ProtectedRoot(q) { CreationTargetOnEditable(env, t, value, q, capability); }
  }

  /** A refused creation target leaves the tree; an accepted one that exists already has nothing to add. */
  lemma TargetInPlace(env: Environment, t: Tree, value: string, capability: Capability)
    requires WellFormed(t) && capability in {Create, Upload}
    ensures var (made, r) := CreationTarget(env, t, value, capability);
      r.Ok? ==> (r.value in made <==> r.value in t) && (r.value in t ==> made == t && Same(t, made, r.value))
  {
    hide CreationTarget, ModeOf, ValidSegment, Parts, Creatable, Keeps;
    CreationTargetMeaning(env, t, value, capability);
    var (made, r) := CreationTarget(env, t, value, capability);
    if r.Ok? && r.value in t {
      KeptTree(env, t, made);
      NoEmptyPath(made);
      forall q | q in made ensures q in t {
        if q !in t { AncestorIsThere(t, r.value, q); }
      }
      assert made.Keys == t.Keys;
    }
  }

  lemma NoEmptyPath(t: Tree)
    requires WellFormed(t)
    ensures [] !in t
  {
  }

  lemma AncestorIsThere(t: Tree, p: Path, q: Path)
    requires WellFormed(t) && p in t && |p| > 0 && q <= Parent(p) && q != []
    ensures q in t
  {
    AncestorsAreDirectories(t, p, |q|);
    assert p[..|q|] == q;
  }

  /** At most one path is creatable for a text. */
  lemma OneCreatable(env: Environment, t: Tree, value: string, p: Path, q: Path)
    requires Creatable(env, t, value, p) && Creatable(env, t, value, q)
    ensures p == q
  {
    hide ModeOf, ValidSegment, Parts;
    PartsAcceptsExactlyPrintedPaths(value, p);
    PartsAcceptsExactlyPrintedPaths(value, q);
  }

  /**
   * Creating succeeds exactly at a vacant creatable path; it then adds the entry and missing directories
   * on the way to it, and otherwise it changes nothing.
   */
  lemma CreateMeaning(env: Environment, t: Tree, value: string, node: Node)
    requires WellFormed(t)
    ensures var (t', r) := CreateEntry(env, t, value, node);
      && (r.Ok? <==> exists p :: Creatable(env, t, value, p) && p !in t)
      && (r.Ok? ==> Creatable(env, t, value, r.value) && r.value !in t && r.value in t' && t'[r.value] == node)
      && (r.Ok? ==> forall q :: q != r.value ==> Same(t, t', q) || (q !in t && q in t' && q <= r.value && t'[q] == Dir))
      && (r.Err? ==> t' == t)
      && (forall p :: Creatable(env, t, value, p) && p in t ==> r == Err(AlreadyExists))
  {
    hide CreationTarget, ModeOf, ValidSegment, Parts, Creatable, Keeps, WellFormed;
    CreationTargetMeaning(env, t, value, Create);
    TargetInPlace(env, t, value, Create);
    var target := CreationTarget(env, t, value, Create).1;
    if target.Ok? {
      forall p | Creatable(env, t, value, p) ensures p == target.value { OneCreatable(env, t, value, p, target.value); }
    }
  }

  /** An upload is registered exactly for a creatable path that is vacant or, with overwrite, a file. */
  lemma PrepareMeaning(env: Environment, t: Tree, value: string, overwrite: bool)
    requires WellFormed(t)
    ensures var (t', r) := PrepareUpload(env, t, value, overwrite);
      && (r.Ok? <==> exists p :: Creatable(env, t, value, p) && Replaceable(t, p, overwrite))
      && (r.Ok? ==> Creatable(env, t, value, r.value) && Parent(r.value) in t' && t'[Parent(r.value)] == Dir)
      && (r.Ok? ==> forall q :: Same(t, t', q) || (q !in t && q in t' && q <= Parent(r.value) && t'[q] == Dir))
      && (r.Err? ==> t' == t)
      && (forall p :: Creatable(env, t, value, p) && !Replaceable(t, p, overwrite) ==>
            r == Err(if overwrite then NotRegular else AlreadyExists))
  {
    hide CreationTarget, ModeOf, ValidSegment, Parts, Creatable, Keeps, WellFormed;
    CreationTargetMeaning(env, t, value, Upload);
    TargetInPlace(env, t, value, Upload);
    var target := CreationTarget(env, t, value, Upload).1;
    if target.Ok? {
      forall p | Creatable(env, t, value, p) ensures p == target.value { OneCreatable(env, t, value, p, target.value); }
    }
  }

  /** Nothing is there, or a file that may be overwritten. */
  predicate Replaceable(t: Tree, p: Path, overwrite: bool) {
    p !in t || (overwrite && t[p].File?)
  }

  /**
   * Publishing an existing temporary under a valid path replaces the target exactly if it may be replaced;
   * then the target holds the temporary's content, the temporary is gone and nothing else has changed.
   */
  lemma PublishMeaning(env: Environment, t: Tree, value: string, temporary: Path, target: Path, overwrite: bool)
    requires |temporary| > 1 && temporary in t && t[temporary].File? && temporary != target
    requires Locate(env, t, value).Ok?
    ensures PublishUpload(env, t, value, temporary, target, overwrite) ==
      if Replaceable(t, target, overwrite) then (t[target := t[temporary]] - {temporary}, Ok(target))
      else (t, Err(if overwrite then OperationFailed else AlreadyExists))
  {
    hide Locate;
    assert t[temporary].content + [] == t[temporary].content;
    assert t[temporary := t[temporary]] == t;
    RemovedFile(t[target := t[temporary]], temporary);
  }

  /** Without its temporary and its directory, or under a path that is unknown by now, nothing is published. */
  lemma PublishRefused(env: Environment, t: Tree, value: string, temporary: Path, target: Path, overwrite: bool)
    requires |temporary| > 1
    ensures Locate(env, t, value).Err? ==>
      PublishUpload(env, t, value, temporary, target, overwrite) == (t, Err(Locate(env, t, value).error))
    ensures Locate(env, t, value).Ok? && temporary !in t && Parent(temporary) !in t ==>
      PublishUpload(env, t, value, temporary, target, overwrite) == (t, Err(OperationFailed))
  {
    hide Locate;
  }

  /** A save succeeds exactly on an editable file whose content has the given digest, and replaces that content. */
  lemma SaveMeaning(env: Environment, t: Tree, value: string, content: Bytes, revision: string)
    ensures var (t', r) := SaveText(env, t, value, content, revision);
      && (r.Ok? <==> exists p :: Saved(env, t, value, p) && env.digest(t[p].content) == revision)
      && (r.Ok? ==> r.value == env.digest(content))
      && (r.Ok? ==> exists p :: Saved(env, t, value, p) && t' == t[p := File(content)])
      && (r.Err? ==> t' == t && ((exists p :: Saved(env, t, value, p)) ==> r.error == RevisionConflict))
  {
    hide ModeOf, ValidSegment, Parts, ProtectedRoot, Require;
    GrantedExactly(env, t, value, Write);
    var required := Require(env, t, value, Write);
    if required.Ok? { assert Saved(env, t, value, required.value.0); }
    if p, q :| Saved(env, t, value, p) && Saved(env, t, value, q) && p != q {
      PartsAcceptsExactlyPrintedPaths(value, p);
      PartsAcceptsExactlyPrintedPaths(value, q);
    }
  }

  /** An editable file under its printed path. */
  predicate Saved(env: Environment, t: Tree, value: string, p: Path) {
    Canonical(p) && value == Join(p, "/") && p in t && t[p].File? && IsEditable(env, t, p)
  }

  lemma RemovedFile(t: Tree, file: Path)
    requires file in t && t[file].File?
    ensures RemoveFile(t, file) == t - {file}
  {
  }

  /** An existing, editable, unprotected entry under its printed path. */
  predicate Removable(env: Environment, t: Tree, value: string, p: Path) {
    Canonical(p) && value == Join(p, "/") && p in t && IsEditable(env, t, p) && !ProtectedRoot(p)
  }

  /** A delete succeeds exactly on an existing, editable, unprotected entry, and removes its whole subtree. */
  lemma DeleteMeaning(env: Environment, t: Tree, value: string)
    ensures var (t', r) := DeleteEntry(env, t, value);
      && (r.Ok? <==> exists p :: Removable(env, t, value, p))
      && (r.Ok? ==> r.value in t && value == Join(r.value, "/")
                    && forall q :: if r.value <= q then q !in t' else Same(t, t', q))
      && (r.Err? ==> t' == t)
  {
    hide ModeOf, Parts, ValidSegment, Require, Canonical, ProtectedRoot;
    GrantedExactly(env, t, value, MayDelete);
    var required := Require(env, t, value, MayDelete);
    if required.Ok? { assert Removable(env, t, value, required.value.0); }
  }
}
