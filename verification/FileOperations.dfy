/** What each file-manager command does to the tree, and what every command keeps. */
module FileOperations {
  import opened Text
  import opened FileTree
  import opened FileAccess

  /** Validates a path to be created and makes its parent directories. */
  function CreationTarget(env: Environment, t: Tree, value: string, capability: Capability): (Tree, Result<Path>)
    requires WellFormed(t)
  {
    match Locate(env, t, value)
    case Err(e) => (t, Err(e))
    case Ok((p, mode)) =>
      if mode != Editable || ProtectedRoot(p) then (t, Err(Denied))
      else
        var parentPath := Join(Parent(p), "/");
        match Locate(env, t, parentPath)
        case Err(e) => (t, Err(e))
        case Ok((parent, parentMode)) =>
          if parentMode != Editable then (t, Err(Denied))
          else
            match MkdirParents(t, parent)
            case None => (t, Err(OperationFailed))
            case Some(made) =>
              match Require(env, made, parentPath, capability)
              case Err(e) => (made, Err(e))
              case Ok((found, kind)) =>
                if kind != Directory || Parent(p) != found then (made, Err(Denied)) else (made, Ok(p))
  }

  /** `create_directory` and `create_text_file`: an exclusive creation. */
  function CreateEntry(env: Environment, t: Tree, value: string, node: Node): (Tree, Result<Path>)
    requires WellFormed(t)
  {
    var (made, target) := CreationTarget(env, t, value, Create);
    match target
    case Err(e) => (made, Err(e))
    case Ok(p) => if p in made then (made, Err(AlreadyExists)) else (made[p := node], Ok(p))
  }

  /** The locked first step of an upload. */
  function PrepareUpload(env: Environment, t: Tree, value: string, overwrite: bool): (Tree, Result<Path>)
    requires WellFormed(t)
  {
    var (made, target) := CreationTarget(env, t, value, Upload);
    match target
    case Err(e) => (made, Err(e))
    case Ok(p) =>
      if p in made && !overwrite then (made, Err(AlreadyExists))
      else if p in made && made[p] == Dir then (made, Err(NotRegular))
      else (made, Ok(p))
  }

  /** Opening a file for appending creates it when it is absent; None when the system refuses. */
  function AppendTo(t: Tree, file: Path, chunk: Bytes): Option<Tree>
    requires |file| > 1
  {
    if file in t then (if t[file] == Dir then None else Some(t[file := File(t[file].content + chunk)]))
    else if Parent(file) in t && t[Parent(file)] == Dir then Some(t[file := File(chunk)])
    else None
  }

  /** Exclusive creation of the upload's temporary file. */
  function CreateTemporary(t: Tree, file: Path): Option<Tree>
    requires |file| > 1
  {
    if file in t || Parent(file) !in t || t[Parent(file)] != Dir then None else Some(t[file := File([])])
  }

  /** The locked last step of an upload: re-validate the path, then publish the temporary file. */
  function PublishUpload(env: Environment, t: Tree, value: string, temporary: Path, target: Path,
    overwrite: bool): (Tree, Result<Path>)
    requires |temporary| > 1
  {
    match Locate(env, t, value)
    case Err(e) => (t, Err(e))
    case Ok(_) =>
      match AppendTo(t, temporary, [])
      case None => (t, Err(OperationFailed))
      case Some(flushed) =>
        if !overwrite && target in flushed then (flushed, Err(AlreadyExists))
        else if target in flushed && flushed[target] == Dir then (flushed, Err(OperationFailed))
        else (RemoveFile(flushed[target := flushed[temporary]], temporary), Ok(target))
  }

  function RemoveFile(t: Tree, file: Path): Tree {
    if file in t && t[file].File? then map p | p in t && p != file :: t[p] else t
  }

  /** `save_text`: replaces the content whose digest is `revision`; answers the new revision. */
  function SaveText(env: Environment, t: Tree, value: string, content: Bytes,
    revision: string): (Tree, Result<string>)
  {
    match Require(env, t, value, Write)
    case Err(e) => (t, Err(e))
    case Ok((p, kind)) =>
      if kind != RegularFile then (t, Err(NotRegular))
      else if env.digest(t[p].content) != revision then (t, Err(RevisionConflict))
      else (t[p := File(content)], Ok(env.digest(content)))
  }

  function RenameEntry(env: Environment, t: Tree, value: string, name: string): (Tree, Result<Path>) {
    if !ValidSegment(name) then (t, Err(PathInvalid))
    else
      match Require(env, t, value, MayRename)
      case Err(e) => (t, Err(e))
      case Ok((source, _)) =>
        match Locate(env, t, Join(Parent(source) + [name], "/"))
        case Err(e) => (t, Err(e))
        case Ok((destination, mode)) =>
          if mode != Editable then (t, Err(Denied))
          else if destination == source then (t, Ok(source))
          else if destination in t then (t, Err(AlreadyExists))
          else (MoveTree(t, source, destination), Ok(destination))
  }

  function DeleteEntry(env: Environment, t: Tree, value: string): (Tree, Result<Path>) {
    match Require(env, t, value, MayDelete)
    case Err(e) => (t, Err(e))
    case Ok((target, kind)) => (RemoveTree(t, target), Ok(target))
  }

  // ----- what a command keeps -----

  predicate Same(a: Tree, b: Tree, p: Path) {
    (p in a <==> p in b) && (p in a ==> a[p] == b[p])
  }

  /** Entries that are not editable are untouched, and protected roots keep existence and kind. */
  ghost predicate Keeps(env: Environment, t: Tree, t': Tree) {
    && WellFormed(t')
    && (forall p :: p != [] && !IsEditable(env, t, p) ==> Same(t, t', p))
    && (forall p :: p in t && ProtectedRoot(p) ==> p in t' && (t[p] == Dir <==> t'[p] == Dir))
  }

  /** A command cannot change who may edit what. */
  lemma KeepsModes(env: Environment, t: Tree, t': Tree, p: Path)
    requires Keeps(env, t, t') && p != []
    ensures ModeOf(env, t, p) == ModeOf(env, t', p)
  {
    if |p| >= 3 && p[1] == REPOSITORIES {
      assert !IsEditable(env, t, p[..3]);
    }
  }

  lemma KeepsItself(env: Environment, t: Tree)
    requires WellFormed(t)
    ensures Keeps(env, t, t)
  {
  }

  /** What a kept tree promises beside the modes. */
  lemma KeptTree(env: Environment, t: Tree, t': Tree)
    requires Keeps(env, t, t')
    ensures WellFormed(t')
  {
  }

  lemma KeepsTransitive(env: Environment, a: Tree, b: Tree, c: Tree)
    requires Keeps(env, a, b) && Keeps(env, b, c)
    ensures Keeps(env, a, c)
  {
    hide Parts, ValidSegment;
    forall p: Path | p != [] && !IsEditable(env, a, p) ensures Same(a, c, p) {
      KeepsModes(env, a, b, p);
      assert Same(a, b, p) && Same(b, c, p);
    }
  }

  lemma MkdirKeeps(env: Environment, t: Tree, p: Path)
    requires WellFormed(t) && IsEditable(env, t, p) && p[0] == "data" && MkdirParents(t, p).Some?
    ensures Keeps(env, t, MkdirParents(t, p).value)
  {
    var made := MkdirParents(t, p).value;
    forall q | q != [] && !IsEditable(env, t, q) ensures Same(t, made, q) {
      if q in made && q !in t { MissingAncestorIsEditable(env, t, p, q); }
    }
  }

  /** The parent of an editable unprotected path is accepted and editable again. */
  lemma ParentIsEditable(env: Environment, t: Tree, p: Path)
    requires Canonical(p) && IsEditable(env, t, p) && !ProtectedRoot(p)
    ensures |p| > 2 && Canonical(Parent(p)) && IsEditable(env, t, Parent(p))
    ensures Parts(Join(Parent(p), "/")) == Ok(Parent(p))
    ensures Locate(env, t, Join(Parent(p), "/")) == Ok((Parent(p), Editable))
  {
    hide ValidSegment, Parts;
    assert forall segment :: segment in Parent(p) ==> segment in p;
    PartsAcceptsExactlyPrintedPaths(Join(Parent(p), "/"), Parent(p));
    if p[1] == REPOSITORIES { assert Parent(p)[..3] == p[..3]; }
  }

  lemma RequireDirectory(env: Environment, t: Tree, value: string, p: Path, capability: Capability)
    requires Parts(value) == Ok(p) && IsEditable(env, t, p) && p in t && t[p] == Dir && capability in {Create, Upload}
    ensures Require(env, t, value, capability) == Ok((p, Directory))
  {
    hide ValidSegment, Parts;
  }

  /** An accepted editable path, not a protected root, with no file among its ancestors. */
  ghost predicate Creatable(env: Environment, t: Tree, value: string, p: Path) {
    && Canonical(p) && value == Join(p, "/") && IsEditable(env, t, p) && !ProtectedRoot(p)
    && forall k :: 1 <= k < |p| ==> !(p[..k] in t && t[p[..k]].File?)
  }

  /**
   * The meaning of `_creation_target`: it succeeds exactly for an accepted editable path that is not
   * a protected root and has no file among its ancestors. Then the parent is a directory, and all
   * that was added are directories on the way to it. When it refuses, nothing was added.
   */
  lemma CreationTargetMeaning(env: Environment, t: Tree, value: string, capability: Capability)
    requires WellFormed(t) && capability in {Create, Upload}
    ensures var (made, r) := CreationTarget(env, t, value, capability);
      && Keeps(env, t, made)
      && (forall q :: q in t ==> Same(t, made, q))
      && (forall q :: q in made && q !in t ==> made[q] == Dir)
      && (r.Ok? ==>
          var p := r.value;
          && |p| > 2 && Creatable(env, t, value, p)
          && Parent(p) in made && made[Parent(p)] == Dir
          && (forall q :: q in made && q !in t ==> q <= Parent(p)))
      && (r.Err? ==> made == t)
    ensures CreationTarget(env, t, value, capability).1.Err? ==> forall p :: !Creatable(env, t, value, p)
  {
    hide ValidSegment, Parts, MkdirParents, CreationTarget;
    var (made, r) := CreationTarget(env, t, value, capability);
    match Locate(env, t, value)
    case Err(_) => CreationTargetRefusals(env, t, value, capability);
    case Ok((p, mode)) =>
      if mode != Editable || ProtectedRoot(p) {
        CreationTargetRefusals(env, t, value, capability);
      } else {
        CreationTargetOnEditable(env, t, value, p, capability);
        MkdirFailsOnFile(t, p);
        LocateParses(env, t, value, p);
        assert forall q :: Canonical(q) && value == Join(q, "/") ==> q == p by {
          forall q | Canonical(q) && value == Join(q, "/") ensures q == p { PartsAcceptsExactlyPrintedPaths(value, q); }
        }
      }
  }

  lemma LocateParses(env: Environment, t: Tree, value: string, p: Path)
    requires Locate(env, t, value).Ok? && Locate(env, t, value).value.0 == p
    ensures Parts(value) == Ok(p) && Canonical(p) && value == Join(p, "/")
  {
    hide ValidSegment, Parts;
    PartsAcceptsExactlyPrintedPaths(value, p);
  }

  lemma CreationTargetRefusals(env: Environment, t: Tree, value: string, capability: Capability)
    requires WellFormed(t)
    requires match Locate(env, t, value) case Err(_) => true case Ok((p, mode)) => mode != Editable || ProtectedRoot(p)
    ensures CreationTarget(env, t, value, capability).0 == t && CreationTarget(env, t, value, capability).1.Err?
    ensures forall p :: !Creatable(env, t, value, p)
  {
    hide ValidSegment, Parts;
    forall p | Canonical(p) && value == Join(p, "/") ensures Parts(value) == Ok(p) {
      PartsAcceptsExactlyPrintedPaths(value, p);
    }
  }

  lemma CreationTargetOnEditable(env: Environment, t: Tree, value: string, p: Path, capability: Capability)
    requires WellFormed(t) && capability in {Create, Upload}
    requires Locate(env, t, value) == Ok((p, Editable)) && !ProtectedRoot(p)
    ensures |p| > 2 && Canonical(p) && IsEditable(env, t, p)
    ensures var (made, r) := CreationTarget(env, t, value, capability);
      match MkdirParents(t, Parent(p))
      case None => made == t && r == Err(OperationFailed)
      case Some(m) => made == m && r == Ok(p) && Keeps(env, t, m)
  {
    hide ValidSegment, Parts, MkdirParents, Require, Keeps, Join;
    var parent := Parent(p);
    ParentIsEditable(env, t, p);
    if MkdirParents(t, parent).Some? {
      var made := MkdirParents(t, parent).value;
      MkdirKeeps(env, t, parent);
      KeepsModes(env, t, made, parent);
      RequireDirectory(env, made, Join(parent, "/"), parent, capability);
    }
  }

  lemma MkdirFailsOnFile(t: Tree, p: Path)
    requires WellFormed(t) && |p| > 1 && p[0] == "data"
    ensures MkdirParents(t, Parent(p)).None? <==> exists k :: 1 <= k < |p| && p[..k] in t && t[p[..k]].File?
  {
    assert forall k :: 0 <= k <= |Parent(p)| ==> Parent(p)[..k] == p[..k];
  }

  lemma SetKeeps(env: Environment, t: Tree, p: Path, node: Node)
    requires WellFormed(t) && IsEditable(env, t, p)
    requires |p| > 1 && p[0] == "data" && Parent(p) in t && t[Parent(p)] == Dir
    requires if p in t then t[p].File? && node.File? else true
    ensures Keeps(env, t, t[p := node])
  {
    assert !IsEditable(env, t, ROOT);
    var t' := t[p := node];
    forall q | q in t' && |q| > 1 ensures Parent(q) in t' && t'[Parent(q)] == Dir {
      assert q != p ==> t[Parent(q)] == Dir;
    }
  }

  lemma CreateEntryKeeps(env: Environment, t: Tree, value: string, node: Node)
    requires WellFormed(t)
    ensures Keeps(env, t, CreateEntry(env, t, value, node).0)
  {
    hide CreationTarget, MkdirParents, Parts, ValidSegment;
    CreationTargetMeaning(env, t, value, Create);
    var (made, r) := CreationTarget(env, t, value, Create);
    if r.Ok? && r.value !in made {
      KeepsModes(env, t, made, r.value);
      SetKeeps(env, made, r.value, node);
      KeepsTransitive(env, t, made, made[r.value := node]);
    }
  }

  lemma PrepareUploadKeeps(env: Environment, t: Tree, value: string, overwrite: bool)
    requires WellFormed(t)
    ensures Keeps(env, t, PrepareUpload(env, t, value, overwrite).0)
  {
    hide CreationTarget, MkdirParents, Parts, ValidSegment;
    CreationTargetMeaning(env, t, value, Upload);
  }

  lemma EditableIsDeep(env: Environment, t: Tree, p: Path)
    requires IsEditable(env, t, p)
    ensures |p| >= 2 && (!ProtectedRoot(p) ==> |p| > 2)
  {
  }

  lemma SaveTextKeeps(env: Environment, t: Tree, value: string, content: Bytes, revision: string)
    requires WellFormed(t)
    ensures Keeps(env, t, SaveText(env, t, value, content, revision).0)
  {
    hide Parts, ValidSegment, Require, ModeOf;
    match Require(env, t, value, Write)
    case Err(_) =>
    case Ok((p, kind)) =>
      EditableIsDeep(env, t, p);
      SetKeeps(env, t, p, File(content));
  }

  lemma DeleteKeeps(env: Environment, t: Tree, value: string)
    requires WellFormed(t)
    ensures Keeps(env, t, DeleteEntry(env, t, value).0)
  {
    hide Parts, ValidSegment, Require, WellFormed, Canonical;
    match Require(env, t, value, MayDelete)
    case Err(_) =>
    case Ok((target, _)) => RemoveKeeps(env, t, target);
  }

  lemma RemoveKeeps(env: Environment, t: Tree, target: Path)
    requires WellFormed(t) && |target| > 1 && IsEditable(env, t, target) && !ProtectedRoot(target)
    ensures Keeps(env, t, RemoveTree(t, target))
  {
    hide ModeOf, WellFormed;
    RemoveTreeWellFormed(t, target);
    forall q | target <= q ensures IsEditable(env, t, q) && !ProtectedRoot(q) {
      MutableSubtree(env, t, target, q);
    }
  }

  /** `rename` fails for exactly the reasons it checks; its second access check never denies. */
  lemma RenameMeaning(env: Environment, t: Tree, value: string, name: string)
    requires WellFormed(t)
    ensures var (t', r) := RenameEntry(env, t, value, name);
      match Require(env, t, value, MayRename)
      case Err(e) => t' == t && r == Err(if ValidSegment(name) then e else PathInvalid)
      case Ok((source, _)) =>
        var destination := Parent(source) + [name];
        && |source| > 2 && IsEditable(env, t, source) && !ProtectedRoot(source)
        && if !ValidSegment(name) then t' == t && r == Err(PathInvalid)
           else if name == Name(source) then t' == t && r == Ok(source)
           else if destination in t then t' == t && r == Err(AlreadyExists)
           else CanMove(t, source, destination) && t' == MoveTree(t, source, destination) && r == Ok(destination)
  {
    hide Parts, ValidSegment, Require, ModeOf, Join, MoveTree, WellFormed;
    var required := Require(env, t, value, MayRename);
    if required.Ok? { EditableIsDeep(env, t, required.value.0); }
    if ValidSegment(name) {
      match Require(env, t, value, MayRename)
      case Err(_) =>
      case Ok((source, _)) =>
        var destination := Parent(source) + [name];
        assert source == Parent(source) + [Name(source)] && Parent(destination) == Parent(source);
        PartsAcceptsExactlyPrintedPaths(Join(destination, "/"), destination);
        MutableSiblings(env, t, source, destination);
    }
  }

  lemma MutableSiblings(env: Environment, t: Tree, source: Path, destination: Path)
    requires IsEditable(env, t, source) && !ProtectedRoot(source) && |destination| == |source|
      && Parent(destination) == Parent(source)
    ensures |source| > 2 && IsEditable(env, t, destination) && !ProtectedRoot(destination)
  {
    assert destination[1] == Parent(destination)[1] == source[1];
    if source[1] == REPOSITORIES {
      assert destination[2] == Parent(destination)[2] && destination[3] == Parent(destination)[3];
      assert source[..3] == Parent(source)[..3] && destination[..3] == Parent(destination)[..3];
    }
  }

  lemma MoveKeeps(env: Environment, t: Tree, source: Path, destination: Path)
    requires CanMove(t, source, destination) && IsEditable(env, t, source) && !ProtectedRoot(source)
    ensures Keeps(env, t, MoveTree(t, source, destination))
  {
    hide MoveTree, Relocate, ModeOf;
    MoveTreeMoves(t, source, destination);
    MutableSiblings(env, t, source, destination);
    forall q | source <= q || destination <= q ensures IsEditable(env, t, q) && !ProtectedRoot(q) {
      if source <= q { MutableSubtree(env, t, source, q); } else { MutableSubtree(env, t, destination, q); }
    }
  }

  lemma RenameKeeps(env: Environment, t: Tree, value: string, name: string)
    requires WellFormed(t)
    ensures Keeps(env, t, RenameEntry(env, t, value, name).0)
  {
    hide MoveTree, RenameEntry, Parts, ValidSegment, ModeOf;
    RenameMeaning(env, t, value, name);
    match Require(env, t, value, MayRename)
    case Err(_) =>
    case Ok((source, _)) =>
      var destination := Parent(source) + [name];
      if ValidSegment(name) && name != Name(source) && destination !in t {
        MoveKeeps(env, t, source, destination);
      }
  }

  /** Renaming an entry and renaming it back restores the tree, whatever the entry contained. */
  lemma RenameRoundTrip(env: Environment, t: Tree, value: string, name: string)
    requires WellFormed(t) && RenameEntry(env, t, value, name).1.Ok?
    ensures var (t', r) := RenameEntry(env, t, value, name);
      && Require(env, t, value, MayRename).Ok?
      && var source := Require(env, t, value, MayRename).value.0;
      && RenameEntry(env, t', Join(r.value, "/"), Name(source)) == (t, Ok(source))
  {
    hide MoveTree, RenameEntry, Parts, ValidSegment, ModeOf, Require, MkdirParents;
    RenameMeaning(env, t, value, name);
    RenameKeeps(env, t, value, name);
    var (t', r) := RenameEntry(env, t, value, name);
    var source := Require(env, t, value, MayRename).value.0;
    var destination := r.value;
    assert source == Parent(source) + [Name(source)];
    if destination != source {
      CanMoveBack(t, source, destination);
      MoveTreeBack(t, source, destination);
    }
    RenamedMayBeRenamed(env, t, t', source, destination, name);
    RenameMeaning(env, t', Join(destination, "/"), Name(source));
  }

  lemma RenamedMayBeRenamed(env: Environment, t: Tree, t': Tree, source: Path, destination: Path, name: string)
    requires Canonical(source) && IsEditable(env, t, source) && !ProtectedRoot(source) && ValidSegment(name)
    requires destination == Parent(source) + [name] && Keeps(env, t, t') && destination in t'
    ensures Require(env, t', Join(destination, "/"), MayRename).Ok?
    ensures Require(env, t', Join(destination, "/"), MayRename).value.0 == destination
    ensures ValidSegment(Name(source)) && Parent(destination) == Parent(source)
  {
    hide Parts, ValidSegment, ModeOf, Join, Require, Keeps;
    MutableSiblings(env, t, source, destination);
    assert destination[0] == Parent(source)[0] == source[0];
    assert Canonical(destination);
    PartsAcceptsExactlyPrintedPaths(Join(destination, "/"), destination);
    assert Name(source) in source;
    KeepsModes(env, t, t', destination);
    RequireMutable(env, t', Join(destination, "/"), destination, MayRename);
  }

  lemma RequireMutable(env: Environment, t: Tree, value: string, p: Path, capability: Capability)
    requires Parts(value) == Ok(p) && IsEditable(env, t, p) && !ProtectedRoot(p) && p in t
    requires capability in {MayRename, MayDelete}
    ensures Require(env, t, value, capability).Ok? && Require(env, t, value, capability).value.0 == p
  {
    hide Parts, ModeOf, ProtectedRoot;
  }

  lemma AppendKeeps(env: Environment, t: Tree, file: Path, chunk: Bytes)
    requires WellFormed(t) && |file| > 1 && file[0] == "data" && IsEditable(env, t, file)
    requires AppendTo(t, file, chunk).Some?
    ensures Keeps(env, t, AppendTo(t, file, chunk).value)
  {
    SetKeeps(env, t, file, AppendTo(t, file, chunk).value[file]);
  }

  lemma RemoveFileKeeps(env: Environment, t: Tree, file: Path)
    requires WellFormed(t) && |file| > 1 && IsEditable(env, t, file) && !ProtectedRoot(file)
    ensures Keeps(env, t, RemoveFile(t, file))
  {
    var t' := RemoveFile(t, file);
    forall q | q in t' && |q| > 1 ensures Parent(q) in t' && t'[Parent(q)] == Dir { }
  }

  lemma PublishKeeps(env: Environment, t: Tree, value: string, temporary: Path, target: Path, overwrite: bool)
    requires WellFormed(t) && |target| > 2 && target[0] == "data" && IsEditable(env, t, target)
      && !ProtectedRoot(target)
    requires |temporary| == |target| && Parent(temporary) == Parent(target) && temporary != target
    ensures Keeps(env, t, PublishUpload(env, t, value, temporary, target, overwrite).0)
  {
    hide Parts, ValidSegment, ModeOf, Keeps;
    MutableSiblings(env, t, target, temporary);
    assert temporary[0] == Parent(temporary)[0];
    KeepsItself(env, t);
    if Locate(env, t, value).Ok? && AppendTo(t, temporary, []).Some? {
      var flushed := AppendTo(t, temporary, []).value;
      AppendKeeps(env, t, temporary, []);
      KeepsModes(env, t, flushed, target);
      if !(!overwrite && target in flushed) && !(target in flushed && flushed[target] == Dir) {
        var published := flushed[target := flushed[temporary]];
        SetKeeps(env, flushed, target, flushed[temporary]);
        KeepsTransitive(env, t, flushed, published);
        KeepsModes(env, t, published, temporary);
        RemoveFileKeeps(env, published, temporary);
        KeepsTransitive(env, t, published, RemoveFile(published, temporary));
      }
    }
  }
}
