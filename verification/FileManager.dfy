/** The service object: every command runs under the mutation lock and updates the tree in place. */
module FileManager {
  import opened Text
  import opened FileTree
  import opened FileAccess
  import opened FileOperations
  import opened CommandOutcomes

  class FileManagerService {
    const env: Environment
    var tree: Tree

    constructor (env: Environment, tree: Tree)
      requires WellFormed(tree)
      ensures this.env == env && this.tree == tree
    {
      this.env := env;
      this.tree := tree;
    }

    method MakeCreationTarget(value: string, capability: Capability) returns (r: Result<Path>)
      requires WellFormed(tree) && capability in {Create, Upload}
      modifies this`tree
      ensures (tree, r) == CreationTarget(env, old(tree), value, capability)
      ensures Keeps(env, old(tree), tree)
    {
      CreationTargetMeaning(env, tree, value, capability);
      var located := Locate(env, tree, value);
      if located.Err? { return Err(located.error); }
      var (p, mode) := located.value;
      if mode != Editable || ProtectedRoot(p) { return Err(Denied); }
      var parentPath := Join(Parent(p), "/");
      var parentLocated := Locate(env, tree, parentPath);
      if parentLocated.Err? { return Err(parentLocated.error); }
      var (parent, parentMode) := parentLocated.value;
      if parentMode != Editable { return Err(Denied); }
      var made := MkdirParents(tree, parent);
      if made.None? { return Err(OperationFailed); }
      tree := made.value;
      var required := Require(env, tree, parentPath, capability);
      if required.Err? { return Err(required.error); }
      var (found, kind) := required.value;
      if kind != Directory || Parent(p) != found { return Err(Denied); }
      return Ok(p);
    }

    method CreateDirectory(value: string) returns (r: Result<Path>)
      requires WellFormed(tree)
      modifies this`tree
      ensures (tree, r) == CreateEntry(env, old(tree), value, Dir)
      ensures Keeps(env, old(tree), tree)
      ensures r.Ok? <==> exists p :: Creatable(env, old(tree), value, p) && p !in old(tree)
      ensures r.Ok? ==> r.value !in old(tree) && r.value in tree && tree[r.value] == Dir
      ensures r.Err? ==> tree == old(tree)
    {
      CreateMeaning(env, tree, value, Dir);
      CreateEntryKeeps(env, tree, value, Dir);
      CreationTargetMeaning(env, tree, value, Create);
      r := MakeCreationTarget(value, Create);
      if r.Err? { return; }
      if r.value in tree { return Err(AlreadyExists); }
      tree := tree[r.value := Dir];
    }

    method CreateTextFile(value: string) returns (r: Result<string>)
      requires WellFormed(tree)
      modifies this`tree
      ensures tree == CreateEntry(env, old(tree), value, File([])).0
      ensures Keeps(env, old(tree), tree)
      ensures r == match CreateEntry(env, old(tree), value, File([])).1
                   case Ok(_) => Ok(env.digest([]))
                   case Err(e) => Err(e)
      ensures r.Ok? <==> exists p :: Creatable(env, old(tree), value, p) && p !in old(tree)
      ensures r.Err? ==> tree == old(tree)
    {
      CreateMeaning(env, tree, value, File([]));
      CreateEntryKeeps(env, tree, value, File([]));
      var target := MakeCreationTarget(value, Create);
      if target.Err? { return Err(target.error); }
      if target.value in tree { return Err(AlreadyExists); }
      tree := tree[target.value := File([])];
      return Ok(env.digest([]));
    }

    method Prepare(value: string, overwrite: bool) returns (r: Result<Path>)
      requires WellFormed(tree)
      modifies this`tree
      ensures (tree, r) == PrepareUpload(env, old(tree), value, overwrite)
      ensures Keeps(env, old(tree), tree)
      ensures r.Ok? <==> exists p :: Creatable(env, old(tree), value, p) && Replaceable(old(tree), p, overwrite)
      ensures r.Err? ==> tree == old(tree)
    {
      PrepareMeaning(env, tree, value, overwrite);
      r := MakeCreationTarget(value, Upload);
      if r.Err? { return; }
      if r.value in tree && !overwrite { return Err(AlreadyExists); }
      if r.value in tree && tree[r.value] == Dir { return Err(NotRegular); }
    }

    /** Publishes the temporary file: exactly if the target is vacant or is a file that may be overwritten. */
    method Commit(value: string, temporary: Path, target: Path, overwrite: bool) returns (r: Result<Path>)
      requires WellFormed(tree)
      requires |target| > 2 && target[0] == "data" && IsEditable(env, tree, target) && !ProtectedRoot(target)
      requires |temporary| == |target| && Parent(temporary) == Parent(target) && temporary != target
      modifies this`tree
      ensures (tree, r) == PublishUpload(env, old(tree), value, temporary, target, overwrite)
      ensures Keeps(env, old(tree), tree)
      ensures Locate(env, old(tree), value).Ok? && temporary in old(tree) && old(tree)[temporary].File? ==>
        if Replaceable(old(tree), target, overwrite)
        then r == Ok(target) && tree == old(tree)[target := old(tree)[temporary]] - {temporary}
        else r == Err(if overwrite then OperationFailed else AlreadyExists) && tree == old(tree)
      ensures !overwrite && target in old(tree) ==> r.Err? && target in tree && tree[target] == old(tree)[target]
    {
      if Locate(env, tree, value).Ok? && temporary in tree && tree[temporary].File? {
        PublishMeaning(env, tree, value, temporary, target, overwrite);
      }
      hide ModeOf, ValidSegment, Parts, Join, Canonical, WellFormed, ProtectedRoot;
      PublishKeeps(env, tree, value, temporary, target, overwrite);
      var located := Locate(env, tree, value);
      if located.Err? { return Err(located.error); }
      var flushed := AppendTo(tree, temporary, []);
      if flushed.None? { return Err(OperationFailed); }
      tree := flushed.value;
      if !overwrite && target in tree { return Err(AlreadyExists); }
      if target in tree && tree[target] == Dir { return Err(OperationFailed); }
      tree := tree[target := tree[temporary]];
      tree := RemoveFile(tree, temporary);
      return Ok(target);
    }

    method SaveTextFile(value: string, content: Bytes, revision: string) returns (r: Result<string>)
      requires WellFormed(tree)
      modifies this`tree
      ensures (tree, r) == SaveText(env, old(tree), value, content, revision)
      ensures Keeps(env, old(tree), tree)
      ensures r.Err? ==> tree == old(tree)
    {
      SaveTextKeeps(env, tree, value, content, revision);
      var required := Require(env, tree, value, Write);
      if required.Err? { return Err(required.error); }
      var (p, kind) := required.value;
      if kind != RegularFile { return Err(NotRegular); }
      if env.digest(tree[p].content) != revision { return Err(RevisionConflict); }
      tree := tree[p := File(content)];
      return Ok(env.digest(content));
    }

    method Rename(value: string, name: string) returns (r: Result<Path>)
      requires WellFormed(tree)
      modifies this`tree
      ensures (tree, r) == RenameEntry(env, old(tree), value, name)
      ensures Keeps(env, old(tree), tree)
      ensures r.Err? ==> tree == old(tree)
    {
      RenameKeeps(env, tree, value, name);
      if !ValidSegment(name) { return Err(PathInvalid); }
      var required := Require(env, tree, value, MayRename);
      if required.Err? { return Err(required.error); }
      var source := required.value.0;
      var located := Locate(env, tree, Join(Parent(source) + [name], "/"));
      if located.Err? { return Err(located.error); }
      var (destination, mode) := located.value;
      if mode != Editable { return Err(Denied); }
      if destination == source { return Ok(source); }
      if destination in tree { return Err(AlreadyExists); }
      tree := MoveTree(tree, source, destination);
      return Ok(destination);
    }

    method DeletePath(value: string) returns (r: Result<Path>)
      requires WellFormed(tree)
      modifies this`tree
      ensures (tree, r) == DeleteEntry(env, old(tree), value)
      ensures Keeps(env, old(tree), tree)
      ensures r.Ok? <==> exists p :: Removable(env, old(tree), value, p)
      ensures r.Ok? ==> forall p :: p in tree <==> p in old(tree) && !(r.value <= p)
      ensures r.Err? ==> tree == old(tree)
    {
      DeleteMeaning(env, tree, value);
      DeleteKeeps(env, tree, value);
      var required := Require(env, tree, value, MayDelete);
      if required.Err? { return Err(required.error); }
      var target := required.value.0;
      tree := RemoveTree(tree, target);
      return Ok(target);
    }
  }
}
