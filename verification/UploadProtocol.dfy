/**
 * Uploads interleaved with one another and with every other file-manager command.
 *
 * An upload prepares its target under the lock, creates a temporary file, appends the chunks it
 * receives without the lock, and publishes under the lock. Each operation runs to completion even
 * when the request is cancelled meanwhile; the cancellation is seen right after it. A request is
 * cancelled at most once, so its clean-up always runs.
 */
module UploadProtocol {
  import opened Text
  import opened FileTree
  import opened FileAccess
  import opened FileOperations

  type UploadId = string

  /** `Failing` has seen an error or a cancellation and still has to unlink its temporary file. */
  datatype Phase = Prepared | Receiving | Failing | Finished

  datatype Request = Request(value: string, target: Path, overwrite: bool, received: seq<Bytes>, phase: Phase)

  datatype State = State(tree: Tree, uploads: map<UploadId, Request>)

  datatype Command =
    | CreateDirectory(value: string)
    | CreateTextFile(value: string)
    | Save(value: string, content: Bytes, revision: string)
    | Rename(value: string, name: string)
    | Delete(value: string)

  /** `written` is how much of a chunk reached the disk; less than all of it is a failed write. */
  datatype Step =
    | Run(command: Command)
    | Prepare(id: UploadId, value: string, overwrite: bool, cancelled: bool)
    | OpenTemporary(id: UploadId, cancelled: bool)
    | Append(id: UploadId, chunk: Bytes, written: nat, cancelled: bool)
    | Commit(id: UploadId, cancelled: bool)
    | Interrupt(id: UploadId)
    | CleanUp(id: UploadId)

  function TemporaryOf(id: UploadId, u: Request): Path
    requires |u.target| > 0
  {
    Parent(u.target) + [TEMPORARY_PREFIX + id + ".tmp"]
  }

  predicate TemporaryPath(p: Path) {
    |p| > 0 && Temporary(Name(p))
  }

  function Execute(env: Environment, t: Tree, command: Command): Tree
    requires WellFormed(t)
  {
    match command
    case CreateDirectory(value) => CreateEntry(env, t, value, Dir).0
    case CreateTextFile(value) => CreateEntry(env, t, value, File([])).0
    case Save(value, content, revision) => SaveText(env, t, value, content, revision).0
    case Rename(value, name) => RenameEntry(env, t, value, name).0
    case Delete(value) => DeleteEntry(env, t, value).0
  }

  predicate InPhase(s: State, id: UploadId, phase: Phase) {
    id in s.uploads && s.uploads[id].phase == phase
  }

  function After(cancelled: bool, phase: Phase): Phase {
    if cancelled then Failing else phase
  }

  /** One atomic step; a step whose request is not at that point of its coroutine does nothing. */
  function Next(env: Environment, s: State, step: Step): State
    requires Sound(env, s)
  {
    match step
    case Run(command) => s.(tree := Execute(env, s.tree, command))
    case Prepare(id, value, overwrite, cancelled) =>
      var (made, target) := PrepareUpload(env, s.tree, value, overwrite);
      if id in s.uploads then s
      else if target.Err? || cancelled then s.(tree := made)
      else State(made, s.uploads[id := Request(value, target.value, overwrite, [], Prepared)])
    case OpenTemporary(id, cancelled) =>
      if !InPhase(s, id, Prepared) then s
      else
        var u := s.uploads[id];
        (match CreateTemporary(s.tree, TemporaryOf(id, u))
         case None => s.(uploads := s.uploads[id := u.(phase := Failing)])
         case Some(t) => State(t, s.uploads[id := u.(received := [], phase := After(cancelled, Receiving))]))
    case Append(id, chunk, written, cancelled) =>
      if !InPhase(s, id, Receiving) then s
      else
        var u := s.uploads[id];
        var stored := if written < |chunk| then chunk[..written] else chunk;
        (match AppendTo(s.tree, TemporaryOf(id, u), stored)
         case None => s.(uploads := s.uploads[id := u.(phase := Failing)])
         case Some(t) =>
           if written < |chunk| then State(t, s.uploads[id := u.(phase := Failing)])
           else State(t, s.uploads[id := u.(received := u.received + [chunk], phase := After(cancelled, Receiving))]))
    case Commit(id, cancelled) =>
      if !InPhase(s, id, Receiving) then s
      else
        var u := s.uploads[id];
        var (t, r) := PublishUpload(env, s.tree, u.value, TemporaryOf(id, u), u.target, u.overwrite);
        State(t, s.uploads[id := u.(phase := After(r.Err? || cancelled, Finished))])
    case Interrupt(id) =>
      if InPhase(s, id, Receiving) then s.(uploads := s.uploads[id := s.uploads[id].(phase := Failing)]) else s
    case CleanUp(id) =>
      if !InPhase(s, id, Failing) then s
      else
        var u := s.uploads[id];
        State(RemoveFile(s.tree, TemporaryOf(id, u)), s.uploads[id := u.(phase := Finished)])
  }

  /** A registered upload aims at an editable, unprotected path. */
  predicate SoundUpload(env: Environment, t: Tree, u: Request) {
    && |u.target| > 2 && Canonical(u.target) && u.value == Join(u.target, "/")
    && IsEditable(env, t, u.target) && !ProtectedRoot(u.target)
  }

  ghost predicate Sound(env: Environment, s: State) {
    WellFormed(s.tree) && forall id :: id in s.uploads ==> SoundUpload(env, s.tree, s.uploads[id])
  }

  lemma ExecuteKeeps(env: Environment, t: Tree, command: Command)
    requires WellFormed(t)
    ensures Keeps(env, t, Execute(env, t, command))
  {
    hide CreateEntry, SaveText, RenameEntry, DeleteEntry;
    match command
    case CreateDirectory(value) => CreateEntryKeeps(env, t, value, Dir);
    case CreateTextFile(value) => CreateEntryKeeps(env, t, value, File([]));
    case Save(value, content, revision) => SaveTextKeeps(env, t, value, content, revision);
    case Rename(value, name) => RenameKeeps(env, t, value, name);
    case Delete(value) => DeleteKeeps(env, t, value);
  }

  lemma TemporaryIsSibling(env: Environment, t: Tree, id: UploadId, u: Request)
    requires SoundUpload(env, t, u)
    ensures var temporary := TemporaryOf(id, u);
      && |temporary| == |u.target| && Parent(temporary) == Parent(u.target) && temporary != u.target
      && temporary[0] == "data" && IsEditable(env, t, temporary) && !ProtectedRoot(temporary)
      && TemporaryPath(temporary) && !TemporaryPath(u.target)
  {
    hide ModeOf;
    var temporary := TemporaryOf(id, u);
    assert Name(u.target) in u.target;
    assert temporary[0] == Parent(temporary)[0];
    MutableSiblings(env, t, u.target, temporary);
    assert TEMPORARY_PREFIX <= TEMPORARY_PREFIX + id + ".tmp";
  }

  lemma TemporaryStepKeeps(env: Environment, s: State, step: Step)
    requires Sound(env, s) && (step.OpenTemporary? || step.Append? || step.CleanUp?)
    ensures Keeps(env, s.tree, Next(env, s, step).tree)
  {
    hide ModeOf, Canonical, TemporaryOf, Join, ValidSegment, Keeps;
    KeepsItself(env, s.tree);
    if step.id in s.uploads {
      var temporary := TemporaryOf(step.id, s.uploads[step.id]);
      TemporaryIsSibling(env, s.tree, step.id, s.uploads[step.id]);
      match step
      case OpenTemporary(_, _) =>
        if CreateTemporary(s.tree, temporary).Some? { SetKeeps(env, s.tree, temporary, File([])); }
      case Append(_, chunk, written, _) =>
        var stored := if written < |chunk| then chunk[..written] else chunk;
        if AppendTo(s.tree, temporary, stored).Some? { AppendKeeps(env, s.tree, temporary, stored); }
      case CleanUp(_) => RemoveFileKeeps(env, s.tree, temporary);
    }
  }

  lemma NextTreeKeeps(env: Environment, s: State, step: Step)
    requires Sound(env, s)
    ensures Keeps(env, s.tree, Next(env, s, step).tree)
  {
    hide PrepareUpload, PublishUpload, Execute, ModeOf, Canonical, TemporaryOf, Join, ValidSegment, Keeps,
      CreateTemporary, AppendTo;
    KeepsItself(env, s.tree);
    match step
    case Run(command) => ExecuteKeeps(env, s.tree, command);
    case Prepare(id, value, overwrite, _) => PrepareUploadKeeps(env, s.tree, value, overwrite);
    case Commit(id, _) =>
      if id in s.uploads {
        var u := s.uploads[id];
        TemporaryIsSibling(env, s.tree, id, u);
        PublishKeeps(env, s.tree, u.value, TemporaryOf(id, u), u.target, u.overwrite);
      }
    case Interrupt(_) =>
    case _ => TemporaryStepKeeps(env, s, step);
  }

  lemma PreparedIsSound(env: Environment, t: Tree, value: string, overwrite: bool)
    requires WellFormed(t) && PrepareUpload(env, t, value, overwrite).1.Ok?
    ensures var (made, r) := PrepareUpload(env, t, value, overwrite);
      && Creatable(env, t, value, r.value) && |r.value| > 2 && IsEditable(env, made, r.value)
  {
    hide CreationTarget, ModeOf;
    CreationTargetMeaning(env, t, value, Upload);
    KeepsModes(env, t, CreationTarget(env, t, value, Upload).0, PrepareUpload(env, t, value, overwrite).1.value);
  }

  /** A request keeps its target for life, and a new one starts with the target just prepared. */
  lemma TargetsStay(env: Environment, s: State, step: Step, id: UploadId)
    requires Sound(env, s) && id in Next(env, s, step).uploads
    ensures var u' := Next(env, s, step).uploads[id];
      if id in s.uploads then u'.target == s.uploads[id].target && u'.value == s.uploads[id].value
      else step.Prepare? && step.id == id && u'.value == step.value
           && PrepareUpload(env, s.tree, step.value, step.overwrite).1 == Ok(u'.target)
           && Next(env, s, step).tree == PrepareUpload(env, s.tree, step.value, step.overwrite).0
  {
    hide PrepareUpload, PublishUpload, Execute, ModeOf, Canonical, TemporaryOf, CreateTemporary, AppendTo, RemoveFile,
      ProtectedRoot, Join, WellFormed;
  }

  lemma NextSound(env: Environment, s: State, step: Step)
    requires Sound(env, s)
    ensures Sound(env, Next(env, s, step)) && Keeps(env, s.tree, Next(env, s, step).tree)
  {
    hide Next, PrepareUpload, ModeOf, Join, ProtectedRoot;
    NextTreeKeeps(env, s, step);
    var s' := Next(env, s, step);
    forall id | id in s'.uploads ensures SoundUpload(env, s'.tree, s'.uploads[id]) {
      TargetsStay(env, s, step, id);
      if id in s.uploads {
        KeepsModes(env, s.tree, s'.tree, s.uploads[id].target);
      } else {
        PreparedIsSound(env, s.tree, step.value, step.overwrite);
      }
    }
  }

  function Reach(env: Environment, s: State, steps: seq<Step>): (r: State)
    requires Sound(env, s)
    ensures Sound(env, r)
    decreases |steps|
  {
    if steps == [] then s
    else
      var before := Reach(env, s, steps[..|steps| - 1]);
      NextSound(env, before, steps[|steps| - 1]);
      Next(env, before, steps[|steps| - 1])
  }

  /**
   * Over every finite run of commands and upload steps, in any order: the tree stays well formed,
   * every entry that is not editable is untouched, every protected root keeps existence and kind,
   * and nobody gains or loses access.
   */
  lemma {:induction false} EveryRunKeeps(env: Environment, s: State, steps: seq<Step>)
    requires Sound(env, s)
    ensures Keeps(env, s.tree, Reach(env, s, steps).tree)
    ensures forall p :: p != [] ==> ModeOf(env, s.tree, p) == ModeOf(env, Reach(env, s, steps).tree, p)
    decreases |steps|
  {
    hide Next, ModeOf;
    if steps != [] {
      var before := Reach(env, s, steps[..|steps| - 1]);
      EveryRunKeeps(env, s, steps[..|steps| - 1]);
      NextSound(env, before, steps[|steps| - 1]);
      KeepsTransitive(env, s.tree, before.tree, Reach(env, s, steps).tree);
    }
    forall p: Path | p != [] ensures ModeOf(env, s.tree, p) == ModeOf(env, Reach(env, s, steps).tree, p) {
      KeepsModes(env, s.tree, Reach(env, s, steps).tree, p);
    }
  }

  // ----- what a reader sees -----

  predicate Active(u: Request) {
    u.phase == Receiving || u.phase == Failing
  }

  /** A granted delete of the subtree that holds the path. */
  predicate Removes(env: Environment, t: Tree, value: string, p: Path) {
    Require(env, t, value, MayDelete).Ok? && Require(env, t, value, MayDelete).value.0 <= p
  }

  /** A granted rename to a valid, different and vacant name: the tree really moves. */
  predicate Moves(env: Environment, t: Tree, value: string, name: string) {
    Require(env, t, value, MayRename).Ok? && ValidSegment(name)
    && var source := Require(env, t, value, MayRename).value.0;
       |source| > 0 && name != Name(source) && Parent(source) + [name] !in t
  }

  /**
   * A delete of a directory in which an upload is receiving, or a rename that moves the directory of an
   * active upload whose temporary exists.
   */
  ghost predicate Displaces(env: Environment, s: State, command: Command) {
    match command
    case Delete(value) =>
      exists id :: InPhase(s, id, Receiving) && |s.uploads[id].target| > 0
        && Removes(env, s.tree, value, Parent(s.uploads[id].target))
    case Rename(value, name) =>
      Moves(env, s.tree, value, name)
      && exists id :: WritesBelow(s, id, Require(env, s.tree, value, MayRename).value.0)
    case _ => false
  }

  predicate WritesBelow(s: State, id: UploadId, directory: Path) {
    id in s.uploads && Active(s.uploads[id]) && |s.uploads[id].target| > 0
    && TemporaryOf(id, s.uploads[id]) in s.tree && directory <= Parent(s.uploads[id].target)
  }

  ghost predicate Undisturbed(env: Environment, s: State, step: Step) {
    step.Run? ==> !Displaces(env, s, step.command)
  }

  /** A receiving upload's temporary holds exactly its chunks, and every temporary belongs to an active upload. */
  ghost predicate Staged(s: State) {
    && (forall id :: InPhase(s, id, Receiving) && |s.uploads[id].target| > 0 ==>
          TemporaryOf(id, s.uploads[id]) in s.tree
          && s.tree[TemporaryOf(id, s.uploads[id])] == File(Concat(s.uploads[id].received)))
    && (forall p :: p in s.tree && TemporaryPath(p) ==> s.tree[p].File? && Owned(s, p))
  }

  ghost predicate Owned(s: State, p: Path) {
    exists id :: id in s.uploads && |s.uploads[id].target| > 0 && Active(s.uploads[id])
      && p == TemporaryOf(id, s.uploads[id])
  }

  /** Every way in which a step may change what a reader finds at a path that is not a temporary. */
  ghost predicate Explained(env: Environment, s: State, step: Step, t': Tree, p: Path) {
    match step
    case Run(CreateDirectory(_)) => p !in s.tree && p in t' && t'[p] == Dir
    case Run(CreateTextFile(value)) =>
      p !in s.tree && p in t' && (t'[p] == Dir || (value == Join(p, "/") && t'[p] == File([])))
    case Run(Save(value, content, revision)) =>
      value == Join(p, "/") && p in s.tree && s.tree[p].File? && env.digest(s.tree[p].content) == revision
      && p in t' && t'[p] == File(content)
    case Run(Rename(value, name)) =>
      Require(env, s.tree, value, MayRename).Ok?
      && var source := Require(env, s.tree, value, MayRename).value.0;
      && var destination := Parent(source) + [name];
      && CanMove(s.tree, source, destination)
      && if source <= p then p !in t'
         else destination <= p
              && var before := source + p[|destination|..];
              before in s.tree && p in t' && t'[p] == s.tree[before]
    case Run(Delete(value)) => Removes(env, s.tree, value, p) && p !in t'
    case Prepare(_, _, _, _) => p !in s.tree && p in t' && t'[p] == Dir
    case Commit(id, _) =>
      && InPhase(s, id, Receiving) && p == s.uploads[id].target
      && p in t' && t'[p] == File(Concat(s.uploads[id].received))
      && (p in s.tree ==> s.uploads[id].overwrite && s.tree[p].File?)
    case _ => false
  }

  lemma CanonicalNames(p: Path, q: Path)
    requires Canonical(p) && q != [] && q <= p
    ensures !TemporaryPath(q)
  {
    assert Name(q) in p;
  }

  lemma SameNameSameUpload(id: UploadId, u: Request, other: UploadId, v: Request)
    requires |u.target| > 0 && |v.target| > 0 && Name(TemporaryOf(id, u)) == Name(TemporaryOf(other, v))
    ensures id == other
  {
    var a := TEMPORARY_PREFIX + id + ".tmp";
    var b := TEMPORARY_PREFIX + other + ".tmp";
    assert a == Name(TemporaryOf(id, u)) && b == Name(TemporaryOf(other, v));
    assert id == a[|TEMPORARY_PREFIX|..|a| - 4] && other == b[|TEMPORARY_PREFIX|..|b| - 4];
  }

  lemma CreateEntryVisible(env: Environment, t: Tree, value: string, node: Node, q: Path)
    requires WellFormed(t)
    ensures var t' := CreateEntry(env, t, value, node).0;
      if q in t then Same(t, t', q)
      else q in t' ==> !TemporaryPath(q) && (t'[q] == Dir || (value == Join(q, "/") && t'[q] == node))
  {
    hide CreationTarget, ModeOf, ValidSegment, Temporary, WellFormed, Keeps;
    NewDirectoriesAreVisible(env, t, value, Create, q);
    var (made, r) := CreationTarget(env, t, value, Create);
    if r.Ok? { CreatedIsCanonical(env, t, value, Create); }
  }

  lemma CreatedIsCanonical(env: Environment, t: Tree, value: string, capability: Capability)
    requires WellFormed(t) && capability in {Create, Upload} && CreationTarget(env, t, value, capability).1.Ok?
    ensures var p := CreationTarget(env, t, value, capability).1.value;
      |p| > 2 && !TemporaryPath(p) && value == Join(p, "/")
  {
    hide CreationTarget, ModeOf, ValidSegment, Temporary, WellFormed, Keeps;
    CreationTargetMeaning(env, t, value, capability);
    CanonicalNames(CreationTarget(env, t, value, capability).1.value,
      CreationTarget(env, t, value, capability).1.value);
  }

  lemma NewDirectoriesAreVisible(env: Environment, t: Tree, value: string, capability: Capability, q: Path)
    requires WellFormed(t) && capability in {Create, Upload}
    ensures var (made, r) := CreationTarget(env, t, value, capability);
      if q in t then Same(t, made, q) else q in made ==> !TemporaryPath(q) && made[q] == Dir
  {
    hide ModeOf, ValidSegment, Parts, CreationTarget, Temporary, Keeps;
    CreationTargetMeaning(env, t, value, capability);
    var (made, r) := CreationTarget(env, t, value, capability);
    if r.Ok? && q in made && q !in t {
      assert q <= Parent(r.value) <= r.value;
      KeptTree(env, t, made);
      CanonicalNames(r.value, q);
    }
  }

  lemma SaveVisible(env: Environment, t: Tree, value: string, content: Bytes, revision: string, p: Path)
    ensures var t' := SaveText(env, t, value, content, revision).0;
      Same(t, t', p)
      || (value == Join(p, "/") && p in t && t[p].File? && env.digest(t[p].content) == revision
          && p in t' && t'[p] == File(content) && !TemporaryPath(p))
  {
    hide ModeOf, ValidSegment, Parts;
    match Require(env, t, value, Write)
    case Err(_) =>
    case Ok((q, _)) =>
      CanonicalNames(q, q);
      PartsAcceptsExactlyPrintedPaths(value, q);
  }

  lemma DeleteVisible(env: Environment, t: Tree, value: string, p: Path)
    ensures var t' := DeleteEntry(env, t, value).0;
      Same(t, t', p) || (Removes(env, t, value, p) && p !in t')
  {
    hide ModeOf, ValidSegment, Parts;
  }

  lemma RenameVisible(env: Environment, t: Tree, value: string, name: string, p: Path)
    requires WellFormed(t)
    ensures var t' := RenameEntry(env, t, value, name).0;
      Same(t, t', p)
      || (Require(env, t, value, MayRename).Ok?
          && var source := Require(env, t, value, MayRename).value.0;
          && var destination := Parent(source) + [name];
          && CanMove(t, source, destination) && ValidSegment(name)
          && if source <= p then p !in t'
             else destination <= p
                  && var before := source + p[|destination|..];
                  before in t && p in t' && t'[p] == t[before])
  {
    hide ModeOf, ValidSegment, Parts, MoveTree, RenameEntry;
    RenameMeaning(env, t, value, name);
    match Require(env, t, value, MayRename)
    case Err(_) =>
    case Ok((source, _)) =>
      var destination := Parent(source) + [name];
      if ValidSegment(name) && name != Name(source) && destination !in t {
        MoveTreeMoves(t, source, destination);
        if destination <= p {
          assert p == destination + p[|destination|..];
          NothingBelow(t, destination, p);
        }
      }
  }

  lemma CommandVisible(env: Environment, s: State, command: Command, p: Path)
    requires Sound(env, s) && !TemporaryPath(p)
    ensures Same(s.tree, Execute(env, s.tree, command), p)
      || Explained(env, s, Run(command), Execute(env, s.tree, command), p)
  {
    hide ModeOf, ValidSegment, Parts, MoveTree, RenameEntry, DeleteEntry, SaveText, CreateEntry, CreationTarget,
      Require, CanMove;
    match command
    case CreateDirectory(value) => CreateEntryVisible(env, s.tree, value, Dir, p);
    case CreateTextFile(value) => CreateEntryVisible(env, s.tree, value, File([]), p);
    case Save(value, content, revision) => SaveVisible(env, s.tree, value, content, revision, p);
    case Rename(value, name) => RenameVisible(env, s.tree, value, name, p);
    case Delete(value) => DeleteVisible(env, s.tree, value, p);
  }

  lemma PublishVisible(env: Environment, t: Tree, value: string, temporary: Path, target: Path, overwrite: bool,
    p: Path)
    requires |temporary| > 1 && temporary != target && p != temporary
    requires temporary in t && t[temporary].File?
    ensures var (t', r) := PublishUpload(env, t, value, temporary, target, overwrite);
      && (r.Ok? ==> temporary !in t')
      && (Same(t, t', p)
          || (p == target && p in t' && t'[p] == t[temporary] && (p in t ==> overwrite && t[p].File?)))
  {
    hide ModeOf, ValidSegment, Parts;
    assert t[temporary].content + [] == t[temporary].content;
  }

  /** Writing to or unlinking a temporary file changes nothing else. */
  lemma QuietStep(env: Environment, s: State, step: Step, p: Path)
    requires Sound(env, s) && (step.OpenTemporary? || step.Append? || step.CleanUp? || step.Interrupt?)
    requires step.id in s.uploads ==> p != TemporaryOf(step.id, s.uploads[step.id])
    ensures Same(s.tree, Next(env, s, step).tree, p)
  {
    hide ModeOf, ValidSegment, Parts, TemporaryOf, Canonical;
  }

  lemma CommitVisible(env: Environment, s: State, id: UploadId, cancelled: bool, p: Path)
    requires Sound(env, s) && Staged(s) && InPhase(s, id, Receiving) && !TemporaryPath(p)
    ensures var t' := Next(env, s, Commit(id, cancelled)).tree;
      Same(s.tree, t', p) || Explained(env, s, Commit(id, cancelled), t', p)
  {
    hide ModeOf, ValidSegment, Parts, PublishUpload, TemporaryOf, Temporary, Same, WellFormed, Canonical;
    var u := s.uploads[id];
    TemporaryIsSibling(env, s.tree, id, u);
    PublishVisible(env, s.tree, u.value, TemporaryOf(id, u), u.target, u.overwrite, p);
  }

  lemma PrepareVisible(env: Environment, s: State, step: Step, p: Path)
    requires Sound(env, s) && step.Prepare?
    ensures Same(s.tree, Next(env, s, step).tree, p) || Explained(env, s, step, Next(env, s, step).tree, p)
  {
    hide ModeOf, ValidSegment, Parts, CreationTarget, Canonical, MkdirParents, WellFormed, TemporaryPath, SoundUpload;
    NewDirectoriesAreVisible(env, s.tree, step.value, Upload, p);
  }

  /** The only way to change what a reader sees is a finished command or the commit of a whole upload. */
  lemma VisibleChanges(env: Environment, s: State, step: Step, p: Path)
    requires Sound(env, s) && Staged(s) && !TemporaryPath(p)
    ensures Same(s.tree, Next(env, s, step).tree, p) || Explained(env, s, step, Next(env, s, step).tree, p)
  {
    hide ModeOf, ValidSegment, Parts, Execute, PublishUpload, PrepareUpload, TemporaryOf, Temporary, Same, Explained,
      WellFormed;
    match step
    case Run(command) => CommandVisible(env, s, command, p);
    case Prepare(_, _, _, _) => PrepareVisible(env, s, step, p);
    case Commit(id, cancelled) =>
      if InPhase(s, id, Receiving) { CommitVisible(env, s, id, cancelled, p); } else { SameTree(s.tree, p); }
    case _ =>
      if step.id in s.uploads { TemporaryIsSibling(env, s.tree, step.id, s.uploads[step.id]); }
      QuietStep(env, s, step, p);
  }

  lemma SameTree(t: Tree, p: Path)
    ensures Same(t, t, p)
  { }

  lemma NotAboveTemporary(moved: Path, p: Path)
    requires Canonical(moved) && TemporaryPath(p)
    ensures moved <= p <==> moved <= Parent(p)
  {
    CanonicalNames(moved, moved);
    assert forall q: Path :: q <= p && |q| < |p| ==> q <= Parent(p);
    assert forall q: Path :: q <= p && |q| == |p| ==> q == p;
    assert Parent(p) <= p;
  }

  /** What leaves every temporary as it is keeps uploads staged. */
  lemma SameTemporariesStaged(env: Environment, s: State, t': Tree)
    requires Sound(env, s) && Staged(s) && forall p :: TemporaryPath(p) ==> Same(s.tree, t', p)
    ensures Staged(s.(tree := t'))
  {
    hide ModeOf, ValidSegment, Parts, WellFormed, Canonical, Temporary;
    var s' := s.(tree := t');
    forall id | InPhase(s', id, Receiving) && |s'.uploads[id].target| > 0
      ensures TemporaryPath(TemporaryOf(id, s'.uploads[id]))
    {
      TemporaryIsSibling(env, s.tree, id, s'.uploads[id]);
    }
    forall p | p in t' && TemporaryPath(p) ensures t'[p].File? && Owned(s', p) {
      assert p in s.tree && Owned(s, p);
      OwnedAlike(s, s', p);
    }
  }

  lemma OwnedAlike(s: State, s': State, p: Path)
    requires s.uploads == s'.uploads && Owned(s, p)
    ensures Owned(s', p)
  { }

  lemma DeleteStaged(env: Environment, s: State, value: string)
    requires Sound(env, s) && Staged(s)
    ensures Staged(s.(tree := DeleteEntry(env, s.tree, value).0)) <==> !Displaces(env, s, Delete(value))
  {
    hide ModeOf, ValidSegment, Parts, WellFormed, Canonical, Temporary, Require, ProtectedRoot;
    var s' := s.(tree := DeleteEntry(env, s.tree, value).0);
    if Require(env, s.tree, value, MayDelete).Ok? {
      var target := Require(env, s.tree, value, MayDelete).value.0;
      assert s'.tree == RemoveTree(s.tree, target);
      forall id | InPhase(s, id, Receiving) && |s.uploads[id].target| > 0
        ensures TemporaryOf(id, s.uploads[id]) in s'.tree <==> !(target <= Parent(s.uploads[id].target))
      {
        TemporaryIsSibling(env, s.tree, id, s.uploads[id]);
        NotAboveTemporary(target, TemporaryOf(id, s.uploads[id]));
      }
      forall p | p in s'.tree && TemporaryPath(p) ensures s'.tree[p].File? && Owned(s', p) { OwnedAlike(s, s', p); }
    } else {
      assert s' == s;
    }
  }

  /** A moved temporary belongs to nobody: its name tells the upload, whose directory is another one. */
  lemma MovedTemporaryIsLost(env: Environment, s: State, source: Path, destination: Path, id: UploadId)
    requires CanMove(s.tree, source, destination) && Canonical(source) && !Temporary(Name(destination))
    requires WritesBelow(s, id, source) && TemporaryPath(TemporaryOf(id, s.uploads[id]))
    ensures !Staged(s.(tree := MoveTree(s.tree, source, destination)))
  {
    hide ModeOf, ValidSegment, Parts, WellFormed, Canonical, MoveTree, Temporary, Active;
    var s' := s.(tree := MoveTree(s.tree, source, destination));
    var before := TemporaryOf(id, s.uploads[id]);
    assert Parent(before) == Parent(s.uploads[id].target) && Parent(before) <= before;
    var suffix := before[|source|..];
    var moved := destination + suffix;
    assert before == source + suffix && suffix != [] && Name(moved) == Name(before);
    MoveTreeMoves(s.tree, source, destination);
    assert moved in s'.tree && TemporaryPath(moved);
    if Owned(s', moved) {
      var other :| other in s'.uploads && |s'.uploads[other].target| > 0 && Active(s'.uploads[other])
                   && moved == TemporaryOf(other, s'.uploads[other]);
      SameNameSameUpload(id, s.uploads[id], other, s'.uploads[other]);
      SiblingsApart(source, destination, moved);
    }
  }

  lemma RenameStaged(env: Environment, s: State, value: string, name: string)
    requires Sound(env, s) && Staged(s)
    ensures Staged(s.(tree := RenameEntry(env, s.tree, value, name).0)) <==> !Displaces(env, s, Rename(value, name))
  {
    hide ModeOf, ValidSegment, Parts, WellFormed, Canonical, MoveTree, RenameEntry, Staged, Temporary, Require, CanMove;
    RenameMeaning(env, s.tree, value, name);
    if Moves(env, s.tree, value, name) {
      var source := Require(env, s.tree, value, MayRename).value.0;
      var destination := Parent(source) + [name];
      ValidIsNotTemporary(name);
      if id :| WritesBelow(s, id, source) {
        TemporaryIsSibling(env, s.tree, id, s.uploads[id]);
        MovedTemporaryIsLost(env, s, source, destination, id);
      } else {
        forall p | TemporaryPath(p) ensures Same(s.tree, MoveTree(s.tree, source, destination), p) {
          UnmovedTemporary(env, s, source, destination, p);
        }
        SameTemporariesStaged(env, s, MoveTree(s.tree, source, destination));
      }
    } else {
      assert s.(tree := s.tree) == s;
    }
  }

  lemma ValidIsNotTemporary(name: string)
    requires ValidSegment(name)
    ensures !Temporary(name)
  { }

  lemma NameBelow(source: Path, destination: Path, p: Path)
    requires destination <= p && |source| == |destination| > 0 && Name(p) != Name(destination)
    ensures source <= source + p[|destination|..] && Name(source + p[|destination|..]) == Name(p)
  {
    assert |p| == |destination| ==> p == destination;
  }

  /** When no active upload writes below the moved directory, no temporary is in it. */
  lemma UnmovedTemporary(env: Environment, s: State, source: Path, destination: Path, p: Path)
    requires Sound(env, s) && Staged(s) && CanMove(s.tree, source, destination) && Canonical(source)
    requires !Temporary(Name(destination)) && TemporaryPath(p)
    requires forall id :: !WritesBelow(s, id, source)
    ensures Same(s.tree, MoveTree(s.tree, source, destination), p)
  {
    hide ModeOf, ValidSegment, Parts, WellFormed, Canonical, MoveTree, Temporary, SoundUpload;
    MoveTreeMoves(s.tree, source, destination);
    if source <= p {
      NotBelow(s, source, p);
    } else if destination <= p {
      NothingBelow(s.tree, destination, p);
      NameBelow(source, destination, p);
      var before := source + p[|destination|..];
      assert destination + p[|destination|..] == p;
      NotBelow(s, source, before);
    }
  }

  lemma NotBelow(s: State, source: Path, p: Path)
    requires Staged(s) && Canonical(source) && TemporaryPath(p) && source <= p
    requires forall id :: !WritesBelow(s, id, source)
    ensures p !in s.tree
  {
    if p in s.tree { OwnerWritesBelow(s, source, p); }
  }

  lemma OwnerWritesBelow(s: State, source: Path, p: Path)
    requires Staged(s) && Canonical(source) && TemporaryPath(p) && source <= p && p in s.tree
    ensures exists id :: WritesBelow(s, id, source)
  {
    hide Canonical, Temporary, Active;
    NotAboveTemporary(source, p);
    assert Owned(s, p);
    var id :| id in s.uploads && |s.uploads[id].target| > 0 && Active(s.uploads[id])
      && p == TemporaryOf(id, s.uploads[id]);
    assert Parent(p) == Parent(s.uploads[id].target);
    assert WritesBelow(s, id, source);
  }

  /** Exactly the displacing commands spoil a staged state. */
  lemma CommandStaged(env: Environment, s: State, command: Command)
    requires Sound(env, s) && Staged(s)
    ensures Staged(Next(env, s, Run(command))) <==> !Displaces(env, s, command)
  {
    hide ModeOf, ValidSegment, Parts, RenameEntry, DeleteEntry, SaveText, CreateEntry, Staged, Displaces, Sound,
      TemporaryPath;
    match command
    case Delete(value) => DeleteStaged(env, s, value);
    case Rename(value, name) => RenameStaged(env, s, value, name);
    case _ =>
      NeverDisplaces(env, s, command);
      SoundTree(env, s);
      forall p | TemporaryPath(p) ensures Same(s.tree, Execute(env, s.tree, command), p) {
        OtherCommandsSpare(env, s.tree, command, p);
      }
      SameTemporariesStaged(env, s, Execute(env, s.tree, command));
  }

  lemma NeverDisplaces(env: Environment, s: State, command: Command)
    requires !command.Delete? && !command.Rename?
    ensures !Displaces(env, s, command)
  { }

  lemma SoundTree(env: Environment, s: State)
    requires Sound(env, s)
    ensures WellFormed(s.tree)
  { }

  /** Creating and saving neither create, alter nor remove a temporary. */
  lemma OtherCommandsSpare(env: Environment, t: Tree, command: Command, p: Path)
    requires WellFormed(t) && TemporaryPath(p) && !command.Delete? && !command.Rename?
    ensures Same(t, Execute(env, t, command), p)
  {
    hide ModeOf, ValidSegment, Parts, SaveText, CreateEntry, WellFormed, Canonical;
    match command
    case CreateDirectory(value) => CreateEntryVisible(env, t, value, Dir, p);
    case CreateTextFile(value) => CreateEntryVisible(env, t, value, File([]), p);
    case Save(value, content, revision) => SaveVisible(env, t, value, content, revision, p);
  }

  /** An upload step leaves the temporaries of all other uploads alone. */
  lemma OtherTemporariesKept(env: Environment, s: State, step: Step, p: Path)
    requires Sound(env, s) && Staged(s) && !step.Run? && TemporaryPath(p)
    requires step.id in s.uploads ==> p != TemporaryOf(step.id, s.uploads[step.id])
    ensures Same(s.tree, Next(env, s, step).tree, p)
  {
    hide ModeOf, ValidSegment, Parts, PublishUpload, PrepareUpload, TemporaryOf, Temporary, Same, WellFormed, Canonical;
    match step
    case Prepare(_, value, overwrite, _) =>
      PrepareSparesTemporaries(env, s.tree, value, overwrite, p);
      SameTree(s.tree, p);
    case Commit(id, cancelled) =>
      if InPhase(s, id, Receiving) {
        var u := s.uploads[id];
        TemporaryIsSibling(env, s.tree, id, u);
        PublishVisible(env, s.tree, u.value, TemporaryOf(id, u), u.target, u.overwrite, p);
      } else { SameTree(s.tree, p); }
    case _ => QuietStep(env, s, step, p);
  }

  lemma PrepareSparesTemporaries(env: Environment, t: Tree, value: string, overwrite: bool, p: Path)
    requires WellFormed(t) && TemporaryPath(p)
    ensures Same(t, PrepareUpload(env, t, value, overwrite).0, p)
  {
    hide ModeOf, ValidSegment, Parts, CreationTarget, Canonical, MkdirParents, WellFormed, TemporaryPath;
    NewDirectoriesAreVisible(env, t, value, Upload, p);
  }

  /** What a step does to its own upload's temporary. */
  lemma OwnTemporary(env: Environment, s: State, step: Step)
    requires Sound(env, s) && Staged(s) && !step.Run? && step.id in s.uploads
    ensures var s' := Next(env, s, step);
      var u := s.uploads[step.id];
      var temporary := TemporaryOf(step.id, u);
      && step.id in s'.uploads && s'.uploads[step.id].target == u.target
      && (InPhase(s', step.id, Receiving) ==>
           temporary in s'.tree && s'.tree[temporary] == File(Concat(s'.uploads[step.id].received)))
      && (temporary in s'.tree ==> s'.tree[temporary].File? && Active(s'.uploads[step.id]))
  {
    hide ModeOf, ValidSegment, Parts, PublishUpload, PrepareUpload, Canonical, Temporary, WellFormed;
    var id := step.id;
    var u := s.uploads[id];
    var temporary := TemporaryOf(id, u);
    TemporaryIsSibling(env, s.tree, id, u);
    OwnIsActive(s, id);
    match step
    case Prepare(_, value, overwrite, _) => PrepareSparesTemporaries(env, s.tree, value, overwrite, temporary);
    case Append(_, chunk, written, _) =>
      ConcatSnoc(u.received, chunk);
    case Commit(_, _) =>
      if InPhase(s, id, Receiving) {
        PublishOwn(env, s.tree, u.value, temporary, u.target, u.overwrite);
        var published := PublishUpload(env, s.tree, u.value, temporary, u.target, u.overwrite);
        assert published.1.Ok? ==> temporary !in published.0;
        assert Next(env, s, step).tree == published.0;
        assert Next(env, s, step).uploads[id].phase == After(published.1.Err? || step.cancelled, Finished);
      }
    case _ =>
  }

  lemma OwnIsActive(s: State, id: UploadId)
    requires Staged(s) && id in s.uploads && |s.uploads[id].target| > 0
    requires TemporaryPath(TemporaryOf(id, s.uploads[id]))
    ensures TemporaryOf(id, s.uploads[id]) in s.tree ==>
      Active(s.uploads[id]) && s.tree[TemporaryOf(id, s.uploads[id])].File?
  {
    hide Temporary;
    var temporary := TemporaryOf(id, s.uploads[id]);
    if temporary in s.tree {
      assert Owned(s, temporary);
      var owner :| owner in s.uploads && |s.uploads[owner].target| > 0 && Active(s.uploads[owner])
        && temporary == TemporaryOf(owner, s.uploads[owner]);
      SameNameSameUpload(id, s.uploads[id], owner, s.uploads[owner]);
    }
  }

  lemma PublishOwn(env: Environment, t: Tree, value: string, temporary: Path, target: Path, overwrite: bool)
    requires |temporary| > 1 && temporary != target && temporary in t && t[temporary].File?
    ensures var (t', r) := PublishUpload(env, t, value, temporary, target, overwrite);
      if r.Ok? then temporary !in t' else temporary in t' && t'[temporary] == t[temporary]
  {
    hide ModeOf, ValidSegment, Parts;
    assert t[temporary].content + [] == t[temporary].content;
  }

  lemma SameTarget(id: UploadId, u: Request, v: Request)
    requires |u.target| > 0 && u.target == v.target
    ensures TemporaryOf(id, u) == TemporaryOf(id, v)
  { }

  lemma OtherUploadsKept(env: Environment, s: State, step: Step, other: UploadId)
    requires Sound(env, s) && !step.Run? && other != step.id
    ensures other in s.uploads <==> other in Next(env, s, step).uploads
    ensures other in s.uploads ==> Next(env, s, step).uploads[other] == s.uploads[other]
  {
    hide ModeOf, ValidSegment, Parts, PublishUpload, PrepareUpload, TemporaryOf, Temporary, WellFormed, Canonical,
      CreateTemporary, AppendTo;
  }

  lemma NewUploadIsPrepared(env: Environment, s: State, step: Step)
    requires Sound(env, s) && !step.Run? && step.id !in s.uploads
    ensures !InPhase(Next(env, s, step), step.id, Receiving)
  {
    hide ModeOf, ValidSegment, Parts, PublishUpload, PrepareUpload, TemporaryOf, Temporary, WellFormed, Canonical;
  }

  lemma StagedAfter(env: Environment, s: State, step: Step, id: UploadId)
    requires Sound(env, s) && Staged(s) && !step.Run?
    requires var s' := Next(env, s, step); InPhase(s', id, Receiving) && |s'.uploads[id].target| > 0
    ensures var s' := Next(env, s, step);
      var temporary := TemporaryOf(id, s'.uploads[id]);
      temporary in s'.tree && s'.tree[temporary] == File(Concat(s'.uploads[id].received))
  {
    hide ModeOf, ValidSegment, Parts, Next, TemporaryOf, Temporary, WellFormed, Canonical;
    var s' := Next(env, s, step);
    if id == step.id {
      if id !in s.uploads {
        NewUploadIsPrepared(env, s, step);
      } else {
        OwnTemporary(env, s, step);
        SameTarget(id, s.uploads[id], s'.uploads[id]);
      }
    } else {
      OtherUploadsKept(env, s, step, id);
      TemporaryIsSibling(env, s.tree, id, s.uploads[id]);
      if step.id in s.uploads && TemporaryOf(id, s.uploads[id]) == TemporaryOf(step.id, s.uploads[step.id]) {
        SameNameSameUpload(id, s.uploads[id], step.id, s.uploads[step.id]);
      }
      OtherTemporariesKept(env, s, step, TemporaryOf(id, s.uploads[id]));
    }
  }

  lemma OwnedAfter(env: Environment, s: State, step: Step, p: Path)
    requires Sound(env, s) && Staged(s) && !step.Run? && TemporaryPath(p)
    requires p in Next(env, s, step).tree
    ensures Next(env, s, step).tree[p].File? && Owned(Next(env, s, step), p)
  {
    hide ModeOf, ValidSegment, Parts, Next, TemporaryOf, Temporary, WellFormed, Canonical;
    var s' := Next(env, s, step);
    if step.id in s.uploads && p == TemporaryOf(step.id, s.uploads[step.id]) {
      OwnTemporary(env, s, step);
      SameTarget(step.id, s.uploads[step.id], s'.uploads[step.id]);
    } else {
      OtherTemporariesKept(env, s, step, p);
      assert p in s.tree && Owned(s, p);
      var owner :| owner in s.uploads && |s.uploads[owner].target| > 0 && Active(s.uploads[owner])
        && p == TemporaryOf(owner, s.uploads[owner]);
      OtherUploadsKept(env, s, step, owner);
    }
  }

  lemma UploadStepStaged(env: Environment, s: State, step: Step)
    requires Sound(env, s) && Staged(s) && !step.Run?
    ensures Staged(Next(env, s, step))
  {
    hide Next, TemporaryPath, Owned, TemporaryOf;
    var s' := Next(env, s, step);
    forall id | InPhase(s', id, Receiving) && |s'.uploads[id].target| > 0
      ensures TemporaryOf(id, s'.uploads[id]) in s'.tree
      ensures s'.tree[TemporaryOf(id, s'.uploads[id])] == File(Concat(s'.uploads[id].received))
    {
      StagedAfter(env, s, step, id);
    }
    forall p | p in s'.tree && TemporaryPath(p) ensures s'.tree[p].File? && Owned(s', p) {
      OwnedAfter(env, s, step, p);
    }
  }

  lemma NextStaged(env: Environment, s: State, step: Step)
    requires Sound(env, s) && Staged(s)
    ensures Staged(Next(env, s, step)) <==> Undisturbed(env, s, step)
  {
    hide Next, Staged, Displaces;
    if step.Run? { CommandStaged(env, s, step.command); } else { UploadStepStaged(env, s, step); }
  }

  ghost predicate UndisturbedRun(env: Environment, s: State, steps: seq<Step>)
    requires Sound(env, s)
  {
    forall k :: 0 <= k < |steps| ==> Undisturbed(env, Reach(env, s, steps[..k]), steps[k])
  }

  lemma UndisturbedPrefix(env: Environment, s: State, steps: seq<Step>)
    requires Sound(env, s) && |steps| > 0 && UndisturbedRun(env, s, steps)
    ensures UndisturbedRun(env, s, steps[..|steps| - 1])
    ensures Undisturbed(env, Reach(env, s, steps[..|steps| - 1]), steps[|steps| - 1])
  {
    hide Undisturbed, Reach, Sound;
    UndisturbedUpTo(env, s, steps, |steps| - 1);
  }

  /** Every prefix of a run leaves uploads staged exactly when the run is undisturbed. */
  lemma {:induction false} StagedThroughout(env: Environment, s: State, steps: seq<Step>)
    requires Sound(env, s) && Staged(s)
    ensures UndisturbedRun(env, s, steps) <==> forall k :: 0 <= k <= |steps| ==> Staged(Reach(env, s, steps[..k]))
  {
    hide Next, Staged, Undisturbed, Reach, Sound, UndisturbedRun;
    if UndisturbedRun(env, s, steps) {
      forall k | 0 <= k <= |steps| ensures Staged(Reach(env, s, steps[..k])) {
        UndisturbedUpTo(env, s, steps, k);
        EveryRunStages(env, s, steps[..k]);
      }
    } else {
      var k := FirstDisturbance(env, s, steps);
      if Staged(Reach(env, s, steps[..k])) {
        NextStaged(env, Reach(env, s, steps[..k]), steps[k]);
        ReachStep(env, s, steps[..k], steps[k]);
        assert steps[..k] + [steps[k]] == steps[..k + 1];
      }
    }
  }

  lemma UndisturbedUpTo(env: Environment, s: State, steps: seq<Step>, k: nat)
    requires Sound(env, s) && k <= |steps| && UndisturbedRun(env, s, steps)
    ensures UndisturbedRun(env, s, steps[..k])
  {
    hide Undisturbed, Reach, Sound;
    var before := steps[..k];
    forall i | 0 <= i < k ensures Undisturbed(env, Reach(env, s, before[..i]), before[i]) {
      assert before[..i] == steps[..i];
    }
  }

  lemma FirstDisturbance(env: Environment, s: State, steps: seq<Step>) returns (k: nat)
    requires Sound(env, s) && !UndisturbedRun(env, s, steps)
    ensures k < |steps| && !Undisturbed(env, Reach(env, s, steps[..k]), steps[k])
  {
    hide Undisturbed, Reach, Sound;
    k :| 0 <= k < |steps| && !Undisturbed(env, Reach(env, s, steps[..k]), steps[k]);
  }

  /** Over every undisturbed run, temporaries hold exactly what their uploads received. */
  lemma {:induction false} EveryRunStages(env: Environment, s: State, steps: seq<Step>)
    requires Sound(env, s) && Staged(s) && UndisturbedRun(env, s, steps)
    ensures Staged(Reach(env, s, steps))
    decreases |steps|
  {
    hide Next, Staged, UndisturbedRun, Undisturbed;
    if steps != [] {
      UndisturbedPrefix(env, s, steps);
      EveryRunStages(env, s, steps[..|steps| - 1]);
      NextStaged(env, Reach(env, s, steps[..|steps| - 1]), steps[|steps| - 1]);
    }
  }

  /** Whatever happened, an upload that is over has left no temporary, and when none is active there is none. */
  lemma NoTemporaryLeft(env: Environment, s: State, steps: seq<Step>)
    requires Sound(env, s) && Staged(s) && UndisturbedRun(env, s, steps)
    ensures var r := Reach(env, s, steps);
      && (forall id :: InPhase(r, id, Finished) && |r.uploads[id].target| > 0 ==>
           TemporaryOf(id, r.uploads[id]) !in r.tree)
      && ((forall id :: id in r.uploads ==> !Active(r.uploads[id])) ==> forall p :: p in r.tree ==> !TemporaryPath(p))
  {
    hide Reach, UndisturbedRun;
    EveryRunStages(env, s, steps);
    var r := Reach(env, s, steps);
    forall id | InPhase(r, id, Finished) && |r.uploads[id].target| > 0
      ensures TemporaryOf(id, r.uploads[id]) !in r.tree
    {
      TemporaryIsSibling(env, r.tree, id, r.uploads[id]);
      OwnIsActive(r, id);
    }
  }

  /** A step that, if it takes effect, stores this content whole at this path: a creation, a save or a commit. */
  predicate Stores(before: State, step: Step, p: Path, content: Bytes) {
    match step
    case Run(CreateTextFile(value)) => value == Join(p, "/") && p !in before.tree && content == []
    case Run(Save(value, saved, _)) => value == Join(p, "/") && content == saved
    case Commit(id, _) =>
      InPhase(before, id, Receiving) && p == before.uploads[id].target && content == Concat(before.uploads[id].received)
    case _ => false
  }

  /** This step renames the entry at `from`, or a directory around it, so that it is at `p` now. */
  ghost predicate Brings(env: Environment, before: State, step: Step, from: Path, p: Path) {
    step.Run? && step.command.Rename? && Require(env, before.tree, step.command.value, MayRename).Ok?
    && var source := Require(env, before.tree, step.command.value, MayRename).value.0;
       |source| > 0
       && var destination := Parent(source) + [step.command.name];
          CanMove(before.tree, source, destination)
          && destination <= p && from == source + p[|destination|..] && from in before.tree
  }

  /**
   * Where the content that is at a path now comes from: the last step that changed what is there stored it
   * or brought it from where it was stored, following renames back to the start.
   */
  ghost predicate StoredAt(env: Environment, s: State, steps: seq<Step>, p: Path, content: Bytes)
    requires Sound(env, s)
    decreases |steps|
  {
    var now := Reach(env, s, steps);
    && p in now.tree && now.tree[p] == File(content)
    && (steps != [] ==>
          var earlier, step := steps[..|steps| - 1], steps[|steps| - 1];
          var before := Reach(env, s, earlier);
          if Same(before.tree, now.tree, p) then StoredAt(env, s, earlier, p, content)
          else Stores(before, step, p, content)
               || exists from :: Brings(env, before, step, from, p) && StoredAt(env, s, earlier, from, content))
  }

  /**
   * A reader never sees part of a file: over every undisturbed run, the content of every visible file was
   * there from the start, or is empty from its creation, one whole saved content, or all chunks of one
   * committed upload, stored at that very path or at one that was renamed to it.
   */
  lemma {:induction false} ReadersSeeWholeFiles(env: Environment, s: State, steps: seq<Step>, p: Path)
    requires Sound(env, s) && Staged(s) && UndisturbedRun(env, s, steps)
    requires p in Reach(env, s, steps).tree && !TemporaryPath(p) && Reach(env, s, steps).tree[p].File?
    ensures StoredAt(env, s, steps, p, Reach(env, s, steps).tree[p].content)
    decreases |steps|
  {
    hide Next, Staged, UndisturbedRun, Undisturbed, TemporaryPath, Explained, Stores, Brings;
    if steps != [] {
      var earlier, step := steps[..|steps| - 1], steps[|steps| - 1];
      var before := Reach(env, s, earlier);
      UndisturbedPrefix(env, s, steps);
      EveryRunStages(env, s, earlier);
      VisibleChanges(env, before, step, p);
      if Same(before.tree, Reach(env, s, steps).tree, p) {
        ReadersSeeWholeFiles(env, s, earlier, p);
      } else if step.Run? && step.command.Rename? {
        var source := RenamedFrom(env, before, step.command.value, step.command.name, Reach(env, s, steps).tree, p);
        ReadersSeeWholeFiles(env, s, earlier, source);
      } else {
        StoredNow(env, before, step, Reach(env, s, steps).tree, p);
      }
    }
  }

  lemma RenamedFrom(env: Environment, s: State, value: string, name: string, t': Tree, p: Path) returns (source: Path)
    requires Explained(env, s, Run(Rename(value, name)), t', p) && p in t' && !TemporaryPath(p)
    ensures source in s.tree && s.tree[source] == t'[p] && !TemporaryPath(source)
    ensures Brings(env, s, Run(Rename(value, name)), source, p)
  {
    hide ModeOf, ValidSegment, Parts, Canonical, WellFormed, Temporary;
    var moved := Require(env, s.tree, value, MayRename).value.0;
    var destination := Parent(moved) + [name];
    source := moved + p[|destination|..];
    CanonicalNames(moved, moved);
    if |p| == |destination| { assert source == moved; } else { assert Name(source) == Name(p); }
  }

  lemma StoredNow(env: Environment, before: State, step: Step, t': Tree, p: Path)
    requires Explained(env, before, step, t', p) && p in t' && t'[p].File? && !(step.Run? && step.command.Rename?)
    ensures Stores(before, step, p, t'[p].content)
  {
    hide ModeOf, Parts, Require, Canonical;
  }

  /** A successful save replaces exactly the content its revision names, when digests do not collide. */
  lemma SaveReplacesNamedContent(env: Environment, t: Tree, value: string, content: Bytes, loaded: Bytes)
    requires forall a: Bytes, b: Bytes :: env.digest(a) == env.digest(b) ==> a == b
    ensures var (t', r) := SaveText(env, t, value, content, env.digest(loaded));
      && (r.Ok? <==> exists p :: Parts(value) == Ok(p) && IsEditable(env, t, p) && p in t && t[p] == File(loaded))
      && (r.Ok? ==> exists p :: p in t && t[p] == File(loaded) && value == Join(p, "/") && t' == t[p := File(content)])
      && (r.Err? ==> t' == t)
  {
    hide ModeOf, ValidSegment;
    match Parts(value)
    case Err(_) =>
    case Ok(p) => PartsAcceptsExactlyPrintedPaths(value, p);
  }

  lemma ReachStep(env: Environment, s: State, steps: seq<Step>, step: Step)
    requires Sound(env, s)
    ensures Reach(env, s, steps + [step]) == Next(env, Reach(env, s, steps), step)
  {
    hide Next;
    assert (steps + [step])[..|steps|] == steps;
  }

  /** Deleting a directory and making it again leaves it empty. */
  lemma DirectoryEmptied(env: Environment, t: Tree, p: Path)
    requires WellFormed(t) && Canonical(p) && IsEditable(env, t, p) && !ProtectedRoot(p) && p in t
    ensures var deleted := DeleteEntry(env, t, Join(p, "/")).0;
      && WellFormed(deleted)
      && CreateEntry(env, deleted, Join(p, "/"), Dir).0 == RemoveTree(t, p)[p := Dir]
  {
    hide ModeOf, ValidSegment, Parts, CreationTarget, Canonical, Join, Keeps, MkdirParents, RemoveTree, Require,
      WellFormed;
    var value := Join(p, "/");
    PartsAcceptsExactlyPrintedPaths(value, p);
    EditableIsDeep(env, t, p);
    RequireMutable(env, t, value, p, MayDelete);
    var deleted := DeleteEntry(env, t, value).0;
    assert deleted == RemoveTree(t, p);
    DeleteKeeps(env, t, value);
    KeptTree(env, t, deleted);
    KeepsModes(env, t, deleted, p);
    CreationTargetOnEditable(env, deleted, value, p, Create);
    ParentSurvives(t, p);
    NothingToMake(deleted, Parent(p));
  }

  lemma NothingToMake(t: Tree, p: Path)
    requires WellFormed(t) && |p| > 0 && p[0] == "data" && p in t && t[p] == Dir
    ensures MkdirParents(t, p) == Some(t)
  { }

  lemma ParentSurvives(t: Tree, p: Path)
    requires WellFormed(t) && p in t && |p| > 1
    ensures Parent(p) in RemoveTree(t, p) && RemoveTree(t, p)[Parent(p)] == Dir && p !in RemoveTree(t, p)
  { }

  lemma ChunkPublished(env: Environment, t: Tree, u: Request, id: UploadId, chunk: Bytes)
    requires WellFormed(t) && SoundUpload(env, t, u)
    requires Parent(u.target) in t && t[Parent(u.target)] == Dir && u.target !in t && TemporaryOf(id, u) !in t
    ensures var temporary := TemporaryOf(id, u);
      && |temporary| > 1
      && AppendTo(t, temporary, chunk) == Some(t[temporary := File(chunk)])
      && var (published, r) := PublishUpload(env, t[temporary := File(chunk)], u.value, temporary, u.target,
        u.overwrite);
         r.Ok? && u.target in published && published[u.target] == File(chunk)
  {
    hide ModeOf, ValidSegment, Parts, Canonical, Join;
    TemporaryIsSibling(env, t, id, u);
    var temporary := TemporaryOf(id, u);
    SetKeeps(env, t, temporary, File(chunk));
    KeepsModes(env, t, t[temporary := File(chunk)], u.target);
    PartsAcceptsExactlyPrintedPaths(u.value, u.target);
    assert chunk + [] == chunk;
  }

  /**
   * Why the runs above are undisturbed: when the directory is deleted and made again while an upload
   * is receiving, appending creates the temporary afresh and only the later chunks are published.
   */
  lemma RecreatedDirectoryLosesChunks(env: Environment, s: State, id: UploadId, chunk: Bytes)
    requires Sound(env, s) && InPhase(s, id, Receiving)
    requires !ProtectedRoot(Parent(s.uploads[id].target)) && Parent(s.uploads[id].target) in s.tree
    ensures var u := s.uploads[id];
      var directory := Join(Parent(u.target), "/");
      var r := Reach(env, s, [Run(Delete(directory)), Run(CreateDirectory(directory)),
        Append(id, chunk, |chunk|, false), Commit(id, false)]);
      && u.target in r.tree && r.tree[u.target] == File(chunk)
      && InPhase(r, id, Finished) && Concat(r.uploads[id].received) == Concat(u.received) + chunk
  {
    hide ModeOf, ValidSegment, Parts, Canonical, Join, DeleteEntry, CreateEntry, PublishUpload, AppendTo, Reach,
      WellFormed, RemoveTree, TemporaryOf;
    var u := s.uploads[id];
    var p := Parent(u.target);
    var directory := Join(p, "/");
    var a, b, c, d := Run(Delete(directory)), Run(CreateDirectory(directory)), Append(id, chunk, |chunk|, false),
      Commit(id, false);
    FourSteps(env, s, a, b, c, d);
    ParentIsEditable(env, s.tree, u.target);
    DirectoryEmptied(env, s.tree, p);
    var s1 := Next(env, s, a);
    var s2 := Next(env, s1, b);
    assert s2 == s.(tree := RemoveTree(s.tree, p)[p := Dir]);
    TemporaryIsSibling(env, s2.tree, id, u);
    EmptyDirectory(s.tree, p, u.target, TemporaryOf(id, u));
    ChunkPublished(env, s2.tree, u, id, chunk);
    ConcatSnoc(u.received, chunk);
    var s3 := Next(env, s2, c);
    assert s3 == State(s2.tree[TemporaryOf(id, u) := File(chunk)],
      s.uploads[id := u.(received := u.received + [chunk])]);
    SameTarget(id, u, s3.uploads[id]);
  }

  lemma EmptyDirectory(t: Tree, p: Path, a: Path, b: Path)
    requires |a| > 1 && |b| > 1 && Parent(a) == p && Parent(b) == p
    ensures var emptied := RemoveTree(t, p)[p := Dir];
      a !in emptied && b !in emptied && p in emptied && emptied[p] == Dir
  {
    assert p <= a && p <= b && |p| < |a| && |p| < |b|;
  }

  lemma FourSteps(env: Environment, s: State, a: Step, b: Step, c: Step, d: Step)
    requires Sound(env, s)
    ensures Sound(env, Next(env, s, a))
    ensures Sound(env, Next(env, Next(env, s, a), b))
    ensures Sound(env, Next(env, Next(env, Next(env, s, a), b), c))
    ensures Reach(env, s, [a, b, c, d]) == Next(env, Next(env, Next(env, Next(env, s, a), b), c), d)
  {
    hide Next;
    assert Reach(env, s, []) == s;
    ReachStep(env, s, [], a);
    assert [] + [a] == [a] && [a] + [b] == [a, b] && [a, b] + [c] == [a, b, c] && [a, b, c] + [d] == [a, b, c, d];
    ReachStep(env, s, [a], b);
    ReachStep(env, s, [a, b], c);
    ReachStep(env, s, [a, b, c], d);
  }
}
