/** What the steps of one upload achieve: when it is registered, when it publishes, and what. */
module UploadOutcomes {
  import opened Text
  import opened FileTree
  import opened FileAccess
  import opened FileOperations
  import opened CommandOutcomes
  import opened UploadProtocol

  /** Runs can start: an empty data root without uploads is sound and staged. */
  lemma EmptyStateIsSound(env: Environment)
    ensures Sound(env, State(map[["data"] := Dir], map[])) && Staged(State(map[["data"] := Dir], map[]))
  {
    DataRootAlone();
    assert !(TEMPORARY_PREFIX <= "data") by { assert |TEMPORARY_PREFIX| > 4; }
  }

  /** A new upload is registered exactly for a creatable path that is vacant or, with overwrite, a file. */
  lemma PrepareRegisters(env: Environment, s: State, id: UploadId, value: string, overwrite: bool, cancelled: bool)
    requires Sound(env, s) && id !in s.uploads
    ensures var s' := Next(env, s, Prepare(id, value, overwrite, cancelled));
      && (id in s'.uploads <==>
            !cancelled && exists p :: Creatable(env, s.tree, value, p) && Replaceable(s.tree, p, overwrite))
      && (id in s'.uploads ==>
            var u := s'.uploads[id];
            && u == Request(value, u.target, overwrite, [], Prepared) && Creatable(env, s.tree, value, u.target)
            && Parent(u.target) in s'.tree && s'.tree[Parent(u.target)] == Dir
            && s'.uploads == s.uploads[id := u])
      && (id !in s'.uploads ==> s'.uploads == s.uploads)
  {
    hide PrepareUpload, Creatable, ModeOf, ValidSegment, Parts, WellFormed, Replaceable, Canonical;
    PrepareMeaning(env, s.tree, value, overwrite);
    var r := PrepareUpload(env, s.tree, value, overwrite).1;
    assert r.Ok? <==> exists p :: Creatable(env, s.tree, value, p) && Replaceable(s.tree, p, overwrite);
  }

  /**
   * The commit of a staged upload publishes exactly when the target is vacant or is a file that may be
   * overwritten: then the target holds all received chunks, the temporary is gone and nothing else has
   * changed. Otherwise the tree is untouched and the upload fails.
   */
  lemma CommitPublishes(env: Environment, s: State, id: UploadId, cancelled: bool)
    requires Sound(env, s) && Staged(s) && InPhase(s, id, Receiving)
    ensures var (s', u) := (Next(env, s, Commit(id, cancelled)), s.uploads[id]);
      var published := s.tree[u.target := File(Concat(u.received))] - {TemporaryOf(id, u)};
      && s'.tree == (if Replaceable(s.tree, u.target, u.overwrite) then published else s.tree)
      && s'.uploads == s.uploads[id := u.(phase :=
           if Replaceable(s.tree, u.target, u.overwrite) && !cancelled then Finished else Failing)]
  {
    hide ModeOf, ValidSegment, Parts, WellFormed, Canonical;
    var u := s.uploads[id];
    var temporary := TemporaryOf(id, u);
    TemporaryIsSibling(env, s.tree, id, u);
    PartsAcceptsExactlyPrintedPaths(u.value, u.target);
    PublishMeaning(env, s.tree, u.value, temporary, u.target, u.overwrite);
  }

  /** Opening creates an empty temporary, or fails when its name is taken or its directory has gone. */
  lemma OpenStarts(env: Environment, s: State, id: UploadId, cancelled: bool)
    requires Sound(env, s) && InPhase(s, id, Prepared)
    ensures var (s', u) := (Next(env, s, OpenTemporary(id, cancelled)), s.uploads[id]);
      var (temporary, parent) := (TemporaryOf(id, u), Parent(u.target));
      if temporary !in s.tree && parent in s.tree && s.tree[parent] == Dir then
        s' == State(s.tree[temporary := File([])],
                    s.uploads[id := u.(received := [], phase := if cancelled then Failing else Receiving)])
      else s' == s.(uploads := s.uploads[id := u.(phase := Failing)])
  {
    hide ModeOf, ValidSegment, Parts, WellFormed, Canonical;
    TemporaryIsSibling(env, s.tree, id, s.uploads[id]);
  }

  /** Appending adds the chunk to the temporary, or the part that was written before the disk failed. */
  lemma AppendAdds(env: Environment, s: State, id: UploadId, chunk: Bytes, written: nat, cancelled: bool)
    requires Sound(env, s) && Staged(s) && InPhase(s, id, Receiving)
    ensures var (s', u) := (Next(env, s, Append(id, chunk, written, cancelled)), s.uploads[id]);
      var (temporary, content) := (TemporaryOf(id, u), Concat(u.received));
      var phase := if cancelled then Failing else Receiving;
      if written < |chunk| then
        s' == State(s.tree[temporary := File(content + chunk[..written])], s.uploads[id := u.(phase := Failing)])
      else
        s' == State(s.tree[temporary := File(content + chunk)],
                    s.uploads[id := u.(received := u.received + [chunk], phase := phase)])
  {
    hide ModeOf, ValidSegment, Parts, WellFormed, Canonical;
    TemporaryIsSibling(env, s.tree, id, s.uploads[id]);
  }

  /** A cancellation while receiving, and the clean-up after a failure, which removes the temporary. */
  lemma FailureCleansUp(env: Environment, s: State, id: UploadId)
    requires Sound(env, s) && Staged(s) && id in s.uploads
    ensures var u := s.uploads[id];
      && (u.phase == Receiving ==> Next(env, s, Interrupt(id)) == s.(uploads := s.uploads[id := u.(phase := Failing)]))
      && (u.phase == Failing ==>
            Next(env, s, CleanUp(id)) == State(s.tree - {TemporaryOf(id, u)}, s.uploads[id := u.(phase := Finished)]))
  {
    hide ModeOf, ValidSegment, Parts, WellFormed, Canonical;
    TemporaryIsSibling(env, s.tree, id, s.uploads[id]);
    var temporary := TemporaryOf(id, s.uploads[id]);
    if temporary in s.tree { assert s.tree[temporary].File?; }
    assert temporary !in s.tree ==> s.tree - {temporary} == s.tree;
  }

  // ----- a whole upload -----

  function Appends(id: UploadId, chunks: seq<Bytes>): (steps: seq<Step>)
    ensures |steps| == |chunks|
  {
    if chunks == [] then []
    else Appends(id, chunks[..|chunks| - 1]) + [Append(id, chunks[|chunks| - 1], |chunks[|chunks| - 1]|, false)]
  }

  lemma {:induction false} AppendedInOrder(env: Environment, s: State, id: UploadId, chunks: seq<Bytes>)
    requires Sound(env, s) && Staged(s) && InPhase(s, id, Receiving)
    ensures var (r, u) := (Reach(env, s, Appends(id, chunks)), s.uploads[id]);
      && Staged(r) && r.uploads == s.uploads[id := u.(received := u.received + chunks)]
      && (forall q :: q != TemporaryOf(id, u) ==> Same(s.tree, r.tree, q))
  {
    hide Next, Staged, Sound, Reach;
    var u := s.uploads[id];
    if chunks == [] {
      ReachNothing(env, s);
      assert u.received + chunks == u.received && s.uploads[id := u] == s.uploads;
    } else {
      var n := |chunks| - 1;
      var (front, chunk) := (chunks[..n], chunks[n]);
      AppendedInOrder(env, s, id, front);
      var before := Reach(env, s, Appends(id, front));
      var step := Append(id, chunk, |chunk|, false);
      ReachStep(env, s, Appends(id, front), step);
      AppendAdds(env, before, id, chunk, |chunk|, false);
      TargetIsDeep(env, s, id);
      SameTarget(id, u, before.uploads[id]);
      NextStaged(env, before, step);
      var r := Reach(env, s, Appends(id, chunks));
      forall q | q != TemporaryOf(id, u) ensures Same(s.tree, r.tree, q) { assert Same(s.tree, before.tree, q); }
      assert u.received + front + [chunk] == u.received + chunks;
    }
  }

  lemma TargetIsDeep(env: Environment, s: State, id: UploadId)
    requires Sound(env, s) && id in s.uploads
    ensures |s.uploads[id].target| > 2 && TemporaryOf(id, s.uploads[id]) != s.uploads[id].target
  {
    hide ModeOf, ValidSegment, WellFormed;
    TemporaryIsSibling(env, s.tree, id, s.uploads[id]);
  }

  lemma ReachNothing(env: Environment, s: State)
    requires Sound(env, s)
    ensures Reach(env, s, []) == s
  {
  }

  lemma {:induction false} ReachBoth(env: Environment, s: State, a: seq<Step>, b: seq<Step>)
    requires Sound(env, s)
    ensures Reach(env, s, a + b) == Reach(env, Reach(env, s, a), b)
    decreases |b|
  {
    hide Next, Sound;
    if b == [] {
      assert a + b == a;
    } else {
      var n := |b| - 1;
      assert (a + b)[..|a| + n] == a + b[..n];
      ReachBoth(env, s, a, b[..n]);
    }
  }

  /** A new upload's temporary is not there: every temporary belongs to a registered upload. */
  lemma NewTemporaryIsVacant(s: State, id: UploadId, u: Request)
    requires Staged(s) && id !in s.uploads && |u.target| > 0
    ensures TemporaryOf(id, u) !in s.tree
  {
    var temporary := TemporaryOf(id, u);
    assert TEMPORARY_PREFIX <= TEMPORARY_PREFIX + id + ".tmp";
    if temporary in s.tree {
      var owner :| owner in s.uploads && |s.uploads[owner].target| > 0
        && temporary == TemporaryOf(owner, s.uploads[owner]);
      SameNameSameUpload(id, u, owner, s.uploads[owner]);
    }
  }

  /** The steps of an upload that no error and no cancellation hits. */
  function WholeUpload(id: UploadId, value: string, overwrite: bool, chunks: seq<Bytes>): seq<Step> {
    [Prepare(id, value, overwrite, false), OpenTemporary(id, false)] + Appends(id, chunks) + [Commit(id, false)]
  }

  /** The state once the upload is prepared, and once its temporary is open. */
  function Opened(env: Environment, s: State, id: UploadId, value: string, overwrite: bool): (r: State)
    requires Sound(env, s)
    ensures Sound(env, r)
  {
    NextSound(env, s, Prepare(id, value, overwrite, false));
    var prepared := Next(env, s, Prepare(id, value, overwrite, false));
    NextSound(env, prepared, OpenTemporary(id, false));
    Next(env, prepared, OpenTemporary(id, false))
  }

  lemma WholeUploadReaches(env: Environment, s: State, id: UploadId, value: string, overwrite: bool, chunks: seq<Bytes>)
    requires Sound(env, s)
    ensures Reach(env, s, WholeUpload(id, value, overwrite, chunks))
      == Next(env, Reach(env, Opened(env, s, id, value, overwrite), Appends(id, chunks)), Commit(id, false))
  {
    hide Next, Sound, Reach, Appends;
    var (prepare, open) := (Prepare(id, value, overwrite, false), OpenTemporary(id, false));
    var start := [prepare, open];
    NextSound(env, s, prepare);
    ReachNothing(env, s);
    ReachStep(env, s, [], prepare);
    ReachStep(env, s, [prepare], open);
    assert [] + [prepare] == [prepare] && [prepare] + [open] == start;
    assert Reach(env, s, start) == Opened(env, s, id, value, overwrite);
    hide Opened;
    ReachBoth(env, s, start, Appends(id, chunks));
    ReachStep(env, s, start + Appends(id, chunks), Commit(id, false));
  }

  /** The opened upload of a target that may be replaced is receiving, and only directories were made beside it. */
  lemma OpenedReceives(env: Environment, s: State, id: UploadId, value: string, overwrite: bool, p: Path)
    requires Sound(env, s) && Staged(s) && id !in s.uploads
    requires Creatable(env, s.tree, value, p) && Replaceable(s.tree, p, overwrite)
    ensures var (r, u) := (Opened(env, s, id, value, overwrite), Request(value, p, overwrite, [], Receiving));
      && Staged(r) && r.uploads == s.uploads[id := u] && |p| > 2
      && (forall q :: q != TemporaryOf(id, u) ==>
            OnlyDirectoriesMade(s.tree, r.tree, Parent(p), q))
      && TemporaryOf(id, u) !in s.tree
  {
    hide Next, Sound, Staged, Creatable, Replaceable;
    var s1 := Next(env, s, Prepare(id, value, overwrite, false));
    NextSound(env, s, Prepare(id, value, overwrite, false));
    Registered(env, s, id, value, overwrite, p);
    NextStaged(env, s, Prepare(id, value, overwrite, false));
    OpenStarts(env, s1, id, false);
    NextStaged(env, s1, OpenTemporary(id, false));
    var u := Request(value, p, overwrite, [], Receiving);
    SameTarget(id, s1.uploads[id], u);
    hide TemporaryOf;
    NewTemporaryIsVacant(s, id, u);
    var r := Opened(env, s, id, value, overwrite);
    forall q | q != TemporaryOf(id, u) ensures OnlyDirectoriesMade(s.tree, r.tree, Parent(p), q) {
      assert OnlyDirectoriesMade(s.tree, s1.tree, Parent(p), q);
    }
  }

  /**
   * An upload that nobody disturbs and no error hits ends with the target holding exactly its chunks; beside
   * that only missing directories on the way to it have been made.
   */
  lemma UploadSucceeds(env: Environment, s: State, id: UploadId, value: string, overwrite: bool, chunks: seq<Bytes>,
    p: Path)
    requires Sound(env, s) && Staged(s) && id !in s.uploads
    requires Creatable(env, s.tree, value, p) && Replaceable(s.tree, p, overwrite)
    ensures var r := Reach(env, s, WholeUpload(id, value, overwrite, chunks));
      && InPhase(r, id, Finished) && p in r.tree && r.tree[p] == File(Concat(chunks))
      && (forall q :: q != p ==> OnlyDirectoriesMade(s.tree, r.tree, p, q))
  {
    hide Next, Sound, Staged, Creatable, Reach, Opened, Appends, WholeUpload;
    WholeUploadReaches(env, s, id, value, overwrite, chunks);
    OpenedReceives(env, s, id, value, overwrite, p);
    var started := Opened(env, s, id, value, overwrite);
    AppendedInOrder(env, started, id, chunks);
    var full := Reach(env, started, Appends(id, chunks));
    assert [] + chunks == chunks;
    TargetIsDeep(env, full, id);
    SameTarget(id, full.uploads[id], started.uploads[id]);
    var temporary := TemporaryOf(id, full.uploads[id]);
    hide TemporaryOf;
    CommitPublishes(env, full, id, false);
    assert OnlyDirectoriesMade(s.tree, started.tree, Parent(p), p) && Same(started.tree, full.tree, p);
    var r := Reach(env, s, WholeUpload(id, value, overwrite, chunks));
    PublishedTree(s.tree, started.tree, full.tree, r.tree, p, temporary);
  }

  /** Beside the target only directories on the way to it are new. */
  predicate OnlyDirectoriesMade(a: Tree, b: Tree, p: Path, q: Path) {
    Same(a, b, q) || (q !in a && q in b && q <= p && b[q] == Dir)
  }

  lemma PublishedTree(before: Tree, receiving: Tree, full: Tree, after: Tree, p: Path, temporary: Path)
    requires p in after && after == full[p := after[p]] - {temporary} && temporary !in before && temporary != p
    requires |p| > 0 && forall q :: q != temporary ==> OnlyDirectoriesMade(before, receiving, Parent(p), q)
    requires forall q :: q != temporary ==> Same(receiving, full, q)
    ensures forall q :: q != p ==> OnlyDirectoriesMade(before, after, p, q)
  {
    forall q | q != p ensures OnlyDirectoriesMade(before, after, p, q) {
      if q != temporary { assert OnlyDirectoriesMade(before, receiving, Parent(p), q) && Same(receiving, full, q); }
    }
  }

  lemma Registered(env: Environment, s: State, id: UploadId, value: string, overwrite: bool, p: Path)
    requires Sound(env, s) && Staged(s) && id !in s.uploads
    requires Creatable(env, s.tree, value, p) && Replaceable(s.tree, p, overwrite)
    ensures var s1 := Next(env, s, Prepare(id, value, overwrite, false));
      && s1.uploads == s.uploads[id := Request(value, p, overwrite, [], Prepared)] && |p| > 2
      && TemporaryOf(id, s1.uploads[id]) !in s1.tree && Parent(p) in s1.tree && s1.tree[Parent(p)] == Dir
      && (forall q :: OnlyDirectoriesMade(s.tree, s1.tree, Parent(p), q))
  {
    hide PrepareUpload, Creatable, ModeOf, ValidSegment, Parts, WellFormed, Staged, TemporaryOf;
    PrepareMeaning(env, s.tree, value, overwrite);
    var made := PrepareUpload(env, s.tree, value, overwrite).1;
    OneCreatable(env, s.tree, value, p, made.value);
    CreatableIsDeep(env, s.tree, value, p);
    var u := Request(value, p, overwrite, [], Prepared);
    NewTemporaryIsVacant(s, id, u);
    TemporaryLength(id, u);
  }

  lemma CreatableIsDeep(env: Environment, t: Tree, value: string, p: Path)
    requires Creatable(env, t, value, p)
    ensures |p| > 2
  {
    EditableIsDeep(env, t, p);
  }

  lemma TemporaryLength(id: UploadId, u: Request)
    requires |u.target| > 0
    ensures |TemporaryOf(id, u)| == |u.target|
  {
  }
}
