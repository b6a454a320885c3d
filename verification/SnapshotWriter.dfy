/** Writing a store's snapshot to disk, skipping dumps whose digest has not changed. */
module SnapshotWriter {
  import opened Text

  /** How the write goes: complete, failed before the file was replaced, or replaced but with a failing `chmod`. */
  datatype Write = Written | NotReplaced | ModeFailed

  datatype Result = Done | Skipped | Raised

  /** The writer as a value: the file, and the content whose digest is remembered. */
  datatype Disk = Disk(file: Option<Bytes>, remembered: Option<Bytes>)

  /** One `sync` of a writable store. */
  function Synced(ifChanged: bool, d: Disk, dump: Bytes, write: Write): (Disk, Result) {
    if ifChanged && d.remembered == Some(dump) then (d, Skipped)
    else match write
      case NotReplaced => (d, Raised)
      case ModeFailed => (d.(file := Some(dump)), Raised)
      case Written => (Disk(Some(dump), if ifChanged then Some(dump) else None), Done)
  }

  class SnapshotWriter<D(==)> {
    const readOnly: bool
    const writeIfChanged: bool
    const digest: Bytes -> D
    var lastDigest: Option<D>
    var file: Option<Bytes>
    /** The content whose digest is remembered. */
    ghost var remembered: Option<Bytes>

    ghost predicate Valid()
      reads this
    {
      (forall a, b :: digest(a) == digest(b) ==> a == b)
      && lastDigest == (if remembered.None? then None else Some(digest(remembered.value)))
      && (!writeIfChanged ==> remembered.None?)
    }

    ghost function View(): Disk
      reads this
    {
      Disk(file, remembered)
    }

    constructor (readOnly: bool, writeIfChanged: bool, digest: Bytes -> D, file: Option<Bytes>)
      requires forall a, b :: digest(a) == digest(b) ==> a == b
      ensures Valid() && View() == Disk(file, None)
      ensures this.readOnly == readOnly && this.writeIfChanged == writeIfChanged && this.digest == digest
    {
      this.readOnly, this.writeIfChanged, this.digest := readOnly, writeIfChanged, digest;
      this.lastDigest, this.file, this.remembered := None, file, None;
    }

    /** Runs under the lock: `dump` is the store's content at that moment. */
    method Sync(dump: Bytes, write: Write) returns (result: Result)
      requires Valid()
      modifies this`lastDigest, this`file, this`remembered
      ensures Valid()
      ensures readOnly ==> result == Skipped && View() == old(View())
      ensures !readOnly ==> (View(), result) == Synced(writeIfChanged, old(View()), dump, write)
    {
      if readOnly { return Skipped; }
      var current := if writeIfChanged then Some(digest(dump)) else None;
      if current.Some? && current == lastDigest {
        assert remembered.Some? && digest(remembered.value) == digest(dump);
        return Skipped;
      }
      if write == NotReplaced { return Raised; }
      file := Some(dump);
      if write == ModeFailed { return Raised; }
      lastDigest := current;
      remembered := if writeIfChanged then Some(dump) else None;
      return Done;
    }
  }

  // ----- the digest is only an optimisation -----

  /** The remembered content is the one on disk. */
  predicate InStep(d: Disk) {
    d.remembered.Some? ==> d.file == d.remembered
  }

  datatype Attempt = Attempt(dump: Bytes, write: Write)

  function Run(ifChanged: bool, d: Disk, attempts: seq<Attempt>): Disk {
    if attempts == [] then d
    else
      var k := |attempts| - 1;
      Synced(ifChanged, Run(ifChanged, d, attempts[..k]), attempts[k].dump, attempts[k].write).0
  }

  /** The file after a writer that never skips. */
  function AlwaysWritten(file: Option<Bytes>, attempts: seq<Attempt>): Option<Bytes> {
    if attempts == [] then file
    else
      var last := attempts[|attempts| - 1];
      if last.write == NotReplaced then AlwaysWritten(file, attempts[..|attempts| - 1]) else Some(last.dump)
  }

  predicate ModesWork(attempts: seq<Attempt>) {
    forall i :: 0 <= i < |attempts| ==> attempts[i].write != ModeFailed
  }

  /**
   * Without `chmod` errors the disk is in step after any run of changes, syncs and failed writes, so a
   * sync that returns leaves the dump on disk, and a failed one is tried again with the next.
   */
  lemma {:induction false} ReturnedSyncIsOnDisk(ifChanged: bool, d: Disk, attempts: seq<Attempt>, next: Attempt)
    requires InStep(d) && ModesWork(attempts)
    ensures var before := Run(ifChanged, d, attempts);
      InStep(before)
      && (var (after, result) := Synced(ifChanged, before, next.dump, next.write);
          (result != Raised ==> after.file == Some(next.dump))
          && (result == Raised ==>
              Synced(ifChanged, after, next.dump, Written).0.file == Some(next.dump)))
  {
    if attempts != [] {
      ReturnedSyncIsOnDisk(ifChanged, d, attempts[..|attempts| - 1], attempts[|attempts| - 1]);
    }
  }

  /** Without `chmod` errors the file is always that of a writer that never skips, failed writes included. */
  lemma {:induction false} SkippingRefinesAlwaysWriting(ifChanged: bool, d: Disk, attempts: seq<Attempt>)
    requires InStep(d) && ModesWork(attempts)
    ensures Run(ifChanged, d, attempts).file == AlwaysWritten(d.file, attempts)
  {
    if attempts != [] {
      var k := |attempts| - 1;
      SkippingRefinesAlwaysWriting(ifChanged, d, attempts[..k]);
      ReturnedSyncIsOnDisk(ifChanged, d, attempts[..k], attempts[k]);
    }
  }

  /** The content of the last attempt whose write goes through, or what was remembered before. */
  function LastWritten(remembered: Option<Bytes>, attempts: seq<Attempt>): Option<Bytes> {
    if attempts == [] then remembered
    else
      var last := attempts[|attempts| - 1];
      if last.write == Written then Some(last.dump) else LastWritten(remembered, attempts[..|attempts| - 1])
  }

  /**
   * The history has put another content on disk behind the writer's back: at some attempt the `chmod`
   * failed for a content other than the one last written, and nothing else was written completely since.
   */
  predicate Displaced(remembered: Option<Bytes>, attempts: seq<Attempt>, content: Bytes) {
    exists j :: 0 <= j < |attempts| && DisplacedAt(remembered, attempts, content, j)
  }

  predicate DisplacedAt(remembered: Option<Bytes>, attempts: seq<Attempt>, content: Bytes, j: nat)
    requires j < |attempts|
  {
    attempts[j].write == ModeFailed && attempts[j].dump != content
    && LastWritten(remembered, attempts[..j]) == Some(content)
    && forall k :: j < k < |attempts| && attempts[k].write == Written ==> attempts[k].dump == content
  }

  lemma DisplacedSnoc(remembered: Option<Bytes>, attempts: seq<Attempt>, a: Attempt, content: Bytes)
    ensures Displaced(remembered, attempts + [a], content) <==>
      (a.write == ModeFailed && a.dump != content && LastWritten(remembered, attempts) == Some(content))
      || (Displaced(remembered, attempts, content) && (a.write == Written ==> a.dump == content))
  {
    hide LastWritten;
    var longer, n := attempts + [a], |attempts|;
    assert longer[..n] == attempts && longer[n] == a;
    forall j: nat | j < n
      ensures DisplacedAt(remembered, longer, content, j) <==>
        DisplacedAt(remembered, attempts, content, j) && (a.write == Written ==> a.dump == content)
    {
      assert longer[..j] == attempts[..j];
    }
    assert DisplacedAt(remembered, longer, content, n) <==>
      a.write == ModeFailed && a.dump != content && LastWritten(remembered, attempts) == Some(content);
  }

  /** What the writer remembers and whether that is off the disk, told from the history alone. */
  lemma {:induction false} StateFromHistory(d: Disk, attempts: seq<Attempt>, content: Bytes)
    requires InStep(d)
    ensures var now := Run(true, d, attempts);
      now.remembered == LastWritten(d.remembered, attempts)
      && (now.remembered == Some(content) && now.file != Some(content) <==> Displaced(d.remembered, attempts, content))
  {
    hide Displaced, Run, LastWritten;
    if attempts == [] {
      NoHistory(d, content);
    } else {
      var earlier, a := attempts[..|attempts| - 1], attempts[|attempts| - 1];
      StateFromHistory(d, earlier, content);
      assert attempts == earlier + [a];
      DisplacedSnoc(d.remembered, earlier, a, content);
      OneMoreAttempt(d, earlier, a);
    }
  }

  lemma NoHistory(d: Disk, content: Bytes)
    ensures Run(true, d, []) == d && LastWritten(d.remembered, []) == d.remembered
      && !Displaced(d.remembered, [], content)
  {
  }

  lemma OneMoreAttempt(d: Disk, attempts: seq<Attempt>, a: Attempt)
    ensures Run(true, d, attempts + [a]) == Synced(true, Run(true, d, attempts), a.dump, a.write).0
    ensures LastWritten(d.remembered, attempts + [a])
      == if a.write == Written then Some(a.dump) else LastWritten(d.remembered, attempts)
  {
    assert (attempts + [a])[..|attempts|] == attempts;
  }

  /**
   * With failing `chmod` calls, over any history from a disk in step: a sync that returns leaves another
   * content on disk exactly when its dump is the content last written and the history has displaced it.
   */
  lemma WhenSkippingMisleads(ifChanged: bool, d: Disk, attempts: seq<Attempt>, next: Attempt)
    requires InStep(d)
    ensures var (after, result) := Synced(ifChanged, Run(ifChanged, d, attempts), next.dump, next.write);
      (result != Raised && after.file != Some(next.dump)) <==> ifChanged && Displaced(d.remembered, attempts, next.dump)
  {
    hide Displaced, Run;
    if ifChanged { StateFromHistory(d, attempts, next.dump); }
  }

  /** Such a state is reached by one successful write and one `chmod` error. */
  lemma ModeErrorIsMisleading(d: Disk, first: Bytes, second: Bytes)
    requires first != second && d.remembered.None?
    ensures var after := Run(true, d, [Attempt(first, Written), Attempt(second, ModeFailed)]);
      after.file == Some(second) && Synced(true, after, first, Written) == (after, Skipped)
  {
    var attempts := [Attempt(first, Written), Attempt(second, ModeFailed)];
    assert attempts[..1] == [Attempt(first, Written)] && attempts[..1][..0] == [];
    assert Run(true, d, []) == d && Run(true, d, attempts[..1]) == Disk(Some(first), Some(first));
  }

  // ----- the flush loop -----

  function Alive<T>(items: seq<T>, alive: seq<bool>): seq<T>
    requires |items| == |alive|
  {
    if items == [] then []
    else
      var k := |items| - 1;
      var kept := Alive(items[..k], alive[..k]);
      if alive[k] then kept + [items[k]] else kept
  }

  /** A store that is gone is not touched, and a read-only one is not written. */
  function AfterRound(writes: bool, ifChanged: bool, d: Disk, a: Attempt): Disk {
    if writes then Synced(ifChanged, d, a.dump, a.write).0 else d
  }

  /**
   * One round over the registered stores: a store that no longer exists is dropped, every other one
   * is synced, and a failure of one does not keep the next from being written.
   */
  method FlushRound<D(==)>(writers: seq<SnapshotWriter<D>>, alive: seq<bool>, attempts: seq<Attempt>)
    returns (kept: seq<SnapshotWriter<D>>)
    requires |writers| == |alive| == |attempts|
    requires forall i, j :: 0 <= i < j < |writers| ==> writers[i] != writers[j]
    requires forall i :: 0 <= i < |writers| ==> writers[i].Valid()
    modifies writers
    ensures kept == Alive(writers, alive)
    ensures forall i :: 0 <= i < |writers| ==> writers[i].Valid()
    ensures forall i :: 0 <= i < |writers| ==>
      writers[i].View()
      == AfterRound(alive[i] && !writers[i].readOnly, writers[i].writeIfChanged, old(writers[i].View()), attempts[i])
  {
    kept := [];
    for k := 0 to |writers|
      invariant kept == Alive(writers[..k], alive[..k])
      invariant forall i :: 0 <= i < |writers| ==> writers[i].Valid()
      invariant forall i :: k <= i < |writers| ==> writers[i].View() == old(writers[i].View())
      invariant forall i :: 0 <= i < k ==>
        writers[i].View()
        == AfterRound(alive[i] && !writers[i].readOnly, writers[i].writeIfChanged, old(writers[i].View()), attempts[i])
    {
      assert writers[..k + 1][..k] == writers[..k] && alive[..k + 1][..k] == alive[..k];
      if !alive[k] { continue; }
      kept := kept + [writers[k]];
      var result := writers[k].Sync(attempts[k].dump, attempts[k].write);
    }
    assert writers[..|writers|] == writers && alive[..|writers|] == alive;
  }
}
