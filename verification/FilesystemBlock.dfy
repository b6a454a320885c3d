/** Path validation of a filesystem block: routes, virtual directories and virtual files. */
module FilesystemBlock {
  import opened Text
  import opened VirtualPaths

  // ----- the block, with what the local disk answers about each source -----

  datatype EntryKind = Link | Folder | Regular | Special

  /** One entry of the recursive listing of a source directory, in listing order. */
  datatype SourceEntry = SourceEntry(relative: string, kind: EntryKind)

  /** `local` is the canonical local path; `isDirectory` is what the disk answers for it. */
  datatype MappedDirectory = MappedDirectory(path: string, local: string, absolute: bool, isDirectory: bool)

  datatype VirtualDirectory = VirtualDirectory(
    path: string, source: string, absolute: bool, isLink: bool, isDirectory: bool, entries: seq<SourceEntry>)

  datatype VirtualFile = VirtualFile(
    path: string, source: string, sourceName: string, absolute: bool, isLink: bool, isFile: bool)

  datatype Block = Block(
    localShell: bool, mapped: seq<MappedDirectory>, directories: seq<VirtualDirectory>, files: seq<VirtualFile>)

  datatype Rejection =
    | ReservedNamespace | OverlappingRoutes | RepeatedDirectory | MissingSource | RepeatedLocal
    | LinkedSource | RouteOverlap | DirectoryConflict | FileConflict | FileAndDirectory | NameMismatch | HiddenByRoute

  const RESERVED_NAMESPACES := ["/large_tool_results/", "/conversation_history/", "/skills/", "/memory/", "/memories/"]

  /** The paths are what the field validators produce, which are their fixed points. */
  predicate NormalBlock(b: Block) {
    && (forall i :: 0 <= i < |b.mapped| ==> ValidateDirectoryPath(b.mapped[i].path) == Normalized(b.mapped[i].path))
    && (forall i :: 0 <= i < |b.directories| ==>
         ValidateDirectoryPath(b.directories[i].path) == Normalized(b.directories[i].path))
    && (forall i :: 0 <= i < |b.files| ==> ValidateFilePath(b.files[i].path) == Normalized(b.files[i].path))
  }

  /** `_reserved_virtual_namespace`: the first reserved namespace a path touches. */
  predicate TouchesNamespace(path: string, namespace: string, isDirectory: bool) {
    || namespace <= path
    || (isDirectory && path <= namespace)
    || (!isDirectory && path == RightStrip(namespace))
  }

  method ReservedNamespaceOf(path: string, isDirectory: bool) returns (namespace: Option<string>)
    ensures namespace.Some? ==>
      namespace.value in RESERVED_NAMESPACES && TouchesNamespace(path, namespace.value, isDirectory)
    ensures namespace.None? ==> Unreserved(path, isDirectory)
  {
    var namespaces := RESERVED_NAMESPACES;
    for i := 0 to |namespaces|
      invariant forall k :: 0 <= k < i ==> !TouchesNamespace(path, namespaces[k], isDirectory)
    {
      if TouchesNamespace(path, namespaces[i], isDirectory) { return Some(namespaces[i]); }
    }
    return None;
  }

  predicate Unreserved(path: string, isDirectory: bool) {
    forall namespace :: namespace in RESERVED_NAMESPACES ==> !TouchesNamespace(path, namespace, isDirectory)
  }

  predicate Overlap(a: string, b: string) {
    a <= b || b <= a
  }

  // ----- claims on virtual targets -----

  /** The targets the scan takes, in order: the root of a virtual directory, a directory in it, a file. */
  datatype Claim =
    | Root(key: string, origin: string)
    | Inner(key: string, origin: string)
    | Target(key: string, origin: string)

  function EntryClaim(d: VirtualDirectory, e: SourceEntry): seq<Claim> {
    var key, origin := d.path + e.relative, d.source + "/" + e.relative;
    match e.kind
    case Folder => [Inner(key, origin)]
    case Regular => [Target(key, origin)]
    case _ => []
  }

  function EntryClaims(d: VirtualDirectory, entries: seq<SourceEntry>): seq<Claim> {
    if entries == [] then []
    else EntryClaims(d, entries[..|entries| - 1]) + EntryClaim(d, entries[|entries| - 1])
  }

  function DirectoryClaims(d: VirtualDirectory): seq<Claim> {
    [Root(RightStrip(d.path), d.source)] + if d.absolute then EntryClaims(d, d.entries) else []
  }

  function AllDirectoryClaims(directories: seq<VirtualDirectory>): seq<Claim> {
    if directories == [] then []
    else AllDirectoryClaims(directories[..|directories| - 1]) + DirectoryClaims(directories[|directories| - 1])
  }

  function FileClaims(files: seq<VirtualFile>): seq<Claim> {
    if files == [] then []
    else FileClaims(files[..|files| - 1]) + [Target(files[|files| - 1].path, files[|files| - 1].source)]
  }

  function Claims(b: Block): seq<Claim> {
    AllDirectoryClaims(b.directories) + FileClaims(b.files)
  }

  /** Two claims on one target: only a root on a file claimed before it goes unnoticed. */
  predicate Clash(earlier: Claim, later: Claim) {
    earlier.key == later.key && !(earlier.Target? && later.Root?)
  }

  ghost predicate ClashFree(claims: seq<Claim>) {
    forall i, j :: 0 <= i < j < |claims| ==> !Clash(claims[i], claims[j])
  }

  // ----- what the validator accepts -----

  predicate SoundMapped(m: MappedDirectory) {
    m.absolute ==> m.isDirectory
  }

  predicate SoundDirectory(d: VirtualDirectory) {
    d.absolute ==> !d.isLink && d.isDirectory && forall k :: 0 <= k < |d.entries| ==> d.entries[k].kind != Link
  }

  predicate SoundFile(f: VirtualFile) {
    && (f.absolute ==> !f.isLink && f.isFile)
    && LastSegment(f.path) == f.sourceName
  }

  function LastSegment(path: string): string {
    var parts := Split(path, '/');
    parts[|parts| - 1]
  }

  /** Absolute and data-root-relative local paths are kept apart. */
  function LocalKey(m: MappedDirectory): (bool, string) {
    (m.absolute, m.local)
  }

  ghost predicate Acceptable(b: Block) {
    && (forall i :: 0 <= i < |b.mapped| ==> Unreserved(b.mapped[i].path, true))
    && (forall i :: 0 <= i < |b.directories| ==> Unreserved(b.directories[i].path, true))
    && (forall i :: 0 <= i < |b.files| ==> Unreserved(b.files[i].path, false))
    && RoutesApart(b.mapped)
    && PathsDiffer(b.directories)
    && MappedSound(b.mapped)
    && (forall i :: 0 <= i < |b.directories| ==>
         SoundDirectory(b.directories[i]) && ApartFromRoutes(b.directories[i], b.mapped))
    && (forall i :: 0 <= i < |b.files| ==> SoundFile(b.files[i]) && NotHidden(b.files[i], b.mapped))
    && ClashFree(Claims(b))
  }

  ghost predicate RoutesApart(mapped: seq<MappedDirectory>) {
    forall i, j :: 0 <= i < j < |mapped| ==> !Overlap(mapped[i].path, mapped[j].path)
  }

  ghost predicate PathsDiffer(directories: seq<VirtualDirectory>) {
    forall i, j :: 0 <= i < j < |directories| ==> directories[i].path != directories[j].path
  }

  ghost predicate MappedSound(mapped: seq<MappedDirectory>) {
    && (forall i :: 0 <= i < |mapped| ==> SoundMapped(mapped[i]))
    && (forall i, j :: 0 <= i < j < |mapped| ==> LocalKey(mapped[i]) != LocalKey(mapped[j]))
  }

  predicate ApartFromRoutes(d: VirtualDirectory, mapped: seq<MappedDirectory>) {
    forall k :: 0 <= k < |mapped| ==> !Overlap(d.path, mapped[k].path)
  }

  predicate NotHidden(f: VirtualFile, mapped: seq<MappedDirectory>) {
    forall k :: 0 <= k < |mapped| ==> !(mapped[k].path <= f.path)
  }

  // ----- the scan with its two dictionaries -----

  type Origins = map<string, string>

  predicate Claimed(claims: seq<Claim>, key: string, target: bool) {
    exists i :: 0 <= i < |claims| && claims[i].Target? == target && claims[i].key == key
  }

  /** A dictionary holds the claims of one sort made so far, under the origin that made them. */
  ghost predicate Holds(claims: seq<Claim>, origins: Origins, target: bool) {
    && (forall key :: key in origins <==> Claimed(claims, key, target))
    && (forall i :: 0 <= i < |claims| && claims[i].Target? == target ==>
          claims[i].key in origins && origins[claims[i].key] == claims[i].origin)
  }

  ghost predicate Recorded(claims: seq<Claim>, files: Origins, folders: Origins) {
    Holds(claims, files, true) && Holds(claims, folders, false)
  }

  /** The dictionary tests decide whether a further claim clashes. */
  lemma RecordedDecides(claims: seq<Claim>, files: Origins, folders: Origins, claim: Claim)
    requires ClashFree(claims) && Recorded(claims, files, folders)
    ensures ClashFree(claims + [claim]) <==> claim.key !in folders && (claim.Root? || claim.key !in files)
    ensures ClashFree(claims + [claim]) ==>
      Recorded(claims + [claim], if claim.Target? then files[claim.key := claim.origin] else files,
               if claim.Target? then folders else folders[claim.key := claim.origin])
  {
    var more := claims + [claim];
    assert forall i :: 0 <= i < |claims| ==> more[i] == claims[i];
    assert more[|claims|] == claim;
    if claim.key in folders {
      var i :| 0 <= i < |claims| && !claims[i].Target? && claims[i].key == claim.key;
      assert Clash(more[i], more[|claims|]);
    }
    if claim.key in files && !claim.Root? {
      var i :| 0 <= i < |claims| && claims[i].Target? && claims[i].key == claim.key;
      assert Clash(more[i], more[|claims|]);
    }
    if claim.key !in folders && (claim.Root? || claim.key !in files) {
      assert forall i :: 0 <= i < |claims| ==> !Clash(claims[i], claim);
      HoldsMore(claims, files, true, claim);
      HoldsMore(claims, folders, false, claim);
    }
  }

  lemma ClaimedMore(claims: seq<Claim>, claim: Claim, key: string, target: bool)
    ensures Claimed(claims + [claim], key, target) <==>
      Claimed(claims, key, target) || (claim.Target? == target && claim.key == key)
  {
    var more := claims + [claim];
    assert more[|claims|] == claim;
    if i :| 0 <= i < |claims| && claims[i].Target? == target && claims[i].key == key { assert more[i] == claims[i]; }
  }

  lemma HoldsMore(claims: seq<Claim>, origins: Origins, target: bool, claim: Claim)
    requires Holds(claims, origins, target) && (claim.Target? == target ==> claim.key !in origins)
    ensures var more := if claim.Target? == target then origins[claim.key := claim.origin] else origins;
      Holds(claims + [claim], more, target)
  {
    hide Claimed;
    var more := claims + [claim];
    var origins' := if claim.Target? == target then origins[claim.key := claim.origin] else origins;
    forall key ensures key in origins' <==> Claimed(more, key, target) { ClaimedMore(claims, claim, key, target); }
  }

  lemma ClashFreePrefix(a: seq<Claim>, b: seq<Claim>)
    ensures ClashFree(a + b) ==> ClashFree(a)
  {
    assert forall i :: 0 <= i < |a| ==> (a + b)[i] == a[i];
  }

  lemma {:induction false} EntryClaimsPrefix(d: VirtualDirectory, entries: seq<SourceEntry>, k: nat)
    requires k <= |entries|
    ensures EntryClaims(d, entries[..k]) <= EntryClaims(d, entries)
  {
    if k < |entries| {
      EntryClaimsPrefix(d, entries[..|entries| - 1], k);
      assert entries[..|entries| - 1][..k] == entries[..k];
    } else {
      assert entries[..k] == entries;
    }
  }

  /** A clash among the first claims is a clash among all of them. */
  lemma EarlyClash(claims: seq<Claim>, d: VirtualDirectory, entries: seq<SourceEntry>, k: nat)
    requires k <= |entries| && !ClashFree(claims + EntryClaims(d, entries[..k]))
    ensures !ClashFree(claims + EntryClaims(d, entries))
  {
    EntryClaimsPrefix(d, entries, k);
    var first, all := EntryClaims(d, entries[..k]), EntryClaims(d, entries);
    assert claims + all == (claims + first) + all[|first|..];
    ClashFreePrefix(claims + first, all[|first|..]);
  }

  ghost predicate NoLinks(entries: seq<SourceEntry>) {
    forall k :: 0 <= k < |entries| ==> entries[k].kind != Link
  }

  method ScanEntries(d: VirtualDirectory, files0: Origins, folders0: Origins, ghost claims: seq<Claim>)
    returns (rejected: Option<Rejection>, files: Origins, folders: Origins)
    requires ClashFree(claims) && Recorded(claims, files0, folders0)
    ensures rejected.None? <==> NoLinks(d.entries) && ClashFree(claims + EntryClaims(d, d.entries))
    ensures rejected.None? ==> Recorded(claims + EntryClaims(d, d.entries), files, folders)
  {
    hide ClashFree, Recorded;
    files, folders := files0, folders0;
    assert claims + [] == claims;
    for k := 0 to |d.entries|
      invariant NoLinks(d.entries[..k])
      invariant ClashFree(claims + EntryClaims(d, d.entries[..k]))
      invariant Recorded(claims + EntryClaims(d, d.entries[..k]), files, folders)
    {
      var e := d.entries[k];
      ghost var before := claims + EntryClaims(d, d.entries[..k]);
      assert d.entries[..k + 1] == d.entries[..k] + [e];
      assert EntryClaims(d, d.entries[..k + 1]) == EntryClaims(d, d.entries[..k]) + EntryClaim(d, e);
      assert claims + EntryClaims(d, d.entries[..k + 1]) == before + EntryClaim(d, e);
      if e.kind == Link { return Some(LinkedSource), files, folders; }
      var key, origin := d.path + e.relative, d.source + "/" + e.relative;
      if e.kind == Folder {
        RecordedDecides(before, files, folders, Inner(key, origin));
        if key in files {
          EarlyClash(claims, d, d.entries, k + 1);
          return Some(FileAndDirectory), files, folders;
        }
        if key in folders {
          EarlyClash(claims, d, d.entries, k + 1);
          return Some(DirectoryConflict), files, folders;
        }
        folders := folders[key := origin];
      } else if e.kind == Regular {
        RecordedDecides(before, files, folders, Target(key, origin));
        if key in folders {
          EarlyClash(claims, d, d.entries, k + 1);
          return Some(FileAndDirectory), files, folders;
        }
        if key in files {
          EarlyClash(claims, d, d.entries, k + 1);
          return Some(FileConflict), files, folders;
        }
        files := files[key := origin];
      } else {
        assert before + [] == before;
      }
    }
    assert d.entries[..|d.entries|] == d.entries;
    return None, files, folders;
  }

  lemma {:induction false} DirectoryClaimsPrefix(directories: seq<VirtualDirectory>, k: nat)
    requires k <= |directories|
    ensures AllDirectoryClaims(directories[..k]) <= AllDirectoryClaims(directories)
  {
    hide DirectoryClaims;
    if k < |directories| {
      DirectoryClaimsPrefix(directories[..|directories| - 1], k);
      assert directories[..|directories| - 1][..k] == directories[..k];
    } else {
      assert directories[..k] == directories;
    }
  }

  lemma EarlyDirectoryClash(directories: seq<VirtualDirectory>, k: nat, claims: seq<Claim>)
    requires k <= |directories| && claims <= AllDirectoryClaims(directories[..k]) && !ClashFree(claims)
    ensures !ClashFree(AllDirectoryClaims(directories))
  {
    hide AllDirectoryClaims;
    DirectoryClaimsPrefix(directories, k);
    var all := AllDirectoryClaims(directories);
    assert claims <= all;
    assert all == claims + all[|claims|..];
    ClashFreePrefix(claims, all[|claims|..]);
  }

  ghost predicate LinkFree(directories: seq<VirtualDirectory>) {
    forall i :: 0 <= i < |directories| && directories[i].absolute ==> NoLinks(directories[i].entries)
  }

  method ScanDirectories(directories: seq<VirtualDirectory>)
    returns (rejected: Option<Rejection>, files: Origins, folders: Origins)
    ensures rejected.None? <==> LinkFree(directories) && ClashFree(AllDirectoryClaims(directories))
    ensures rejected.None? ==> Recorded(AllDirectoryClaims(directories), files, folders)
  {
    hide ClashFree, Recorded, NoLinks, EntryClaims, RightStrip;
    files, folders := map[], map[];
    NothingRecorded();
    for i := 0 to |directories|
      invariant forall k :: 0 <= k < i && directories[k].absolute ==> NoLinks(directories[k].entries)
      invariant ClashFree(AllDirectoryClaims(directories[..i]))
      invariant Recorded(AllDirectoryClaims(directories[..i]), files, folders)
    {
      var d := directories[i];
      var key := RightStrip(d.path);
      ghost var before, root := AllDirectoryClaims(directories[..i]), Root(key, d.source);
      assert directories[..i + 1][..i] == directories[..i];
      ghost var after := AllDirectoryClaims(directories[..i + 1]);
      assert after == before + DirectoryClaims(d);
      assert before + [root] <= after;
      RecordedDecides(before, files, folders, root);
      if key in folders {
        EarlyDirectoryClash(directories, i + 1, before + [root]);
        return Some(DirectoryConflict), files, folders;
      }
      folders := folders[key := d.source];
      if !d.absolute {
        assert after == before + [root];
        continue;
      }
      assert after == (before + [root]) + EntryClaims(d, d.entries);
      rejected, files, folders := ScanEntries(d, files, folders, before + [root]);
      if rejected.Some? {
        if !ClashFree(after) { EarlyDirectoryClash(directories, i + 1, after); }
        return;
      }
    }
    assert directories[..|directories|] == directories;
    return None, files, folders;
  }

  lemma NothingRecorded()
    ensures ClashFree([]) && Recorded([], map[], map[])
    ensures forall directories: seq<VirtualDirectory> :: AllDirectoryClaims(directories[..0]) == []
    ensures forall files: seq<VirtualFile> :: FileClaims(files[..0]) == []
  { }

  lemma {:induction false} FileClaimsPrefix(files: seq<VirtualFile>, k: nat)
    requires k <= |files|
    ensures FileClaims(files[..k]) <= FileClaims(files)
  {
    if k < |files| {
      FileClaimsPrefix(files[..|files| - 1], k);
      assert files[..|files| - 1][..k] == files[..k];
    } else {
      assert files[..k] == files;
    }
  }

  lemma EarlyFileClash(claims: seq<Claim>, files: seq<VirtualFile>, k: nat)
    requires k <= |files| && !ClashFree(claims + FileClaims(files[..k]))
    ensures !ClashFree(claims + FileClaims(files))
  {
    hide FileClaims, ClashFree;
    FileClaimsPrefix(files, k);
    var first, all := FileClaims(files[..k]), FileClaims(files);
    assert claims + all == (claims + first) + all[|first|..];
    ClashFreePrefix(claims + first, all[|first|..]);
  }

  predicate FilesSound(files: seq<VirtualFile>, mapped: seq<MappedDirectory>) {
    forall i :: 0 <= i < |files| ==> SoundFile(files[i]) && NotHidden(files[i], mapped)
  }

  method ScanFiles(files: seq<VirtualFile>, mapped: seq<MappedDirectory>, targets0: Origins, folders: Origins,
    ghost claims: seq<Claim>)
    returns (rejected: Option<Rejection>, targets: Origins)
    requires ClashFree(claims) && Recorded(claims, targets0, folders)
    ensures rejected.None? <==> FilesSound(files, mapped) && ClashFree(claims + FileClaims(files))
    ensures rejected.None? ==> Recorded(claims + FileClaims(files), targets, folders)
  {
    hide ClashFree, Recorded, LastSegment;
    targets := targets0;
    NothingRecorded();
    assert claims + [] == claims;
    for i := 0 to |files|
      invariant forall k :: 0 <= k < i ==> SoundFile(files[k]) && NotHidden(files[k], mapped)
      invariant ClashFree(claims + FileClaims(files[..i]))
      invariant Recorded(claims + FileClaims(files[..i]), targets, folders)
    {
      var f := files[i];
      if f.absolute {
        if f.isLink { return Some(LinkedSource), targets; }
        if !f.isFile { return Some(MissingSource), targets; }
      }
      if LastSegment(f.path) != f.sourceName { return Some(NameMismatch), targets; }
      for k := 0 to |mapped|
        invariant forall m :: 0 <= m < k ==> !(mapped[m].path <= f.path)
      {
        if mapped[k].path <= f.path { return Some(HiddenByRoute), targets; }
      }
      ghost var before := claims + FileClaims(files[..i]);
      assert files[..i + 1][..i] == files[..i];
      assert claims + FileClaims(files[..i + 1]) == before + [Target(f.path, f.source)];
      RecordedDecides(before, targets, folders, Target(f.path, f.source));
      if f.path in folders {
        EarlyFileClash(claims, files, i + 1);
        return Some(FileAndDirectory), targets;
      }
      if f.path in targets {
        EarlyFileClash(claims, files, i + 1);
        return Some(FileConflict), targets;
      }
      targets := targets[f.path := f.source];
    }
    assert files[..|files|] == files;
    return None, targets;
  }

  // ----- the other checks -----

  method CheckReserved(b: Block) returns (rejected: Option<Rejection>)
    ensures rejected.None? <==>
      && (forall i :: 0 <= i < |b.mapped| ==> Unreserved(b.mapped[i].path, true))
      && (forall i :: 0 <= i < |b.directories| ==> Unreserved(b.directories[i].path, true))
      && (forall i :: 0 <= i < |b.files| ==> Unreserved(b.files[i].path, false))
  {
    hide TouchesNamespace, RESERVED_NAMESPACES;
    for i := 0 to |b.mapped|
      invariant forall k :: 0 <= k < i ==> Unreserved(b.mapped[k].path, true)
    {
      var namespace := ReservedNamespaceOf(b.mapped[i].path, true);
      if namespace.Some? { return Some(ReservedNamespace); }
    }
    for i := 0 to |b.directories|
      invariant forall k :: 0 <= k < i ==> Unreserved(b.directories[k].path, true)
    {
      var namespace := ReservedNamespaceOf(b.directories[i].path, true);
      if namespace.Some? { return Some(ReservedNamespace); }
    }
    for i := 0 to |b.files|
      invariant forall k :: 0 <= k < i ==> Unreserved(b.files[k].path, false)
    {
      var namespace := ReservedNamespaceOf(b.files[i].path, false);
      if namespace.Some? { return Some(ReservedNamespace); }
    }
    return None;
  }

  method CheckRoutes(mapped: seq<MappedDirectory>) returns (rejected: Option<Rejection>)
    ensures rejected.None? <==> RoutesApart(mapped)
  {
    for i := 0 to |mapped|
      invariant forall k, m :: 0 <= k < i && k < m < |mapped| ==> !Overlap(mapped[k].path, mapped[m].path)
    {
      for j := i + 1 to |mapped|
        invariant forall m :: i < m < j ==> !Overlap(mapped[i].path, mapped[m].path)
      {
        if mapped[j].path <= mapped[i].path || mapped[i].path <= mapped[j].path { return Some(OverlappingRoutes); }
      }
    }
    return None;
  }

  method CheckDirectoryPaths(directories: seq<VirtualDirectory>) returns (rejected: Option<Rejection>)
    ensures rejected.None? <==> PathsDiffer(directories)
  {
    var paths := seq(|directories|, i requires 0 <= i < |directories| => directories[i].path);
    DistinctCount(paths);
    assert forall i :: 0 <= i < |paths| ==> paths[i] == directories[i].path;
    assert PathsDiffer(directories) <==> forall i, j :: 0 <= i < j < |paths| ==> paths[i] != paths[j];
    return if |paths| != |SetOf(paths)| then Some(RepeatedDirectory) else None;
  }

  function SetOf(paths: seq<string>): set<string> {
    set p | p in paths
  }

  lemma {:induction false} DistinctCount(paths: seq<string>)
    ensures |SetOf(paths)| <= |paths|
    ensures |SetOf(paths)| == |paths| <==> forall i, j :: 0 <= i < j < |paths| ==> paths[i] != paths[j]
  {
    if paths != [] {
      var front, last := paths[..|paths| - 1], paths[|paths| - 1];
      DistinctCount(front);
      assert paths == front + [last];
      assert SetOf(paths) == SetOf(front) + {last};
      if last in front {
        assert SetOf(paths) == SetOf(front);
        var k :| 0 <= k < |front| && front[k] == last;
        assert paths[k] == paths[|paths| - 1];
      } else {
        assert |SetOf(paths)| == |SetOf(front)| + 1;
        assert forall i :: 0 <= i < |front| ==> paths[i] == front[i] && paths[i] in front;
      }
    }
  }

  method CheckMapped(mapped: seq<MappedDirectory>) returns (rejected: Option<Rejection>)
    ensures rejected.None? <==> MappedSound(mapped)
  {
    var locals: set<(bool, string)> := {};
    for i := 0 to |mapped|
      invariant MappedSound(mapped[..i])
      invariant forall key :: key in locals <==> exists k :: 0 <= k < i && LocalKey(mapped[k]) == key
    {
      if mapped[i].absolute && !mapped[i].isDirectory { return Some(MissingSource); }
      if LocalKey(mapped[i]) in locals {
        return Some(RepeatedLocal);
      }
      locals := locals + {LocalKey(mapped[i])};
    }
    assert mapped[..|mapped|] == mapped;
    return None;
  }

  method CheckDirectorySources(directories: seq<VirtualDirectory>, mapped: seq<MappedDirectory>)
    returns (rejected: Option<Rejection>)
    ensures rejected.None? <==> forall i :: 0 <= i < |directories| ==>
      (directories[i].absolute ==> !directories[i].isLink && directories[i].isDirectory)
        && ApartFromRoutes(directories[i], mapped)
  {
    for i := 0 to |directories|
      invariant forall k :: 0 <= k < i ==>
        (directories[k].absolute ==> !directories[k].isLink && directories[k].isDirectory)
          && ApartFromRoutes(directories[k], mapped)
    {
      if directories[i].absolute {
        if directories[i].isLink { return Some(LinkedSource); }
        if !directories[i].isDirectory { return Some(MissingSource); }
      }
      for k := 0 to |mapped|
        invariant forall m :: 0 <= m < k ==> !Overlap(directories[i].path, mapped[m].path)
      {
        if mapped[k].path <= directories[i].path || directories[i].path <= mapped[k].path { return Some(RouteOverlap); }
      }
    }
    return None;
  }

  /** `validate_filesystem_paths`: rejects exactly the composite blocks that are not acceptable. */
  method ValidatePaths(b: Block) returns (rejected: Option<Rejection>, targets: Origins, folders: Origins)
    ensures rejected.None? <==> b.localShell || Acceptable(b)
    ensures rejected.None? && !b.localShell ==> Recorded(Claims(b), targets, folders)
  {
    hide Unreserved, RoutesApart, PathsDiffer, MappedSound, ClashFree, Recorded, AllDirectoryClaims, FileClaims,
      NotHidden, ApartFromRoutes;
    targets, folders := map[], map[];
    if b.localShell { return None, targets, folders; }
    rejected := CheckReserved(b);
    if rejected.Some? { return; }
    rejected := CheckRoutes(b.mapped);
    if rejected.Some? { return; }
    rejected := CheckDirectoryPaths(b.directories);
    if rejected.Some? { return; }
    rejected := CheckMapped(b.mapped);
    if rejected.Some? { return; }
    rejected := CheckDirectorySources(b.directories, b.mapped);
    if rejected.Some? { return; }
    rejected, targets, folders := ScanDirectories(b.directories);
    if rejected.Some? {
      if !ClashFree(AllDirectoryClaims(b.directories)) {
        ClashesTogether(b);
      }
      return;
    }
    rejected, targets := ScanFiles(b.files, b.mapped, targets, folders, AllDirectoryClaims(b.directories));
  }

  lemma ClashesTogether(b: Block)
    requires !ClashFree(AllDirectoryClaims(b.directories))
    ensures !ClashFree(Claims(b))
  {
    hide ClashFree;
    ClashFreePrefix(AllDirectoryClaims(b.directories), FileClaims(b.files));
  }

  // ----- what acceptance guarantees -----

  /** Every virtual path lies under at most one mapped route. */
  lemma AtMostOneRoute(b: Block, path: string, i: nat, j: nat)
    requires Acceptable(b) && i < |b.mapped| && j < |b.mapped|
    requires b.mapped[i].path <= path && b.mapped[j].path <= path
    ensures i == j
  {
    hide Unreserved, PathsDiffer, MappedSound, SoundDirectory, SoundFile, ClashFree, NotHidden, ApartFromRoutes;
    var a, c := b.mapped[i].path, b.mapped[j].path;
    assert if |a| <= |c| then a <= c else c <= a;
    assert Overlap(a, c) && Overlap(c, a);
  }

  /** The same in terms of segments: at most one mapped directory is a proper ancestor of a virtual file. */
  lemma AtMostOneMappedAncestor(b: Block, file: seq<string>, i: nat, j: nat, a: seq<string>, c: seq<string>)
    requires Acceptable(b) && i < |b.mapped| && j < |b.mapped|
    requires PlainSegments(file) && PlainSegments(a) && PlainSegments(c)
    requires b.mapped[i].path == DirectoryPath(a) && b.mapped[j].path == DirectoryPath(c)
    requires a < file && c < file
    ensures i == j && a == c
  {
    hide Acceptable, DirectoryPath, FilePath, PlainSegments;
    FileBelowDirectory(a, file);
    FileBelowDirectory(c, file);
    AtMostOneRoute(b, FilePath(file), i, j);
    DirectoryPrefix(a, c);
    DirectoryPrefix(c, a);
  }

  /** What is incomparable with a directory path is incomparable with everything in that directory. */
  lemma StaysApart(directory: string, relative: string, other: string)
    requires !Overlap(directory, other)
    ensures !Overlap(directory + relative, other)
  {
    var whole := directory + relative;
    assert directory <= whole;
    assert other <= whole ==> if |other| <= |directory| then other <= directory else directory <= other;
    assert whole <= other ==> directory <= other;
  }

  /** The claims of one virtual directory are its own root or lie below its path. */
  lemma {:induction false} EntryClaimKeys(d: VirtualDirectory, entries: seq<SourceEntry>)
    ensures forall i :: 0 <= i < |EntryClaims(d, entries)| ==> d.path <= EntryClaims(d, entries)[i].key
  {
    if entries != [] {
      EntryClaimKeys(d, entries[..|entries| - 1]);
      assert forall e: SourceEntry :: d.path <= d.path + e.relative;
    }
  }

  lemma {:induction false} DirectoryClaimKeys(directories: seq<VirtualDirectory>, claim: Claim)
    requires claim in AllDirectoryClaims(directories)
    ensures exists i ::
      0 <= i < |directories|
      && (directories[i].path <= claim.key || claim.key == RightStrip(directories[i].path))
  {
    hide RightStrip;
    var front, last := directories[..|directories| - 1], directories[|directories| - 1];
    if claim in AllDirectoryClaims(front) {
      DirectoryClaimKeys(front, claim);
      var i :| 0 <= i < |front| && (front[i].path <= claim.key || claim.key == RightStrip(front[i].path));
      assert front[i] == directories[i];
    } else {
      EntryClaimKeys(last, last.entries);
      assert claim in DirectoryClaims(last);
      assert directories[|directories| - 1] == last;
    }
  }

  lemma NormalRoot(path: string)
    requires ValidateDirectoryPath(path) == Normalized(path) && path != "/"
    ensures RightStrip(path) + "/" == path
  {
    hide ValidateDirectoryPath, ReplaceBackslashes, Split, Kept, RightStrip, Join, PlainSegments;
    AcceptedDirectory(path);
    var segments := Kept(Split(ReplaceBackslashes(path), '/'));
    var joined := Join(segments, "/");
    SlashedIsJoined(segments);
    JoinStartsPlain(segments);
    assert path == FilePath(segments) + "/" && FilePath(segments)[|joined|] == joined[|joined| - 1];
    RightStripPlain(FilePath(segments));
  }

  /**
   * In an accepted block no target of a virtual directory, including every directory and file expanded
   * from its source, touches a reserved namespace or a mapped route from either side.
   */
  lemma ExpansionsStayClear(b: Block, claim: Claim)
    requires Acceptable(b) && NormalBlock(b) && claim in AllDirectoryClaims(b.directories)
    ensures forall namespace :: namespace in RESERVED_NAMESPACES ==> !Overlap(claim.key + "/", namespace)
    ensures forall k :: 0 <= k < |b.mapped| ==> !Overlap(claim.key + "/", b.mapped[k].path)
  {
    hide PathsDiffer, MappedSound, SoundDirectory, SoundFile, ClashFree, NotHidden, RoutesApart, AllDirectoryClaims,
      RESERVED_NAMESPACES,
      ValidateDirectoryPath, ValidateFilePath, RightStrip;
    DirectoryClaimKeys(b.directories, claim);
    var i :| 0 <= i < |b.directories|
      && (b.directories[i].path <= claim.key || claim.key == RightStrip(b.directories[i].path));
    var path := b.directories[i].path;
    NotRoot(path);
    var relative := if path <= claim.key then claim.key[|path|..] + "/" else "";
    assert claim.key + "/" == path + relative by {
      if path <= claim.key { assert claim.key == path + claim.key[|path|..]; } else { NormalRoot(path); }
    }
    forall namespace | namespace in RESERVED_NAMESPACES ensures !Overlap(claim.key + "/", namespace) {
      assert !TouchesNamespace(path, namespace, true);
      StaysApart(path, relative, namespace);
    }
    forall k | 0 <= k < |b.mapped| ensures !Overlap(claim.key + "/", b.mapped[k].path) {
      StaysApart(path, relative, b.mapped[k].path);
    }
  }

  lemma NotRoot(path: string)
    requires Unreserved(path, true)
    ensures path != "/"
  {
    assert "/skills/" in RESERVED_NAMESPACES;
  }

  /** A virtual file of an accepted block is neither in nor at a reserved namespace, and no route hides it. */
  lemma FilesStayClear(b: Block, i: nat)
    requires Acceptable(b) && NormalBlock(b) && i < |b.files|
    ensures forall namespace :: namespace in RESERVED_NAMESPACES ==> !(namespace <= b.files[i].path + "/")
    ensures forall k :: 0 <= k < |b.mapped| ==> !(b.mapped[k].path <= b.files[i].path)
  {
    hide PathsDiffer, MappedSound, SoundDirectory, SoundFile, ClashFree, RoutesApart, RESERVED_NAMESPACES,
      ApartFromRoutes,
      ValidateDirectoryPath, ValidateFilePath, RightStrip;
    var path := b.files[i].path;
    NormalFile(path);
    forall namespace | namespace in RESERVED_NAMESPACES ensures !(namespace <= path + "/") {
      assert !TouchesNamespace(path, namespace, false);
      assert namespace <= path + "/" ==> namespace <= path || namespace == path + "/";
    }
  }

  lemma NormalFile(path: string)
    requires ValidateFilePath(path) == Normalized(path)
    ensures RightStrip(path + "/") == path
  {
    hide Split, Kept;
    AcceptedFile(path);
    JoinStartsPlain(Kept(Split(ReplaceBackslashes(path), '/')));
    RightStripPlain(path);
  }

  /**
   * What the dictionaries of an accepted block say: no file target and no directory target has two origins,
   * each dictionary holds the one origin of its targets, and a target that is both is a file on which a
   * virtual directory was put later.
   */
  lemma OneOrigin(b: Block, targets: Origins, folders: Origins)
    requires Acceptable(b) && Recorded(Claims(b), targets, folders)
    ensures forall key :: key in targets ==>
      exists i :: OnlyClaim(Claims(b), i, key, true) && targets[key] == Claims(b)[i].origin
    ensures forall key :: key in folders ==>
      exists i :: OnlyClaim(Claims(b), i, key, false) && folders[key] == Claims(b)[i].origin
    ensures forall i, j :: 0 <= i < j < |Claims(b)| && Claims(b)[i].key == Claims(b)[j].key ==>
      Claims(b)[i].Target? && Claims(b)[j].Root?
  {
    hide Claims, Unreserved, RoutesApart, PathsDiffer, MappedSound, SoundDirectory, SoundFile;
    var claims := Claims(b);
    forall i, j | 0 <= i < j < |claims| && claims[i].key == claims[j].key
      ensures claims[i].Target? && claims[j].Root?
    {
      assert !Clash(claims[i], claims[j]);
    }
    forall key | key in targets
      ensures exists i :: OnlyClaim(claims, i, key, true) && targets[key] == claims[i].origin
    {
      var i :| 0 <= i < |claims| && claims[i].Target? == true && claims[i].key == key;
      assert OnlyClaim(claims, i, key, true);
    }
    forall key | key in folders
      ensures exists i :: OnlyClaim(claims, i, key, false) && folders[key] == claims[i].origin
    {
      var i :| 0 <= i < |claims| && claims[i].Target? == false && claims[i].key == key;
      assert OnlyClaim(claims, i, key, false);
    }
  }

  /** The one claim of its sort on a target. */
  predicate OnlyClaim(claims: seq<Claim>, i: int, key: string, target: bool) {
    0 <= i < |claims| && claims[i].key == key && claims[i].Target? == target
    && forall j :: 0 <= j < |claims| && claims[j].key == key && claims[j].Target? == target ==> j == i
  }

  /** File and directory targets are disjoint exactly when no virtual directory is put on a file claimed before it. */
  lemma DisjointTargets(b: Block, targets: Origins, folders: Origins)
    requires Acceptable(b) && Recorded(Claims(b), targets, folders)
    ensures targets.Keys !! folders.Keys <==>
      forall i, j :: 0 <= i < j < |Claims(b)| && Claims(b)[i].Target? && Claims(b)[j].Root? ==>
        Claims(b)[i].key != Claims(b)[j].key
  {
    hide Claims, Acceptable, ClashFree, Claimed;
    var claims := Claims(b);
    if i, j :| 0 <= i < j < |claims| && claims[i].Target? && claims[j].Root? && claims[i].key == claims[j].key {
      assert claims[i].key in targets && claims[j].key in folders;
    }
    if !(targets.Keys !! folders.Keys) {
      var key :| key in targets && key in folders;
      var i := ClaimOf(claims, targets, key, true);
      var j := ClaimOf(claims, folders, key, false);
      hide OnlyClaim, Recorded;
      OneOrigin(b, targets, folders);
    }
  }

  lemma ClaimOf(claims: seq<Claim>, origins: Origins, key: string, target: bool) returns (i: nat)
    requires Holds(claims, origins, target) && key in origins
    ensures i < |claims| && claims[i].Target? == target && claims[i].key == key
  {
    i :| 0 <= i < |claims| && claims[i].Target? == target && claims[i].key == key;
  }

  // ----- the order of virtual directories -----

  /** The block with the virtual directory at `i` and the next one exchanged. */
  function Swapped(b: Block, i: nat): Block
    requires i + 1 < |b.directories|
  {
    b.(directories := b.directories[..i] + [b.directories[i + 1], b.directories[i]] + b.directories[i + 2..])
  }

  /**
   * The unnoticed case is real: exchanging two neighbouring virtual directories of an accepted block gives
   * an accepted block exactly if the root of the second one is no file of the first.
   */
  lemma OrderDecides(b: Block, i: nat)
    requires Acceptable(b) && i + 1 < |b.directories|
    ensures Acceptable(Swapped(b, i)) <==>
      !Claimed(DirectoryClaims(b.directories[i]), RightStrip(b.directories[i + 1].path), true)
  {
    SwappedConditions(b, i);
    hide Acceptable, Claimed;
    SwappedClaims(b, i);
  }

  lemma SwappedClaims(b: Block, i: nat)
    requires ClashFree(Claims(b)) && i + 1 < |b.directories|
    ensures ClashFree(Claims(Swapped(b, i))) <==>
      !Claimed(DirectoryClaims(b.directories[i]), RightStrip(b.directories[i + 1].path), true)
  {
    hide RightStrip, ClashFree, AllDirectoryClaims;
    var first, d, e, rest := b.directories[..i], b.directories[i], b.directories[i + 1], b.directories[i + 2..];
    assert b.directories == first + [d, e] + rest;
    ClaimsAround(b, first, d, e, rest);
    ClaimsAround(Swapped(b, i), first, e, d, rest);
    RootsFirst(d);
    RootsFirst(e);
    hide DirectoryClaims, Claims, Claimed;
    var before, after := AllDirectoryClaims(first), AllDirectoryClaims(rest) + FileClaims(b.files);
    SwapGroups(before, DirectoryClaims(d), DirectoryClaims(e), after, RightStrip(e.path));
  }

  lemma SwappedConditions(b: Block, i: nat)
    requires Acceptable(b) && i + 1 < |b.directories|
    ensures ClashFree(Claims(b)) && (Acceptable(Swapped(b, i)) <==> ClashFree(Claims(Swapped(b, i))))
  {
    hide Unreserved, RoutesApart, MappedSound, SoundDirectory, ApartFromRoutes, SoundFile, NotHidden, Claims, ClashFree,
      PathsDiffer,
      Swapped;
    SwappedDirectories(b, i);
  }

  /** All conditions but the one on claims do not look at the order. */
  lemma SwappedDirectories(b: Block, i: nat)
    requires i + 1 < |b.directories| && PathsDiffer(b.directories)
    ensures Swapped(b, i) == b.(directories := Swapped(b, i).directories)
      && |Swapped(b, i).directories| == |b.directories|
    ensures PathsDiffer(Swapped(b, i).directories)
    ensures forall k :: 0 <= k < |b.directories| ==>
      Swapped(b, i).directories[k] == b.directories[if k == i then i + 1 else if k == i + 1 then i else k]
    ensures forall k :: 0 <= k < |b.directories| ==>
      b.directories[k] == Swapped(b, i).directories[if k == i then i + 1 else if k == i + 1 then i else k]
  {
  }

  lemma {:induction false} ClaimsOfBoth(a: seq<VirtualDirectory>, b: seq<VirtualDirectory>)
    ensures AllDirectoryClaims(a + b) == AllDirectoryClaims(a) + AllDirectoryClaims(b)
  {
    hide DirectoryClaims;
    if b == [] {
      assert a + b == a;
    } else {
      var n := |b| - 1;
      assert (a + b)[..|a| + n] == a + b[..n];
      ClaimsOfBoth(a, b[..n]);
    }
  }

  lemma ClaimsAround(b: Block, before: seq<VirtualDirectory>, d: VirtualDirectory, e: VirtualDirectory,
    rest: seq<VirtualDirectory>)
    requires b.directories == before + [d, e] + rest
    ensures Claims(b) ==
      AllDirectoryClaims(before) + DirectoryClaims(d) + DirectoryClaims(e)
        + (AllDirectoryClaims(rest) + FileClaims(b.files))
  {
    hide DirectoryClaims, AllDirectoryClaims, FileClaims;
    ClaimsOfBoth(before + [d, e], rest);
    ClaimsOfBoth(before, [d, e]);
    TwoDirectories(d, e);
  }

  /** No claim of the first list clashes with a later one of the second. */
  ghost predicate Apart(a: seq<Claim>, b: seq<Claim>) {
    forall i, j :: 0 <= i < |a| && 0 <= j < |b| ==> !Clash(a[i], b[j])
  }

  lemma ClashFreeBoth(a: seq<Claim>, b: seq<Claim>)
    ensures ClashFree(a + b) <==> ClashFree(a) && ClashFree(b) && Apart(a, b)
  {
    hide Clash;
    var all := a + b;
    if ClashFree(all) {
      forall i, j | 0 <= i < j < |a| ensures !Clash(a[i], a[j]) { assert !Clash(all[i], all[j]); }
      forall i, j | 0 <= i < j < |b| ensures !Clash(b[i], b[j]) { assert !Clash(all[|a| + i], all[|a| + j]); }
      forall i, j | 0 <= i < |a| && 0 <= j < |b| ensures !Clash(a[i], b[j]) { assert !Clash(all[i], all[|a| + j]); }
    }
  }

  lemma ApartBoth(a: seq<Claim>, b: seq<Claim>, c: seq<Claim>)
    ensures Apart(a + b, c) <==> Apart(a, c) && Apart(b, c)
    ensures Apart(c, a + b) <==> Apart(c, a) && Apart(c, b)
  {
    hide Clash;
    var all := a + b;
    assert forall i :: 0 <= i < |a| ==> all[i] == a[i];
    assert forall i :: 0 <= i < |b| ==> all[|a| + i] == b[i];
  }

  lemma GroupsApart(before: seq<Claim>, first: seq<Claim>, second: seq<Claim>, after: seq<Claim>)
    ensures ClashFree(before + first + second + after) <==>
      ClashFree(before) && ClashFree(first) && ClashFree(second) && ClashFree(after)
      && Apart(before, first) && Apart(before, second) && Apart(first, second)
      && Apart(before, after) && Apart(first, after) && Apart(second, after)
  {
    hide ClashFree, Apart;
    ClashFreeBoth(before + first + second, after);
    ClashFreeBoth(before + first, second);
    ClashFreeBoth(before, first);
    ApartBoth(before + first, second, after);
    ApartBoth(before, first, after);
    ApartBoth(before, first, second);
  }

  /** Exchanging two neighbouring groups, of which the second starts with its only root. */
  lemma SwapGroups(before: seq<Claim>, first: seq<Claim>, second: seq<Claim>, after: seq<Claim>, key: string)
    requires ClashFree(before + first + second + after)
    requires |second| > 0 && second[0].Root? && second[0].key == key
    requires forall i :: 0 < i < |second| ==> !second[i].Root?
    ensures ClashFree(before + second + first + after) <==> !Claimed(first, key, true)
  {
    GroupsApart(before, first, second, after);
    GroupsApart(before, second, first, after);
    hide ClashFree;
    if Claimed(first, key, true) {
      var i :| 0 <= i < |first| && first[i].Target? == true && first[i].key == key;
      assert Clash(second[0], first[i]);
    } else {
      forall j | 0 <= j < |first| && first[j].Target? ensures first[j].key != key { ClaimedAt(first, j); }
      forall i, j | 0 <= i < |second| && 0 <= j < |first| ensures !Clash(second[i], first[j]) {
        assert !Clash(first[j], second[i]);
      }
    }
  }

  lemma ClaimedAt(claims: seq<Claim>, j: nat)
    requires j < |claims| && claims[j].Target?
    ensures Claimed(claims, claims[j].key, true)
  {
  }

  /** A directory claims its root first, and no other root. */
  lemma RootsFirst(d: VirtualDirectory)
    ensures var claims := DirectoryClaims(d);
      |claims| > 0 && claims[0] == Root(RightStrip(d.path), d.source)
      && forall i :: 0 < i < |claims| ==> !claims[i].Root?
  {
    hide RightStrip;
    EntriesHaveNoRoot(d, d.entries);
  }

  lemma {:induction false} EntriesHaveNoRoot(d: VirtualDirectory, entries: seq<SourceEntry>)
    ensures forall i :: 0 <= i < |EntryClaims(d, entries)| ==> !EntryClaims(d, entries)[i].Root?
  {
    if entries != [] { EntriesHaveNoRoot(d, entries[..|entries| - 1]); }
  }

  lemma TwoDirectories(d: VirtualDirectory, e: VirtualDirectory)
    ensures AllDirectoryClaims([d, e]) == DirectoryClaims(d) + DirectoryClaims(e)
  {
    hide DirectoryClaims;
    assert [d, e][..1] == [d] && [d][..0] == [];
    assert AllDirectoryClaims([d]) == [] + DirectoryClaims(d);
  }

  /** A virtual directory with one file, and a second virtual directory put on that file. */
  function OnFile(source: string, other: string): Block {
    Block(false, [], [
      VirtualDirectory("/a/", source, true, false, true, [SourceEntry("f", Regular)]),
      VirtualDirectory("/a/f/", other, false, false, false, [])], [])
  }

  /**
   * Such a block is accepted, its file and directory targets overlap, and with the directories exchanged it
   * is rejected.
   */
  lemma OrderDecidesExample(source: string, other: string, targets: Origins, folders: Origins)
    requires Recorded(Claims(OnFile(source, other)), targets, folders)
    ensures NormalBlock(OnFile(source, other)) && Acceptable(OnFile(source, other))
    ensures "/a/f" in targets && "/a/f" in folders
    ensures !Acceptable(Swapped(OnFile(source, other), 0))
  {
    OnFileIsNormal(source, other);
    OnFileIsAccepted(source, other);
    ClaimsOnFile(source, other);
    hide Acceptable, ClashFree;
    var b := OnFile(source, other);
    var claims := Claims(b);
    assert claims[1].Target? && claims[2].Root? && claims[1].key == claims[2].key == "/a/f";
    OrderDecides(b, 0);
    FileOfFirst(source, other);
  }

  lemma OnFileIsAccepted(source: string, other: string)
    ensures Acceptable(OnFile(source, other))
  {
    ClaimsOnFile(source, other);
    hide Claims, RightStrip, SoundFile, NotHidden;
    var b := OnFile(source, other);
    forall i | 0 <= i < |b.directories| ensures Unreserved(b.directories[i].path, true) {
      BelowAIsUnreserved(b.directories[i].path);
    }
    assert |b.directories[0].path| != |b.directories[1].path|;
  }

  lemma BelowAIsUnreserved(path: string)
    requires 1 < |path| < 8 && path[1] == 'a'
    ensures Unreserved(path, true)
  {
    forall namespace | namespace in RESERVED_NAMESPACES ensures !TouchesNamespace(path, namespace, true) {
      assert |namespace| >= 8 && namespace[1] != 'a';
    }
  }

  lemma FileOfFirst(source: string, other: string)
    ensures var b := OnFile(source, other);
      Claimed(DirectoryClaims(b.directories[0]), RightStrip(b.directories[1].path), true)
  {
    hide RightStrip;
    var d := OnFile(source, other).directories[0];
    OneEntry(d, SourceEntry("f", Regular));
    RightStripPlain("/a/f");
    assert "/a/f" + "/" == "/a/f/" && "/a/" + "f" == "/a/f";
    assert DirectoryClaims(d)[1].key == "/a/f" && DirectoryClaims(d)[1].Target?;
  }

  lemma OnFileIsNormal(source: string, other: string)
    ensures NormalBlock(OnFile(source, other))
  {
    hide ValidateDirectoryPath;
    DirectoryIsFixed(["a"]);
    DirectoryIsFixed(["a", "f"]);
    assert DirectoryPath(["a"]) == "/a/" && DirectoryPath(["a", "f"]) == "/a/f/";
  }

  lemma ClaimsOnFile(source: string, other: string)
    ensures Claims(OnFile(source, other))
      == [Root("/a", source), Target("/a/f", source + "/" + "f"), Root("/a/f", other)]
  {
    hide RightStrip, AllDirectoryClaims, EntryClaims;
    var b := OnFile(source, other);
    RightStripPlain("/a");
    RightStripPlain("/a/f");
    OneEntry(b.directories[0], SourceEntry("f", Regular));
    TwoDirectories(b.directories[0], b.directories[1]);
    assert b.directories == [b.directories[0], b.directories[1]];
    assert "/a" + "/" == "/a/" && "/a/f" + "/" == "/a/f/" && "/a/" + "f" == "/a/f";
  }

  lemma OneEntry(d: VirtualDirectory, entry: SourceEntry)
    requires d.entries == [entry]
    ensures EntryClaims(d, d.entries) == EntryClaim(d, entry)
  {
    assert d.entries[..0] == [];
    assert EntryClaims(d, []) == [];
  }
}
