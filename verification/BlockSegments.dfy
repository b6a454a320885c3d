/** The acceptance conditions of a filesystem block in terms of path segments. */
module BlockSegments {
  import opened Text
  import opened VirtualPaths
  import opened FilesystemBlock

  /** First segments that belong to the system. */
  const RESERVED_NAMES := {"large_tool_results", "conversation_history", "skills", "memory", "memories"}

  /** The segments of a normal path. */
  function Segments(path: string): seq<string> {
    Kept(Split(ReplaceBackslashes(path), '/'))
  }

  lemma NormalDirectory(path: string)
    requires ValidateDirectoryPath(path) == Normalized(path)
    ensures PlainSegments(Segments(path)) && path == DirectoryPath(Segments(path))
  {
    hide ValidateDirectoryPath, Split, Kept, ReplaceBackslashes;
    AcceptedDirectory(path);
  }

  lemma NormalFilePath(path: string)
    requires ValidateFilePath(path) == Normalized(path)
    ensures PlainSegments(Segments(path)) && Segments(path) != [] && path == FilePath(Segments(path))
  {
    hide ValidateFilePath, Split, Kept, ReplaceBackslashes;
    AcceptedFile(path);
  }

  // ----- reserved namespaces -----

  lemma OneSegment(name: string)
    ensures DirectoryPath([name]) == "/" + name + "/" && FilePath([name]) == "/" + name
  {
    assert [name][1..] == [] && Slashed([]) == "";
    assert Slashed([name]) == name + "/" + "";
  }

  /** Each reserved namespace is the directory of one reserved name. */
  lemma NamespaceIsDirectory(name: string)
    requires name in RESERVED_NAMES
    ensures PlainSegments([name]) && DirectoryPath([name]) in RESERVED_NAMESPACES
    ensures RightStrip(DirectoryPath([name])) == FilePath([name])
  {
    hide RightStrip, DirectoryPath;
    OneSegment(name);
    Namespaces();
    RightStripPlain("/" + name);
  }

  lemma Namespaces()
    ensures forall namespace :: namespace in RESERVED_NAMESPACES <==>
      exists name :: name in RESERVED_NAMES && namespace == "/" + name + "/"
  {
    assert "/" + "large_tool_results" + "/" == RESERVED_NAMESPACES[0];
    assert "/" + "conversation_history" + "/" == RESERVED_NAMESPACES[1];
    assert "/" + "skills" + "/" == RESERVED_NAMESPACES[2];
    assert "/" + "memory" + "/" == RESERVED_NAMESPACES[3];
    assert "/" + "memories" + "/" == RESERVED_NAMESPACES[4];
    forall namespace | namespace in RESERVED_NAMESPACES
      ensures exists name :: name in RESERVED_NAMES && namespace == "/" + name + "/"
    {
      var k :| 0 <= k < |RESERVED_NAMESPACES| && RESERVED_NAMESPACES[k] == namespace;
      var names := ["large_tool_results", "conversation_history", "skills", "memory", "memories"];
      assert names[k] in RESERVED_NAMES && namespace == "/" + names[k] + "/";
    }
  }

  lemma NamespaceHasName(namespace: string) returns (name: string)
    requires namespace in RESERVED_NAMESPACES
    ensures name in RESERVED_NAMES && namespace == DirectoryPath([name])
  {
    hide RESERVED_NAMESPACES, RESERVED_NAMES, DirectoryPath;
    Namespaces();
    name :| name in RESERVED_NAMES && namespace == "/" + name + "/";
    OneSegment(name);
  }

  /** A directory path is free of the reserved namespaces if it is not the root and starts with no reserved name. */
  lemma UnreservedDirectory(segments: seq<string>)
    requires PlainSegments(segments)
    ensures Unreserved(DirectoryPath(segments), true) <==> segments != [] && segments[0] !in RESERVED_NAMES
  {
    hide RESERVED_NAMESPACES, RESERVED_NAMES, RightStrip, DirectoryPath;
    var path := DirectoryPath(segments);
    if segments == [] {
      SomeName();
      NamespaceIsDirectory("skills");
      DirectoryPrefix(segments, ["skills"]);
    } else if segments[0] in RESERVED_NAMES {
      NamespaceIsDirectory(segments[0]);
      DirectoryPrefix([segments[0]], segments);
    } else {
      forall namespace | namespace in RESERVED_NAMESPACES ensures !TouchesNamespace(path, namespace, true) {
        var name := NamespaceHasName(namespace);
        NamespaceIsDirectory(name);
        DirectoryPrefix([name], segments);
        DirectoryPrefix(segments, [name]);
      }
    }
  }

  lemma SomeName()
    ensures "skills" in RESERVED_NAMES
  {
  }

  lemma UnreservedFile(segments: seq<string>)
    requires PlainSegments(segments) && segments != []
    ensures Unreserved(FilePath(segments), false) <==> segments[0] !in RESERVED_NAMES
  {
    hide RESERVED_NAMESPACES, RESERVED_NAMES, RightStrip, DirectoryPath;
    var path := FilePath(segments);
    if segments[0] in RESERVED_NAMES {
      NamespaceIsDirectory(segments[0]);
      FileBelowDirectory([segments[0]], segments);
      if |segments| == 1 { assert segments == [segments[0]]; }
    } else {
      forall namespace | namespace in RESERVED_NAMESPACES ensures !TouchesNamespace(path, namespace, false) {
        var name := NamespaceHasName(namespace);
        NamespaceIsDirectory(name);
        FileBelowDirectory([name], segments);
        if path == FilePath([name]) { SameFile(segments, [name]); }
      }
    }
  }

  lemma SameFile(a: seq<string>, b: seq<string>)
    requires PlainSegments(a) && PlainSegments(b) && a != [] && b != [] && FilePath(a) == FilePath(b)
    ensures a == b
  {
    assert FilePath(a)[1..] == Join(a, "/") && FilePath(b)[1..] == Join(b, "/");
    JoinInjective(a, b, '/');
  }

  // ----- names of virtual files -----

  /** The name check compares the source name with the last segment. */
  lemma NameIsLastSegment(segments: seq<string>)
    requires PlainSegments(segments) && segments != []
    ensures LastSegment(FilePath(segments)) == segments[|segments| - 1]
  {
    hide Split;
    SplitFilePath(segments);
  }

  // ----- the whole block -----

  /** Not the root, and not in a reserved namespace. */
  predicate Free(path: string) {
    Segments(path) != [] && Segments(path)[0] !in RESERVED_NAMES
  }

  predicate Nested(path: string, other: string) {
    Segments(path) <= Segments(other) || Segments(other) <= Segments(path)
  }

  /** A virtual file is called like its source. */
  predicate NameMatches(f: VirtualFile) {
    Segments(f.path) != [] && f.sourceName == Segments(f.path)[|Segments(f.path)| - 1]
  }

  predicate DirectorySource(d: VirtualDirectory) {
    d.absolute ==> !d.isLink && d.isDirectory && forall entry :: entry in d.entries ==> entry.kind != Link
  }

  /** Existing local sources are of the right kind and no links; mapped local directories differ. */
  ghost predicate SourcesExist(b: Block) {
    && (forall m :: m in b.mapped && m.absolute ==> m.isDirectory)
    && (forall i, j :: 0 <= i < j < |b.mapped| ==>
          b.mapped[i].local != b.mapped[j].local || b.mapped[i].absolute != b.mapped[j].absolute)
    && (forall d :: d in b.directories ==> DirectorySource(d))
    && (forall f :: f in b.files && f.absolute ==> !f.isLink && f.isFile)
  }

  ghost predicate PathsFree(b: Block) {
    && (forall m :: m in b.mapped ==> Free(m.path))
    && (forall d :: d in b.directories ==> Free(d.path))
    && (forall f :: f in b.files ==> Free(f.path))
  }

  /** No nesting with or among mapped directories, and every virtual directory path used once. */
  ghost predicate PathsApart(b: Block) {
    && (forall i, j :: 0 <= i < j < |b.mapped| ==> !Nested(b.mapped[i].path, b.mapped[j].path))
    && (forall i, j :: 0 <= i < j < |b.directories| ==>
         Segments(b.directories[i].path) != Segments(b.directories[j].path))
    && (forall d, m :: d in b.directories && m in b.mapped ==> !Nested(d.path, m.path))
    && (forall f, m :: f in b.files && m in b.mapped ==> !(Segments(m.path) < Segments(f.path)))
  }

  lemma DirectoriesCompare(path: string, other: string)
    requires ValidateDirectoryPath(path) == Normalized(path) && ValidateDirectoryPath(other) == Normalized(other)
    ensures Overlap(path, other) <==> Nested(path, other)
    ensures path == other <==> Segments(path) == Segments(other)
    ensures Unreserved(path, true) <==> Free(path)
  {
    hide ValidateDirectoryPath, Segments, DirectoryPath, Unreserved, RESERVED_NAMES;
    NormalDirectory(path);
    NormalDirectory(other);
    DirectoryPrefix(Segments(path), Segments(other));
    DirectoryPrefix(Segments(other), Segments(path));
    UnreservedDirectory(Segments(path));
  }

  lemma FileCompares(f: VirtualFile)
    requires ValidateFilePath(f.path) == Normalized(f.path)
    ensures Unreserved(f.path, false) <==> Free(f.path)
    ensures SoundFile(f) <==> (f.absolute ==> !f.isLink && f.isFile) && NameMatches(f)
  {
    hide ValidateFilePath, Segments, FilePath, Unreserved, RESERVED_NAMES, LastSegment;
    NormalFilePath(f.path);
    UnreservedFile(Segments(f.path));
    NameIsLastSegment(Segments(f.path));
  }

  lemma FileBelow(path: string, file: string)
    requires ValidateDirectoryPath(path) == Normalized(path) && ValidateFilePath(file) == Normalized(file)
    ensures path <= file <==> Segments(path) < Segments(file)
  {
    hide ValidateDirectoryPath, ValidateFilePath, Segments, DirectoryPath, FilePath;
    NormalDirectory(path);
    NormalFilePath(file);
    FileBelowDirectory(Segments(path), Segments(file));
  }

  lemma SourceCompares(d: VirtualDirectory)
    ensures SoundDirectory(d) <==> DirectorySource(d)
  {
    assert forall k :: 0 <= k < |d.entries| ==> d.entries[k] in d.entries;
  }

  /** A normal block is acceptable exactly if its segments are; what remains are the claims on targets. */
  lemma AcceptableInSegments(b: Block)
    requires NormalBlock(b)
    ensures Acceptable(b) <==>
      PathsFree(b) && PathsApart(b) && SourcesExist(b) && (forall f :: f in b.files ==> NameMatches(f))
        && ClashFree(Claims(b))
  {
    hide ValidateDirectoryPath, ValidateFilePath, Segments, Unreserved, Overlap, Nested, Free, SoundFile, NameMatches,
      SoundDirectory, DirectorySource, ClashFree, Claims;
    forall i | 0 <= i < |b.files|
      ensures Unreserved(b.files[i].path, false) <==> Free(b.files[i].path)
      ensures SoundFile(b.files[i]) <==>
        (b.files[i].absolute ==> !b.files[i].isLink && b.files[i].isFile) && NameMatches(b.files[i])
    {
      FileCompares(b.files[i]);
    }
    forall i | 0 <= i < |b.mapped| ensures Unreserved(b.mapped[i].path, true) <==> Free(b.mapped[i].path) {
      DirectoriesCompare(b.mapped[i].path, b.mapped[i].path);
    }
    forall i | 0 <= i < |b.directories|
      ensures Unreserved(b.directories[i].path, true) <==> Free(b.directories[i].path)
      ensures SoundDirectory(b.directories[i]) <==> DirectorySource(b.directories[i])
    {
      DirectoriesCompare(b.directories[i].path, b.directories[i].path);
      SourceCompares(b.directories[i]);
    }
    PathsCompare(b);
  }

  lemma PathsCompare(b: Block)
    requires NormalBlock(b)
    ensures PathsApart(b) <==>
      RoutesApart(b.mapped) && PathsDiffer(b.directories)
      && (forall i :: 0 <= i < |b.directories| ==> ApartFromRoutes(b.directories[i], b.mapped))
      && (forall i :: 0 <= i < |b.files| ==> NotHidden(b.files[i], b.mapped))
  {
    hide ValidateDirectoryPath, ValidateFilePath, Segments, Overlap, Nested;
    forall i, j | 0 <= i < |b.mapped| && 0 <= j < |b.mapped|
      ensures Overlap(b.mapped[i].path, b.mapped[j].path) <==> Nested(b.mapped[i].path, b.mapped[j].path)
    {
      DirectoriesCompare(b.mapped[i].path, b.mapped[j].path);
    }
    forall i, j | 0 <= i < |b.directories| && 0 <= j < |b.directories|
      ensures b.directories[i].path == b.directories[j].path
        <==> Segments(b.directories[i].path) == Segments(b.directories[j].path)
    {
      DirectoriesCompare(b.directories[i].path, b.directories[j].path);
    }
    forall i, j | 0 <= i < |b.directories| && 0 <= j < |b.mapped|
      ensures Overlap(b.directories[i].path, b.mapped[j].path) <==> Nested(b.directories[i].path, b.mapped[j].path)
    {
      DirectoriesCompare(b.directories[i].path, b.mapped[j].path);
    }
    forall i, j | 0 <= i < |b.files| && 0 <= j < |b.mapped|
      ensures b.mapped[j].path <= b.files[i].path <==> Segments(b.mapped[j].path) < Segments(b.files[i].path)
    {
      FileBelow(b.mapped[j].path, b.files[i].path);
    }
  }

  lemma FileIsFixed(segments: seq<string>)
    requires PlainSegments(segments) && segments != []
    ensures ValidateFilePath(FilePath(segments)) == Normalized(FilePath(segments))
  {
    hide ValidateVirtualPath, Split;
    var path := FilePath(segments);
    CanonicalIsFixed(segments);
    FilePathCharacters(segments);
    ReplaceNothing(path);
    JoinStartsPlain(segments);
    assert path[|path| - 1] == Join(segments, "/")[|Join(segments, "/")| - 1];
  }

  /** A block with one virtual file. */
  function OneFile(segments: seq<string>, source: string, name: string): Block {
    Block(false, [], [], [VirtualFile(FilePath(segments), source, name, true, false, true)])
  }

  /** Such a block is accepted exactly if the path is free and the file is called like its source. */
  lemma OneFileIsAccepted(segments: seq<string>, source: string, name: string)
    requires PlainSegments(segments) && segments != []
    ensures NormalBlock(OneFile(segments, source, name))
    ensures Acceptable(OneFile(segments, source, name)) <==>
      segments[0] !in RESERVED_NAMES && name == segments[|segments| - 1]
  {
    hide ValidateFilePath, Segments, RESERVED_NAMES, FilePath;
    var b := OneFile(segments, source, name);
    FileIsFixed(segments);
    NormalFilePath(FilePath(segments));
    SameFile(segments, Segments(FilePath(segments)));
    AcceptableInSegments(b);
    OneClaim(b);
  }

  lemma OneClaim(b: Block)
    requires b.directories == [] && |b.files| == 1
    ensures ClashFree(Claims(b))
  {
    assert b.files[..0] == [] && FileClaims([]) == [];
    assert |FileClaims(b.files)| == 1;
  }
}
