/** Path parsing, access modes and capabilities of the file manager. */
module FileAccess {
  import opened Text
  import opened FileTree

  datatype Error =
    | PathInvalid | NotFound | Denied | OperationFailed | AlreadyExists
    | NotRegular | RevisionConflict | SelectionRequired | ArchiveNameConflict

  datatype Result<+T> = Ok(value: T) | Err(error: Error) {
    predicate IsFailure() { Err? }
    function PropagateFailure<U>(): Result<U> requires Err? { Err(error) }
    function Extract(): T requires Ok? { value }
  }

  datatype AccessMode = Navigation | ReadOnly | Editable
  datatype Kind = Directory | RegularFile
  datatype Capability = List | Read | Create | Upload | Write | Download | Archive | MayRename | MayDelete

  /** What the service is configured with: the loadable repositories and the content digest. */
  datatype Environment = Environment(repositories: set<string>, digest: Bytes -> string)

  const TEMPORARY_PREFIX := ".agent-shell-write-"
  const REPOSITORIES := "config_repos"

  predicate EditableDataRoot(name: string) {
    name == "files" || name == "skills-template" || name == "templates"
  }

  predicate EditableRepositoryRoot(name: string) {
    name == "python_packages" || name == "skill_packages"
  }

  predicate ReadOnlyRepositoryRoot(name: string) {
    name == "components" || name == "agents" || name == "workflows"
  }

  predicate InvalidCharacter(c: char) {
    c as int < 32 || c in {'<', '>', ':', '"', '/', '\\', '|', '?', '*'}
  }

  /** The device names Windows reserves. */
  predicate ReservedName(stem: string) {
    stem in {
      "CON", "PRN", "AUX", "NUL",
      "COM1", "COM2", "COM3", "COM4", "COM5", "COM6", "COM7", "COM8", "COM9",
      "LPT1", "LPT2", "LPT3", "LPT4", "LPT5", "LPT6", "LPT7", "LPT8", "LPT9"
    }
  }

  predicate ValidSegment(segment: string) {
    && segment != "" && segment != "." && segment != ".."
    && !(TEMPORARY_PREFIX <= segment)
    && segment[|segment| - 1] != ' ' && segment[|segment| - 1] != '.'
    && (forall c :: c in segment ==> !InvalidCharacter(c))
    && !ReservedName(Upper(Split(segment, '.')[0]))
  }

  /** A name without dots and refused characters that is longer than any device name. */
  predicate PlainName(segment: string) {
    |segment| > 4 && forall c :: c in segment ==> c >= ' ' && c !in "<>:\"/\\|?*."
  }

  /** Such names are accepted, with or without an extension, unless their ends are refused. */
  lemma PlainNamesAreValid(segment: string, extension: string)
    requires PlainName(segment) && PlainName(extension)
    ensures ValidSegment(segment) <==> segment[|segment| - 1] != ' ' && !(".agent-shell-write-" <= segment)
    ensures ValidSegment(segment + "." + extension) <==> extension[|extension| - 1] != ' '
  {
    var dotted := segment + "." + extension;
    PlainStem(segment, "");
    PlainStem(segment, extension);
    assert segment + "" == segment && dotted[0] == segment[0] && dotted[|dotted| - 1] == extension[|extension| - 1];
    assert segment[0] in segment && segment[|segment| - 1] in segment && extension[|extension| - 1] in extension;
  }

  lemma PlainStem(segment: string, extension: string)
    requires PlainName(segment)
    ensures Split(segment, '.')[0] == segment && Split(segment + "." + extension, '.')[0] == segment
    ensures !ReservedName(Upper(segment))
  {
    SplitPlain(segment, '.');
    SplitAfterPrefix(segment, extension, '.');
    assert segment + (['.'] + extension) == segment + "." + extension;
  }

  /** A device name is refused in any case and with any extension. */
  lemma DeviceNamesAreRefused(name: string, extension: string)
    requires Upper(name) in {"CON", "PRN", "AUX", "NUL"}
      || (|name| == 4 && Upper(name)[..3] in {"COM", "LPT"} && '1' <= name[3] <= '9')
    ensures !ValidSegment(name) && !ValidSegment(name + "." + extension)
  {
    DeviceNames(name);
    forall i | 0 <= i < |name| ensures name[i] != '.' { assert Upper(name)[i] in Upper(name); }
    SplitPlain(name, '.');
    SplitAfterPrefix(name, extension, '.');
    assert name + (['.'] + extension) == name + "." + extension;
  }

  lemma DeviceNames(name: string)
    requires Upper(name) in {"CON", "PRN", "AUX", "NUL"}
      || (|name| == 4 && Upper(name)[..3] in {"COM", "LPT"} && '1' <= name[3] <= '9')
    ensures ReservedName(Upper(name)) && '.' !in Upper(name)
  {
    if |name| == 4 {
      var upper := Upper(name);
      assert upper == upper[..3] + [upper[3]] && upper[3] == name[3];
      if upper[3] == '1' { assert upper == "COM1" || upper == "LPT1"; }
      if upper[3] == '2' { assert upper == "COM2" || upper == "LPT2"; }
      if upper[3] == '3' { assert upper == "COM3" || upper == "LPT3"; }
      if upper[3] == '4' { assert upper == "COM4" || upper == "LPT4"; }
      if upper[3] == '5' { assert upper == "COM5" || upper == "LPT5"; }
      if upper[3] == '6' { assert upper == "COM6" || upper == "LPT6"; }
      if upper[3] == '7' { assert upper == "COM7" || upper == "LPT7"; }
      if upper[3] == '8' { assert upper == "COM8" || upper == "LPT8"; }
      if upper[3] == '9' { assert upper == "COM9" || upper == "LPT9"; }
    }
  }

  /** Refused wherever they stand: control characters and those that Windows reserves. */
  lemma CharactersAreRefused(segment: string, c: char)
    requires c in segment && (c < ' ' || c in "<>:\"/\\|?*")
    ensures !ValidSegment(segment)
  {
  }

  /** Refused at the ends: a closing space or dot, and the prefix of temporaries; and the empty name. */
  lemma EndsAreRefused(segment: string)
    requires segment == "" || segment[|segment| - 1] == ' ' || segment[|segment| - 1] == '.'
      || ".agent-shell-write-" <= segment
    ensures !ValidSegment(segment)
  {
  }

  predicate Temporary(segment: string) {
    TEMPORARY_PREFIX <= segment
  }

  /** The parts `PurePosixPath` sees: empty and "." components vanish. */
  function PosixParts(components: seq<string>): seq<string> {
    if components == [] then []
    else (if components[0] == "" || components[0] == "." then [] else [components[0]]) + PosixParts(components[1..])
  }

  /** A Windows drive letter or a UNC share in front of the path. */
  predicate HasDrive(value: string) {
    |value| >= 2 && (value[1] == ':' || (value[0] == '/' && value[1] == '/'))
  }

  function Parts(value: string): Result<Path> {
    if value == "" || '\\' in value || HasDrive(value) then Err(PathInvalid)
    else
      var parts := PosixParts(Split(value, '/'));
      if value[0] == '/' || parts == [] || value != Join(parts, "/") || parts[0] != "data" then Err(PathInvalid)
      else if exists segment :: segment in parts && !ValidSegment(segment) then Err(PathInvalid)
      else Ok(parts)
  }

  /** The paths a caller may name: segments valid one by one, below "data". */
  predicate Canonical(p: Path) {
    p != [] && p[0] == "data" && forall segment :: segment in p ==> ValidSegment(segment)
  }

  /** Parsing accepts exactly the printed canonical paths, and gives back what was printed. */
  lemma PartsAcceptsExactlyPrintedPaths(value: string, p: Path)
    ensures Parts(value) == Ok(p) <==> Canonical(p) && value == Join(p, "/")
  {
    if Canonical(p) && value == Join(p, "/") {
      SplitOfJoin(p, '/');
      PosixPartsOfPlain(p);
      assert p[0] <= value by { if |p| > 1 { assert value == p[0] + ("/" + Join(p[1..], "/")); } }
      assert value[..2] == "da";
      assert '\\' !in value by {
        if '\\' in value { JoinCharacters(p, "/", '\\'); }
      }
    }
  }

  lemma {:induction false} PosixPartsOfPlain(parts: seq<string>)
    requires forall segment :: segment in parts ==> segment != "" && segment != "."
    ensures PosixParts(parts) == parts
  {
    if parts != [] {
      assert parts[0] in parts && forall segment :: segment in parts[1..] ==> segment in parts;
      PosixPartsOfPlain(parts[1..]);
    }
  }

  function ModeOf(env: Environment, t: Tree, parts: Path): Result<AccessMode>
    requires parts != []
  {
    if |parts| == 1 then Ok(Navigation)
    else if EditableDataRoot(parts[1]) then Ok(Editable)
    else if parts[1] != REPOSITORIES then Err(NotFound)
    else if |parts| == 2 then Ok(Navigation)
    else if !(parts[..3] in t && t[parts[..3]] == Dir && parts[2] in env.repositories) then Err(NotFound)
    else if |parts| == 3 then Ok(Navigation)
    else if EditableRepositoryRoot(parts[3]) then Ok(Editable)
    else if ReadOnlyRepositoryRoot(parts[3]) then Ok(ReadOnly)
    else Err(NotFound)
  }

  predicate IsEditable(env: Environment, t: Tree, p: Path) {
    p != [] && ModeOf(env, t, p) == Ok(Editable)
  }

  function Locate(env: Environment, t: Tree, value: string): (r: Result<(Path, AccessMode)>)
    ensures r.Ok? ==> Canonical(r.value.0) && ModeOf(env, t, r.value.0) == Ok(r.value.1)
  {
    var parts :- Parts(value);
    var mode :- ModeOf(env, t, parts);
    PartsAcceptsExactlyPrintedPaths(value, parts);
    Ok((parts, mode))
  }

  predicate ProtectedRoot(parts: Path) {
    |parts| == 2 || (|parts| == 4 && parts[1] == REPOSITORIES)
  }

  function KindOf(t: Tree, p: Path): Result<Kind> {
    if p !in t then Err(NotFound) else if t[p] == Dir then Ok(Directory) else Ok(RegularFile)
  }

  predicate Allows(capability: Capability, parts: Path, mode: AccessMode, kind: Kind) {
    var visible := mode != Navigation;
    var mutable := mode == Editable && !ProtectedRoot(parts);
    match capability
    case List => kind == Directory
    case Read => kind == RegularFile && visible
    case Create => kind == Directory && mode == Editable
    case Upload => kind == Directory && mode == Editable
    case Write => kind == RegularFile && mode == Editable
    case Download => visible
    case Archive => visible
    case MayRename => mutable
    case MayDelete => mutable
  }

  function Require(env: Environment, t: Tree, value: string, capability: Capability): (r: Result<(Path, Kind)>)
    ensures r.Ok? ==>
      var (p, kind) := r.value;
      && Canonical(p) && p in t && (t[p] == Dir <==> kind == Directory)
      && (capability in {MayRename, MayDelete} ==> IsEditable(env, t, p) && !ProtectedRoot(p))
      && (capability in {Write, Create, Upload} ==> IsEditable(env, t, p) && Allows(capability, p, Editable, kind))
  {
    var (p, mode) :- Locate(env, t, value);
    var kind :- KindOf(t, p);
    if Allows(capability, p, mode, kind) then Ok((p, kind)) else Err(Denied)
  }

  /** Below a mutable entry everything is editable and nothing is protected. */
  lemma MutableSubtree(env: Environment, t: Tree, p: Path, q: Path)
    requires IsEditable(env, t, p) && !ProtectedRoot(p) && p <= q
    ensures IsEditable(env, t, q) && !ProtectedRoot(q)
  {
    assert p[1] == q[1];
    if p[1] == REPOSITORIES { assert p[2] == q[2] && p[3] == q[3] && p[..3] == q[..3]; }
  }

  /** An editable path has its repository in place, so all of its missing ancestors are editable. */
  lemma MissingAncestorIsEditable(env: Environment, t: Tree, p: Path, q: Path)
    requires WellFormed(t) && IsEditable(env, t, p) && p[0] == "data"
    requires q != [] && q <= p && q !in t
    ensures IsEditable(env, t, q)
  {
    assert q[0] == "data";
    assert |q| == 1 ==> q == ROOT;
    if p[1] == REPOSITORIES {
      forall k | 1 <= k <= 3 ensures p[..k] in t {
        if k < 3 { AncestorsAreDirectories(t, p[..3], k); assert p[..3][..k] == p[..k]; }
      }
      assert q == p[..|q|];
      assert p[..3] == q[..3] && q[3] == p[3];
    }
  }
}
