/** Normalisation of the virtual paths users write into filesystem blocks. */
module VirtualPaths {
  import opened Text

  datatype PathCheck =
    | Normalized(path: string)
    | NoLeadingSlash | ParentReference | NoTrailingSlash | TrailingSlash | NoFileName

  function ReplaceBackslashes(s: string): (r: string)
    ensures |r| == |s| && forall i :: 0 <= i < |s| ==> r[i] == if s[i] == '\\' then '/' else s[i]
  {
    seq(|s|, i requires 0 <= i < |s| => if s[i] == '\\' then '/' else s[i])
  }

  function LeftStrip(s: string): string {
    if s != "" && s[0] == '/' then LeftStrip(s[1..]) else s
  }

  function RightStrip(s: string): string {
    if s != "" && s[|s| - 1] == '/' then RightStrip(s[..|s| - 1]) else s
  }

  /** The component loop of `posixpath.normpath`. */
  function NormComponents(components: seq<string>, rooted: bool, kept: seq<string>): seq<string> {
    if components == [] then kept
    else
      var c := components[0];
      var next :=
        if c == "" || c == "." then kept
        else if c != ".." || (!rooted && kept == []) || (kept != [] && kept[|kept| - 1] == "..") then kept + [c]
        else if kept != [] then kept[..|kept| - 1]
        else kept;
      NormComponents(components[1..], rooted, next)
  }

  /** `posixpath.normpath`: exactly two leading slashes survive. */
  function NormPath(path: string): string {
    if path == "" then "."
    else
      var slashes :=
        if path[0] != '/' then ""
        else if |path| > 1 && path[1] == '/' && !(|path| > 2 && path[2] == '/') then "//"
        else "/";
      var joined := slashes + Join(NormComponents(Split(path, '/'), slashes != "", []), "/");
      if joined == "" then "." else joined
  }

  function ValidateVirtualPath(written: string): PathCheck {
    var value := ReplaceBackslashes(written);
    if value == "" || value[0] != '/' then NoLeadingSlash
    else if ".." in Split(value, '/') then ParentReference
    else Normalized("/" + LeftStrip(NormPath(value)))
  }

  function ValidateDirectoryPath(written: string): PathCheck {
    var value := ReplaceBackslashes(written);
    if value == "" || value[|value| - 1] != '/' then NoTrailingSlash
    else
      match ValidateVirtualPath(written)
      case Normalized(path) => Normalized(if path == "/" then "/" else RightStrip(path) + "/")
      case failed => failed
  }

  function ValidateFilePath(written: string): PathCheck {
    var value := ReplaceBackslashes(written);
    if value != "" && value[|value| - 1] == '/' then TrailingSlash
    else
      match ValidateVirtualPath(written)
      case Normalized(path) => if path == "/" then NoFileName else Normalized(path)
      case failed => failed
  }

  // ----- canonical paths as segment lists -----

  predicate PlainSegment(s: string) {
    s != "" && s != "." && s != ".." && '/' !in s && '\\' !in s
  }

  predicate PlainSegments(segments: seq<string>) {
    forall s :: s in segments ==> PlainSegment(s)
  }

  function FilePath(segments: seq<string>): string {
    "/" + Join(segments, "/")
  }

  function Slashed(segments: seq<string>): string {
    if segments == [] then "" else segments[0] + "/" + Slashed(segments[1..])
  }

  function DirectoryPath(segments: seq<string>): string {
    "/" + Slashed(segments)
  }

  /** The components that survive normalisation. */
  function Kept(components: seq<string>): seq<string> {
    if components == [] then []
    else (if components[0] == "" || components[0] == "." then [] else [components[0]]) + Kept(components[1..])
  }

  lemma {:induction false} NormComponentsKeeps(components: seq<string>, rooted: bool, kept: seq<string>)
    requires ".." !in components && ".." !in kept
    ensures NormComponents(components, rooted, kept) == kept + Kept(components)
  {
    if components != [] {
      var c, rest := components[0], components[1..];
      assert c in components && forall other :: other in rest ==> other in components;
      NormComponentsStep(components, rooted, kept);
      hide NormComponents;
      if c == "" || c == "." {
        NormComponentsKeeps(rest, rooted, kept);
      } else {
        NormComponentsKeeps(rest, rooted, kept + [c]);
        assert (kept + [c]) + Kept(rest) == kept + ([c] + Kept(rest));
      }
    }
  }

  lemma NormComponentsStep(components: seq<string>, rooted: bool, kept: seq<string>)
    requires components != [] && components[0] != ".." && ".." !in kept
    ensures var c := components[0];
      NormComponents(components, rooted, kept)
      == NormComponents(components[1..], rooted, if c == "" || c == "." then kept else kept + [c])
  {
  }

  lemma {:induction false} KeptIsPlain(components: seq<string>)
    requires forall c :: c in components ==> '/' !in c && '\\' !in c && c != ".."
    ensures PlainSegments(Kept(components))
  {
    if components != [] {
      assert components[0] in components && forall c :: c in components[1..] ==> c in components;
      KeptIsPlain(components[1..]);
    }
  }

  lemma {:induction false} KeptOfPlain(segments: seq<string>)
    requires PlainSegments(segments)
    ensures Kept(segments) == segments
  {
    if segments != [] {
      assert segments[0] in segments && forall s :: s in segments[1..] ==> s in segments;
      KeptOfPlain(segments[1..]);
    }
  }

  lemma {:induction false} LeftStripSlashes(slashes: string, rest: string)
    requires forall i :: 0 <= i < |slashes| ==> slashes[i] == '/'
    requires rest == "" || rest[0] != '/'
    ensures LeftStrip(slashes + rest) == rest
  {
    var s := slashes + rest;
    if slashes != "" {
      assert s[1..] == slashes[1..] + rest;
      LeftStripSlashes(slashes[1..], rest);
    } else {
      assert s == rest;
    }
  }

  lemma {:induction false} JoinStartsPlain(segments: seq<string>)
    requires PlainSegments(segments)
    ensures var joined := Join(segments, "/");
      if segments == [] then joined == "" else joined != "" && joined[0] != '/' && joined[|joined| - 1] != '/'
  {
    if segments != [] {
      assert segments[0] in segments && forall s :: s in segments[1..] ==> s in segments;
      assert segments[0][0] in segments[0] && segments[0][|segments[0]| - 1] in segments[0];
      JoinStartsPlain(segments[1..]);
    }
  }

  /** What the validator answers for a rooted text without "..": its surviving segments, printed. */
  lemma NormalizesToSegments(value: string)
    requires value != "" && value[0] == '/' && ".." !in Split(value, '/') && '\\' !in value
    ensures PlainSegments(Kept(Split(value, '/')))
    ensures "/" + LeftStrip(NormPath(value)) == FilePath(Kept(Split(value, '/')))
  {
    var components := Split(value, '/');
    SplitCharacters(value, '/');
    KeptIsPlain(components);
    NormComponentsKeeps(components, true, []);
    var joined := Join(Kept(components), "/");
    JoinStartsPlain(Kept(components));
    LeftStripSlashes("/", joined);
    LeftStripSlashes("//", joined);
    assert [] + Kept(components) == Kept(components);
  }

  lemma {:induction false} SplitCharacters(s: string, separator: char)
    ensures forall part, c :: part in Split(s, separator) && c in part ==> c in s
  {
    if s != "" {
      SplitCharacters(s[1..], separator);
      var rest := Split(s[1..], separator);
      forall part, c | part in Split(s, separator) && c in part ensures c in s {
        if s[0] != separator && part == [s[0]] + rest[0] && c != s[0] { assert c in rest[0]; }
      }
    }
  }

  /** Accepted paths are canonical: one leading slash, no empty, "." or ".." segment. */
  lemma AcceptedIsCanonical(written: string)
    ensures match ValidateVirtualPath(written)
      case Normalized(path) =>
        var segments := Kept(Split(ReplaceBackslashes(written), '/'));
        PlainSegments(segments) && path == FilePath(segments)
      case NoLeadingSlash => written == "" || (written[0] != '/' && written[0] != '\\')
      case _ => ".." in Split(ReplaceBackslashes(written), '/')
  {
    hide NormPath, Split, Kept;
    if ValidateVirtualPath(written).Normalized? { NormalizesToSegments(ReplaceBackslashes(written)); }
  }

  lemma ReplaceNothing(s: string)
    requires '\\' !in s
    ensures ReplaceBackslashes(s) == s
  { }

  lemma FilePathCharacters(segments: seq<string>)
    requires PlainSegments(segments)
    ensures '\\' !in FilePath(segments)
  {
    if '\\' in Join(segments, "/") {
      JoinCharacters(segments, "/", '\\');
    }
  }

  lemma SplitFilePath(segments: seq<string>)
    requires PlainSegments(segments)
    ensures Split(FilePath(segments), '/') == [""] + (if segments == [] then [""] else segments)
  {
    SplitAfterPrefix("", Join(segments, "/"), '/');
    assert "" + (['/'] + Join(segments, "/")) == FilePath(segments);
    if segments != [] { SplitOfJoin(segments, '/'); }
  }

  /** Canonical paths are fixed points. */
  lemma CanonicalIsFixed(segments: seq<string>)
    requires PlainSegments(segments)
    ensures ValidateVirtualPath(FilePath(segments)) == Normalized(FilePath(segments))
  {
    hide NormPath, LeftStrip;
    var path := FilePath(segments);
    FilePathCharacters(segments);
    ReplaceNothing(path);
    SplitFilePath(segments);
    KeptOfPlain(segments);
    NormalizesToSegments(path);
    assert Kept(Split(path, '/')) == segments by {
      assert ([""] + segments)[1..] == segments;
      assert Kept([""] + segments) == segments;
    }
  }

  /** Normalising twice is normalising once. */
  lemma NormalisationIsIdempotent(written: string)
    requires ValidateVirtualPath(written).Normalized?
    ensures ValidateVirtualPath(ValidateVirtualPath(written).path) == ValidateVirtualPath(written)
  {
    hide ValidateVirtualPath;
    AcceptedIsCanonical(written);
    CanonicalIsFixed(Kept(Split(ReplaceBackslashes(written), '/')));
  }

  lemma {:induction false} SlashedIsJoined(segments: seq<string>)
    requires segments != []
    ensures Slashed(segments) == Join(segments, "/") + "/"
  {
    if |segments| > 1 { SlashedIsJoined(segments[1..]); }
  }

  lemma RightStripPlain(s: string)
    requires s != "" && s[|s| - 1] != '/'
    ensures RightStrip(s) == s && RightStrip(s + "/") == s
  {
    assert (s + "/")[..|s|] == s;
  }

  /** Accepted directory paths are printed segment lists with a slash after each segment. */
  lemma AcceptedDirectory(written: string)
    requires ValidateDirectoryPath(written).Normalized?
    ensures var segments := Kept(Split(ReplaceBackslashes(written), '/'));
      PlainSegments(segments) && ValidateDirectoryPath(written).path == DirectoryPath(segments)
  {
    hide ValidateVirtualPath, Split, Kept, ReplaceBackslashes;
    var segments := Kept(Split(ReplaceBackslashes(written), '/'));
    AcceptedIsCanonical(written);
    JoinStartsPlain(segments);
    if segments != [] {
      SlashedIsJoined(segments);
      RightStripPlain(FilePath(segments));
      assert FilePath(segments) != "/";
    }
  }

  lemma AcceptedFile(written: string)
    requires ValidateFilePath(written).Normalized?
    ensures var segments := Kept(Split(ReplaceBackslashes(written), '/'));
      PlainSegments(segments) && segments != [] && ValidateFilePath(written).path == FilePath(segments)
  {
    hide ValidateVirtualPath, Split, Kept, ReplaceBackslashes;
    AcceptedIsCanonical(written);
  }

  lemma DirectoryNormalisationIsIdempotent(written: string)
    requires ValidateDirectoryPath(written).Normalized?
    ensures ValidateDirectoryPath(ValidateDirectoryPath(written).path) == ValidateDirectoryPath(written)
  {
    AcceptedDirectory(written);
    DirectoryIsFixed(Kept(Split(ReplaceBackslashes(written), '/')));
  }

  lemma DirectoryIsFixed(segments: seq<string>)
    requires PlainSegments(segments)
    ensures ValidateDirectoryPath(DirectoryPath(segments)) == Normalized(DirectoryPath(segments))
  {
    hide NormPath, LeftStrip, Split, RightStrip;
    var path := DirectoryPath(segments);
    if segments == [] {
      CanonicalIsFixed([]);
      ReplaceNothing("/");
      assert FilePath([]) == "/" == path;
    } else {
      SlashedIsJoined(segments);
      assert path == FilePath(segments) + "/";
      FilePathCharacters(segments);
      ReplaceNothing(path);
      SplitDirectoryPath(segments);
      NormalizesToSegments(path);
      JoinStartsPlain(segments);
      RightStripPlain(FilePath(segments));
    }
  }

  lemma SplitDirectoryPath(segments: seq<string>)
    requires PlainSegments(segments) && segments != []
    ensures Split(FilePath(segments) + "/", '/') == [""] + segments + [""]
    ensures Kept([""] + segments + [""]) == segments
  {
    hide Split, Join;
    var longer := segments + [""];
    SlashedSplits(segments, longer);
    assert [""] + longer == [""] + segments + [""] && ([""] + longer)[1..] == longer;
    KeptAppend(segments);
  }

  lemma SlashedSplits(segments: seq<string>, longer: seq<string>)
    requires PlainSegments(segments) && segments != [] && longer == segments + [""]
    ensures Split(FilePath(segments) + "/", '/') == [""] + longer
  {
    hide Split, Join;
    assert forall part :: part in longer ==> '/' !in part;
    JoinAppend(segments, [""], "/");
    SplitOfJoin(longer, '/');
    SplitAfterPrefix("", Join(longer, "/"), '/');
    JoinOfOne("");
    assert FilePath(segments) + "/" == "" + (['/'] + Join(longer, "/"));
  }

  lemma JoinOfOne(part: string)
    ensures Join([part], "/") == part
  {
  }

  lemma {:induction false} KeptAppend(segments: seq<string>)
    requires PlainSegments(segments)
    ensures Kept(segments + [""]) == segments
  {
    if segments != [] {
      assert segments[0] in segments && forall s :: s in segments[1..] ==> s in segments;
      KeptAppend(segments[1..]);
      assert (segments + [""])[1..] == segments[1..] + [""];
    }
  }

  // ----- string prefixes are segment prefixes -----

  lemma {:induction false} SlashedPrefix(a: seq<string>, b: seq<string>)
    requires PlainSegments(a) && PlainSegments(b)
    ensures Slashed(a) <= Slashed(b) <==> a <= b
  {
    if a != [] && b != [] {
      assert a[0] in a && b[0] in b;
      assert forall s :: s in a[1..] ==> s in a;
      assert forall s :: s in b[1..] ==> s in b;
      SlashedPrefix(a[1..], b[1..]);
      HeadPrefix(a[0], Slashed(a[1..]), b[0], Slashed(b[1..]));
      assert a <= b <==> a[0] == b[0] && a[1..] <= b[1..] by { SequencePrefix(a, b); }
    }
  }

  lemma SequencePrefix(a: seq<string>, b: seq<string>)
    requires a != [] && b != []
    ensures a <= b <==> a[0] == b[0] && a[1..] <= b[1..]
  {
    if a[0] == b[0] && a[1..] <= b[1..] {
      assert a == [a[0]] + a[1..] && b == [b[0]] + b[1..];
      assert forall i :: 0 <= i < |a| ==> a[i] == b[i] by {
        forall i | 0 <= i < |a| ensures a[i] == b[i] {
          if i > 0 { assert a[i] == a[1..][i - 1] == b[1..][i - 1] == b[i]; }
        }
      }
    }
  }

  lemma HeadPrefix(x: string, s: string, y: string, r: string)
    requires '/' !in x && '/' !in y
    ensures x + "/" + s <= y + "/" + r <==> x == y && s <= r
  {
    var a, b := x + "/" + s, y + "/" + r;
    assert a[|x|] == '/' && b[|y|] == '/' && a[..|x|] == x && b[..|y|] == y;
    assert a[|x| + 1..] == s && b[|y| + 1..] == r;
    assert |x| < |y| ==> y[|x|] == b[|x|];
    assert |y| < |x| ==> x[|y|] == a[|y|];
    if a <= b {
      assert forall i :: 0 <= i < |a| ==> a[i] == b[i];
      assert x == y;
    }
    if x == y && s <= r {
      assert a == x + "/" + s && b == x + "/" + s + r[|s|..];
    }
  }

  /** On accepted directory paths the string prefix test is the segment prefix test. */
  lemma DirectoryPrefix(a: seq<string>, b: seq<string>)
    requires PlainSegments(a) && PlainSegments(b)
    ensures DirectoryPath(a) <= DirectoryPath(b) <==> a <= b
  {
    SlashedPrefix(a, b);
    assert DirectoryPath(a)[1..] == Slashed(a) && DirectoryPath(b)[1..] == Slashed(b);
    assert DirectoryPath(a) <= DirectoryPath(b) <==> Slashed(a) <= Slashed(b);
  }

  /** A file is below a directory exactly when the directory's segments are a proper prefix. */
  lemma FileBelowDirectory(a: seq<string>, b: seq<string>)
    requires PlainSegments(a) && PlainSegments(b) && b != []
    ensures DirectoryPath(a) <= FilePath(b) <==> a < b
  {
    DirectoryPrefix(a, b);
    SlashedIsJoined(b);
    assert DirectoryPath(b) == FilePath(b) + "/";
    SlashedLength(a, b);
    if DirectoryPath(a) <= FilePath(b) {
      assert DirectoryPath(a) <= DirectoryPath(b);
    }
    if a < b {
      assert DirectoryPath(a) <= DirectoryPath(b) && |DirectoryPath(a)| < |DirectoryPath(b)|;
      assert DirectoryPath(b)[..|DirectoryPath(a)|] == FilePath(b)[..|DirectoryPath(a)|];
    }
  }

  lemma {:induction false} SlashedLength(a: seq<string>, b: seq<string>)
    requires PlainSegments(b)
    ensures a < b ==> |Slashed(a)| < |Slashed(b)|
    ensures a == b ==> Slashed(a) == Slashed(b)
  {
    if a != [] && b != [] {
      assert forall s :: s in b[1..] ==> s in b;
      SequencePrefix(a, b);
      SlashedLength(a[1..], b[1..]);
    } else if b != [] {
      assert b[0] in b;
    }
  }
}
