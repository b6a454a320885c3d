/** Validation of prompt templates with named placeholders. */
module FormatTemplate {
  import opened Text

  // ----- the two readers of the validator -----

  /** A replacement field as the format-string parser reports it; absent parts are empty. */
  datatype Field = Field(name: string, spec: string, conversion: string)

  /** One item of the parser's iteration: malformed, a piece of literal text, or a field. */
  datatype Item = Malformed | Literal(rest: string) | Markup(field: Field, rest: string)

  /** Position after a bracketed index: the closing bracket, or the end of the text. */
  function SkipBracket(s: string, i: nat): (r: nat)
    requires i <= |s|
    ensures i <= r <= |s|
    decreases |s| - i
  {
    if i == |s| || s[i] == ']' then i else SkipBracket(s, i + 1)
  }

  /** Where the field name ends; None for a nested brace or a missing end. */
  function NameEnd(s: string, i: nat): (r: Option<nat>)
    requires i <= |s|
    ensures r.Some? ==> i <= r.value < |s| && s[r.value] in {'}', ':', '!'}
    decreases |s| - i
  {
    if i == |s| || s[i] == '{' then None
    else if s[i] == '[' then NameEnd(s, SkipBracket(s, i + 1))
    else if s[i] == '}' || s[i] == ':' || s[i] == '!' then Some(i)
    else NameEnd(s, i + 1)
  }

  /** Where the format specification ends; braces inside it nest. */
  function SpecEnd(s: string, i: nat, depth: nat): (r: Option<nat>)
    requires i <= |s| && depth > 0
    ensures r.Some? ==> i <= r.value < |s| && s[r.value] == '}'
    decreases |s| - i
  {
    if i == |s| then None
    else if s[i] == '}' then (if depth == 1 then Some(i) else SpecEnd(s, i + 1, depth - 1))
    else SpecEnd(s, i + 1, if s[i] == '{' then depth + 1 else depth)
  }

  function WithSpec(s: string, name: string, conversion: string, start: nat): (r: Item)
    requires start <= |s|
    ensures !r.Literal? && (r.Markup? ==> |r.rest| < |s| && '}' in s)
  {
    match SpecEnd(s, start, 1)
    case None => Malformed
    case Some(end) => Markup(Field(name, s[start..end], conversion), s[end + 1..])
  }

  /** The field after an opening brace. */
  function ParseField(s: string): (r: Item)
    ensures !r.Literal? && (r.Markup? ==> |r.rest| < |s| && '}' in s)
  {
    match NameEnd(s, 0)
    case None => Malformed
    case Some(e) =>
      if s[e] == '}' then Markup(Field(s[..e], "", ""), s[e + 1..])
      else if s[e] == ':' then WithSpec(s, s[..e], "", e + 1)
      else if e + 2 >= |s| then Malformed
      else
        var conversion := if s[e + 1] == '\0' then "" else [s[e + 1]];
        if s[e + 2] == '}' then Markup(Field(s[..e], "", conversion), s[e + 3..])
        else if s[e + 2] == ':' then WithSpec(s, s[..e], conversion, e + 3)
        else Malformed
  }

  /** `string.Formatter().parse`, one step: doubled braces are literal, single ones must form a field. */
  function NextItem(s: string): (r: Item)
    requires s != ""
    ensures !r.Malformed? ==> |r.rest| < |s|
  {
    if s[0] != '{' && s[0] != '}' then Literal(s[1..])
    else if |s| == 1 then Malformed
    else if s[1] == s[0] then Literal(s[2..])
    else if s[0] == '}' then Malformed
    else ParseField(s[1..])
  }

  // ----- what the format-string parser reads -----

  /** Opening minus closing braces. */
  function Net(s: string): int {
    if s == "" then 0 else (if s[0] == '{' then 1 else if s[0] == '}' then -1 else 0) + Net(s[1..])
  }

  /** Braces nest: no prefix closes more than it has opened, and all are closed. */
  ghost predicate Nests(spec: string) {
    Net(spec) == 0 && forall k :: 0 <= k <= |spec| ==> Net(spec[..k]) >= 0
  }

  /** A field name has no brace, colon, exclamation mark or opening bracket. */
  predicate SimpleName(name: string) {
    forall c :: c in name ==> c !in {'{', '}', ':', '!', '['}
  }

  lemma SimpleRest(name: string)
    requires SimpleName(name) && name != ""
    ensures SimpleName(name[1..])
  {
    forall c | c in name[1..] ensures c in name { }
  }

  lemma NetStep(s: string, i: nat, k: nat)
    requires i < k <= |s|
    ensures Net(s[i..k]) == (if s[i] == '{' then 1 else if s[i] == '}' then -1 else 0) + Net(s[i + 1..k])
  {
    assert s[i..k][1..] == s[i + 1..k];
  }

  lemma {:induction false} NameSkips(s: string, i: nat, j: nat)
    requires i <= j <= |s| && SimpleName(s[i..j])
    ensures NameEnd(s, i) == NameEnd(s, j)
    decreases j - i
  {
    if i < j {
      assert s[i] in s[i..j] && s[i + 1..j] == s[i..j][1..];
      SimpleRest(s[i..j]);
      NameSkips(s, i + 1, j);
    }
  }

  lemma {:induction false} BracketSkips(s: string, i: nat, j: nat)
    requires i <= j < |s| && s[j] == ']' && ']' !in s[i..j]
    ensures SkipBracket(s, i) == j
    decreases j - i
  {
    if i < j {
      assert s[i] in s[i..j] && s[i + 1..j] == s[i..j][1..];
      BracketSkips(s, i + 1, j);
    }
  }

  /** Still inside the specification after this many characters. */
  predicate Inside(s: string, i: nat, k: nat, depth: int)
    requires i <= k <= |s|
  {
    depth + Net(s[i..k]) >= 1
  }

  lemma {:induction false} SpecSkips(s: string, i: nat, j: nat, depth: nat)
    requires i <= j < |s| && s[j] == '}' && depth > 0 && depth + Net(s[i..j]) == 1
    requires forall k :: i <= k <= j ==> Inside(s, i, k, depth)
    ensures SpecEnd(s, i, depth) == Some(j)
    decreases j - i
  {
    if i < j {
      var next := depth + if s[i] == '{' then 1 else if s[i] == '}' then -1 else 0;
      var first := i + 1;
      forall k | first <= k <= j ensures Inside(s, first, k, next) {
        NetStep(s, i, k);
        assert Inside(s, i, k, depth);
      }
      NetStep(s, i, j);
      NetStep(s, i, i + 1);
      assert Inside(s, i, i + 1, depth) && s[i + 1..i + 1] == "";
      SpecSkips(s, i + 1, j, next);
    } else {
      assert s[i..j] == "";
    }
  }

  function Indexed(name: string, index: Option<string>): string {
    if index.None? then name else name + "[" + index.value + "]"
  }

  /** A name, perhaps with an index in brackets, ends where the next part of the field starts. */
  lemma NameIsRead(name: string, index: Option<string>, tail: string)
    requires SimpleName(name) && (index.Some? ==> ']' !in index.value) && tail != "" && tail[0] in {'}', ':', '!'}
    ensures var full := Indexed(name, index); NameEnd(full + tail, 0) == Some(|full|)
  {
    hide SkipBracket, SimpleName;
    var after := if index.None? then tail else "[" + index.value + "]" + tail;
    assert Indexed(name, index) + tail == name + after;
    NameFirst(name, after);
    if index.Some? {
      IndexPlace(name, index.value, tail);
      BracketedNext(name + after, |name|, |name| + 1 + |index.value|);
    }
  }

  lemma NameFirst(name: string, after: string)
    requires SimpleName(name)
    ensures NameEnd(name + after, 0) == NameEnd(name + after, |name|)
  {
    var s := name + after;
    assert s[0..|name|] == name;
    hide SkipBracket, NameEnd, SimpleName;
    NameSkips(s, 0, |name|);
  }

  lemma IndexPlace(name: string, index: string, tail: string)
    ensures var (s, close) := (name + ("[" + index + "]" + tail), |name| + 1 + |index|);
      close < |s| && s[|name|] == '[' && s[close] == ']' && s[|name| + 1..close] == index
  {
    hide *;
    var s := name + ("[" + index + "]" + tail);
    assert s == (name + "[") + (index + ("]" + tail));
    Middle(name + "[", index, "]" + tail);
  }

  lemma BracketedNext(s: string, i: nat, close: nat)
    requires i < close < |s| && s[i] == '[' && s[close] == ']' && ']' !in s[i + 1..close]
    ensures NameEnd(s, i) == NameEnd(s, close + 1)
  {
    BracketSkips(s, i + 1, close);
  }

  /** A conversion is one character after an exclamation mark; a specification follows a colon. */
  function Mark(conversion: Option<char>, spec: Option<string>): string {
    (if conversion.None? then "" else ['!', conversion.value]) + (if spec.None? then "" else ":" + spec.value)
  }

  function Ending(conversion: Option<char>, spec: Option<string>, rest: string): string {
    Mark(conversion, spec) + ("}" + rest)
  }

  /** A written replacement field is read as its parts, whatever follows it; the conversion NUL counts as none. */
  lemma FieldIsRead(name: string, index: Option<string>, conversion: Option<char>, spec: Option<string>, rest: string)
    requires SimpleName(name) && (index.Some? ==> ']' !in index.value) && (spec.Some? ==> Nests(spec.value))
    ensures var full := Indexed(name, index);
      ParseField(full + Ending(conversion, spec, rest)) ==
        Markup(Field(full, if spec.None? then "" else spec.value,
                     if conversion.None? || conversion == Some('\0') then "" else [conversion.value]), rest)
  {
    hide NameEnd, SpecEnd, Nests, SimpleName, Indexed, ParseField;
    var full := Indexed(name, index);
    EndingStarts(conversion, spec, rest);
    NameIsRead(name, index, Ending(conversion, spec, rest));
    hide Ending, Mark;
    var s := full + Ending(conversion, spec, rest);
    EndingPlace(full, conversion, spec, rest, s);
    PartsAreRead(s, |full|, conversion, spec, |full| + |Mark(conversion, spec)|);
  }

  lemma EndingStarts(conversion: Option<char>, spec: Option<string>, rest: string)
    ensures Ending(conversion, spec, rest) != "" && Ending(conversion, spec, rest)[0] in {'}', ':', '!'}
  {
  }

  lemma EndingPlace(full: string, conversion: Option<char>, spec: Option<string>, rest: string, s: string)
    requires s == full + Ending(conversion, spec, rest)
    ensures var j := |full| + |Mark(conversion, spec)|;
      j < |s| && s[..|full|] == full && s[|full|..j] == Mark(conversion, spec) && s[j] == '}' && s[j + 1..] == rest
  {
    var mark := Mark(conversion, spec);
    assert s == full + (mark + ("}" + rest));
    hide *;
    Middle(full, mark, "}" + rest);
    AfterBrace(s, |full| + |mark|, rest);
  }

  lemma AfterBrace(s: string, j: nat, rest: string)
    requires j <= |s| && s[j..] == "}" + rest
    ensures j < |s| && s[j] == '}' && s[j + 1..] == rest
  {
    hide *;
    assert s[j] == s[j..][0] && s[j + 1..] == s[j..][1..];
  }

  /** Reading on after the name, from its end to the closing brace. */
  lemma PartsAreRead(s: string, e: nat, conversion: Option<char>, spec: Option<string>, j: nat)
    requires e <= j < |s| && s[e..j] == Mark(conversion, spec) && s[j] == '}' && NameEnd(s, 0) == Some(e)
    requires spec.Some? ==> Nests(spec.value)
    ensures ParseField(s) ==
        Markup(Field(s[..e], if spec.None? then "" else spec.value,
                     if conversion.None? || conversion == Some('\0') then "" else [conversion.value]), s[j + 1..])
  {
    hide NameEnd, SpecEnd, Nests, ParseField;
    MarkParts(conversion, spec);
    FirstOf(s, e, j, Mark(conversion, spec));
    hide Mark;
    var start := e + (if conversion.None? then 0 else 2) + 1;
    if spec.Some? {
      Rest(s, e, j, start - e);
      SpecIsRead(s, start, j);
      if conversion.None? { SpecFieldAt(s, e, j); } else { ConvertedSpecAt(s, e, conversion.value, j); }
    } else {
      if conversion.None? { PlainAt(s, e); } else { ConvertedAt(s, e, conversion.value); }
    }
  }

  lemma MarkParts(conversion: Option<char>, spec: Option<string>)
    ensures var (mark, k) := (Mark(conversion, spec), if conversion.None? then 0 else 2);
      && |mark| == k + (if spec.None? then 0 else 1 + |spec.value|)
      && (conversion.Some? ==> mark[0] == '!' && mark[1] == conversion.value)
      && (spec.Some? ==> mark[k] == ':' && mark[k + 1..] == spec.value)
  {
  }

  lemma FirstOf(s: string, e: nat, j: nat, mark: string)
    requires e <= j <= |s| && s[e..j] == mark
    ensures |mark| == j - e
    ensures |mark| > 0 ==> s[e] == mark[0]
    ensures |mark| > 1 ==> s[e + 1] == mark[1]
    ensures |mark| > 2 ==> s[e + 2] == mark[2]
  {
    hide *;
    var part := s[e..j];
    assert |mark| > 0 ==> part[0] == s[e];
    assert |mark| > 1 ==> part[1] == s[e + 1];
    assert |mark| > 2 ==> part[2] == s[e + 2];
  }

  lemma Rest(s: string, e: nat, j: nat, k: nat)
    requires e + k <= j <= |s|
    ensures s[e..j][k..] == s[e + k..j]
  {
  }

  lemma PlainAt(s: string, e: nat)
    requires NameEnd(s, 0) == Some(e) && e < |s| && s[e] == '}'
    ensures ParseField(s) == Markup(Field(s[..e], "", ""), s[e + 1..])
  {
    hide NameEnd, SpecEnd;
  }

  lemma SpecFieldAt(s: string, e: nat, j: nat)
    requires NameEnd(s, 0) == Some(e) && e < j < |s| && s[e] == ':' && SpecEnd(s, e + 1, 1) == Some(j)
    ensures ParseField(s) == Markup(Field(s[..e], s[e + 1..j], ""), s[j + 1..])
  {
    hide NameEnd, SpecEnd;
  }

  lemma ConvertedAt(s: string, e: nat, c: char)
    requires NameEnd(s, 0) == Some(e) && e + 2 < |s| && s[e] == '!' && s[e + 1] == c && s[e + 2] == '}'
    ensures ParseField(s) == Markup(Field(s[..e], "", if c == '\0' then "" else [c]), s[e + 3..])
  {
    hide NameEnd, SpecEnd;
  }

  lemma ConvertedSpecAt(s: string, e: nat, c: char, j: nat)
    requires NameEnd(s, 0) == Some(e) && e + 3 <= j < |s| && SpecEnd(s, e + 3, 1) == Some(j)
    requires s[e] == '!' && s[e + 1] == c && s[e + 2] == ':'
    ensures ParseField(s) == Markup(Field(s[..e], s[e + 3..j], if c == '\0' then "" else [c]), s[j + 1..])
  {
    hide NameEnd, SpecEnd;
  }

  lemma SpecIsRead(s: string, i: nat, j: nat)
    requires i <= j < |s| && s[j] == '}' && Nests(s[i..j])
    ensures SpecEnd(s, i, 1) == Some(j)
  {
    forall k | i <= k <= j ensures Inside(s, i, k, 1) { assert s[i..j][..k - i] == s[i..k]; }
    SpecSkips(s, i, j, 1);
  }

  /** The fields the first pass accepts; None when it rejects. */
  function FirstPass(s: string, allowed: seq<string>): Option<set<string>>
    decreases |s|
  {
    if s == "" then Some({})
    else
      match NextItem(s)
      case Malformed => None
      case Literal(rest) => FirstPass(rest, allowed)
      case Markup(field, rest) =>
        if field.name !in allowed || field.spec != "" || field.conversion != "" then None
        else
          match FirstPass(rest, allowed)
          case None => None
          case Some(names) => Some(names + {field.name})
  }

  /** `str.find` for one character: -1 when absent. */
  function FindFrom(s: string, c: char, start: nat): (r: int)
    ensures r == -1 || (start <= r < |s| && s[r] == c)
    ensures forall i :: start <= i < (if r == -1 then |s| else r) ==> s[i] != c
    decreases |s| - start
  {
    if start >= |s| then -1 else if s[start] == c then start else FindFrom(s, c, start + 1)
  }

  // ----- the grammar -----

  datatype Token = Plain(c: char) | OpenBrace | CloseBrace | Placeholder(name: string)

  function PrintToken(token: Token): string {
    match token
    case Plain(c) => [c]
    case OpenBrace => "{{"
    case CloseBrace => "}}"
    case Placeholder(name) => "{" + name + "}"
  }

  function Print(tokens: seq<Token>): string {
    if tokens == [] then "" else PrintToken(tokens[0]) + Print(tokens[1..])
  }

  predicate Grammatical(tokens: seq<Token>, allowed: seq<string>) {
    forall i :: 0 <= i < |tokens| ==> GrammaticalToken(tokens[i], allowed)
  }

  function Names(tokens: seq<Token>): set<string> {
    if tokens == [] then {}
    else Names(tokens[1..]) + (if tokens[0].Placeholder? then {tokens[0].name} else {})
  }

  /** Allowed names contain none of the characters the format-string syntax uses. */
  predicate Clean(allowed: seq<string>) {
    forall name :: name in allowed ==> forall c :: c in name ==>
      c != '{' && c != '}' && c != ':' && c != '!' && c != '['
  }

  /** A left-to-right reader of the grammar. */
  function Read(s: string, allowed: seq<string>): Option<seq<Token>>
    decreases |s|
  {
    if s == "" then Some([])
    else if s[0] != '{' && s[0] != '}' then Prepend(Plain(s[0]), Read(s[1..], allowed))
    else if |s| > 1 && s[1] == s[0] then Prepend(if s[0] == '{' then OpenBrace else CloseBrace, Read(s[2..], allowed))
    else if s[0] == '}' then None
    else
      var end := FindFrom(s, '}', 1);
      if end == -1 || s[1..end] !in allowed then None
      else Prepend(Placeholder(s[1..end]), Read(s[end + 1..], allowed))
  }

  function Prepend(token: Token, tokens: Option<seq<Token>>): Option<seq<Token>> {
    if tokens.None? then None else Some([token] + tokens.value)
  }

  predicate GrammaticalToken(token: Token, allowed: seq<string>) {
    match token
    case Plain(c) => c != '{' && c != '}'
    case Placeholder(name) => name in allowed
    case _ => true
  }

  /** The reader takes off one printed token. */
  lemma ReadFirst(s: string, allowed: seq<string>) returns (token: Token, rest: string)
    requires s != "" && Read(s, allowed).Some?
    ensures GrammaticalToken(token, allowed) && s == PrintToken(token) + rest && |rest| < |s|
    ensures Read(s, allowed) == Prepend(token, Read(rest, allowed))
  {
    if s[0] != '{' && s[0] != '}' {
      token, rest := Plain(s[0]), s[1..];
    } else if |s| > 1 && s[1] == s[0] {
      token, rest := if s[0] == '{' then OpenBrace else CloseBrace, s[2..];
    } else {
      var end := FindFrom(s, '}', 1);
      token, rest := Placeholder(s[1..end]), s[end + 1..];
      assert s == [s[0]] + s[1..end] + [s[end]] + s[end + 1..];
    }
  }

  lemma {:induction false} ReadPrints(s: string, allowed: seq<string>)
    requires Read(s, allowed).Some?
    ensures Grammatical(Read(s, allowed).value, allowed) && Print(Read(s, allowed).value) == s
    decreases |s|
  {
    if s != "" {
      var token, rest := ReadFirst(s, allowed);
      hide Read, PrintToken, GrammaticalToken;
      ReadPrints(rest, allowed);
      var tokens := Read(s, allowed).value;
      assert tokens[0] == token && tokens[1..] == Read(rest, allowed).value;
    }
  }

  lemma FindIs(s: string, c: char, start: nat, end: nat)
    requires start <= end < |s| && s[end] == c && forall i :: start <= i < end ==> s[i] != c
    ensures FindFrom(s, c, start) == end
  { }

  lemma ReadPrinted(token: Token, rest: string, allowed: seq<string>)
    requires GrammaticalToken(token, allowed) && Clean(allowed)
    ensures Read(PrintToken(token) + rest, allowed) == Prepend(token, Read(rest, allowed))
  {
    var s := PrintToken(token) + rest;
    match token
    case Plain(c) =>
      assert s[1..] == rest;
    case OpenBrace =>
      assert s[2..] == rest;
    case CloseBrace =>
      assert s[2..] == rest;
    case Placeholder(name) => ReadPlaceholder(name, rest, allowed);
  }

  lemma ReadPlaceholder(name: string, rest: string, allowed: seq<string>)
    requires name in allowed && Clean(allowed)
    ensures var s := "{" + name + "}" + rest;
      && FindFrom(s, '}', 1) == |name| + 1 && s[1..|name| + 1] == name && s[|name| + 2..] == rest && s[1] != '{'
      && Read(s, allowed) == Prepend(Placeholder(name), Read(rest, allowed))
  {
    hide FindFrom;
    var s := "{" + name + "}" + rest;
    var end := |name| + 1;
    assert s[0] == '{' && s[end] == '}' && s[1..end] == name && s[end + 1..] == rest;
    assert forall i :: 1 <= i < end ==> s[i] == name[i - 1] && name[i - 1] in name;
    assert s[1] != '{' by { if end > 1 { assert s[1] == name[0]; } }
    FindIs(s, '}', 1, end);
  }

  lemma {:induction false} PrintReads(tokens: seq<Token>, allowed: seq<string>)
    requires Grammatical(tokens, allowed) && Clean(allowed)
    ensures Read(Print(tokens), allowed) == Some(tokens)
  {
    if tokens != [] {
      hide Read, PrintToken, GrammaticalToken, Clean;
      PrintReads(tokens[1..], allowed);
      ReadPrinted(tokens[0], Print(tokens[1..]), allowed);
      assert tokens == [tokens[0]] + tokens[1..];
    }
  }

  /** Reading is exactly the inverse of printing: a text has at most one token list. */
  lemma ReadsExactlyPrinted(s: string, tokens: seq<Token>, allowed: seq<string>)
    requires Clean(allowed)
    ensures Read(s, allowed) == Some(tokens) <==> Grammatical(tokens, allowed) && Print(tokens) == s
  {
    if Read(s, allowed) == Some(tokens) { ReadPrints(s, allowed); }
    if Grammatical(tokens, allowed) && Print(tokens) == s { PrintReads(tokens, allowed); }
  }

  // ----- how the two passes fit together -----

  lemma {:induction false} NameEndAfter(s: string, i: nat, e: nat)
    requires i <= e < |s| && s[e] == '}'
    requires forall k :: i <= k < e ==> s[k] != '{' && s[k] != '}' && s[k] != ':' && s[k] != '!' && s[k] != '['
    ensures NameEnd(s, i) == Some(e)
    decreases e - i
  {
    if i < e { NameEndAfter(s, i + 1, e); }
  }

  /** On an allowed name both passes see the same placeholder and go on at the same place. */
  lemma PassesAgree(s: string, allowed: seq<string>)
    requires Clean(allowed) && |s| > 1 && s[0] == '{' && s[1] != '{'
    requires FindFrom(s, '}', 1) != -1 && s[1..FindFrom(s, '}', 1)] in allowed
    ensures var end := FindFrom(s, '}', 1);
      NextItem(s) == Markup(Field(s[1..end], "", ""), s[end + 1..])
  {
    var end := FindFrom(s, '}', 1);
    var name, rest := s[1..end], s[1..];
    assert forall k :: 0 <= k < end - 1 ==> rest[k] == name[k] && name[k] in name;
    NameEndAfter(rest, 0, end - 1);
    assert rest[..end - 1] == name && rest[end..] == s[end + 1..];
  }

  /** A text the first pass accepts has a closing brace after every single opening brace. */
  lemma FirstPassFindsClosing(s: string, allowed: seq<string>)
    requires s != "" && FirstPass(s, allowed).Some? && s[0] == '{' && s[..if |s| == 1 then 1 else 2] != "{{"
    ensures |s| > 1 && s[1] != '{' && FindFrom(s, '}', 1) > 0
  {
    hide ParseField;
    assert |s| > 1;
    assert s[..2] == [s[0], s[1]];
    assert NextItem(s) == ParseField(s[1..]);
    var k :| 0 <= k < |s[1..]| && s[1..][k] == '}';
    assert s[k + 1] == '}';
  }

  /** Whatever the grammar reads, the first pass accepts with the same names. */
  lemma {:induction false} ReadPassesFirst(s: string, allowed: seq<string>)
    requires Clean(allowed) && Read(s, allowed).Some?
    ensures FirstPass(s, allowed) == Some(Names(Read(s, allowed).value))
    decreases |s|
  {
    if s != "" {
      var token, rest := ReadFirst(s, allowed);
      ReadPassesFirst(rest, allowed);
      FirstPassOnPrinted(token, rest, allowed);
      hide FirstPass, Read, PrintToken, Clean, GrammaticalToken;
      var tokens := Read(s, allowed).value;
      assert tokens[0] == token && tokens[1..] == Read(rest, allowed).value;
    }
  }

  lemma FirstPassOnPrinted(token: Token, rest: string, allowed: seq<string>)
    requires Clean(allowed) && GrammaticalToken(token, allowed)
    ensures var names := FirstPass(rest, allowed);
      FirstPass(PrintToken(token) + rest, allowed)
        == if names.None? then None else Some(names.value + (if token.Placeholder? then {token.name} else {}))
  {
    hide ParseField;
    var s := PrintToken(token) + rest;
    match token
    case Plain(c) => assert s[1..] == rest;
      assert FirstPass(rest, allowed).Some? ==> FirstPass(rest, allowed).value + {} == FirstPass(rest, allowed).value;
    case OpenBrace => assert s[2..] == rest;
      assert FirstPass(rest, allowed).Some? ==> FirstPass(rest, allowed).value + {} == FirstPass(rest, allowed).value;
    case CloseBrace => assert s[2..] == rest;
      assert FirstPass(rest, allowed).Some? ==> FirstPass(rest, allowed).value + {} == FirstPass(rest, allowed).value;
    case Placeholder(name) =>
      ReadPlaceholder(name, rest, allowed);
      PassesAgree(s, allowed);
  }

  // ----- the validator -----

  datatype Verdict =
    | Accepted
    | UnsupportedField(name: string)
    | FormattedField(name: string)
    | IncompletePlaceholder(expression: string)
    | InvalidBraces
    | MissingFields(names: seq<string>)

  /** Python's slice `s[low:high]`, where a negative end counts from the back. */
  function Slice(s: string, low: nat, high: int): string
    requires low <= |s|
  {
    var end := if high < 0 then |s| + high else if high > |s| then |s| else high;
    if low <= end then s[low..end] else ""
  }

  function Missing(required: seq<string>, seen: set<string>): (r: seq<string>)
    ensures r == [] <==> forall name :: name in required ==> name in seen
    ensures forall name :: name in r <==> name in required && name !in seen
  {
    if required == [] then []
    else (if required[0] in seen then [] else [required[0]]) + Missing(required[1..], seen)
  }

  predicate Prints(tokens: seq<Token>, allowed: seq<string>, value: string) {
    Grammatical(tokens, allowed) && Print(tokens) == value
  }

  /** The loop over the parser's items: the names seen, or why the text is rejected. */
  method CollectFields(value: string, allowed: seq<string>) returns (rejected: Option<Verdict>, seen: set<string>)
    ensures rejected.None? ==> FirstPass(value, allowed) == Some(seen)
    ensures rejected.Some? ==>
      FirstPass(value, allowed).None? && !rejected.value.Accepted?
      && !rejected.value.MissingFields?
  {
    hide NextItem;
    seen := {};
    var rest := value;
    FirstPassMore(value, allowed, {}, value);
    while rest != ""
      invariant Continues(value, allowed, seen, rest)
      decreases |rest|
    {
      match NextItem(rest)
      case Malformed => return Some(InvalidBraces), seen;
      case Literal(next) => rest := next;
      case Markup(field, next) =>
        if field.name !in allowed { return Some(UnsupportedField(field.name)), seen; }
        if field.spec != "" || field.conversion != "" { return Some(FormattedField(field.name)), seen; }
        assert FirstPass(next, allowed).Some? ==>
          seen + (FirstPass(next, allowed).value + {field.name})
            == (seen + {field.name}) + FirstPass(next, allowed).value;
        seen := seen + {field.name};
        rest := next;
    }
    assert seen + {} == seen;
    return None, seen;
  }

  /** What the first pass makes of the whole text from what it has seen and what is left. */
  predicate Continues(value: string, allowed: seq<string>, seen: set<string>, rest: string) {
    FirstPass(value, allowed) ==
      match FirstPass(rest, allowed)
      case None => None
      case Some(names) => Some(seen + names)
  }

  lemma FirstPassMore(value: string, allowed: seq<string>, seen: set<string>, rest: string)
    requires seen == {} && rest == value
    ensures Continues(value, allowed, seen, rest)
  {
    assert FirstPass(value, allowed).Some? ==> {} + FirstPass(value, allowed).value == FirstPass(value, allowed).value;
  }

  /**
   * The scan for complete placeholders. It ends because the first pass left a closing brace after every
   * opening one: the -1 of a failed search would send the index back to 0.
   */
  method CheckPlaceholders(value: string, allowed: seq<string>) returns (rejected: Option<Verdict>)
    requires Clean(allowed) && FirstPass(value, allowed).Some?
    ensures rejected.None? <==> Read(value, allowed).Some?
    ensures rejected.Some? ==> rejected.value.IncompletePlaceholder?
  {
    hide FirstPass, Read, Clean, FindFrom, Slice;
    var index := 0;
    assert value[0..] == value;
    while index < |value|
      invariant 0 <= index <= |value|
      invariant FirstPass(value[index..], allowed).Some?
      invariant Read(value, allowed).Some? <==> Read(value[index..], allowed).Some?
      decreases |value| - index
    {
      ghost var text := value[index..];
      PairAt(value, index);
      if Slice(value, index, index + 2) in {"{{", "}}"} {
        StepDoubled(text, allowed);
        assert text[2..] == value[index + 2..];
        index := index + 2;
        continue;
      }
      if value[index] != '{' {
        StepPlain(text, allowed);
        assert text[1..] == value[index + 1..];
        index := index + 1;
        continue;
      }
      StepPlaceholder(text, allowed);
      var end := FindFrom(value, '}', index + 1);
      FindShifted(value, index, '}');
      var expression := Slice(value, index + 1, end);
      SliceShifted(value, index, end);
      if expression !in allowed { return Some(IncompletePlaceholder(expression)); }
      index := end + 1;
    }
    ReadEmpty(value[index..], allowed);
    return None;
  }

  lemma SliceShifted(value: string, index: nat, end: int)
    requires index < end < |value|
    ensures var text := value[index..];
      Slice(value, index + 1, end) == text[1..end - index] && value[end + 1..] == text[end - index + 1..]
  {
    assert value[index + 1..end] == value[index..][1..end - index];
  }

  lemma ReadEmpty(s: string, allowed: seq<string>)
    requires s == ""
    ensures Read(s, allowed).Some?
  { }

  /** The two-character window of the scan is a doubled brace exactly when the rest starts with one. */
  lemma PairAt(value: string, index: nat)
    requires index < |value|
    ensures var text := value[index..];
      Slice(value, index, index + 2) in {"{{", "}}"} <==> |text| > 1 && text[0] == text[1] && text[0] in {'{', '}'}
  {
    var text := value[index..];
    var pair := Slice(value, index, index + 2);
    if |text| > 1 {
      assert pair == [text[0], text[1]];
    } else {
      assert |pair| == 1;
    }
  }

  lemma StepDoubled(text: string, allowed: seq<string>)
    requires |text| > 1 && text[0] == text[1] && text[0] in {'{', '}'} && FirstPass(text, allowed).Some?
    ensures FirstPass(text[2..], allowed).Some? && (Read(text, allowed).Some? <==> Read(text[2..], allowed).Some?)
  { }

  lemma StepPlain(text: string, allowed: seq<string>)
    requires text != "" && text[0] != '{' && FirstPass(text, allowed).Some?
    requires !(|text| > 1 && text[0] == text[1] && text[0] in {'{', '}'})
    ensures FirstPass(text[1..], allowed).Some? && (Read(text, allowed).Some? <==> Read(text[1..], allowed).Some?)
  { }

  lemma StepPlaceholder(text: string, allowed: seq<string>)
    requires Clean(allowed) && text != "" && text[0] == '{' && FirstPass(text, allowed).Some?
    requires !(|text| > 1 && text[0] == text[1] && text[0] in {'{', '}'})
    ensures |text| > 1 && FindFrom(text, '}', 1) > 0
    ensures var end := FindFrom(text, '}', 1);
      if text[1..end] in allowed
      then FirstPass(text[end + 1..], allowed).Some?
        && (Read(text, allowed).Some? <==> Read(text[end + 1..], allowed).Some?)
      else Read(text, allowed).None?
  {
    hide ParseField, FindFrom, Clean;
    assert text[..if |text| == 1 then 1 else 2] != "{{" by {
      if |text| > 1 { assert text[..2] == [text[0], text[1]]; }
    }
    FirstPassFindsClosing(text, allowed);
    if text[1..FindFrom(text, '}', 1)] in allowed { PassesAgree(text, allowed); }
  }

  lemma {:induction false} FindShiftedFrom(value: string, index: nat, c: char, k: nat)
    requires index <= |value| && 1 <= k
    ensures FindFrom(value, c, index + k) == if FindFrom(value[index..], c, k) == -1 then -1
      else FindFrom(value[index..], c, k) + index
    decreases |value| - index - k
  {
    if index + k < |value| && value[index + k] != c { FindShiftedFrom(value, index, c, k + 1); }
  }

  lemma FindShifted(value: string, index: nat, c: char)
    requires index <= |value|
    ensures FindFrom(value, c, index + 1) == if FindFrom(value[index..], c, 1) == -1 then -1
      else FindFrom(value[index..], c, 1) + index
  {
    FindShiftedFrom(value, index, c, 1);
  }

  /** `_validate_format_template`: accepts exactly the texts of the grammar that name every required field. */
  method Validate(value: string, allowed: seq<string>, requiredFields: Option<seq<string>>) returns (r: Verdict)
    requires Clean(allowed)
    ensures var required := if requiredFields.Some? then requiredFields.value else allowed;
      && (r.Accepted? <==> exists tokens :: Prints(tokens, allowed, value) && Missing(required, Names(tokens)) == [])
      && (r.MissingFields? <==>
           exists tokens :: Prints(tokens, allowed, value) && Missing(required, Names(tokens)) != [])
      && (r.MissingFields? ==> forall tokens :: Prints(tokens, allowed, value) ==>
           r.names == Missing(required, Names(tokens)))
  {
    hide FirstPass, Read, Clean, Missing, Names, Prints;
    GrammarIsRead(value, allowed);
    var rejected, seen := CollectFields(value, allowed);
    if rejected.Some? { return rejected.value; }
    rejected := CheckPlaceholders(value, allowed);
    if rejected.Some? { return rejected.value; }
    var required := if requiredFields.Some? then requiredFields.value else allowed;
    var missing := Missing(required, seen);
    if missing != [] { return MissingFields(missing); }
    return Accepted;
  }

  /** A text of the grammar has one token list, the one that is read; the first pass sees its names. */
  lemma GrammarIsRead(value: string, allowed: seq<string>)
    requires Clean(allowed)
    ensures forall tokens :: Prints(tokens, allowed, value) <==> Read(value, allowed) == Some(tokens)
    ensures Read(value, allowed).Some? ==> FirstPass(value, allowed) == Some(Names(Read(value, allowed).value))
  {
    forall tokens ensures Prints(tokens, allowed, value) <==> Read(value, allowed) == Some(tokens) {
      ReadsExactlyPrinted(value, tokens, allowed);
    }
    if Read(value, allowed).Some? { ReadPassesFirst(value, allowed); }
  }
}
