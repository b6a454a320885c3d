/** Reading the Forwarded header of a trusted proxy (RFC 7239) and choosing the client address. */
module ForwardedHeader {
  import opened Text

  // ----- splitting outside quotes -----

  function StripAll(parts: seq<string>): (r: seq<string>)
    ensures |r| == |parts|
    ensures forall i :: 0 <= i < |r| ==> r[i] == Strip(parts[i])
  {
    seq(|parts|, i requires 0 <= i < |parts| => Strip(parts[i]))
  }

  function Onto(prefix: string, parts: Option<seq<string>>): (r: Option<seq<string>>)
    requires parts.Some? ==> |parts.value| > 0
    ensures r.Some? == parts.Some? && (r.Some? ==> |r.value| == |parts.value|)
  {
    if parts.None? then None else Some([prefix + parts.value[0]] + parts.value[1..])
  }

  /** The raw parts of the text still to be read; the first one continues the current part. */
  function Scan(s: string, delimiter: char, quoted: bool, escaped: bool): (r: Option<seq<string>>)
    ensures r.Some? ==> |r.value| > 0
  {
    if s == "" then (if quoted || escaped then None else Some([""]))
    else if escaped then Onto(s[..1], Scan(s[1..], delimiter, quoted, false))
    else if s[0] == '\\' && quoted then Scan(s[1..], delimiter, quoted, true)
    else if s[0] == '"' then Onto(s[..1], Scan(s[1..], delimiter, !quoted, false))
    else if s[0] == delimiter && !quoted then
      var rest := Scan(s[1..], delimiter, quoted, false);
      if rest.None? then None else Some([""] + rest.value)
    else Onto(s[..1], Scan(s[1..], delimiter, quoted, false))
  }

  /** The stripped parts; None when a quote is open at the end or a part is empty. */
  function SplitSpec(s: string, delimiter: char): (r: Option<seq<string>>)
    ensures r.Some? ==> |r.value| > 0
  {
    var raw := Scan(s, delimiter, false, false);
    if raw.None? || "" in StripAll(raw.value) then None else Some(StripAll(raw.value))
  }

  function Resume(done: seq<string>, current: string, rest: Option<seq<string>>): Option<seq<string>>
    requires rest.Some? ==> |rest.value| > 0
  {
    if rest.None? then None else Some(done + [current + rest.value[0]] + rest.value[1..])
  }

  lemma OntoNothing(parts: Option<seq<string>>)
    requires parts.Some? ==> |parts.value| > 0
    ensures Onto("", parts) == parts && Resume([], "", parts) == parts
  {
    if parts.Some? {
      assert "" + parts.value[0] == parts.value[0] && [parts.value[0]] + parts.value[1..] == parts.value;
      assert [] + ["" + parts.value[0]] + parts.value[1..] == parts.value;
    }
  }

  lemma ResumeOnto(done: seq<string>, current: string, c: string, rest: Option<seq<string>>)
    requires rest.Some? ==> |rest.value| > 0
    ensures Resume(done, current, Onto(c, rest)) == Resume(done, current + c, rest)
  {
    if rest.Some? { assert current + (c + rest.value[0]) == (current + c) + rest.value[0]; }
  }

  /** One character of the scan. */
  lemma ScanStep(rest: string, delimiter: char, quoted: bool, escaped: bool)
    requires rest != ""
    ensures var c, after := rest[0], rest[1..];
      Scan(rest, delimiter, quoted, escaped) ==
        if escaped then Onto([c], Scan(after, delimiter, quoted, false))
        else if c == '\\' && quoted then Scan(after, delimiter, quoted, true)
        else if c == '"' then Onto([c], Scan(after, delimiter, !quoted, false))
        else if c == delimiter && !quoted then Fresh(Scan(after, delimiter, quoted, false))
        else Onto([c], Scan(after, delimiter, quoted, false))
  {
    assert rest[..1] == [rest[0]];
  }

  lemma ScanEnd(delimiter: char, quoted: bool, escaped: bool)
    ensures Scan("", delimiter, quoted, escaped) == if quoted || escaped then None else Some([""])
  {
  }

  /** A delimiter ends the current part. */
  function Fresh(rest: Option<seq<string>>): Option<seq<string>> {
    if rest.None? then None else Some([""] + rest.value)
  }

  lemma ResumeFresh(done: seq<string>, current: string, rest: Option<seq<string>>)
    requires rest.Some? ==> |rest.value| > 0
    ensures Resume(done, current, Fresh(rest)) == Resume(done + [current], "", rest)
  {
    if rest.Some? {
      assert ([""] + rest.value)[1..] == rest.value && "" + rest.value[0] == rest.value[0] && current + "" == current;
      assert done + [current] + rest.value == (done + [current]) + [rest.value[0]] + rest.value[1..];
    }
  }

  method SplitQuoted(value: string, delimiter: char) returns (result: Option<seq<string>>)
    ensures result == SplitSpec(value, delimiter)
  {
    hide Scan, Strip, Onto, Resume, Fresh;
    var parts: seq<string> := [];
    var current := "";
    var quoted, escaped := false, false;
    ghost var raw: seq<string> := [];
    var i := 0;
    ghost var whole := Scan(value, delimiter, false, false);
    OntoNothing(whole);
    assert value[0..] == value;
    while i < |value|
      invariant 0 <= i <= |value| && parts == StripAll(raw)
      invariant whole == Resume(raw, current, Scan(value[i..], delimiter, quoted, escaped))
    {
      var c := value[i];
      ghost var after := value[i + 1..];
      assert value[i..][0] == c && value[i..][1..] == after;
      ScanStep(value[i..], delimiter, quoted, escaped);
      if escaped {
        ResumeOnto(raw, current, [c], Scan(after, delimiter, quoted, false));
        current := current + [c];
        escaped := false;
      } else if c == '\\' && quoted {
        escaped := true;
      } else if c == '"' {
        ResumeOnto(raw, current, [c], Scan(after, delimiter, !quoted, false));
        quoted := !quoted;
        current := current + [c];
      } else if c == delimiter && !quoted {
        ResumeFresh(raw, current, Scan(after, delimiter, quoted, false));
        parts := parts + [Strip(current)];
        raw := raw + [current];
        current := "";
      } else {
        ResumeOnto(raw, current, [c], Scan(after, delimiter, quoted, false));
        current := current + [c];
      }
      i := i + 1;
    }
    assert value[i..] == "";
    ScanEnd(delimiter, quoted, escaped);
    ResumeEnd(raw, current);
    if quoted || escaped { return None; }
    parts := parts + [Strip(current)];
    assert parts == StripAll(raw + [current]);
    if "" in parts { return None; }
    return Some(parts);
  }

  lemma ResumeEnd(done: seq<string>, current: string)
    ensures Resume(done, current, None) == None && Resume(done, current, Some([""])) == Some(done + [current])
  {
    assert current + "" == current && done + [current] + [""][1..] == done + [current];
  }

  // ----- what the parts are -----

  /** The quote state after a text without quoted pairs. */
  function QuoteState(s: string, quoted: bool): bool {
    if s == "" then quoted else QuoteState(s[1..], if s[0] == '"' then !quoted else quoted)
  }

  /** No delimiter outside quotes. */
  predicate Covered(s: string, delimiter: char, quoted: bool) {
    s == "" || ((s[0] == delimiter ==> quoted) && Covered(s[1..], delimiter, if s[0] == '"' then !quoted else quoted))
  }

  /** Balanced quotes and no unquoted delimiter. */
  predicate Closed(s: string, delimiter: char) {
    Covered(s, delimiter, false) && !QuoteState(s, false)
  }

  /** How many backslashes of quoted pairs the scan drops. */
  function Dropped(s: string, quoted: bool, escaped: bool): nat {
    if s == "" then 0
    else if escaped then Dropped(s[1..], quoted, false)
    else if s[0] == '\\' && quoted then 1 + Dropped(s[1..], quoted, true)
    else Dropped(s[1..], if s[0] == '"' then !quoted else quoted, false)
  }

  lemma {:induction false} JoinOnto(prefix: string, parts: seq<string>, separator: string)
    requires |parts| > 0
    ensures Join([prefix + parts[0]] + parts[1..], separator) == prefix + Join(parts, separator)
  {
    if |parts| > 1 {
      assert ([prefix + parts[0]] + parts[1..])[1..] == parts[1..];
    }
  }

  /** Joining the raw parts loses exactly the dropped backslashes: it gives the text back iff there are none. */
  lemma {:induction false} ScanLoses(s: string, delimiter: char, quoted: bool, escaped: bool)
    requires Scan(s, delimiter, quoted, escaped).Some?
    ensures var joined := Join(Scan(s, delimiter, quoted, escaped).value, [delimiter]);
      |joined| + Dropped(s, quoted, escaped) == |s|
      && (joined == s <==> Dropped(s, quoted, escaped) == 0)
  {
    if s != "" {
      assert s == s[..1] + s[1..];
      if !escaped && s[0] == '\\' && quoted {
        ScanLoses(s[1..], delimiter, quoted, true);
      } else if !escaped && s[0] != '"' && s[0] == delimiter && !quoted {
        ScanLoses(s[1..], delimiter, quoted, false);
        var rest := Scan(s[1..], delimiter, quoted, false).value;
        assert ([""] + rest)[1..] == rest;
        assert Join([""] + rest, [delimiter]) == [delimiter] + Join(rest, [delimiter]);
      } else {
        var q := if !escaped && s[0] == '"' then !quoted else quoted;
        ScanLoses(s[1..], delimiter, q, false);
        JoinOnto(s[..1], Scan(s[1..], delimiter, q, false).value, [delimiter]);
      }
    }
  }

  lemma {:induction false} NothingToDrop(s: string, quoted: bool)
    requires '\\' !in s
    ensures Dropped(s, quoted, false) == 0
  {
    if s != "" { NothingToDrop(s[1..], if s[0] == '"' then !quoted else quoted); }
  }

  /** Closed, and no backslash of it is taken for a quoted pair. */
  predicate Intact(part: string, delimiter: char) {
    Closed(part, delimiter) && Dropped(part, false, false) == 0
  }

  predicate AllIntact(parts: seq<string>, delimiter: char) {
    forall i :: 0 <= i < |parts| ==> Intact(parts[i], delimiter)
  }

  /** When no quoted pair was dropped every raw part is closed. */
  lemma {:induction false} ScanGivesClosed(s: string, delimiter: char, quoted: bool)
    requires delimiter != '"' && Dropped(s, quoted, false) == 0 && Scan(s, delimiter, quoted, false).Some?
    ensures var parts := Scan(s, delimiter, quoted, false).value;
      Covered(parts[0], delimiter, quoted) && !QuoteState(parts[0], quoted) && Dropped(parts[0], quoted, false) == 0
      && AllIntact(parts[1..], delimiter)
  {
    if s != "" {
      var q := if s[0] == '"' then !quoted else quoted;
      ScanGivesClosed(s[1..], delimiter, q);
      var rest := Scan(s[1..], delimiter, q, false).value;
      if s[0] == delimiter && !quoted {
        var parts := [""] + rest;
        assert parts[1..] == rest;
        assert forall i :: 0 < i < |rest| ==> rest[i] == rest[1..][i - 1];
      } else {
        assert (s[..1] + rest[0])[1..] == rest[0];
        assert ([s[..1] + rest[0]] + rest[1..])[1..] == rest[1..];
      }
    }
  }

  /** Taking white space off the ends keeps a part closed. */
  lemma {:induction false} StripKeepsClosed(s: string, delimiter: char)
    requires Closed(s, delimiter)
    ensures Closed(Strip(s), delimiter)
    decreases |s|
  {
    if s != "" && Blank(s[0]) {
      StripKeepsClosed(s[1..], delimiter);
    } else if s != "" && Blank(s[|s| - 1]) {
      var front, last := s[..|s| - 1], s[|s| - 1..];
      assert s == front + last && last[1..] == "";
      QuoteStateSplits(front, last, delimiter, false);
      StripKeepsClosed(front, delimiter);
    }
  }

  /** The parts that the splitter returns have balanced quotes and no unquoted delimiter. */
  lemma SplitGivesClosed(s: string, delimiter: char)
    requires delimiter != '"' && Dropped(s, false, false) == 0 && SplitSpec(s, delimiter).Some?
    ensures forall i :: 0 <= i < |SplitSpec(s, delimiter).value| ==> Closed(SplitSpec(s, delimiter).value[i], delimiter)
  {
    ScanGivesClosed(s, delimiter, false);
    var raw := Scan(s, delimiter, false, false).value;
    hide Strip, Closed, Scan;
    forall i | 0 <= i < |raw| ensures Closed(Strip(raw[i]), delimiter) {
      assert i > 0 ==> raw[i] == raw[1..][i - 1];
      FirstClosed(raw[0], delimiter);
      StripKeepsClosed(raw[i], delimiter);
    }
  }

  lemma FirstClosed(part: string, delimiter: char)
    ensures Covered(part, delimiter, false) && !QuoteState(part, false) ==> Closed(part, delimiter)
  {
  }

  lemma {:induction false} QuoteStateSplits(a: string, b: string, delimiter: char, quoted: bool)
    ensures QuoteState(a + b, quoted) == QuoteState(b, QuoteState(a, quoted))
    ensures Covered(a + b, delimiter, quoted) <==>
      Covered(a, delimiter, quoted) && Covered(b, delimiter, QuoteState(a, quoted))
  {
    if a == "" {
      assert a + b == b;
    } else {
      assert (a + b)[1..] == a[1..] + b && (a + b)[0] == a[0];
      QuoteStateSplits(a[1..], b, delimiter, if a[0] == '"' then !quoted else quoted);
    }
  }

  lemma {:induction false} ScanClosedPrefix(part: string, rest: string, delimiter: char, quoted: bool)
    requires delimiter != '"' && Dropped(part, quoted, false) == 0 && Covered(part, delimiter, quoted)
    ensures Scan(part + rest, delimiter, quoted, false)
      == Onto(part, Scan(rest, delimiter, QuoteState(part, quoted), false))
  {
    if part == "" {
      assert part + rest == rest;
      OntoNothing(Scan(rest, delimiter, quoted, false));
    } else {
      assert (part + rest)[1..] == part[1..] + rest && (part + rest)[0] == part[0] && (part + rest)[..1] == part[..1];
      var q := if part[0] == '"' then !quoted else quoted;
      ScanClosedPrefix(part[1..], rest, delimiter, q);
      var parts := Scan(rest, delimiter, QuoteState(part, quoted), false);
      if parts.Some? { assert part[..1] + (part[1..] + parts.value[0]) == part + parts.value[0]; }
    }
  }

  /** Splitting undoes joining of intact parts. */
  lemma {:induction false} ScanOfJoin(parts: seq<string>, delimiter: char)
    requires |parts| > 0 && delimiter != '"' && delimiter != '\\' && AllIntact(parts, delimiter)
    ensures Scan(Join(parts, [delimiter]), delimiter, false, false) == Some(parts)
  {
    var first := parts[0];
    if |parts| == 1 {
      ScanClosedPrefix(first, "", delimiter, false);
      assert first + "" == first && [first] + [""][1..] == parts;
    } else {
      var tail := Join(parts[1..], [delimiter]);
      ScanOfJoin(parts[1..], delimiter);
      ScanClosedPrefix(first, [delimiter] + tail, delimiter, false);
      assert ([delimiter] + tail)[1..] == tail;
      assert Join(parts, [delimiter]) == first + ([delimiter] + tail);
      assert ([""] + parts[1..])[1..] == parts[1..] && first + "" == first && [first] + parts[1..] == parts;
    }
  }

  // ----- values, addresses and hosts -----

  function Find(s: string, c: char): (r: Option<nat>)
    ensures r.None? <==> c !in s
    ensures r.Some? ==> r.value < |s| && s[r.value] == c && c !in s[..r.value]
  {
    if s == "" then None
    else if s[0] == c then Some(0)
    else
      var rest := Find(s[1..], c);
      if rest.None? then None else assert s[..rest.value + 1] == [s[0]] + s[1..][..rest.value]; Some(rest.value + 1)
  }

  predicate Digits(s: string) {
    s != "" && forall i :: 0 <= i < |s| ==> '0' <= s[i] <= '9'
  }

  function Number(s: string): nat {
    if s == "" then 0
    else 10 * Number(s[..|s| - 1]) + (if '0' <= s[|s| - 1] <= '9' then s[|s| - 1] as int - '0' as int else 0)
  }

  /** No control character and no space. */
  predicate Visible(s: string) {
    forall i :: 0 <= i < |s| ==> '!' <= s[i] && s[i] != '\U{7f}'
  }

  function Unquote(value: string): (r: Option<string>) {
    if value != "" && (value[0] == '"' || value[|value| - 1] == '"') then
      if |value| < 2 || value[0] != '"' || value[|value| - 1] != '"' then None
      else if Visible(value[1..|value| - 1]) then Some(value[1..|value| - 1])
      else None
    else if Visible(value) then Some(value)
    else None
  }

  /** The single colon of a text that has exactly one. */
  function OnlyColon(s: string): Option<nat> {
    var k := Find(s, ':');
    if k.Some? && ':' !in s[k.value + 1..] then k else None
  }

  /** The text inside leading brackets and the text after them. */
  function Bracketed(s: string): Option<(string, string)>
    requires s != "" && s[0] == '['
  {
    var closing := Find(s, ']');
    if closing.None? then None else Some((s[1..closing.value], s[closing.value + 1..]))
  }

  function ParseAddress<A>(ip: string -> Option<A>, value: string): Option<A> {
    var text := Unquote(value);
    if text.None? then None else ParseNode(ip, text.value)
  }

  function ParseNode<A>(ip: string -> Option<A>, text: string): Option<A> {
    if Lower(text) == "unknown" || (text != "" && text[0] == '_') then None
    else if text != "" && text[0] == '[' then
      var parts := Bracketed(text);
      if parts.None? then None
      else if parts.value.1 != "" && (parts.value.1[0] != ':' || !Digits(parts.value.1[1..])) then None
      else ip(parts.value.0)
    else
      var colon := OnlyColon(text);
      if colon.Some? && Digits(text[colon.value + 1..]) then ip(text[..colon.value]) else ip(text)
  }

  datatype Host = Host(name: string, port: Option<nat>, serialized: string)

  function CheckedHost(name: string, port: Option<nat>, text: string): Option<Host> {
    if name == "" || (exists i :: 0 <= i < |name| && Blank(name[i])) then None
    else if port.Some? && !(1 <= port.value <= 65535) then None
    else Some(Host(Lower(name), port, Lower(text)))
  }

  function ParseHost(value: string): Option<Host> {
    var text := Unquote(value);
    if text.None? || exists i :: 0 <= i < |text.value| && text.value[i] in {'/', '?', '#', '@'} then None
    else ParseAuthority(text.value)
  }

  function ParseAuthority(text: string): Option<Host> {
    if text != "" && text[0] == '[' then
      var parts := Bracketed(text);
      if parts.None? then None
      else if parts.value.1 == "" then CheckedHost(parts.value.0, None, text)
      else if parts.value.1[0] != ':' || !Digits(parts.value.1[1..]) then None
      else CheckedHost(parts.value.0, Some(Number(parts.value.1[1..])), text)
    else
      var colon := OnlyColon(text);
      if colon.None? then CheckedHost(text, None, text)
      else if !Digits(text[colon.value + 1..]) then None
      else CheckedHost(text[..colon.value], Some(Number(text[colon.value + 1..])), text)
  }

  function ValidateScheme(value: string): Option<string> {
    var text := Unquote(value);
    if text.Some? && (Lower(text.value) == "http" || Lower(text.value) == "https") then Some(Lower(text.value))
      else None
  }

  // ----- the header -----

  predicate KnownKey(key: string) {
    key == "for" || key == "by" || key == "proto" || key == "host"
  }

  function AddParameter(known: Option<map<string, string>>, parameter: string): Option<map<string, string>> {
    if known.None? then None
    else
      var sign := Find(parameter, '=');
      if sign.None? then None
      else
        var key, value := Lower(Strip(parameter[..sign.value])), Strip(parameter[sign.value + 1..]);
        if !KnownKey(key) || key in known.value then None else Some(known.value[key := value])
  }

  /** The parameters of an element by lower-case name; None for a malformed, unknown or repeated one. */
  function ParametersOf(parts: seq<string>): Option<map<string, string>> {
    if parts == [] then Some(map[]) else AddParameter(ParametersOf(parts[..|parts| - 1]), parts[|parts| - 1])
  }

  datatype Entry<A> = Entry(address: A, scheme: Option<string>, host: Option<Host>)

  function EntryOf<A>(ip: string -> Option<A>, parameters: map<string, string>): Option<Entry<A>> {
    if "for" !in parameters then None
    else
      var address := ParseAddress(ip, parameters["for"]);
      var scheme := if "proto" in parameters then ValidateScheme(parameters["proto"]) else None;
      var host := if "host" in parameters then ParseHost(parameters["host"]) else None;
      if address.None? || ("proto" in parameters && scheme.None?) || ("host" in parameters && host.None?) then None
      else Some(Entry(address.value, scheme, host))
  }

  function ParseElement<A>(ip: string -> Option<A>, element: string): Option<Entry<A>> {
    var parts := SplitSpec(element, ';');
    if parts.None? then None
    else
      var parameters := ParametersOf(parts.value);
      if parameters.None? then None else EntryOf(ip, parameters.value)
  }

  function Append<T>(list: Option<seq<T>>, item: Option<T>): Option<seq<T>> {
    if list.None? || item.None? then None else Some(list.value + [item.value])
  }

  function EntriesOf<A>(ip: string -> Option<A>, elements: seq<string>): Option<seq<Entry<A>>> {
    if elements == [] then Some([])
    else Append(EntriesOf(ip, elements[..|elements| - 1]), ParseElement(ip, elements[|elements| - 1]))
  }

  datatype Reading<A> = Reading(chain: seq<A>, scheme: Option<string>, host: Option<Host>)

  function Chain<A>(entries: seq<Entry<A>>): (r: seq<A>)
    ensures |r| == |entries|
  {
    if entries == [] then [] else Chain(entries[..|entries| - 1]) + [entries[|entries| - 1].address]
  }

  function Schemes<A>(entries: seq<Entry<A>>): seq<string> {
    if entries == [] then []
    else
      var last := entries[|entries| - 1];
      Schemes(entries[..|entries| - 1]) + (if last.scheme.Some? then [last.scheme.value] else [])
  }

  function Hosts<A>(entries: seq<Entry<A>>): seq<Host> {
    if entries == [] then []
    else
      var last := entries[|entries| - 1];
      Hosts(entries[..|entries| - 1]) + (if last.host.Some? then [last.host.value] else [])
  }

  function First<T>(list: seq<T>): Option<T> {
    if list == [] then None else Some(list[0])
  }

  /** Refused when two elements disagree about the scheme or the host. */
  function Combine<A>(entries: seq<Entry<A>>): Option<Reading<A>> {
    Agreed(Chain(entries), Schemes(entries), Hosts(entries))
  }

  function Agreed<A>(chain: seq<A>, schemes: seq<string>, hosts: seq<Host>): Option<Reading<A>> {
    if exists i :: 0 <= i < |schemes| && schemes[i] != schemes[0] then None
    else if exists i :: 0 <= i < |hosts| && hosts[i].serialized != hosts[0].serialized then None
    else Some(Reading(chain, First(schemes), First(hosts)))
  }

  predicate Ascii(s: string) {
    forall i :: 0 <= i < |s| ==> s[i] < '\U{80}'
  }

  function ParseHeader<A>(ip: string -> Option<A>, text: string): Option<Reading<A>> {
    if !Ascii(text) then None
    else
      var elements := SplitSpec(text, ',');
      if elements.None? then None
      else
        var entries := EntriesOf(ip, elements.value);
        if entries.None? then None else Combine(entries.value)
  }

  method ReadParameters(element: string) returns (parameters: Option<map<string, string>>)
    ensures parameters == (var parts := SplitSpec(element, ';');
      if parts.None? then None else ParametersOf(parts.value))
  {
    var parts := SplitQuoted(element, ';');
    if parts.None? { return None; }
    hide SplitSpec, AddParameter;
    parameters := Some(map[]);
    for i := 0 to |parts.value|
      invariant parameters == ParametersOf(parts.value[..i])
    {
      assert parts.value[..i + 1][..i] == parts.value[..i];
      parameters := AddParameter(parameters, parts.value[i]);
    }
    assert parts.value[..|parts.value|] == parts.value;
  }

  /** The parameters of one element and what they mean. */
  method ReadEntry<A>(ip: string -> Option<A>, element: string) returns (entry: Option<Entry<A>>)
    ensures entry == ParseElement(ip, element)
  {
    hide SplitSpec, EntryOf, ParametersOf;
    var parameters := ReadParameters(element);
    return if parameters.None? then None else EntryOf(ip, parameters.value);
  }

  method ParseForwarded<A>(ip: string -> Option<A>, text: string) returns (reading: Option<Reading<A>>)
    ensures reading == ParseHeader(ip, text)
  {
    hide SplitSpec, Ascii, Chain, Schemes, Hosts, EntriesOf, ParseElement, Agreed, Append;
    if !Ascii(text) { return None; }
    var elements := SplitQuoted(text, ',');
    if elements.None? { return None; }
    var parts := elements.value;
    var chain: seq<A> := [];
    var schemes: seq<string> := [];
    var hosts: seq<Host> := [];
    ghost var entries: seq<Entry<A>> := [];
    NoEntries<A>(ip);
    assert parts[..0] == [];
    for i := 0 to |parts|
      invariant EntriesOf(ip, parts[..i]) == Some(entries)
      invariant chain == Chain(entries) && schemes == Schemes(entries) && hosts == Hosts(entries)
    {
      var entry := ReadEntry(ip, parts[i]);
      EntriesMore(ip, parts[..i], parts[i]);
      AppendOne(entries, entry);
      assert parts[..i] + [parts[i]] == parts[..i + 1];
      if entry.None? {
        EntriesNone(ip, parts, i + 1);
        return None;
      }
      EntriesSnoc(entries, entry.value);
      entries := entries + [entry.value];
      chain := chain + [entry.value.address];
      if entry.value.scheme.Some? { schemes := schemes + [entry.value.scheme.value]; }
      if entry.value.host.Some? { hosts := hosts + [entry.value.host.value]; }
    }
    assert parts[..|parts|] == parts;
    return Agreed(chain, schemes, hosts);
  }

  lemma NoEntries<A>(ip: string -> Option<A>)
    ensures EntriesOf(ip, []) == Some([])
    ensures var none: seq<Entry<A>> := []; Chain(none) == [] && Schemes(none) == [] && Hosts(none) == []
  {
  }

  lemma AppendOne<T>(list: seq<T>, item: Option<T>)
    ensures Append(Some(list), item) == if item.None? then None else Some(list + [item.value])
  {
  }

  lemma EntriesMore<A>(ip: string -> Option<A>, elements: seq<string>, last: string)
    ensures EntriesOf(ip, elements + [last]) == Append(EntriesOf(ip, elements), ParseElement(ip, last))
  {
    hide ParseElement;
    assert (elements + [last])[..|elements|] == elements;
  }

  lemma EntriesSnoc<A>(entries: seq<Entry<A>>, last: Entry<A>)
    ensures Chain(entries + [last]) == Chain(entries) + [last.address]
    ensures Schemes(entries + [last]) == if last.scheme.Some? then Schemes(entries) + [last.scheme.value]
      else Schemes(entries)
    ensures Hosts(entries + [last]) == if last.host.Some? then Hosts(entries) + [last.host.value] else Hosts(entries)
  {
    assert (entries + [last])[..|entries|] == entries;
  }

  lemma {:induction false} EntriesNone<A>(ip: string -> Option<A>, elements: seq<string>, k: nat)
    requires k <= |elements| && EntriesOf(ip, elements[..k]).None?
    ensures EntriesOf(ip, elements).None?
  {
    hide ParseElement;
    if k < |elements| {
      assert elements[..|elements| - 1][..k] == elements[..k];
      EntriesNone(ip, elements[..|elements| - 1], k);
    } else {
      assert elements[..k] == elements;
    }
  }

  // ----- printing -----

  /** A parameter value, written bare or quoted. */
  datatype Value = Value(text: string, quoted: bool)

  function Show(v: Value): string {
    if v.quoted then "\"" + v.text + "\"" else v.text
  }

  /** Visible ASCII; a bare value avoids quotes, backslashes and separators. */
  predicate Writable(v: Value) {
    Visible(v.text) && Ascii(v.text)
    && (!v.quoted ==> '"' !in v.text && '\\' !in v.text && ',' !in v.text && ';' !in v.text)
  }

  /** A value that needs no quoted pair. */
  predicate Sane(v: Value) {
    Writable(v) && '"' !in v.text && '\\' !in v.text
  }

  datatype Element = Element(node: Value, proto: Option<Value>, host: Option<Value>)

  predicate SaneElement(e: Element) {
    Sane(e.node) && (e.proto.Some? ==> Sane(e.proto.value)) && (e.host.Some? ==> Sane(e.host.value))
  }

  predicate WritableElement(e: Element) {
    Writable(e.node) && (e.proto.Some? ==> Writable(e.proto.value)) && (e.host.Some? ==> Writable(e.host.value))
  }

  function Parameter(key: string, value: Option<Value>): seq<string> {
    if value.None? then [] else [key + "=" + Show(value.value)]
  }

  function Parameters(e: Element): seq<string> {
    ["for=" + Show(e.node)] + Parameter("proto", e.proto) + Parameter("host", e.host)
  }

  function PrintElement(e: Element): string {
    Join(Parameters(e), ";")
  }

  /** The elements, each after `pad` white space, separated by commas. */
  function PrintElements(elements: seq<Element>, pad: string): (r: seq<string>)
    ensures |r| == |elements|
    ensures forall i :: 0 <= i < |r| ==> r[i] == pad + PrintElement(elements[i])
  {
    seq(|elements|, i requires 0 <= i < |elements| => pad + PrintElement(elements[i]))
  }

  function PrintHeader(elements: seq<Element>, pad: string): string {
    Join(PrintElements(elements, pad), ",")
  }

  /** What an element means when its values are read one by one. */
  function Meaning<A>(ip: string -> Option<A>, e: Element): Option<Entry<A>> {
    var address := ParseAddress(ip, Show(e.node));
    var scheme := if e.proto.Some? then ValidateScheme(Show(e.proto.value)) else None;
    var host := if e.host.Some? then ParseHost(Show(e.host.value)) else None;
    if address.None? || (e.proto.Some? && scheme.None?) || (e.host.Some? && host.None?) then None
    else Some(Entry(address.value, scheme, host))
  }

  function Meanings<A>(ip: string -> Option<A>, elements: seq<Element>): Option<seq<Entry<A>>> {
    if elements == [] then Some([])
    else Append(Meanings(ip, elements[..|elements| - 1]), Meaning(ip, elements[|elements| - 1]))
  }

  predicate Padding(pad: string) {
    forall i :: 0 <= i < |pad| ==> pad[i] == ' ' || pad[i] == '\t'
  }

  // ----- printed headers are read back -----

  lemma {:induction false} PlainText(s: string, delimiter: char, quoted: bool)
    requires '"' !in s && (quoted || delimiter !in s)
    ensures QuoteState(s, quoted) == quoted && Covered(s, delimiter, quoted)
  {
    if s != "" { PlainText(s[1..], delimiter, quoted); }
  }

  lemma ShownIsClosed(v: Value, delimiter: char)
    requires Sane(v) && delimiter in {',', ';'}
    ensures Closed(Show(v), delimiter) && '\\' !in Show(v)
  {
    if v.quoted {
      PlainText(v.text, delimiter, true);
      var quote := "\"";
      assert quote[1..] == "";
      QuoteStateSplits(quote + v.text, quote, delimiter, false);
      QuoteStateSplits(quote, v.text, delimiter, false);
    } else {
      PlainText(v.text, delimiter, false);
    }
  }

  predicate Tidy(p: string, delimiter: char) {
    Closed(p, delimiter) && '\\' !in p && p != "" && Strip(p) == p && Ascii(p)
  }

  /** A printed parameter: closed, without white space at its ends, split at its equals sign. */
  lemma ParameterIsClosed(key: string, v: Value, delimiter: char)
    requires Sane(v) && delimiter in {',', ';'} && KnownKey(key)
    ensures Tidy(key + "=" + Show(v), delimiter)
  {
    assert Writable(v);
    hide Strip, Lower, KnownKey, QuoteState, Covered, Show, Sane;
    var p, prefix := key + "=" + Show(v), key + "=";
    ShownIsClosed(v, delimiter);
    ShownIsStripped(v);
    KeyIsPlain(key);
    PlainText(prefix, delimiter, false);
    QuoteStateSplits(prefix, Show(v), delimiter, false);
    assert p[0] == key[0] && p[|p| - 1] == (if Show(v) == "" then '=' else Show(v)[|Show(v)| - 1]);
    assert !Blank(p[0]) && !Blank(p[|p| - 1]);
  }

  lemma KeyIsPlain(key: string)
    requires KnownKey(key)
    ensures forall c :: c in key ==> 'a' <= c <= 'z'
    ensures key != "" && Strip(key) == key && Lower(key) == key && Ascii(key + "=")
  {
    hide Strip, Lower;
    LowerLetters(key);
  }

  lemma LowerLetters(s: string)
    requires s != "" && forall i :: 0 <= i < |s| ==> 'a' <= s[i] <= 'z'
    ensures Strip(s) == s && Lower(s) == s
  {
    hide Strip;
  }

  lemma ParameterIsRead(known: map<string, string>, key: string, v: Value)
    requires Writable(v) && KnownKey(key) && key !in known
    ensures AddParameter(Some(known), key + "=" + Show(v)) == Some(known[key := Show(v)])
  {
    hide Find, Strip, Lower, KnownKey, Show;
    var p := key + "=" + Show(v);
    KeyIsPlain(key);
    FindFirst(key, '=', Show(v));
    assert p == key + ['='] + Show(v) && p[..|key|] == key && p[|key| + 1..] == Show(v);
    ShownIsStripped(v);
  }

  lemma ShownIsStripped(v: Value)
    requires Writable(v)
    ensures Strip(Show(v)) == Show(v) && Ascii(Show(v))
  {
    hide Strip;
    if v.text != "" { assert !Blank(v.text[0]) && !Blank(v.text[|v.text| - 1]); }
    assert |Strip(Show(v))| <= |Show(v)|;
  }

  lemma FindFirst(before: string, c: char, after: string)
    requires c !in before
    ensures Find(before + [c] + after, c) == Some(|before|)
  {
    var s := before + [c] + after;
    var k := Find(s, c).value;
    assert s[|before|] == c && s[..|before|] == before;
    assert forall j :: 0 <= j < |before| ==> s[j] == before[j] && before[j] != c;
  }

  lemma ElementIsSplit(e: Element)
    requires SaneElement(e)
    ensures SplitSpec(PrintElement(e), ';') == Some(Parameters(e))
    ensures Closed(PrintElement(e), ',') && '\\' !in PrintElement(e) && Ascii(PrintElement(e))
    ensures PrintElement(e) != "" && Strip(PrintElement(e)) == PrintElement(e)
  {
    var parts := Parameters(e);
    ParametersAreClosed(e, ';');
    ParametersAreClosed(e, ',');
    forall i | 0 <= i < |parts| ensures Intact(parts[i], ';') { NothingToDrop(parts[i], false); }
    ScanOfJoin(parts, ';');
    assert StripAll(parts) == parts;
    JoinIsClosed(parts);
  }

  lemma ParametersAreClosed(e: Element, delimiter: char)
    requires SaneElement(e) && delimiter in {',', ';'}
    ensures forall i :: 0 <= i < |Parameters(e)| ==> Tidy(Parameters(e)[i], delimiter)
  {
    hide Tidy, Sane, Show;
    ParameterIsClosed("for", e.node, delimiter);
    assert "for" + "=" == "for=";
    if e.proto.Some? { ParameterIsClosed("proto", e.proto.value, delimiter); }
    if e.host.Some? { ParameterIsClosed("host", e.host.value, delimiter); }
  }

  lemma TidyEnds(p: string, delimiter: char)
    requires Tidy(p, delimiter)
    ensures !Blank(p[0]) && !Blank(p[|p| - 1])
  {
  }

  lemma {:induction false} JoinIsClosed(parts: seq<string>)
    requires |parts| > 0 && forall i :: 0 <= i < |parts| ==> Tidy(parts[i], ',')
    ensures Tidy(Join(parts, ";"), ',')
  {
    hide Strip;
    if |parts| > 1 {
      var first, rest := parts[0], Join(parts[1..], ";");
      JoinIsClosed(parts[1..]);
      TidyEnds(first, ',');
      TidyEnds(rest, ',');
      QuoteStateSplits(first + ";", rest, ',', false);
      QuoteStateSplits(first, ";", ',', false);
      PlainText(";", ',', false);
    }
  }

  lemma {:induction false} StripPadded(pad: string, s: string)
    requires Padding(pad) && s != "" && Strip(s) == s
    ensures Strip(pad + s) == s
  {
    if pad == "" {
      assert pad + s == s;
    } else {
      assert (pad + s)[1..] == pad[1..] + s;
      StripPadded(pad[1..], s);
    }
  }

  lemma PaddedIsClosed(pad: string, s: string)
    requires Padding(pad) && Tidy(s, ',')
    ensures Closed(pad + s, ',') && '\\' !in pad + s && Strip(pad + s) == s && Ascii(pad + s)
  {
    hide Strip;
    PlainText(pad, ',', false);
    QuoteStateSplits(pad, s, ',', false);
    StripPadded(pad, s);
  }

  lemma ParametersAreRead(e: Element)
    requires WritableElement(e)
    ensures var parameters := ParametersOf(Parameters(e));
      parameters.Some? && "for" in parameters.value && parameters.value["for"] == Show(e.node)
      && ("proto" in parameters.value <==> e.proto.Some?) && ("host" in parameters.value <==> e.host.Some?)
      && (e.proto.Some? ==> parameters.value["proto"] == Show(e.proto.value))
      && (e.host.Some? ==> parameters.value["host"] == Show(e.host.value))
  {
    hide AddParameter, Writable, Show;
    var m0: map<string, string> := map[];
    var first := "for=" + Show(e.node);
    ParameterIsRead(m0, "for", e.node);
    assert "for" + "=" == "for=" && "proto" + "=" == "proto=" && "host" + "=" == "host=";
    var m1 := m0["for" := Show(e.node)];
    ParametersSnoc([], first);
    var parts1 := [first];
    assert [] + [first] == parts1 && ParametersOf(parts1) == Some(m1);
    var parts2, m2 := parts1 + Parameter("proto", e.proto), m1;
    if e.proto.Some? {
      ParameterIsRead(m1, "proto", e.proto.value);
      m2 := m1["proto" := Show(e.proto.value)];
      ParametersSnoc(parts1, "proto=" + Show(e.proto.value));
    } else {
      assert parts2 == parts1;
    }
    assert ParametersOf(parts2) == Some(m2);
    if e.host.Some? {
      ParameterIsRead(m2, "host", e.host.value);
      ParametersSnoc(parts2, "host=" + Show(e.host.value));
    } else {
      assert parts2 + Parameter("host", e.host) == parts2;
    }
  }

  lemma ParametersSnoc(parts: seq<string>, last: string)
    ensures ParametersOf(parts + [last]) == AddParameter(ParametersOf(parts), last)
  {
    assert (parts + [last])[..|parts|] == parts;
  }

  /** An element that is split into its own parameters is read as it means. */
  lemma ElementIsRead<A>(ip: string -> Option<A>, e: Element)
    requires WritableElement(e) && SplitSpec(PrintElement(e), ';') == Some(Parameters(e))
    ensures ParseElement(ip, PrintElement(e)) == Meaning(ip, e)
  {
    hide SplitSpec, ParametersOf, Parameters, Writable, Show, ParseAddress, ParseHost, ValidateScheme, PrintElement;
    ParametersAreRead(e);
  }

  lemma {:induction false} ElementsAreRead<A>(ip: string -> Option<A>, elements: seq<Element>, texts: seq<string>)
    requires |texts| == |elements| && forall i :: 0 <= i < |elements| ==> texts[i] == PrintElement(elements[i])
    requires forall i :: 0 <= i < |elements| ==>
      WritableElement(elements[i]) && SplitSpec(PrintElement(elements[i]), ';') == Some(Parameters(elements[i]))
    ensures EntriesOf(ip, texts) == Meanings(ip, elements)
  {
    hide ParseElement, Meaning, PrintElement, WritableElement, SplitSpec, Parameters;
    if elements != [] {
      var k := |elements| - 1;
      ElementIsRead(ip, elements[k]);
      ElementsAreRead(ip, elements[..k], texts[..k]);
    }
  }

  /**
   * Printing elements and parsing the header gives what the elements mean, in order, whatever
   * separators the quoted values contain.
   */
  lemma HeaderIsRead<A>(ip: string -> Option<A>, elements: seq<Element>, pad: string)
    requires |elements| > 0 && Padding(pad) && forall i :: 0 <= i < |elements| ==> SaneElement(elements[i])
    ensures ParseHeader(ip, PrintHeader(elements, pad)) ==
      (var entries := Meanings(ip, elements); if entries.None? then None else Combine(entries.value))
  {
    hide SaneElement, WritableElement, PrintElement, Parameters, SplitSpec, EntriesOf, Meanings, Combine, Padding,
      Ascii, PrintHeader;
    var texts := seq(|elements|, i requires 0 <= i < |elements| => PrintElement(elements[i]));
    PrintedHeaderSplits(elements, pad, texts);
    forall i | 0 <= i < |elements|
      ensures WritableElement(elements[i]) && SplitSpec(PrintElement(elements[i]), ';') == Some(Parameters(elements[i]))
    {
      ElementIsSplit(elements[i]);
      SaneIsWritable(elements[i]);
    }
    ElementsAreRead(ip, elements, texts);
  }

  lemma PrintedHeaderSplits(elements: seq<Element>, pad: string, texts: seq<string>)
    requires |elements| > 0 && Padding(pad) && forall i :: 0 <= i < |elements| ==> SaneElement(elements[i])
    requires |texts| == |elements| && forall i :: 0 <= i < |texts| ==> texts[i] == PrintElement(elements[i])
    ensures Ascii(PrintHeader(elements, pad)) && SplitSpec(PrintHeader(elements, pad), ',') == Some(texts)
  {
    hide SaneElement, PrintElement, Strip, Padding, Ascii, Scan, Intact;
    var parts := PrintElements(elements, pad);
    forall i | 0 <= i < |elements|
      ensures Intact(parts[i], ',') && Strip(parts[i]) == texts[i] && texts[i] != "" && Ascii(parts[i])
    {
      PrintedPart(elements[i], pad);
    }
    ScanOfJoin(parts, ',');
    JoinedAscii(parts);
    assert StripAll(parts) == texts;
  }

  lemma PrintedPart(e: Element, pad: string)
    requires Padding(pad) && SaneElement(e)
    ensures var part := pad + PrintElement(e);
      Intact(part, ',') && Strip(part) == PrintElement(e) && PrintElement(e) != "" && Ascii(part)
  {
    hide SaneElement, PrintElement, Strip, Padding, Ascii;
    ElementIsSplit(e);
    PaddedIsClosed(pad, PrintElement(e));
    NothingToDrop(pad + PrintElement(e), false);
  }

  lemma SaneIsWritable(e: Element)
    requires SaneElement(e)
    ensures WritableElement(e)
  {
  }

  lemma {:induction false} JoinedAscii(parts: seq<string>)
    requires forall i :: 0 <= i < |parts| ==> Ascii(parts[i])
    ensures Ascii(Join(parts, ","))
  {
    if |parts| > 1 { JoinedAscii(parts[1..]); }
  }

  // ----- printed addresses and hosts are read back -----

  /** Characters of printed IPv4 and IPv6 addresses. */
  predicate AddressText(s: string) {
    s != "" && forall i :: 0 <= i < |s| ==> '0' <= s[i] <= '9' || 'a' <= s[i] <= 'f' || s[i] == '.' || s[i] == ':'
  }

  function WithPort(name: string, bracketed: bool, port: string): string {
    (if bracketed then "[" + name + "]" else name) + (if port == "" then "" else ":" + port)
  }

  lemma WritableIsUnquoted(v: Value)
    requires Writable(v)
    ensures Unquote(Show(v)) == Some(v.text)
  {
    if v.quoted { assert Show(v)[1..|Show(v)| - 1] == v.text; }
  }

  lemma ShownIsUnquoted(v: Value)
    requires Sane(v)
    ensures Unquote(Show(v)) == Some(v.text)
  {
    WritableIsUnquoted(v);
  }

  lemma BracketedIsRead(name: string, port: string)
    requires ']' !in name
    ensures var text := WithPort(name, true, port);
      text != "" && text[0] == '[' && Bracketed(text) == Some((name, if port == "" then "" else ":" + port))
  {
    var suffix := if port == "" then "" else ":" + port;
    assert WithPort(name, true, port) == "[" + name + "]" + suffix;
    hide WithPort;
    BracketsAreFound(name, suffix);
  }

  lemma BracketsAreFound(name: string, suffix: string)
    requires ']' !in name
    ensures Bracketed("[" + name + "]" + suffix) == Some((name, suffix))
  {
    hide Find;
    var text, prefix := "[" + name + "]" + suffix, "[" + name;
    FindFirst(prefix, ']', suffix);
    assert text == prefix + [']'] + suffix;
    assert text[1..|prefix|] == name;
    assert text[|prefix| + 1..] == suffix;
  }

  lemma ColonIsFound(name: string, port: string)
    requires ':' !in name && Digits(port)
    ensures OnlyColon(WithPort(name, false, port)) == Some(|name|)
    ensures WithPort(name, false, port)[..|name|] == name && WithPort(name, false, port)[|name| + 1..] == port
  {
    var text := WithPort(name, false, port);
    FindFirst(name, ':', port);
    assert text == name + [':'] + port && text[|name| + 1..] == port;
  }

  lemma CharactersOfWithPort(name: string, bracketed: bool, port: string)
    requires port == "" || Digits(port)
    ensures forall c :: c in WithPort(name, bracketed, port) ==>
      c in name || c == '[' || c == ']' || c == ':' || '0' <= c <= '9'
  {
  }

  predicate PlainCharacter(c: char) {
    '!' <= c < '\U{7f}' && c !in {'"', '\\', ',', ';'}
  }

  lemma PlainIsSane(v: Value)
    requires forall c :: c in v.text ==> PlainCharacter(c)
    ensures Sane(v)
  {
    assert forall i :: 0 <= i < |v.text| ==> v.text[i] in v.text;
  }

  lemma NotUnknown(text: string)
    requires text != "" && text[0] != 'u' && text[0] != 'U'
    ensures Lower(text) != "unknown"
  {
    assert Lower(text)[0] != 'u';
  }

  lemma BracketedNode<A>(ip: string -> Option<A>, address: string, port: string)
    requires ']' !in address && (port == "" || Digits(port))
    ensures ParseNode(ip, WithPort(address, true, port)) == ip(address)
  {
    var text := WithPort(address, true, port);
    BracketedIsRead(address, port);
    NotUnknown(text);
    assert port != "" ==> (":" + port)[1..] == port;
    hide WithPort, Bracketed, Lower;
  }

  lemma PlainNode<A>(ip: string -> Option<A>, text: string, colon: Option<nat>)
    requires text != "" && text[0] !in {'u', 'U', '_', '['} && colon == OnlyColon(text)
    ensures ParseNode(ip, text) ==
      if colon.Some? && Digits(text[colon.value + 1..]) then ip(text[..colon.value]) else ip(text)
  {
    NotUnknown(text);
    hide OnlyColon, Lower, Digits;
  }

  /** An address with or without brackets, port and quotes is read as the address itself. */
  lemma AddressIsRead<A>(ip: string -> Option<A>, address: string, bracketed: bool, port: string, quoted: bool)
    requires AddressText(address) && (port == "" || Digits(port))
    requires !bracketed ==> ':' !in address || (port == "" && OnlyColon(address).None?)
    ensures Sane(Value(WithPort(address, bracketed, port), quoted))
    ensures ParseAddress(ip, Show(Value(WithPort(address, bracketed, port), quoted))) == ip(address)
  {
    hide ParseNode, Bracketed, Sane, Show, Unquote, OnlyColon, WithPort, AddressText, Digits;
    var text := WithPort(address, bracketed, port);
    AddressIsSane(address, bracketed, port, quoted);
    ShownIsUnquoted(Value(text, quoted));
    if bracketed {
      BracketedNode(ip, address, port);
    } else if port == "" {
      WithoutPort(address);
      NoColon(address);
      PlainNode(ip, text, None);
    } else {
      ColonIsFound(address, port);
      PlainNode(ip, text, Some(|address|));
    }
  }

  lemma WithoutPort(name: string)
    ensures WithPort(name, false, "") == name
  {
  }

  lemma AddressIsSane(address: string, bracketed: bool, port: string, quoted: bool)
    requires AddressText(address) && (port == "" || Digits(port))
    ensures var text := WithPort(address, bracketed, port);
      Sane(Value(text, quoted)) && text != "" && (!bracketed ==> text[0] !in {'u', 'U', '_', '['})
    ensures ']' !in address
  {
    var text := WithPort(address, bracketed, port);
    CharactersOfWithPort(address, bracketed, port);
    assert !bracketed ==> text[0] == address[0];
    assert forall c :: c in address ==> PlainCharacter(c);
    hide WithPort;
    PlainIsSane(Value(text, quoted));
  }

  lemma NoColon(s: string)
    ensures ':' !in s ==> OnlyColon(s).None?
  {
  }

  predicate HostCharacter(c: char, bracketed: bool) {
    PlainCharacter(c) && c !in {'/', '?', '#', '@', '[', ']'} && (bracketed || c != ':')
  }

  /** The characters of a host name; colons may stand inside brackets only. */
  predicate HostText(s: string, bracketed: bool) {
    s != "" && forall i :: 0 <= i < |s| ==> HostCharacter(s[i], bracketed)
  }

  lemma PlainAuthority(text: string, name: string, port: Option<nat>, colon: Option<nat>)
    requires text != "" && text[0] != '[' && colon == OnlyColon(text)
    requires colon.None? ==> name == text && port.None?
    requires colon.Some? ==>
      Digits(text[colon.value + 1..]) && name == text[..colon.value] && port == Some(Number(text[colon.value + 1..]))
    ensures ParseAuthority(text) == CheckedHost(name, port, text)
  {
    hide OnlyColon, CheckedHost, Number, Digits;
  }

  lemma GoodHost(name: string, bracketed: bool, port: Option<nat>, text: string)
    requires HostText(name, bracketed) && (port.Some? ==> 1 <= port.value <= 65535)
    ensures CheckedHost(name, port, text) == Some(Host(Lower(name), port, Lower(text)))
  {
    hide Lower;
    assert forall i :: 0 <= i < |name| ==> HostCharacter(name[i], bracketed) && !Blank(name[i]);
  }

  lemma BracketedAuthority(name: string, port: string)
    requires ']' !in name && (port == "" || Digits(port))
    ensures var text := WithPort(name, true, port);
      ParseAuthority(text) == CheckedHost(name, if port == "" then None else Some(Number(port)), text)
  {
    var text := WithPort(name, true, port);
    BracketedIsRead(name, port);
    assert port != "" ==> (":" + port)[1..] == port;
    hide WithPort, Bracketed, CheckedHost, Number;
  }

  /**
   * A host, bare or in the brackets of an IPv6 literal, with or without port and quotes, is read in lower
   * case with its port number.
   */
  lemma HostIsRead(name: string, bracketed: bool, port: string, quoted: bool)
    requires HostText(name, bracketed) && (port == "" || (Digits(port) && 1 <= Number(port) <= 65535))
    ensures var text := WithPort(name, bracketed, port);
      Sane(Value(text, quoted))
      && ParseHost(Show(Value(text, quoted)))
         == Some(Host(Lower(name), if port == "" then None else Some(Number(port)), Lower(text)))
  {
    hide ParseAuthority, CheckedHost, OnlyColon, Number, Lower, Sane, Show, Unquote, WithPort, HostText, Digits,
      Bracketed;
    var text := WithPort(name, bracketed, port);
    var number := if port == "" then None else Some(Number(port));
    HostIsSane(name, bracketed, port, quoted);
    ShownIsUnquoted(Value(text, quoted));
    GoodHost(name, bracketed, number, text);
    if bracketed {
      BracketedAuthority(name, port);
    } else if port == "" {
      NoPort(name);
      PlainAuthority(text, name, number, None);
    } else {
      NoColonInHost(name);
      ColonIsFound(name, port);
      PlainAuthority(text, name, number, Some(|name|));
    }
  }

  lemma NoColonInHost(name: string)
    requires HostText(name, false)
    ensures ':' !in name
  {
  }

  lemma NoPort(name: string)
    requires HostText(name, false)
    ensures WithPort(name, false, "") == name && OnlyColon(name).None?
  {
    NoColonInHost(name);
    NoColon(name);
  }

  lemma HostIsSane(name: string, bracketed: bool, port: string, quoted: bool)
    requires HostText(name, bracketed) && (port == "" || Digits(port))
    ensures var text := WithPort(name, bracketed, port);
      Sane(Value(text, quoted)) && text != "" && (!bracketed ==> text[0] != '[')
      && forall i :: 0 <= i < |text| ==> text[i] !in {'/', '?', '#', '@'}
    ensures ']' !in name
  {
    var text := WithPort(name, bracketed, port);
    CharactersOfWithPort(name, bracketed, port);
    assert !bracketed ==> text[0] == name[0];
    assert forall c :: c in name ==> HostCharacter(c, bracketed);
    hide WithPort, HostText;
    assert forall c :: c in text ==> PlainCharacter(c) && c !in {'/', '?', '#', '@'};
    PlainIsSane(Value(text, quoted));
    assert forall i :: 0 <= i < |text| ==> text[i] in text;
  }

  /** A scheme in any case, bare or quoted, is read in lower case. */
  lemma SchemeIsRead(text: string, quoted: bool)
    requires Lower(text) == "http" || Lower(text) == "https"
    ensures Sane(Value(text, quoted)) && ValidateScheme(Show(Value(text, quoted))) == Some(Lower(text))
  {
    forall i | 0 <= i < |text| ensures PlainCharacter(text[i]) {
      assert Lower(text)[i] in {'h', 't', 'p', 's'};
    }
    PlainIsSane(Value(text, quoted));
    ShownIsUnquoted(Value(text, quoted));
  }

  /** What the values of the elements say: each address, one scheme and one host where they are given. */
  ghost predicate Says<A(!new)>(ip: string -> Option<A>, elements: seq<Element>, chain: seq<A>, scheme: string,
    host: Host)
  {
    |chain| == |elements|
    && forall i :: 0 <= i < |elements| ==>
      ParseAddress(ip, Show(elements[i].node)) == Some(chain[i])
      && (elements[i].proto.Some? ==> ValidateScheme(Show(elements[i].proto.value)) == Some(scheme))
      && (elements[i].host.Some? ==> ParseHost(Show(elements[i].host.value)) == Some(host))
  }

  /** Printing a chain with one scheme and one host and parsing the header gives them back. */
  lemma PrintedChainIsRead<A(!new)>(
      ip: string -> Option<A>, elements: seq<Element>, pad: string, chain: seq<A>, scheme: string, host: Host)
    requires |elements| > 0 && Padding(pad) && forall i :: 0 <= i < |elements| ==> SaneElement(elements[i])
    requires Says(ip, elements, chain, scheme, host)
    ensures ParseHeader(ip, PrintHeader(elements, pad)) == Some(Reading(
      chain,
      if exists i :: 0 <= i < |elements| && elements[i].proto.Some? then Some(scheme) else None,
      if exists i :: 0 <= i < |elements| && elements[i].host.Some? then Some(host) else None))
  {
    hide ParseHeader, PrintHeader, SaneElement, Says, Meanings, Chain, Schemes, Hosts;
    HeaderIsRead(ip, elements, pad);
    var entries := MeaningsOfSaying(ip, elements, chain, scheme, host);
  }

  lemma {:induction false} MeaningsOfSaying<A(!new)>(
      ip: string -> Option<A>, elements: seq<Element>, chain: seq<A>, scheme: string, host: Host)
    returns (entries: seq<Entry<A>>)
    requires Says(ip, elements, chain, scheme, host)
    ensures Meanings(ip, elements) == Some(entries) && Chain(entries) == chain
    ensures forall i :: 0 <= i < |Schemes(entries)| ==> Schemes(entries)[i] == scheme
    ensures forall i :: 0 <= i < |Hosts(entries)| ==> Hosts(entries)[i] == host
    ensures Schemes(entries) != [] <==> exists i :: 0 <= i < |elements| && elements[i].proto.Some?
    ensures Hosts(entries) != [] <==> exists i :: 0 <= i < |elements| && elements[i].host.Some?
  {
    hide Says, Meaning, Chain, Schemes, Hosts;
    entries := [];
    NoEntries<A>(ip);
    SayingsLength(ip, elements, chain, scheme, host);
    if elements != [] {
      var k := |elements| - 1;
      var last := LastMeaning(ip, elements, chain, scheme, host);
      var before := MeaningsOfSaying(ip, elements[..k], chain[..k], scheme, host);
      entries := before + [last];
      EntriesSnoc(before, last);
      assert chain == chain[..k] + [chain[k]];
      assert forall i :: 0 <= i < k ==> elements[..k][i] == elements[i];
    }
  }

  lemma SayingsLength<A(!new)>(ip: string -> Option<A>, elements: seq<Element>, chain: seq<A>, scheme: string,
    host: Host)
    requires Says(ip, elements, chain, scheme, host)
    ensures |chain| == |elements|
  {
  }

  lemma LastMeaning<A(!new)>(ip: string -> Option<A>, elements: seq<Element>, chain: seq<A>, scheme: string, host: Host)
    returns (last: Entry<A>)
    requires Says(ip, elements, chain, scheme, host) && elements != []
    ensures |chain| == |elements|
    ensures var k := |elements| - 1;
      Says(ip, elements[..k], chain[..k], scheme, host) && Meaning(ip, elements[k]) == Some(last)
        && last.address == chain[k]
      && last.scheme == (if elements[k].proto.Some? then Some(scheme) else None)
      && last.host == (if elements[k].host.Some? then Some(host) else None)
  {
    hide ParseAddress, ParseHost, ValidateScheme, Show;
    last := Meaning(ip, elements[|elements| - 1]).value;
  }

  // ----- the client address -----

  /** The rightmost address that is not a trusted proxy. */
  function RightmostUntrusted<A>(trusted: A -> bool, chain: seq<A>): Option<A> {
    if chain == [] then None
    else if !trusted(chain[|chain| - 1]) then Some(chain[|chain| - 1])
    else RightmostUntrusted(trusted, chain[..|chain| - 1])
  }

  function Client<A>(trusted: A -> bool, chain: seq<A>): A
    requires chain != []
  {
    var found := RightmostUntrusted(trusted, chain);
    if found.Some? then found.value else chain[0]
  }

  method ClientFromChain<A>(trusted: A -> bool, chain: seq<A>) returns (client: Option<A>)
    ensures client == if chain == [] then None else Some(Client(trusted, chain))
  {
    if chain == [] { return None; }
    var k := |chain|;
    assert chain[..k] == chain;
    while k > 0
      invariant 0 <= k <= |chain|
      invariant RightmostUntrusted(trusted, chain) == RightmostUntrusted(trusted, chain[..k])
    {
      k := k - 1;
      assert chain[..k + 1][..k] == chain[..k];
      if !trusted(chain[k]) { return Some(chain[k]); }
    }
    return Some(chain[0]);
  }

  lemma {:induction false} RightmostMeans<A>(trusted: A -> bool, chain: seq<A>)
    ensures RightmostUntrusted(trusted, chain).None? <==> forall a :: a in chain ==> trusted(a)
    ensures RightmostUntrusted(trusted, chain).Some? ==>
      exists k :: 0 <= k < |chain| && Some(chain[k]) == RightmostUntrusted(trusted, chain) && !trusted(chain[k])
                  && forall j :: k < j < |chain| ==> trusted(chain[j])
  {
    if chain != [] {
      var last := |chain| - 1;
      if trusted(chain[last]) {
        RightmostMeans(trusted, chain[..last]);
        assert chain == chain[..last] + [chain[last]];
      } else {
        assert chain[last] in chain;
      }
    }
  }

  /** Addresses put in front change nothing unless the whole chain behind them is trusted. */
  lemma {:induction false} PrependedAddressesAreIgnored<A>(trusted: A -> bool, forged: seq<A>, chain: seq<A>)
    requires chain != []
    ensures Client(trusted, forged + chain) ==
      if (forall a :: a in chain ==> trusted(a)) && forged != [] then Client(trusted, forged)
        else Client(trusted, chain)
  {
    RightmostMeans(trusted, chain);
    RightmostAppend(trusted, forged, chain);
  }

  lemma {:induction false} RightmostAppend<A>(trusted: A -> bool, a: seq<A>, b: seq<A>)
    ensures RightmostUntrusted(trusted, a + b) ==
      if RightmostUntrusted(trusted, b).Some? then RightmostUntrusted(trusted, b) else RightmostUntrusted(trusted, a)
  {
    if b == [] {
      assert a + b == a;
    } else {
      assert (a + b)[..|a + b| - 1] == a + b[..|b| - 1];
      RightmostAppend(trusted, a, b[..|b| - 1]);
    }
  }
}
