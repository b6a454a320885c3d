/** Which Forwarded headers with quoted pairs are read as their elements mean. */
module QuotedMeaning {
  import opened Text
  import opened ForwardedHeader
  import opened ForwardedReading
  import opened QuotedPairs

  // ----- lost hosts -----

  /** In front of any further text intact parts are split off as they are. */
  lemma {:induction false} ScanAfter(parts: seq<string>, rest: string)
    requires AllIntact(parts, ';')
    ensures Scan(Join(parts + [rest], ";"), ';', false, false) == Before(parts, Scan(rest, ';', false, false))
  {
    hide Scan, Intact;
    var raw := Scan(rest, ';', false, false);
    if parts == [] {
      assert parts + [rest] == [rest];
      assert raw.Some? ==> parts + raw.value == raw.value;
    } else {
      var others := parts[1..] + [rest];
      ScanAfter(parts[1..], rest);
      assert (parts + [rest])[1..] == others;
      PartInFront(parts[0], Join(others, ";"));
      assert raw.Some? ==> [parts[0]] + (parts[1..] + raw.value) == parts + raw.value;
    }
  }

  function Before(parts: seq<string>, raw: Option<seq<string>>): Option<seq<string>> {
    if raw.None? then None else Some(parts + raw.value)
  }

  lemma PartInFront(part: string, tail: string)
    requires Intact(part, ';')
    ensures Scan(part + ";" + tail, ';', false, false) == Before([part], Scan(tail, ';', false, false))
  {
    var rest, raw := ";" + tail, Scan(tail, ';', false, false);
    assert rest[0] == ';' && rest[1..] == tail && part + ";" + tail == part + rest;
    ScanClosedPrefix(part, rest, ';', false);
    ScanStep(rest, ';', false, false);
    hide Scan, Onto;
    if raw.Some? { OntoFirst(part, raw.value); }
    OntoNone(part);
  }

  lemma OntoNone(prefix: string)
    ensures Onto(prefix, None) == None
  {
  }

  /** Splitting a host that does not survive loses some of it. */
  lemma LostHostIsCut(v: Value)
    requires Writable(v) && !Survives(v)
    ensures var raw := Scan("host=" + Show(v), ';', false, false);
      raw.Some? ==> "host=\"" <= raw.value[0] && |raw.value[0]| < |"host=" + Show(v)|
  {
    var prefix, quote, h := "host=", "\"", "host=" + Show(v);
    assert "host" + "=" == prefix;
    ParameterIntact("host", v);
    PlainText(prefix, ';', false);
    NothingToDrop(prefix, false);
    ScanClosedPrefix(prefix, Show(v), ';', false);
    assert Show(v)[0] == '"';
    ScanStep(Show(v), ';', false, false);
    hide Scan, Survives, Writable, Intact, Show;
    var raw := Scan(h, ';', false, false);
    if raw.Some? {
      ScanLoses(h, ';', false, false);
      JoinIsLonger(raw.value);
      assert [';'] == ";";
      if |raw.value[0]| >= |h| { ScanIntact(h, ';'); }
    }
  }

  lemma {:induction false} JoinIsLonger(parts: seq<string>)
    requires |parts| > 0
    ensures |Join(parts, ";")| >= |parts[0]| && (|parts| > 1 ==> |Join(parts, ";")| > |parts[0]|)
  {
  }

  lemma {:induction false} StripKeepsStart(start: string, rest: string)
    requires start != "" && !Blank(start[0]) && !Blank(start[|start| - 1])
    ensures start <= Strip(start + rest)
  {
    var s := start + rest;
    if rest == "" {
      assert s == start;
    } else if Blank(s[|s| - 1]) {
      assert s[..|s| - 1] == start + rest[..|rest| - 1];
      StripKeepsStart(start, rest[..|rest| - 1]);
    }
  }

  /** A parameter that was read keeps its value: a second one with its name is refused. */
  lemma {:induction false} ParameterIsKept(parts: seq<string>, k: nat, key: string, value: string)
    requires k < |parts| && KnownKey(key) && parts[k] == key + "=" + value
    ensures var parameters := ParametersOf(parts);
      parameters.Some? ==> key in parameters.value && parameters.value[key] == Strip(value)
  {
    hide AddParameter, Strip, KnownKey;
    var n := |parts| - 1;
    if k < n {
      ParameterIsKept(parts[..n], k, key, value);
      AddedKeeps(ParametersOf(parts[..n]), parts[n], key);
    } else {
      AddedIsRead(ParametersOf(parts[..n]), key, value);
    }
  }

  lemma AddedKeeps(known: Option<map<string, string>>, parameter: string, key: string)
    requires known.Some? ==> key in known.value
    ensures var parameters := AddParameter(known, parameter);
      parameters.Some? ==> known.Some? && key in parameters.value && parameters.value[key] == known.value[key]
  {
    hide Strip, Lower, KnownKey;
  }

  lemma AddedIsRead(known: Option<map<string, string>>, key: string, value: string)
    requires KnownKey(key)
    ensures var parameters := AddParameter(known, key + "=" + value);
      parameters.Some? ==> key in parameters.value && parameters.value[key] == Strip(value)
  {
    hide Strip, Lower, Find, KnownKey;
    var parameter := key + "=" + value;
    KeyIsPlain(key);
    FindFirst(key, '=', value);
    assert parameter == key + ['='] + value && parameter[..|key|] == key && parameter[|key| + 1..] == value;
  }

  lemma HostLength(value: string)
    ensures ParseHost(value).Some? ==>
      Unquote(value).Some? && |ParseHost(value).value.serialized| == |Unquote(value).value|
  {
  }

  /** The inner split of an element whose host does not survive leaves a shorter value under its name. */
  lemma LostHostInParameters(e: Element)
    requires WritableElement(e) && Survives(e.node) && (e.proto.Some? ==> Survives(e.proto.value))
    requires e.host.Some? && !Survives(e.host.value)
    requires SplitSpec(PrintElement(e), ';').Some?
    ensures var parameters := ParametersOf(SplitSpec(PrintElement(e), ';').value);
      parameters.Some? ==> "host" in parameters.value && QuotedBelow(parameters.value["host"], |e.host.value.text|)
  {
    var head := Element(e.node, e.proto, None);
    var front, h := Parameters(head), "host=" + Show(e.host.value);
    HostIsLast(e);
    assert |h| == |e.host.value.text| + 7;
    ParametersIntact(head);
    hide Survives, Parameters, Show, Intact, Scan, Strip, Writable, ParametersOf;
    ScanAfter(front, h);
    LostHostIsCut(e.host.value);
    var raw := Scan(h, ';', false, false).value;
    HostOfCut(front + raw, |front|, |e.host.value.text|);
  }

  lemma HostIsLast(e: Element)
    requires e.host.Some?
    ensures Parameters(e) == Parameters(Element(e.node, e.proto, None)) + ["host=" + Show(e.host.value)]
  {
    hide Show;
    assert "host" + "=" == "host=";
  }

  predicate QuotedBelow(value: string, length: nat) {
    value != "" && value[0] == '"' && |value| < length + 2
  }

  lemma HostOfCut(raw: seq<string>, k: nat, length: nat)
    requires k < |raw| && "host=\"" <= raw[k] && |raw[k]| < length + 7
    ensures var parameters := ParametersOf(StripAll(raw));
      parameters.Some? ==> "host" in parameters.value && QuotedBelow(parameters.value["host"], length)
  {
    hide Strip, ParametersOf;
    var parts, start := StripAll(raw), "host=\"";
    assert raw[k] == start + raw[k][6..];
    StripKeepsStart(start, raw[k][6..]);
    var value := parts[k][5..];
    assert parts[k] == "host=" + value && value[0] == '"';
    assert "host" + "=" == "host=";
    ParameterIsKept(parts, k, "host", value);
    StripQuoted(value);
  }

  /** An element whose host does not survive is refused or read with a shorter host. */
  lemma LostHostIsShorter<A>(ip: string -> Option<A>, e: Element)
    requires WritableElement(e) && Survives(e.node) && (e.proto.Some? ==> Survives(e.proto.value))
    requires e.host.Some? && !Survives(e.host.value)
    ensures var entry := ParseElement(ip, PrintElement(e));
      entry.Some? ==> entry.value.host.Some? && |entry.value.host.value.serialized| < |e.host.value.text|
  {
    hide SplitSpec, ParametersOf, PrintElement, WritableElement, Survives, ParseHost, ParseAddress, ValidateScheme,
      Unquote;
    var parts := SplitSpec(PrintElement(e), ';');
    if parts.Some? {
      LostHostInParameters(e);
      var parameters := ParametersOf(parts.value);
      if parameters.Some? { QuotedHostLength(parameters.value["host"], |e.host.value.text|); }
    }
  }

  lemma QuotedHostLength(value: string, length: nat)
    requires QuotedBelow(value, length)
    ensures ParseHost(value).Some? ==> |ParseHost(value).value.serialized| < length
  {
    HostLength(value);
    hide ParseHost;
  }

  lemma StripQuoted(value: string)
    requires value != "" && value[0] == '"'
    ensures Strip(value) != "" && Strip(value)[0] == '"'
  {
    StripKeepsStart("\"", value[1..]);
    assert value == "\"" + value[1..];
  }

  /** What an element means has its whole host text, and its scheme has no quotes. */
  lemma MeaningKeepsHost<A>(ip: string -> Option<A>, e: Element)
    requires WritableElement(e) && Meaning(ip, e).Some?
    ensures e.proto.Some? ==> Survives(e.proto.value)
    ensures e.host.Some? ==>
      Meaning(ip, e).value.host.Some?
      && |Meaning(ip, e).value.host.value.serialized| == |e.host.value.text|
  {
    hide ParseHost, ParseAddress, Unquote;
    if e.proto.Some? {
      var text := e.proto.value.text;
      WritableIsUnquoted(e.proto.value);
      SchemeIsPlain(text);
      PlainText(text, ';', true);
      NothingToDrop(text, true);
    }
    if e.host.Some? {
      WritableIsUnquoted(e.host.value);
      HostLength(Show(e.host.value));
    }
  }

  lemma SchemeIsPlain(text: string)
    requires Lower(text) == "http" || Lower(text) == "https"
    ensures '"' !in text && '\\' !in text
  {
    forall i | 0 <= i < |text| ensures text[i] != '"' && text[i] != '\\' {
      assert Lower(text)[i] in {'h', 't', 'p', 's'};
    }
  }

  // ----- lost addresses -----

  /** Backslashes and semicolons. */
  function Marks(s: string): nat {
    if s == "" then 0 else (if s[0] == '\\' || s[0] == ';' then 1 else 0) + Marks(s[1..])
  }

  /**
   * Texts of one address agree in the number of their quotes and in that of their backslashes and semicolons:
   * such characters can only stand in the scope of an IPv6 address, which is part of the address.
   */
  ghost predicate ScopesMatter<A(!new)>(ip: string -> Option<A>) {
    forall s, t :: ip(s).Some? && ip(s) == ip(t) ==> Quotes(s) == Quotes(t) && Marks(s) == Marks(t)
  }

  lemma {:induction false} CountsOfBoth(a: string, b: string)
    ensures Quotes(a + b) == Quotes(a) + Quotes(b) && Marks(a + b) == Marks(a) + Marks(b)
  {
    if a == "" {
      assert a + b == b;
    } else {
      assert (a + b)[1..] == a[1..] + b && (a + b)[0] == a[0];
      CountsOfBoth(a[1..], b);
    }
  }

  lemma {:induction false} NothingToCount(s: string)
    requires forall i :: 0 <= i < |s| ==> s[i] !in {'"', '\\', ';'}
    ensures Quotes(s) == 0 && Marks(s) == 0
  {
    if s != "" { NothingToCount(s[1..]); }
  }

  lemma {:induction false} StripCounts(s: string)
    ensures Quotes(Strip(s)) == Quotes(s) && Marks(Strip(s)) == Marks(s)
    decreases |s|
  {
    if s != "" && Blank(s[0]) {
      StripCounts(s[1..]);
    } else if s != "" && Blank(s[|s| - 1]) {
      var front, last := s[..|s| - 1], s[|s| - 1..];
      assert s == front + last && last[1..] == "";
      CountsOfBoth(front, last);
      StripCounts(front);
    }
  }

  /** One character in front of the first part. */
  lemma OntoCounts(c: char, parts: Option<seq<string>>)
    requires parts.Some? && |parts.value| > 0
    ensures var all := Onto([c], parts);
      all.Some? && Quotes(all.value[0]) == Quotes([c]) + Quotes(parts.value[0])
      && Marks(all.value[0]) == Marks([c]) + Marks(parts.value[0])
  {
    CountsOfBoth([c], parts.value[0]);
  }

  /** An open quote is closed within its part. */
  lemma {:induction false} QuoteAhead(s: string, escaped: bool)
    requires Scan(s, ';', true, escaped).Some?
    ensures Quotes(Scan(s, ';', true, escaped).value[0]) >= 1
  {
    if s != "" {
      ScanStep(s, ';', true, escaped);
      if escaped || (s[0] != '\\' && s[0] != '"') {
        QuoteAhead(s[1..], false);
        OntoCounts(s[0], Scan(s[1..], ';', true, false));
      } else if s[0] == '\\' {
        QuoteAhead(s[1..], true);
      } else {
        OntoCounts(s[0], Scan(s[1..], ';', false, false));
      }
    }
  }

  /** Where a parameter ends: at the end of the element or at a semicolon. */
  predicate AfterParameter(rest: string) {
    rest != "" ==> rest[0] == ';'
  }

  /** The part has no more backslashes and semicolons than the text, or more quotes than the text and its end. */
  predicate NotMore(part: string, text: string) {
    Marks(part) <= Marks(text) || Quotes(part) > Quotes(text) + 1
  }

  predicate Differs(part: string, text: string) {
    Marks(part) < Marks(text) || Quotes(part) > Quotes(text) + 1
  }

  /** The closing quote of a value, met inside quotes or outside. */
  lemma ClosingQuote(rest: string, quoted: bool, escaped: bool)
    requires AfterParameter(rest) && (escaped ==> quoted) && Scan("\"" + rest, ';', quoted, escaped).Some?
    ensures var part := Scan("\"" + rest, ';', quoted, escaped).value[0];
      if quoted && !escaped then part == "\"" else Quotes(part) > 1
  {
    var s := "\"" + rest;
    assert s[0] == '"' && s[1..] == rest;
    ScanStep(s, ';', quoted, escaped);
    if quoted && !escaped {
      if rest != "" { ScanStep(rest, ';', false, false); }
      ScanEnd(';', false, false);
    } else {
      QuoteAhead(rest, false);
      OntoCounts('"', Scan(rest, ';', true, false));
    }
  }

  lemma {:induction false} PartNotMore(text: string, rest: string, quoted: bool, escaped: bool)
    requires AfterParameter(rest) && (escaped ==> quoted) && Scan(text + ("\"" + rest), ';', quoted, escaped).Some?
    ensures NotMore(Scan(text + ("\"" + rest), ';', quoted, escaped).value[0], text)
  {
    var s := text + ("\"" + rest);
    if text == "" {
      assert s == "\"" + rest;
      ClosingQuote(rest, quoted, escaped);
    } else {
      assert s[0] == text[0] && s[1..] == text[1..] + ("\"" + rest);
      ScanStep(s, ';', quoted, escaped);
      if !escaped && text[0] == '\\' && quoted {
        PartNotMore(text[1..], rest, quoted, true);
      } else if escaped || text[0] != ';' || quoted {
        var q := if !escaped && text[0] == '"' then !quoted else quoted;
        PartNotMore(text[1..], rest, q, false);
        OntoCounts(text[0], Scan(s[1..], ';', q, false));
      }
    }
  }

  /** A quoted text that does not survive is read as one with other counts. */
  lemma {:induction false} LostPartDiffers(text: string, rest: string, quoted: bool)
    requires AfterParameter(rest) && Scan(text + ("\"" + rest), ';', quoted, false).Some?
    requires !(QuoteState(text, quoted) && Covered(text, ';', quoted) && Dropped(text, quoted, false) == 0)
    ensures Differs(Scan(text + ("\"" + rest), ';', quoted, false).value[0], text)
  {
    var s := text + ("\"" + rest);
    if text == "" {
      assert s == "\"" + rest;
      ClosingQuote(rest, quoted, false);
    } else {
      assert s[0] == text[0] && s[1..] == text[1..] + ("\"" + rest);
      ScanStep(s, ';', quoted, false);
      if text[0] == '\\' && quoted {
        PartNotMore(text[1..], rest, quoted, true);
      } else if text[0] != ';' || quoted {
        var q := if text[0] == '"' then !quoted else quoted;
        LostPartDiffers(text[1..], rest, q);
        OntoCounts(text[0], Scan(s[1..], ';', q, false));
      }
    }
  }

  /** What is in an element after its address. */
  lemma AddressFirst(e: Element) returns (rest: string)
    ensures AfterParameter(rest) && PrintElement(e) == "for=" + Show(e.node) + rest
  {
    hide Show;
    var parameters := Parameters(e);
    assert "for" + "=" == "for=" && parameters[0] == "for=" + Show(e.node);
    if |parameters| == 1 {
      rest := "";
      assert PrintElement(e) == parameters[0] == parameters[0] + "";
    } else {
      rest := ";" + Join(parameters[1..], ";");
      assert PrintElement(e) == parameters[0] + rest;
    }
  }

  /** The first part of the inner split when the address does not survive. */
  lemma LostAddressIsCut(v: Value, rest: string)
    requires Writable(v) && !Survives(v) && AfterParameter(rest)
    ensures var raw := Scan("for=" + Show(v) + rest, ';', false, false);
      raw.Some? ==> "for=\"" <= raw.value[0] && Differs(raw.value[0][5..], v.text)
  {
    var start, after := "for=\"", v.text + ("\"" + rest);
    var s, quoted := "for=" + Show(v) + rest, "\"" + after;
    assert s == "for=" + quoted && quoted[0] == '"' && quoted[1..] == after;
    PlainText("for=", ';', false);
    NothingToDrop("for=", false);
    ScanClosedPrefix("for=", quoted, ';', false);
    ScanStep(quoted, ';', false, false);
    var raw := Scan(after, ';', true, false);
    hide Scan;
    OntoTwice("for=", "\"", raw);
    assert "for=" + "\"" == start;
    if raw.Some? {
      LostPartDiffers(v.text, rest, true);
      assert (start + raw.value[0])[5..] == raw.value[0];
    }
  }

  predicate QuotedOther(value: string, text: string) {
    value != "" && value[0] == '"' && (Marks(value) < Marks(text) || Quotes(value) > Quotes(text) + 2)
  }

  lemma AddressOfCut(raw: seq<string>, text: string)
    requires |raw| > 0 && "for=\"" <= raw[0] && Differs(raw[0][5..], text)
    ensures var parameters := ParametersOf(StripAll(raw));
      parameters.Some? ==> "for" in parameters.value && QuotedOther(parameters.value["for"], text)
  {
    hide Strip, ParametersOf, Quotes, Marks;
    var parts, start := StripAll(raw), "for=\"";
    assert raw[0] == start + raw[0][5..];
    StripKeepsStart(start, raw[0][5..]);
    var value := parts[0][4..];
    assert parts[0] == "for=" + value && value[0] == '"' && "for" + "=" == "for=";
    ParameterIsKept(parts, 0, "for", value);
    StripQuoted(value);
    StripCounts(value);
    StripCounts(raw[0]);
    CountsOfBoth("for=", value);
    NothingToCount("for=");
    CountsOfBoth(start, raw[0][5..]);
    CountsOfStart();
  }

  lemma CountsOfStart()
    ensures Quotes("for=\"") == 1 && Marks("for=\"") == 0
  {
    assert "for=\"" == "for=" + "\"" && "\""[1..] == "";
    NothingToCount("for=");
    CountsOfBoth("for=", "\"");
  }

  lemma LostAddressInParameters(e: Element)
    requires WritableElement(e) && !Survives(e.node) && SplitSpec(PrintElement(e), ';').Some?
    ensures var parameters := ParametersOf(SplitSpec(PrintElement(e), ';').value);
      parameters.Some? ==> "for" in parameters.value && QuotedOther(parameters.value["for"], e.node.text)
  {
    hide Survives, Parameters, Show, Scan, Strip, Writable, ParametersOf, PrintElement, Differs, QuotedOther;
    var rest := AddressFirst(e);
    LostAddressIsCut(e.node, rest);
    AddressOfCut(Scan(PrintElement(e), ';', false, false).value, e.node.text);
  }

  /** The text that the address parser gets has all quotes, backslashes and semicolons of the node. */
  lemma AddressInNode<A>(ip: string -> Option<A>, text: string) returns (address: string)
    requires ParseNode(ip, text).Some?
    ensures ParseNode(ip, text) == ip(address) && Quotes(address) == Quotes(text) && Marks(address) == Marks(text)
  {
    hide Quotes, Marks, Lower, Find, Digits;
    if text != "" && text[0] == '[' {
      var k := Find(text, ']').value;
      address := text[1..k];
      assert text == "[" + address + ("]" + text[k + 1..]);
      CountsOfBoth("[" + address, "]" + text[k + 1..]);
      CountsOfBoth("[", address);
      NothingToCount("[");
      AfterAddress("]", text[k + 1..]);
    } else {
      var colon := OnlyColon(text);
      address := text;
      if colon.Some? && Digits(text[colon.value + 1..]) {
        var k := colon.value;
        address := text[..k];
        assert text == address + (":" + text[k + 1..]);
        CountsOfBoth(address, ":" + text[k + 1..]);
        AfterAddress(":", text[k + 1..]);
      }
    }
  }

  lemma AfterAddress(mark: string, port: string)
    requires mark == "]" || mark == ":"
    requires port == "" || Digits(port) || (port[0] == ':' && Digits(port[1..]))
    ensures Quotes(mark + port) == 0 && Marks(mark + port) == 0
  {
    forall i | 0 <= i < |port| ensures port[i] == ':' || '0' <= port[i] <= '9' {
      if i > 0 && !Digits(port) { assert port[i] == port[1..][i - 1]; }
    }
    NothingToCount(mark + port);
  }

  /** A quoted value with other counts is no text of the same address. */
  lemma OtherAddress<A(!new)>(ip: string -> Option<A>, value: string, text: string)
    requires ScopesMatter(ip) && QuotedOther(value, text) && ParseNode(ip, text).Some?
    ensures ParseAddress(ip, value) != ParseNode(ip, text)
  {
    if ParseAddress(ip, value) == ParseNode(ip, text) {
      var inner := value[1..|value| - 1];
      assert value == "\"" + inner + "\"" && "\""[1..] == "";
      CountsOfBoth("\"" + inner, "\"");
      CountsOfBoth("\"", inner);
      var meant := AddressInNode(ip, text);
      var read := AddressInNode(ip, inner);
      hide ParseNode;
    }
  }

  /** An element whose address does not survive is refused or read with another address. */
  lemma LostAddressIsOther<A(!new)>(ip: string -> Option<A>, e: Element)
    requires WritableElement(e) && !Survives(e.node) && ScopesMatter(ip) && Meaning(ip, e).Some?
    ensures var entry := ParseElement(ip, PrintElement(e));
      entry.Some? ==> entry.value.address != Meaning(ip, e).value.address
  {
    hide SplitSpec, ParametersOf, PrintElement, Survives, ParseHost, ParseNode, ValidateScheme, Unquote, ScopesMatter,
      QuotedOther, Writable;
    var parts := SplitSpec(PrintElement(e), ';');
    WritableIsUnquoted(e.node);
    if parts.Some? {
      LostAddressInParameters(e);
      var parameters := ParametersOf(parts.value);
      if parameters.Some? {
        hide ParseAddress;
        NodeMeaning(ip, e.node);
        OtherAddress(ip, parameters.value["for"], e.node.text);
      }
    }
  }

  lemma NodeMeaning<A>(ip: string -> Option<A>, v: Value)
    requires Writable(v)
    ensures ParseAddress(ip, Show(v)) == ParseNode(ip, v.text)
  {
    hide ParseNode;
    WritableIsUnquoted(v);
  }

  // ----- the exact condition -----

  /** The address survives, or the parser tells scopes apart. */
  ghost predicate Distinguished<A(!new)>(ip: string -> Option<A>, v: Value) {
    Survives(v) || ScopesMatter(ip)
  }

  /** An element that means something is read as it means exactly when it survives. */
  lemma ElementIsReadExactly<A(!new)>(ip: string -> Option<A>, e: Element)
    requires WritableElement(e) && Meaning(ip, e).Some? && Distinguished(ip, e.node)
    ensures ParseElement(ip, PrintElement(e)) == Meaning(ip, e) <==> Survivor(e)
  {
    hide WritableElement, Survives, ParseElement, Meaning, PrintElement, SplitSpec, Parameters, ScopesMatter;
    MeaningKeepsHost(ip, e);
    if Survivor(e) {
      ElementIsSplitExactly(e);
      ElementIsRead(ip, e);
    } else if Survives(e.node) {
      LostHostIsShorter(ip, e);
    } else {
      LostAddressIsOther(ip, e);
    }
  }

  lemma {:induction false} EntryAt<A>(ip: string -> Option<A>, texts: seq<string>, i: nat)
    requires i < |texts| && EntriesOf(ip, texts).Some?
    ensures var entries := EntriesOf(ip, texts).value;
      |entries| == |texts| && ParseElement(ip, texts[i]) == Some(entries[i])
  {
    hide ParseElement;
    var n := |texts| - 1;
    if n > 0 { EntryAt(ip, texts[..n], if i < n then i else 0); }
  }

  /** Every host of a combined header has the answered serialized form. */
  lemma HostIsAgreed<A>(entries: seq<Entry<A>>, i: nat)
    requires i < |entries| && Combine(entries).Some? && entries[i].host.Some?
    ensures Combine(entries).value.host.Some?
      && Combine(entries).value.host.value.serialized == entries[i].host.value.serialized
  {
    hide Chain, Schemes, Hosts;
    HostIsListed(entries, i);
  }

  /** Two lists of entries that differ in an address or in a host give different readings. */
  lemma ReadingsDiffer<A>(meant: seq<Entry<A>>, read: seq<Entry<A>>, i: nat)
    requires i < |meant| == |read| && Combine(meant).Some?
    requires meant[i].address != read[i].address
      || (meant[i].host.Some? && read[i].host.Some? && meant[i].host.value.serialized != read[i].host.value.serialized)
    ensures Combine(meant) != Combine(read)
  {
    ChainAt(meant, i);
    ChainAt(read, i);
    hide Chain, Schemes, Hosts;
    if Combine(read).Some? && meant[i].address == read[i].address {
      HostIsAgreed(meant, i);
      HostIsAgreed(read, i);
    }
  }

  /** A header that means something is read as it means exactly when all its values survive. */
  lemma HeaderIsReadExactly<A(!new)>(ip: string -> Option<A>, es: seq<SpelledElement>, pad: string)
    requires |es| > 0 && Padding(pad)
    requires forall i :: 0 <= i < |es| ==> WellSpelledElement(es[i]) && Distinguished(ip, es[i].node.value)
    requires Meanings(ip, Plains(es)).Some? && Combine(Meanings(ip, Plains(es)).value).Some?
    ensures ParseHeader(ip, SpelledHeader(es, pad)) == Combine(Meanings(ip, Plains(es)).value)
      <==> forall i :: 0 <= i < |es| ==> Survivor(Plain(es[i]))
  {
    hide *;
    SpelledHeaderIsRead(ip, es, pad);
    if i: nat :| i < |es| && !Survivor(Plain(es[i])) {
      LossIsNoticed(ip, es, pad, i);
    }
  }

  lemma LossIsNoticed<A(!new)>(ip: string -> Option<A>, es: seq<SpelledElement>, pad: string, i: nat)
    requires i < |es| && Padding(pad)
    requires forall k :: 0 <= k < |es| ==> WellSpelledElement(es[k]) && Distinguished(ip, es[k].node.value)
    requires Meanings(ip, Plains(es)).Some? && Combine(Meanings(ip, Plains(es)).value).Some?
    requires !Survivor(Plain(es[i]))
    ensures ParseHeader(ip, SpelledHeader(es, pad)) != Combine(Meanings(ip, Plains(es)).value)
  {
    hide *;
    hide Plains, PlainTexts;
    var e, texts, meant := Plain(es[i]), PlainTexts(es), Meanings(ip, Plains(es)).value;
    WellSpelledIsWritable(es[i]);
    MeaningAt(ip, Plains(es), i);
    assert Plains(es)[i] == e && Meaning(ip, e) == Some(meant[i]);
    PlainSurvivor(es[i]);
    ReadingOf(ip, es, pad);
    if EntriesOf(ip, texts).Some? {
      EntryAt(ip, texts, i);
      var read := EntriesOf(ip, texts).value;
      LostEntry(ip, e, read[i]);
      ReadingsDiffer(meant, read, i);
    }
  }

  lemma LostEntry<A(!new)>(ip: string -> Option<A>, e: Element, read: Entry<A>)
    requires WritableElement(e) && Meaning(ip, e).Some? && Distinguished(ip, e.node) && !Survivor(e)
    requires ParseElement(ip, PrintElement(e)) == Some(read)
    ensures var meant := Meaning(ip, e).value;
      meant.address != read.address
      || (meant.host.Some? && read.host.Some? && meant.host.value.serialized != read.host.value.serialized)
  {
    hide WritableElement, Survives, ParseElement, Meaning, PrintElement, ScopesMatter;
    MeaningKeepsHost(ip, e);
    if Survives(e.node) { LostHostIsShorter(ip, e); } else { LostAddressIsOther(ip, e); }
  }

  lemma PlainSurvivor(e: SpelledElement)
    ensures Plain(e).node == e.node.value
    ensures Survivor(Plain(e)) <==> var p := Plain(e);
      Survives(p.node) && (p.proto.Some? ==> Survives(p.proto.value)) && (p.host.Some? ==> Survives(p.host.value))
  {
    hide Survives;
  }

  /** What is left of parsing after the outer split. */
  lemma ReadingOf<A>(ip: string -> Option<A>, es: seq<SpelledElement>, pad: string)
    requires |es| > 0 && Padding(pad) && forall k :: 0 <= k < |es| ==> WellSpelledElement(es[k])
    ensures var entries := EntriesOf(ip, PlainTexts(es));
      ParseHeader(ip, SpelledHeader(es, pad)) == if entries.None? then None else Combine(entries.value)
  {
    hide SpelledHeader, PlainTexts, SplitSpec, EntriesOf, Combine, Ascii, WellSpelledElement;
    OuterSplit(es, pad);
  }

  /** A text left open at its end is refused by the splitter. */
  lemma {:induction false} OpenQuoteIsRefused(s: string, delimiter: char, quoted: bool)
    requires delimiter != '"' && Dropped(s, quoted, false) == 0 && QuoteState(s, quoted)
    ensures Scan(s, delimiter, quoted, false).None?
  {
    if s != "" { OpenQuoteIsRefused(s[1..], delimiter, if s[0] == '"' then !quoted else quoted); }
  }

  /** A header with an element whose texts hold an odd number of quotes, all properly paired, is refused. */
  lemma OddQuotesAreRefused<A>(ip: string -> Option<A>, es: seq<SpelledElement>, pad: string, i: nat)
    requires i < |es| && Padding(pad) && forall k :: 0 <= k < |es| ==> WellSpelledElement(es[k])
    requires QuoteState(PrintElement(Plain(es[i])), false) && Dropped(PrintElement(Plain(es[i])), false, false) == 0
    ensures ParseHeader(ip, SpelledHeader(es, pad)) == None
  {
    hide *;
    hide PlainTexts;
    var texts := PlainTexts(es);
    ReadingOf(ip, es, pad);
    OpenElementIsRefused(ip, texts[i]);
    EntriesMore(ip, texts[..i], texts[i]);
    AppendNone(EntriesOf(ip, texts[..i]));
    assert texts[..i] + [texts[i]] == texts[..i + 1];
    EntriesNone(ip, texts, i + 1);
  }

  lemma OpenElementIsRefused<A>(ip: string -> Option<A>, text: string)
    requires QuoteState(text, false) && Dropped(text, false, false) == 0
    ensures ParseElement(ip, text) == None
  {
    OpenQuoteIsRefused(text, ';', false);
  }

  lemma AppendNone<T>(list: Option<seq<T>>)
    ensures Append(list, None) == None
  {
  }

  /** A quote in a host, spelled as the standard asks, makes a header refused that has a meaning. */
  lemma QuotedPairBreaksAHeader<A>(ip: string -> Option<A>, address: string)
    requires AddressText(address) && ':' !in address && ip(address).Some?
    ensures var e := QuotedName(address);
      WellSpelledElement(e) && Meaning(ip, Plain(e)).Some? && ParseHeader(ip, SpelledHeader([e], "")) == None
  {
    var e := QuotedName(address);
    QuotedNameIsWell(address);
    AddressIsRead(ip, address, false, "", false);
    WithoutPort(address);
    QuotedHostMeans();
    OddPrint(address);
    hide *;
    hide PrintElement, Plain, QuotedName;
    assert [e][0] == e;
    OddQuotesAreRefused(ip, [e], "", 0);
  }

  lemma QuotedNameIsWell(address: string)
    requires AddressText(address)
    ensures WellSpelledElement(QuotedName(address))
  {
    EscapeSpells("a\"b");
    hide Spells, Escape;
    var e := QuotedName(address);
    assert WellSpelled(e.host.value) && WellSpelled(e.node);
  }

  /** An address with a host that holds one quote. */
  function QuotedName(address: string): SpelledElement {
    SpelledElement(Spelled(Value(address, false), address), None, Some(Spelled(Value("a\"b", true), Escape("a\"b"))))
  }

  lemma QuotedHostMeans()
    ensures ParseHost(Show(Value("a\"b", true))).Some?
  {
    var v := Value("a\"b", true);
    WritableIsUnquoted(v);
    NoColon(v.text);
  }

  lemma OddPrint(address: string)
    requires AddressText(address)
    ensures var printed := PrintElement(Plain(QuotedName(address)));
      QuoteState(printed, false) && Dropped(printed, false, false) == 0
  {
    var printed, prefix, host := PrintElement(Plain(QuotedName(address))), "for=" + address + ";host=", "\"a\"b\"";
    HostPrinted(address);
    forall i | 0 <= i < |prefix| ensures prefix[i] != '"' && prefix[i] != '\\' {
      assert prefix == "for=" + (address + ";host=");
    }
    PlainText(prefix, ',', false);
    NothingToDrop(prefix, false);
    QuoteStateSplits(prefix, host, ',', false);
    DroppedGrows(prefix, host, false);
    NothingToDrop(host, false);
    var after := host[1..][1..][1..];
    assert after == "b\"" && after[1..][1..] == "";
  }

  lemma HostPrinted(address: string)
    ensures PrintElement(Plain(QuotedName(address))) == "for=" + address + ";host=" + "\"a\"b\""
  {
    var e, host := Plain(QuotedName(address)), "\"a\"b\"";
    assert Show(e.host.value) == host;
    HostIsLast(e);
    var front := ["for=" + address];
    assert Parameters(Element(e.node, e.proto, None)) == front;
    assert Parameters(e) == front + ["host=" + host];
    JoinAppend(front, ["host=" + host], ";");
    assert ";" + ("host=" + host) == ";host=" + host;
  }
}
