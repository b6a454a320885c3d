/** Forwarded headers whose quoted values contain quoted pairs (section 4 of RFC 7239, section 5.6.4 of RFC 9110). */
module QuotedPairs {
  import opened Text
  import opened ForwardedHeader

  // ----- spelling values -----

  /** A spelling of a quoted value: quotes and backslashes need a quoted pair, other characters may have one. */
  predicate Spells(spelling: string, text: string) {
    if spelling == "" then text == ""
    else if spelling[0] == '\\' then |spelling| >= 2 && text != "" && text[0] == spelling[1]
      && Spells(spelling[2..], text[1..])
    else spelling[0] != '"' && text != "" && text[0] == spelling[0] && Spells(spelling[1..], text[1..])
  }

  /** The spelling with the fewest quoted pairs. */
  function Escape(text: string): string {
    if text == "" then ""
    else (if text[0] == '"' || text[0] == '\\' then ['\\', text[0]] else [text[0]]) + Escape(text[1..])
  }

  lemma {:induction false} EscapeSpells(text: string)
    ensures Spells(Escape(text), text) && (Ascii(text) ==> Ascii(Escape(text)))
  {
    if text != "" {
      EscapeSpells(text[1..]);
      var rest := Escape(text[1..]);
      if text[0] == '"' || text[0] == '\\' {
        assert Escape(text) == ['\\', text[0]] + rest && Escape(text)[2..] == rest;
      } else {
        assert Escape(text) == [text[0]] + rest && Escape(text)[1..] == rest;
      }
    }
  }

  /** A value with the spelling chosen for it; a bare value is spelled as it is. */
  datatype Spelled = Spelled(value: Value, spelling: string)

  predicate WellSpelled(v: Spelled) {
    Writable(v.value) && Ascii(v.spelling)
    && if v.value.quoted then Spells(v.spelling, v.value.text) else v.spelling == v.value.text
  }

  function Spell(v: Spelled): string {
    if v.value.quoted then "\"" + v.spelling + "\"" else v.spelling
  }

  datatype SpelledElement = SpelledElement(node: Spelled, proto: Option<Spelled>, host: Option<Spelled>)

  predicate WellSpelledElement(e: SpelledElement) {
    WellSpelled(e.node) && (e.proto.Some? ==> WellSpelled(e.proto.value))
      && (e.host.Some? ==> WellSpelled(e.host.value))
  }

  function ValueOf(v: Option<Spelled>): Option<Value> {
    if v.None? then None else Some(v.value.value)
  }

  /** The element that the spelled one means. */
  function Plain(e: SpelledElement): Element {
    Element(e.node.value, ValueOf(e.proto), ValueOf(e.host))
  }

  function Plains(es: seq<SpelledElement>): (r: seq<Element>)
    ensures |r| == |es| && forall i :: 0 <= i < |r| ==> r[i] == Plain(es[i])
  {
    seq(|es|, i requires 0 <= i < |es| => Plain(es[i]))
  }

  /** The elements as the outer split leaves them. */
  function PlainTexts(es: seq<SpelledElement>): (r: seq<string>)
    ensures |r| == |es| && forall i :: 0 <= i < |r| ==> r[i] == PrintElement(Plain(es[i]))
  {
    seq(|es|, i requires 0 <= i < |es| => PrintElement(Plain(es[i])))
  }

  function SpelledParameter(key: string, v: Option<Spelled>): seq<string> {
    if v.None? then [] else [key + "=" + Spell(v.value)]
  }

  function SpelledParameters(e: SpelledElement): seq<string> {
    ["for=" + Spell(e.node)] + SpelledParameter("proto", e.proto) + SpelledParameter("host", e.host)
  }

  function SpelledTexts(es: seq<SpelledElement>, pad: string): (r: seq<string>)
    ensures |r| == |es| && forall i :: 0 <= i < |r| ==> r[i] == pad + Join(SpelledParameters(es[i]), ";")
  {
    seq(|es|, i requires 0 <= i < |es| => pad + Join(SpelledParameters(es[i]), ";"))
  }

  function SpelledHeader(es: seq<SpelledElement>, pad: string): string {
    Join(SpelledTexts(es, pad), ",")
  }

  // ----- the outer split drops the backslashes -----

  /** Whatever follows, the split at commas reads the first text as the second one. */
  ghost predicate Passes(written: string, read: string) {
    forall rest :: Scan(written + rest, ',', false, false) == Onto(read, Scan(rest, ',', false, false))
  }

  lemma PassesPlain(s: string)
    requires Intact(s, ',')
    ensures Passes(s, s)
  {
    forall rest ensures Scan(s + rest, ',', false, false) == Onto(s, Scan(rest, ',', false, false)) {
      ScanClosedPrefix(s, rest, ',', false);
    }
  }

  lemma PassesThen(a: string, x: string, b: string, y: string)
    requires Passes(a, x) && Passes(b, y)
    ensures Passes(a + b, x + y)
  {
    hide Scan;
    forall rest ensures Scan(a + b + rest, ',', false, false) == Onto(x + y, Scan(rest, ',', false, false)) {
      assert a + b + rest == a + (b + rest);
      assert Scan(b + rest, ',', false, false) == Onto(y, Scan(rest, ',', false, false));
      OntoTwice(x, y, Scan(rest, ',', false, false));
    }
  }

  lemma OntoTwice(x: string, y: string, parts: Option<seq<string>>)
    requires parts.Some? ==> |parts.value| > 0
    ensures Onto(x, Onto(y, parts)) == Onto(x + y, parts)
  {
    if parts.Some? { assert x + (y + parts.value[0]) == x + y + parts.value[0]; }
  }

  /** Inside quotes every spelling is read as its text. */
  lemma {:induction false} ScanSpelling(spelling: string, text: string, rest: string)
    requires Spells(spelling, text)
    ensures Scan(spelling + rest, ',', true, false) == Onto(text, Scan(rest, ',', true, false))
  {
    var s := spelling + rest;
    if spelling == "" {
      assert s == rest;
      OntoNothing(Scan(rest, ',', true, false));
    } else {
      var pair := spelling[0] == '\\';
      var after := if pair then spelling[2..] else spelling[1..];
      ScanSpelling(after, text[1..], rest);
      ScanStep(s, ',', true, false);
      if pair {
        assert s[1..][0] == spelling[1] && s[1..][1..] == after + rest;
        ScanStep(s[1..], ',', true, true);
      } else {
        assert s[1..] == after + rest;
      }
      hide Scan;
      OntoTwice(text[..1], text[1..], Scan(rest, ',', true, false));
      assert text[..1] == [text[0]] && text[..1] + text[1..] == text;
    }
  }

  lemma QuotedPasses(spelling: string, text: string)
    requires Spells(spelling, text)
    ensures Passes("\"" + spelling + "\"", "\"" + text + "\"")
  {
    hide Scan;
    var quote := "\"";
    forall rest
      ensures Scan(quote + spelling + quote + rest, ',', false, false)
        == Onto(quote + text + quote, Scan(rest, ',', false, false))
    {
      QuotedScan(spelling, text, rest);
      assert quote + spelling + quote + rest == quote + (spelling + (quote + rest));
    }
  }

  lemma QuotedScan(spelling: string, text: string, rest: string)
    requires Spells(spelling, text)
    ensures Scan("\"" + (spelling + ("\"" + rest)), ',', false, false)
      == Onto("\"" + text + "\"", Scan(rest, ',', false, false))
  {
    hide Scan, Spells;
    var quote := "\"";
    var inner := spelling + (quote + rest);
    assert (quote + inner)[0] == '"' && (quote + inner)[1..] == inner && (quote + rest)[1..] == rest;
    ScanStep(quote + inner, ',', false, false);
    ScanSpelling(spelling, text, quote + rest);
    ScanStep(quote + rest, ',', true, false);
    hide Onto;
    OntoTwice(text, quote, Scan(rest, ',', false, false));
    OntoTwice(quote, text + quote, Scan(rest, ',', false, false));
    assert quote + (text + quote) == quote + text + quote;
  }

  /** A spelled parameter reaches the inner split with its text in place of the spelling. */
  lemma ParameterPasses(key: string, v: Spelled)
    requires WellSpelled(v) && KnownKey(key)
    ensures Passes(key + "=" + Spell(v), key + "=" + Show(v.value)) && Ascii(key + "=" + Spell(v))
  {
    hide Passes;
    KeyIsPlain(key);
    var prefix := key + "=";
    PlainText(prefix, ',', false);
    NothingToDrop(prefix, false);
    PassesPlain(prefix);
    if v.value.quoted {
      QuotedPasses(v.spelling, v.value.text);
    } else {
      PlainText(v.spelling, ',', false);
      NothingToDrop(v.spelling, false);
      PassesPlain(v.spelling);
    }
    hide *;
    PassesThen(prefix, prefix, Spell(v), Show(v.value));
  }

  lemma {:induction false} JoinPasses(written: seq<string>, read: seq<string>)
    requires |written| == |read| > 0
    requires forall i :: 0 <= i < |written| ==> Passes(written[i], read[i]) && Ascii(written[i])
    ensures Passes(Join(written, ";"), Join(read, ";")) && Ascii(Join(written, ";"))
  {
    hide Passes;
    if |written| > 1 {
      JoinPasses(written[1..], read[1..]);
      PlainText(";", ',', false);
      NothingToDrop(";", false);
      PassesPlain(";");
      PassesThen(written[0], read[0], ";", ";");
      PassesThen(written[0] + ";", read[0] + ";", Join(written[1..], ";"), Join(read[1..], ";"));
    }
  }

  lemma ParametersPass(e: SpelledElement)
    requires WellSpelledElement(e)
    ensures |SpelledParameters(e)| == |Parameters(Plain(e))| > 0
    ensures forall i :: 0 <= i < |SpelledParameters(e)| ==>
      Passes(SpelledParameters(e)[i], Parameters(Plain(e))[i]) && Ascii(SpelledParameters(e)[i])
  {
    hide Passes, Spell, Show, WellSpelled, Ascii;
    assert "for" + "=" == "for=";
    ParameterPasses("for", e.node);
    if e.proto.Some? { ParameterPasses("proto", e.proto.value); }
    if e.host.Some? { ParameterPasses("host", e.host.value); }
  }

  lemma ElementPasses(e: SpelledElement, pad: string)
    requires WellSpelledElement(e) && Padding(pad)
    ensures var text := pad + Join(SpelledParameters(e), ";");
      Passes(text, pad + PrintElement(Plain(e))) && Ascii(text)
  {
    hide Passes, SpelledParameters, Parameters, WellSpelledElement;
    ParametersPass(e);
    JoinPasses(SpelledParameters(e), Parameters(Plain(e)));
    PlainText(pad, ',', false);
    NothingToDrop(pad, false);
    PassesPlain(pad);
    PassesThen(pad, pad, Join(SpelledParameters(e), ";"), Join(Parameters(Plain(e)), ";"));
  }

  lemma {:induction false} ScanHeader(written: seq<string>, read: seq<string>)
    requires |written| == |read| > 0 && forall i :: 0 <= i < |written| ==> Passes(written[i], read[i])
    ensures Scan(Join(written, ","), ',', false, false) == Some(read)
  {
    hide Scan, Passes;
    if |written| == 1 {
      LastPasses(written[0], read[0]);
      assert [read[0]] == read;
    } else {
      ScanHeader(written[1..], read[1..]);
      NextPasses(written[0], read[0], Join(written[1..], ","), read[1..]);
      assert [read[0]] + read[1..] == read;
    }
  }

  lemma LastPasses(written: string, read: string)
    requires Passes(written, read)
    ensures Scan(written, ',', false, false) == Some([read])
  {
    ScanEnd(',', false, false);
    hide Scan;
    OntoFirst(read, []);
    assert written + "" == written;
    assert Scan(written + "", ',', false, false) == Onto(read, Scan("", ',', false, false));
  }

  lemma NextPasses(written: string, read: string, tail: string, others: seq<string>)
    requires Passes(written, read) && Scan(tail, ',', false, false) == Some(others)
    ensures Scan(written + "," + tail, ',', false, false) == Some([read] + others)
  {
    var rest := "," + tail;
    assert rest[0] == ',' && rest[1..] == tail && written + "," + tail == written + rest;
    ScanStep(rest, ',', false, false);
    hide Scan;
    assert Scan(written + rest, ',', false, false) == Onto(read, Scan(rest, ',', false, false));
    hide Passes, Onto;
    OntoFirst(read, others);
  }

  lemma OntoFirst(first: string, others: seq<string>)
    ensures Onto(first, Some([""] + others)) == Some([first] + others)
    ensures Onto(first, Some([""])) == Some([first])
  {
    assert ([""] + others)[1..] == others && first + "" == first;
    assert [first] + [""][1..] == [first];
  }

  // ----- the inner split -----

  lemma {:induction false} StripSameLength(s: string)
    ensures |Strip(s)| == |s| ==> Strip(s) == s
  {
  }

  /** Parts that are nowhere shorter join to a text that is not shorter, and to an equally long one only if all are. */
  lemma {:induction false} JoinLengths(a: seq<string>, b: seq<string>, separator: string)
    requires |a| == |b| && forall i :: 0 <= i < |a| ==> |a[i]| >= |b[i]|
    ensures |Join(a, separator)| >= |Join(b, separator)|
    ensures |Join(a, separator)| == |Join(b, separator)| ==> forall i :: 0 <= i < |a| ==> |a[i]| == |b[i]|
  {
    if |a| > 1 {
      JoinLengths(a[1..], b[1..], separator);
      assert forall i :: 0 < i < |a| ==> a[i] == a[1..][i - 1] && b[i] == b[1..][i - 1];
    }
  }

  /** A joined list is split into its own parts exactly when every part is intact. */
  lemma InnerSplitExactly(parts: seq<string>, delimiter: char)
    requires |parts| > 0 && delimiter != '"' && delimiter != '\\'
    requires forall i :: 0 <= i < |parts| ==> parts[i] != "" && Strip(parts[i]) == parts[i]
    ensures SplitSpec(Join(parts, [delimiter]), delimiter) == Some(parts) <==> AllIntact(parts, delimiter)
  {
    hide Strip, Intact, Join, Scan, Dropped;
    var joined := Join(parts, [delimiter]);
    if AllIntact(parts, delimiter) {
      ScanOfJoin(parts, delimiter);
      assert StripAll(parts) == parts;
    }
    if SplitSpec(joined, delimiter) == Some(parts) {
      var raw := Scan(joined, delimiter, false, false).value;
      ScanLoses(joined, delimiter, false, false);
      forall i | 0 <= i < |raw| ensures |raw[i]| >= |parts[i]| { assert Strip(raw[i]) == parts[i]; }
      JoinLengths(raw, parts, [delimiter]);
      forall i | 0 <= i < |raw| ensures raw[i] == parts[i] {
        assert Strip(raw[i]) == parts[i];
        StripSameLength(raw[i]);
      }
      assert raw == parts;
      ScanIntact(joined, delimiter);
    }
  }

  lemma ScanIntact(s: string, delimiter: char)
    requires delimiter != '"' && Dropped(s, false, false) == 0 && Scan(s, delimiter, false, false).Some?
    ensures AllIntact(Scan(s, delimiter, false, false).value, delimiter)
  {
    ScanGivesClosed(s, delimiter, false);
    var parts := Scan(s, delimiter, false, false).value;
    hide Scan, Dropped, Covered, QuoteState;
    assert forall i :: 0 < i < |parts| ==> parts[i] == parts[1..][i - 1];
  }

  /**
   * A text that comes through the inner split although the outer one has dropped its quoted pairs: its bare
   * quotes leave the value open, it has no semicolon outside them, and no backslash inside.
   */
  predicate Survives(v: Value) {
    v.quoted ==> QuoteState(v.text, true) && Covered(v.text, ';', true) && Dropped(v.text, true, false) == 0
  }

  predicate Survivor(e: Element) {
    Survives(e.node) && (e.proto.Some? ==> Survives(e.proto.value)) && (e.host.Some? ==> Survives(e.host.value))
  }

  function Quotes(s: string): nat {
    if s == "" then 0 else (if s[0] == '"' then 1 else 0) + Quotes(s[1..])
  }

  /**
   * Quoted pairs of other characters than quotes and backslashes do no harm, and quotes in an even number
   * do none in a text without semicolons.
   */
  lemma OrdinaryPairsSurvive(v: Value)
    requires '\\' !in v.text
    ensures '"' !in v.text ==> Survives(v)
    ensures ';' !in v.text && v.quoted ==> (Survives(v) <==> Quotes(v.text) % 2 == 0)
  {
    NothingToDrop(v.text, true);
    if '"' !in v.text { PlainText(v.text, ';', true); }
    QuoteParity(v.text, true);
    if ';' !in v.text { NothingUncovered(v.text, true); }
  }

  lemma {:induction false} QuoteParity(s: string, quoted: bool)
    ensures QuoteState(s, quoted) == (quoted <==> Quotes(s) % 2 == 0)
  {
    if s != "" { QuoteParity(s[1..], if s[0] == '"' then !quoted else quoted); }
  }

  lemma {:induction false} NothingUncovered(s: string, quoted: bool)
    requires ';' !in s
    ensures Covered(s, ';', quoted)
  {
    if s != "" { NothingUncovered(s[1..], if s[0] == '"' then !quoted else quoted); }
  }

  lemma {:induction false} DroppedGrows(a: string, b: string, quoted: bool)
    ensures Dropped(a + b, quoted, false) == 0 ==> Dropped(a, quoted, false) == 0
    ensures Dropped(a, quoted, false) == 0 ==> Dropped(a + b, quoted, false) == Dropped(b, QuoteState(a, quoted), false)
  {
    if a == "" {
      assert a + b == b;
    } else {
      assert (a + b)[1..] == a[1..] + b && (a + b)[0] == a[0];
      if !(a[0] == '\\' && quoted) {
        DroppedGrows(a[1..], b, if a[0] == '"' then !quoted else quoted);
      }
    }
  }

  lemma ParameterIntact(key: string, v: Value)
    requires KnownKey(key) && Writable(v)
    ensures var p := key + "=" + Show(v);
      p != "" && Strip(p) == p && (Intact(p, ';') <==> Survives(v))
  {
    hide Strip, KnownKey;
    KeyIsPlain(key);
    ShownIsStripped(v);
    var prefix, quote := key + "=", "\"";
    var p := prefix + Show(v);
    assert p[0] == key[0] && p[|p| - 1] == (if Show(v) == "" then '=' else Show(v)[|Show(v)| - 1]);
    assert !Blank(p[0]) && !Blank(p[|p| - 1]);
    PlainText(prefix, ';', false);
    NothingToDrop(prefix, false);
    QuoteStateSplits(prefix, Show(v), ';', false);
    DroppedGrows(prefix, Show(v), false);
    if v.quoted {
      QuotedIntact(v.text);
    } else {
      PlainText(v.text, ';', false);
      NothingToDrop(v.text, false);
    }
  }

  lemma QuotedIntact(text: string)
    ensures Intact("\"" + text + "\"", ';') <==>
      QuoteState(text, true) && Covered(text, ';', true) && Dropped(text, true, false) == 0
  {
    var quote := "\"";
    var s := quote + text + quote;
    assert s == quote + (text + quote) && s[1..] == text + quote && quote[1..] == "";
    QuoteStateSplits(text, quote, ';', true);
    DroppedGrows(text, quote, true);
  }

  lemma ParametersIntact(e: Element)
    requires WritableElement(e)
    ensures forall i :: 0 <= i < |Parameters(e)| ==>
      Parameters(e)[i] != "" && Strip(Parameters(e)[i]) == Parameters(e)[i]
    ensures |Parameters(e)| > 0 && (AllIntact(Parameters(e), ';') <==> Survivor(e))
  {
    hide Show, Strip, Intact, Survives, Writable;
    assert "for" + "=" == "for=";
    var parameters := Parameters(e);
    ParameterIntact("for", e.node);
    assert parameters[0] == "for=" + Show(e.node);
    if e.proto.Some? {
      ParameterIntact("proto", e.proto.value);
      assert parameters[1] == "proto=" + Show(e.proto.value) && "proto" + "=" == "proto=";
    }
    if e.host.Some? {
      ParameterIntact("host", e.host.value);
      assert parameters[|parameters| - 1] == "host=" + Show(e.host.value) && "host" + "=" == "host=";
    }
  }

  /** A printed element is split into its own parameters exactly when all its values survive. */
  lemma ElementIsSplitExactly(e: Element)
    requires WritableElement(e)
    ensures SplitSpec(PrintElement(e), ';') == Some(Parameters(e)) <==> Survivor(e)
  {
    hide SplitSpec, Survivor, Parameters;
    ParametersIntact(e);
    InnerSplitExactly(Parameters(e), ';');
    assert [';'] == ";";
  }

  // ----- whole headers -----

  lemma PrintedEnds(e: Element, pad: string)
    requires WritableElement(e) && Padding(pad)
    ensures PrintElement(e) != "" && Strip(pad + PrintElement(e)) == PrintElement(e)
  {
    hide Survivor, Padding, Strip;
    ParametersIntact(e);
    JoinEnds(Parameters(e));
    StripPadded(pad, PrintElement(e));
  }

  lemma {:induction false} JoinEnds(parts: seq<string>)
    requires |parts| > 0 && forall i :: 0 <= i < |parts| ==> parts[i] != "" && Strip(parts[i]) == parts[i]
    ensures var joined := Join(parts, ";");
      joined != "" && joined[0] == parts[0][0] && !Blank(joined[0]) && !Blank(joined[|joined| - 1])
        && Strip(joined) == joined
  {
    StripEnds(parts[0]);
    if |parts| > 1 { JoinEnds(parts[1..]); }
    hide Strip;
  }

  lemma StripEnds(s: string)
    requires s != "" && Strip(s) == s
    ensures !Blank(s[0]) && !Blank(s[|s| - 1])
  {
  }

  /** The outer split gives the elements with the texts in place of the spellings. */
  lemma OuterSplit(es: seq<SpelledElement>, pad: string)
    requires |es| > 0 && Padding(pad) && forall i :: 0 <= i < |es| ==> WellSpelledElement(es[i])
    ensures Ascii(SpelledHeader(es, pad))
    ensures SplitSpec(SpelledHeader(es, pad), ',') == Some(PlainTexts(es))
  {
    hide Passes, Scan, Strip, WellSpelledElement, SpelledParameters, PrintElement, Plain, Ascii, Padding;
    var written := SpelledTexts(es, pad);
    var texts := PlainTexts(es);
    var read := seq(|es|, i requires 0 <= i < |es| => pad + texts[i]);
    forall i | 0 <= i < |es|
      ensures Passes(written[i], read[i]) && Ascii(written[i]) && texts[i] != "" && Strip(read[i]) == texts[i]
    {
      ElementPasses(es[i], pad);
      WellSpelledIsWritable(es[i]);
      PrintedEnds(Plain(es[i]), pad);
    }
    ScanHeader(written, read);
    JoinedAscii(written);
    assert StripAll(read) == texts;
  }

  lemma WellSpelledIsWritable(e: SpelledElement)
    requires WellSpelledElement(e)
    ensures WritableElement(Plain(e))
  {
  }

  /**
   * Headers with quoted pairs: every element is split into its own parameters exactly when its values
   * survive, and a header of survivors is read as its elements mean.
   */
  lemma SpelledHeaderIsRead<A>(ip: string -> Option<A>, es: seq<SpelledElement>, pad: string)
    requires |es| > 0 && Padding(pad) && forall i :: 0 <= i < |es| ==> WellSpelledElement(es[i])
    ensures forall i :: 0 <= i < |es| ==>
      (SplitSpec(PrintElement(Plain(es[i])), ';') == Some(Parameters(Plain(es[i]))) <==> Survivor(Plain(es[i])))
    ensures (forall i :: 0 <= i < |es| ==> Survivor(Plain(es[i]))) ==>
      ParseHeader(ip, SpelledHeader(es, pad)) ==
        (var entries := Meanings(ip, Plains(es)); if entries.None? then None else Combine(entries.value))
  {
    hide SplitSpec, Survivor, Parameters, PrintElement, Plain, WellSpelledElement, SpelledHeader, EntriesOf, Meanings,
      Combine, Ascii,
      Padding;
    OuterSplit(es, pad);
    var plain := Plains(es);
    var texts := PlainTexts(es);
    forall i | 0 <= i < |es|
      ensures WritableElement(plain[i])
      ensures SplitSpec(PrintElement(Plain(es[i])), ';') == Some(Parameters(Plain(es[i]))) <==> Survivor(Plain(es[i]))
    {
      WellSpelledIsWritable(es[i]);
      ElementIsSplitExactly(plain[i]);
    }
    if forall i :: 0 <= i < |es| ==> Survivor(Plain(es[i])) {
      ElementsAreRead(ip, plain, texts);
    }
  }
}
