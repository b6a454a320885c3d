/** Incremental parsing of the management event stream. */
module SseJsonParser {
  import opened Text

  // ----- blocks and their boundaries -----

  /** Length of the blank-line boundary that starts the text; zero when none does. */
  function BoundaryLength(s: string): (n: nat)
    ensures n <= |s| && (n > 0 ==> n >= 2)
  {
    if |s| >= 4 && s[0] == '\r' && s[1] == '\n' && s[2] == '\r' && s[3] == '\n' then 4
    else if |s| >= 2 && s[0] == s[1] && (s[0] == '\n' || s[0] == '\r') then 2
    else 0
  }

  /** A boundary is one of the three alternatives of the regular expression. */
  lemma BoundaryMeans(s: string)
    ensures BoundaryLength(s) > 0 <==> "\r\n\r\n" <= s || "\n\n" <= s || "\r\r" <= s
    ensures BoundaryLength(s) > 0 ==> s[..BoundaryLength(s)] in {"\r\n\r\n", "\n\n", "\r\r"}
  {
    if BoundaryLength(s) == 2 { assert s[..2] == [s[0], s[1]]; }
    if BoundaryLength(s) == 4 { assert s[..4] == [s[0], s[1], s[2], s[3]]; }
  }

  /** Where the leftmost boundary starts. */
  function FirstBoundary(s: string): (r: Option<nat>)
    ensures r.Some? ==> r.value < |s| && BoundaryLength(s[r.value..]) > 0
  {
    if s == "" then None
    else if BoundaryLength(s) > 0 then assert s[0..] == s; Some(0)
    else
      var rest := FirstBoundary(s[1..]);
      if rest.None? then None else assert s[1..][rest.value..] == s[rest.value + 1..]; Some(rest.value + 1)
  }

  /** It is the leftmost one. */
  lemma {:induction false} NothingBeforeFirst(s: string, i: nat)
    requires i < |s| && (FirstBoundary(s).Some? ==> i < FirstBoundary(s).value)
    ensures BoundaryLength(s[i..]) == 0
  {
    if i == 0 {
      assert s[0..] == s;
    } else {
      NothingBeforeFirst(s[1..], i - 1);
      assert s[1..][i - 1..] == s[i..];
    }
  }

  datatype Cut = Cut(block: string, boundary: string)

  /** Reference: the blocks of a text with their boundaries, and what is left. */
  function Cuts(s: string): (seq<Cut>, string)
    decreases |s|
  {
    match FirstBoundary(s)
    case None => ([], s)
    case Some(i) =>
      var n := BoundaryLength(s[i..]);
      var rest := Cuts(s[i + n..]);
      ([Cut(s[..i], s[i..i + n])] + rest.0, rest.1)
  }

  lemma CutsStep(s: string, i: nat, after: string)
    requires FirstBoundary(s) == Some(i) && after == s[i + BoundaryLength(s[i..])..]
    ensures var cut := Cut(s[..i], s[i..i + BoundaryLength(s[i..])]);
      Cuts(s) == ([cut] + Cuts(after).0, Cuts(after).1) && s == cut.block + cut.boundary + after
  {
    hide BoundaryLength, FirstBoundary;
  }

  lemma GlueStep(cut: Cut, cuts: seq<Cut>)
    ensures Glue([cut] + cuts) == cut.block + cut.boundary + Glue(cuts)
  {
    assert ([cut] + cuts)[1..] == cuts;
  }

  /** Blocks, boundaries and rest make up the text; the rest holds no boundary. */
  lemma {:induction false} CutsRebuild(s: string)
    ensures Glue(Cuts(s).0) + Cuts(s).1 == s && FirstBoundary(Cuts(s).1).None?
    decreases |s|
  {
    hide Cuts, FirstBoundary, BoundaryLength, Glue;
    if FirstBoundary(s).None? {
      CutsNone(s);
    } else {
      var i := FirstBoundary(s).value;
      var n := BoundaryLength(s[i..]);
      var after := s[i + n..];
      var cut, rest := Cut(s[..i], s[i..i + n]), Cuts(after);
      CutsStep(s, i, after);
      CutsRebuild(after);
      GlueStep(cut, rest.0);
      assert s == cut.block + cut.boundary + (Glue(rest.0) + rest.1);
      assert s == (cut.block + cut.boundary + Glue(rest.0)) + rest.1;
    }
  }

  lemma CutsNone(s: string)
    requires FirstBoundary(s).None?
    ensures Cuts(s) == ([], s) && Glue([]) + s == s && Glue([]) == ""
  {
  }

  function Glue(cuts: seq<Cut>): string {
    if cuts == [] then "" else cuts[0].block + cuts[0].boundary + Glue(cuts[1..])
  }

  /** A block followed by its own boundary, with no earlier one. */
  predicate Clean(cut: Cut) {
    FirstBoundary(cut.block + cut.boundary) == Some(|cut.block|) && BoundaryLength(cut.boundary) == |cut.boundary|
  }

  /** Text that arrives later moves neither an existing boundary nor its length. */
  lemma {:induction false} BoundaryIsStable(s: string, more: string)
    requires FirstBoundary(s).Some?
    ensures FirstBoundary(s + more) == FirstBoundary(s)
    ensures var i := FirstBoundary(s).value; BoundaryLength((s + more)[i..]) == BoundaryLength(s[i..])
  {
    hide BoundaryLength;
    if BoundaryLength(s) > 0 {
      assert (s + more)[0..] == s + more && s[0..] == s;
      SameBoundary(s, more);
    } else {
      NoEarlierBoundary(s, more);
      BoundaryIsStable(s[1..], more);
      var i := FirstBoundary(s[1..]).value;
      assert (s + more)[1..] == s[1..] + more;
      assert s[i + 1..] == s[1..][i..] && (s + more)[i + 1..] == (s[1..] + more)[i..];
    }
  }

  lemma SameBoundary(s: string, more: string)
    requires BoundaryLength(s) > 0
    ensures BoundaryLength(s + more) == BoundaryLength(s)
  {
    assert forall k :: 0 <= k < |s| ==> (s + more)[k] == s[k];
  }

  lemma NoEarlierBoundary(s: string, more: string)
    requires s != "" && BoundaryLength(s) == 0 && FirstBoundary(s[1..]).Some?
    ensures BoundaryLength(s + more) == 0
  {
    var i := FirstBoundary(s[1..]).value;
    var t := s[1..][i..];
    assert |t| >= 2 && t[0] == s[i + 1] && t[1] == s[i + 2];
    assert forall k :: 0 <= k < |s| ==> (s + more)[k] == s[k];
  }

  /** Cutting inverts gluing: clean cuts and a boundary-free rest are found again. */
  lemma {:induction false} CutsOfGlue(cuts: seq<Cut>, rest: string)
    requires (forall cut :: cut in cuts ==> Clean(cut)) && FirstBoundary(rest).None?
    ensures Cuts(Glue(cuts) + rest) == (cuts, rest)
  {
    hide Cuts, FirstBoundary, BoundaryLength, Glue, Clean;
    if cuts == [] {
      CutsNone(rest);
    } else {
      var cut, others := cuts[0], cuts[1..];
      var tail := Glue(others) + rest;
      assert [cut] + others == cuts;
      CutsOfGlue(others, rest);
      CutOfClean(cut, tail);
      GlueStep(cut, others);
      assert (cut.block + cut.boundary + Glue(others)) + rest == cut.block + cut.boundary + tail;
    }
  }

  lemma CutOfClean(cut: Cut, tail: string)
    requires Clean(cut)
    ensures Cuts(cut.block + cut.boundary + tail) == ([cut] + Cuts(tail).0, Cuts(tail).1)
  {
    hide Cuts, FirstBoundary, BoundaryLength;
    var head := cut.block + cut.boundary;
    var s := head + tail;
    BoundaryIsStable(head, tail);
    assert head[|cut.block|..] == cut.boundary;
    assert s[..|cut.block|] == cut.block && s[|cut.block|..|head|] == cut.boundary && s[|head|..] == tail;
    CutsStep(s, |cut.block|, tail);
  }

  // ----- one block -----

  datatype Outcome<+E> = NoEvent | Event(event: E) | Malformed

  /** The lines of a block; CR LF, CR and LF end a line. */
  function Lines(s: string): (r: seq<string>)
    ensures |r| > 0
    decreases |s|
  {
    if s == "" then [""]
    else if |s| >= 2 && s[0] == '\r' && s[1] == '\n' then [""] + Lines(s[2..])
    else if s[0] == '\r' || s[0] == '\n' then [""] + Lines(s[1..])
    else
      var rest := Lines(s[1..]);
      [[s[0]] + rest[0]] + rest[1..]
  }

  /** The values of the data lines, each without one leading space. */
  function DataValues(lines: seq<string>): seq<string> {
    if lines == [] then []
    else
      var rest := DataValues(lines[1..]);
      if "data:" <= lines[0] then
        var value := lines[0][5..];
        [if " " <= value then value[1..] else value] + rest
      else rest
  }

  function Payload(block: string): string {
    Join(DataValues(Lines(block)), "\n")
  }

  /** `parse` reads a JSON object with a type, or refuses. */
  function ParseBlock<E>(parse: string -> Option<E>, block: string): Outcome<E> {
    var data := Payload(block);
    if data == "" then NoEvent
    else match parse(data) { case None => Malformed case Some(e) => Event(e) }
  }

  // ----- the parser -----

  /** Reference: the events of all complete blocks of the text, or the error, and the text kept. */
  function Consume<E>(parse: string -> Option<E>, text: string): (r: (Option<seq<E>>, string))
    decreases |text|
  {
    match FirstBoundary(text)
    case None => (Some([]), text)
    case Some(i) =>
      var rest := text[i + BoundaryLength(text[i..])..];
      match ParseBlock(parse, text[..i])
      case Malformed => (None, rest)
      case NoEvent => Consume(parse, rest)
      case Event(e) => var next := Consume(parse, rest); (Prepend([e], next.0), next.1)
  }

  function Prepend<E>(first: seq<E>, rest: Option<seq<E>>): Option<seq<E>> {
    if rest.None? then None else Some(first + rest.value)
  }

  lemma PrependNothing<E>(events: Option<seq<E>>)
    ensures Prepend([], events) == events
  {
    if events.Some? { assert [] + events.value == events.value; }
  }

  lemma PrependTwice<E>(a: seq<E>, b: seq<E>, events: Option<seq<E>>)
    ensures Prepend(a + b, events) == Prepend(a, Prepend(b, events))
  {
    if events.Some? { assert a + (b + events.value) == (a + b) + events.value; }
  }

  function Found<E>(outcome: Outcome<E>): seq<E> {
    if outcome.Event? then [outcome.event] else []
  }

  lemma ConsumeStep<E>(parse: string -> Option<E>, text: string, i: nat, after: string)
    requires FirstBoundary(text) == Some(i) && after == text[i + BoundaryLength(text[i..])..]
    ensures var outcome := ParseBlock(parse, text[..i]);
      Consume(parse, text) == if outcome.Malformed? then (None, after)
                              else (Prepend(Found(outcome), Consume(parse, after).0), Consume(parse, after).1)
  {
    hide BoundaryLength, FirstBoundary, ParseBlock;
    PrependNothing(Consume(parse, after).0);
  }

  class SseJsonParser<E> {
    const parse: string -> Option<E>
    var buffer: string

    constructor (parse: string -> Option<E>)
      ensures this.parse == parse && buffer == ""
    {
      this.parse, buffer := parse, "";
    }

    /** Adds a chunk and returns the events it completes; None is the error of a malformed block. */
    method Push(chunk: string) returns (events: Option<seq<E>>)
      modifies this`buffer
      ensures (events, buffer) == Consume(parse, old(buffer) + chunk)
    {
      hide Consume, FirstBoundary, BoundaryLength, ParseBlock, Prepend;
      buffer := buffer + chunk;
      ghost var whole := buffer;
      var list: seq<E> := [];
      PrependNothing(Consume(parse, buffer).0);
      var boundary := FirstBoundary(buffer);
      while boundary.Some?
        invariant boundary == FirstBoundary(buffer)
        invariant Consume(parse, whole) == (Prepend(list, Consume(parse, buffer).0), Consume(parse, buffer).1)
        decreases |buffer|
      {
        var after := buffer[boundary.value + BoundaryLength(buffer[boundary.value..])..];
        ConsumeStep(parse, buffer, boundary.value, after);
        var outcome := ParseBlock(parse, buffer[..boundary.value]);
        buffer := after;
        if outcome.Malformed? {
          PrependNone(list);
          return None;
        }
        PrependTwice(list, Found(outcome), Consume(parse, after).0);
        if outcome.Event? { list := list + [outcome.event]; } else { assert list + Found(outcome) == list; }
        boundary := FirstBoundary(buffer);
      }
      ConsumeNothing(parse, buffer, list);
      return Some(list);
    }
  }

  lemma PrependNone<E>(list: seq<E>)
    ensures Prepend(list, None) == None
  {
  }

  lemma ConsumeNothing<E>(parse: string -> Option<E>, text: string, list: seq<E>)
    requires FirstBoundary(text).None?
    ensures Consume(parse, text) == (Some([]), text) && Prepend(list, Consume(parse, text).0) == Some(list)
  {
    assert list + [] == list;
  }

  // ----- how the stream is split into chunks does not matter -----

  /** Pushing chunk after chunk until an error: all events, and the text kept. */
  function PushAll<E>(parse: string -> Option<E>, buffer: string, chunks: seq<string>): (Option<seq<E>>, string)
    decreases |chunks|
  {
    if chunks == [] then (Some([]), buffer)
    else
      var first := Consume(parse, buffer + chunks[0]);
      if first.0.None? then first
      else
        var rest := PushAll(parse, first.1, chunks[1..]);
        (Prepend(first.0.value, rest.0), rest.1)
  }

  lemma {:induction false} ConsumeInTwo<E>(parse: string -> Option<E>, text: string, more: string)
    ensures var first := Consume(parse, text);
      if first.0.None? then Consume(parse, text + more).0.None?
      else var rest := Consume(parse, first.1 + more);
        Consume(parse, text + more) == (Prepend(first.0.value, rest.0), rest.1)
    decreases |text|
  {
    hide ParseBlock, BoundaryLength, FirstBoundary, Consume;
    if FirstBoundary(text).None? {
      ConsumeNothing(parse, text, []);
      PrependNothing(Consume(parse, text + more).0);
    } else {
      var i := FirstBoundary(text).value;
      var after := text[i + BoundaryLength(text[i..])..];
      BoundaryIsStable(text, more);
      assert (text + more)[..i] == text[..i] && (text + more)[i + BoundaryLength(text[i..])..] == after + more;
      ConsumeStep(parse, text, i, after);
      ConsumeStep(parse, text + more, i, after + more);
      ConsumeInTwo(parse, after, more);
      var next, found := Consume(parse, after), Found(ParseBlock(parse, text[..i]));
      if next.0.Some? { PrependTwice(found, next.0.value, Consume(parse, next.1 + more).0); }
    }
  }

  /** Any split of the stream gives the events of one push, or an error exactly when that does. */
  lemma {:induction false} ChunksDoNotMatter<E>(parse: string -> Option<E>, buffer: string, chunks: seq<string>)
    requires FirstBoundary(buffer).None?
    ensures PushAll(parse, buffer, chunks).0 == Consume(parse, buffer + Concat(chunks)).0
    ensures PushAll(parse, buffer, chunks).0.Some? ==>
      PushAll(parse, buffer, chunks).1 == Consume(parse, buffer + Concat(chunks)).1
    decreases |chunks|
  {
    hide ParseBlock, BoundaryLength, FirstBoundary, Consume;
    if chunks == [] {
      assert buffer + Concat(chunks) == buffer;
      ConsumeNothing(parse, buffer, []);
    } else {
      var text, more := buffer + chunks[0], Concat(chunks[1..]);
      assert buffer + Concat(chunks) == text + more;
      ConsumeInTwo(parse, text, more);
      var first := Consume(parse, text);
      if first.0.Some? {
        ConsumeIsCuts(parse, text);
        CutsRebuild(text);
        ChunksDoNotMatter(parse, first.1, chunks[1..]);
      }
    }
  }

  function EventsOf<E>(parse: string -> Option<E>, cuts: seq<Cut>): Option<seq<E>> {
    if cuts == [] then Some([])
    else match ParseBlock(parse, cuts[0].block) {
      case Malformed => None
      case NoEvent => EventsOf(parse, cuts[1..])
      case Event(e) => Prepend([e], EventsOf(parse, cuts[1..]))
    }
  }

  /** The parser keeps exactly the boundary-free rest of the text and gives the blocks' events in order. */
  lemma {:induction false} ConsumeIsCuts<E>(parse: string -> Option<E>, text: string)
    ensures Consume(parse, text).0 == EventsOf(parse, Cuts(text).0)
    ensures Consume(parse, text).0.Some? ==> Consume(parse, text).1 == Cuts(text).1
    decreases |text|
  {
    if FirstBoundary(text).None? {
      ConsumeNothing(parse, text, []);
    } else {
      hide ParseBlock, BoundaryLength, FirstBoundary, Consume, Cuts;
      var i := FirstBoundary(text).value;
      var after := text[i + BoundaryLength(text[i..])..];
      ConsumeStep(parse, text, i, after);
      CutsStep(text, i, after);
      ConsumeIsCuts(parse, after);
      assert Cuts(text).0[1..] == Cuts(after).0;
      PrependNothing(EventsOf(parse, Cuts(after).0));
    }
  }

  // ----- printed events are read back -----

  predicate OneLine(s: string) {
    '\r' !in s && '\n' !in s
  }

  predicate LineEnd(eol: string) {
    eol == "\n" || eol == "\r" || eol == "\r\n"
  }

  /**
   * A line of an event: a data field, with or without a space after the colon, or anything else such as a
   * comment or another field.
   */
  datatype Field = Data(value: string, spaced: bool) | Other(line: string)

  /** A value that starts with a space needs one after the colon. */
  predicate Sound(f: Field) {
    match f
    case Data(value, spaced) => OneLine(value) && (spaced || value == "" || value[0] != ' ')
    case Other(line) => line != "" && OneLine(line) && !("data:" <= line)
  }

  function FieldLine(f: Field): string {
    match f
    case Data(value, spaced) => (if spaced then "data: " else "data:") + value
    case Other(line) => line
  }

  function FieldLines(fields: seq<Field>): (r: seq<string>)
    ensures |r| == |fields|
    ensures forall i :: 0 <= i < |r| ==> r[i] == FieldLine(fields[i])
  {
    seq(|fields|, i requires 0 <= i < |fields| => FieldLine(fields[i]))
  }

  /** The values of the data fields, in order. */
  function Values(fields: seq<Field>): seq<string> {
    if fields == [] then []
    else (if fields[0].Data? then [fields[0].value] else []) + Values(fields[1..])
  }

  /** One event as a server writes it (section 9.2 of the WHATWG HTML Living Standard). */
  function PrintEvent(fields: seq<Field>, eol: string): Cut {
    Cut(Join(FieldLines(fields), eol), eol + eol)
  }

  lemma {:induction false} LineThenEnd(line: string, eol: string, rest: string)
    requires OneLine(line) && LineEnd(eol)
    requires eol == "\r" ==> !("\n" <= rest)
    ensures Lines(line + eol + rest) == [line] + Lines(rest)
  {
    var s := line + eol + rest;
    if line == "" {
      assert s == eol + rest && s[|eol|..] == rest;
      if eol != "\r\n" {
        assert s[0] == eol[0];
        assert |s| >= 2 ==> s[1] == rest[0];
      }
    } else {
      assert s[1..] == line[1..] + eol + rest && s[0] == line[0];
      LineThenEnd(line[1..], eol, rest);
      assert [line[0]] + line[1..] == line;
    }
  }

  lemma {:induction false} LastLine(line: string)
    requires OneLine(line)
    ensures Lines(line) == [line]
  {
    if line != "" {
      LastLine(line[1..]);
      assert [line[0]] + line[1..] == line;
    }
  }

  predicate PlainLines(lines: seq<string>) {
    forall i :: 0 <= i < |lines| ==> lines[i] != "" && OneLine(lines[i])
  }

  lemma {:induction false} LinesOfJoin(lines: seq<string>, eol: string)
    requires |lines| > 0 && LineEnd(eol) && PlainLines(lines)
    ensures Lines(Join(lines, eol)) == lines
  {
    hide Lines;
    if |lines| == 1 {
      LastLine(lines[0]);
    } else {
      var rest := Join(lines[1..], eol);
      LinesOfJoin(lines[1..], eol);
      JoinStarts(lines[1..], eol);
      hide Join, LineEnd;
      LineThenEnd(lines[0], eol, rest);
      assert Lines(lines[0] + eol + rest) == [lines[0]] + lines[1..] == lines;
    }
  }

  lemma JoinStarts(lines: seq<string>, eol: string)
    requires |lines| > 0 && PlainLines(lines)
    ensures Join(lines, eol) != "" && Join(lines, eol)[0] == lines[0][0] && OneLine([Join(lines, eol)[0]])
  {
    assert lines[0][0] in lines[0];
  }

  lemma {:induction false} ValuesOfFields(fields: seq<Field>)
    requires forall i :: 0 <= i < |fields| ==> Sound(fields[i])
    ensures DataValues(FieldLines(fields)) == Values(fields)
  {
    if fields != [] {
      ValuesOfFields(fields[1..]);
      assert FieldLines(fields)[1..] == FieldLines(fields[1..]);
      var f, line := fields[0], FieldLine(fields[0]);
      if f.Data? {
        var value := f.value;
        if f.spaced {
          assert line[5..] == " " + value && (" " + value)[1..] == value;
        } else {
          assert line[5..] == value;
        }
      }
    }
  }

  lemma {:induction false} SkipLine(line: string, rest: string)
    requires OneLine(line)
    ensures FirstBoundary(line + rest) ==
      (match FirstBoundary(rest) { case None => None case Some(i) => Some(|line| + i) })
  {
    if line == "" {
      assert line + rest == rest;
    } else {
      assert (line + rest)[1..] == line[1..] + rest && (line + rest)[0] == line[0];
      assert BoundaryLength(line + rest) == 0;
      hide BoundaryLength;
      SkipLine(line[1..], rest);
    }
  }

  /** One line end before the next line is no boundary. */
  lemma SkipLineEnd(eol: string, rest: string)
    requires LineEnd(eol) && rest != "" && OneLine(rest[..1])
    ensures FirstBoundary(eol + rest) ==
      (match FirstBoundary(rest) { case None => None case Some(i) => Some(|eol| + i) })
  {
    var s := eol + rest;
    assert rest[0] == rest[..1][0] && s[|eol|] == rest[0];
    assert BoundaryLength(s) == 0;
    if eol == "\r\n" {
      assert s[1..] == "\n" + rest && s[1..][1..] == rest;
      assert BoundaryLength(s[1..]) == 0;
    } else {
      assert s[1..] == rest;
    }
  }

  lemma FieldLinesArePlain(fields: seq<Field>)
    requires forall i :: 0 <= i < |fields| ==> Sound(fields[i])
    ensures PlainLines(FieldLines(fields))
  {
    forall i | 0 <= i < |fields| ensures FieldLines(fields)[i] != "" && OneLine(FieldLines(fields)[i]) {
      var f := fields[i];
      assert Sound(f) && OneLine("data:") && OneLine("data: ");
    }
  }

  /** A printed event is one clean cut, and its data is the values of its data fields joined by newlines. */
  lemma PrintedEventIsClean(fields: seq<Field>, eol: string)
    requires |fields| > 0 && LineEnd(eol) && forall i :: 0 <= i < |fields| ==> Sound(fields[i])
    ensures Clean(PrintEvent(fields, eol)) && Payload(PrintEvent(fields, eol).block) == Join(Values(fields), "\n")
  {
    hide Lines, Join, DataValues, LineEnd, Clean, PlainLines, Sound, Values;
    var lines := FieldLines(fields);
    FieldLinesArePlain(fields);
    LinesOfJoin(lines, eol);
    ValuesOfFields(fields);
    JoinedLinesAreClean(lines, eol);
  }

  lemma EndingIsBoundary(eol: string)
    requires LineEnd(eol)
    ensures BoundaryLength(eol + eol) == |eol + eol| && FirstBoundary(eol + eol) == Some(0)
  {
  }

  lemma {:induction false} JoinedLinesAreClean(lines: seq<string>, eol: string)
    requires |lines| > 0 && LineEnd(eol) && PlainLines(lines)
    ensures Clean(Cut(Join(lines, eol), eol + eol))
  {
    hide BoundaryLength, FirstBoundary;
    var ending, block := eol + eol, Join(lines, eol);
    EndingIsBoundary(eol);
    if |lines| == 1 {
      SkipLine(block, ending);
    } else {
      var rest := Join(lines[1..], eol);
      assert block == lines[0] + eol + rest;
      hide Join, LineEnd;
      JoinedLinesAreClean(lines[1..], eol);
      JoinStarts(lines[1..], eol);
      assert (rest + ending)[..1] == [rest[0]];
      SkipLineEnd(eol, rest + ending);
      SkipLine(lines[0], eol + (rest + ending));
      assert block + ending == lines[0] + (eol + (rest + ending));
    }
  }

  /**
   * What a consumer is to get for these events: those with data, in order, or the error when the JSON parser
   * refuses the data of one.
   */
  function Meant<E>(parse: string -> Option<E>, printed: seq<seq<Field>>): Option<seq<E>> {
    if printed == [] then Some([])
    else
      var data := Join(Values(printed[0]), "\n");
      var rest := Meant(parse, printed[1..]);
      if data == "" then rest
      else if parse(data).None? then None
      else Prepend([parse(data).value], rest)
  }

  predicate Prints(fields: seq<Field>, eol: string, cut: Cut) {
    |fields| > 0 && (forall i :: 0 <= i < |fields| ==> Sound(fields[i])) && cut == PrintEvent(fields, eol)
  }

  lemma PrintedIsRead<E>(parse: string -> Option<E>, fields: seq<Field>, eol: string, cut: Cut)
    requires LineEnd(eol) && Prints(fields, eol, cut)
    ensures Clean(cut)
    ensures var data := Join(Values(fields), "\n");
      ParseBlock(parse, cut.block) ==
        if data == "" then NoEvent else if parse(data).None? then Malformed else Event(parse(data).value)
  {
    hide Clean, Join, PrintEvent, Payload, Sound, Values;
    PrintedEventIsClean(fields, eol);
  }

  /**
   * Everything a server prints is read back, however the text is split on the way: comments, other fields and
   * events without data are passed over, and the first event that is no JSON object is an error.
   */
  lemma PrintedStreamIsRead<E>(
      parse: string -> Option<E>, printed: seq<seq<Field>>, eol: string, cuts: seq<Cut>, chunks: seq<string>)
    requires LineEnd(eol) && |cuts| == |printed|
    requires forall k :: 0 <= k < |printed| ==> Prints(printed[k], eol, cuts[k])
    requires Concat(chunks) == Glue(cuts)
    ensures PushAll(parse, "", chunks).0 == Meant(parse, printed)
    ensures Meant(parse, printed).Some? ==> PushAll(parse, "", chunks).1 == ""
  {
    forall cut | cut in cuts ensures Clean(cut) {
      var k :| 0 <= k < |cuts| && cuts[k] == cut;
      PrintedIsRead(parse, printed[k], eol, cut);
    }
    CutsOfGlue(cuts, "");
    assert "" + Concat(chunks) == Glue(cuts) + "";
    ChunksDoNotMatter(parse, "", chunks);
    ConsumeIsCuts(parse, Glue(cuts) + "");
    EventsOfPrinted(parse, printed, eol, cuts);
  }

  lemma {:induction false} EventsOfPrinted<E>(parse: string -> Option<E>, printed: seq<seq<Field>>, eol: string,
    cuts: seq<Cut>)
    requires LineEnd(eol) && |cuts| == |printed|
    requires forall k :: 0 <= k < |printed| ==> Prints(printed[k], eol, cuts[k])
    ensures EventsOf(parse, cuts) == Meant(parse, printed)
  {
    hide ParseBlock, Prints, Join, LineEnd, Clean;
    if cuts != [] {
      PrintedIsRead(parse, printed[0], eol, cuts[0]);
      EventsOfPrinted(parse, printed[1..], eol, cuts[1..]);
    }
  }
}
