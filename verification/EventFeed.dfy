/** The merged event feed: listing, paging and deleting over three stores. */
module EventFeed {
  import opened Text
  import opened Paging

  // ----- filtering lists -----

  function Only<R>(records: seq<R>, p: R -> bool): seq<R> {
    if records == [] then []
    else
      var last := records[|records| - 1];
      var kept := Only(records[..|records| - 1], p);
      if p(last) then kept + [last] else kept
  }

  function Not<R>(p: R -> bool): R -> bool {
    r => !p(r)
  }

  function Both<R>(p: R -> bool, q: R -> bool): R -> bool {
    r => p(r) && q(r)
  }

  function Without<R>(records: seq<R>, p: R -> bool): seq<R> {
    Only(records, Not(p))
  }

  lemma OnlySnoc<R>(records: seq<R>, last: R, p: R -> bool)
    ensures Only(records + [last], p) == if p(last) then Only(records, p) + [last] else Only(records, p)
  {
    assert (records + [last])[..|records|] == records;
  }

  /** The two halves of a filter count every record once. */
  lemma {:induction false} HalvesCount<R>(records: seq<R>, p: R -> bool)
    ensures |Only(records, p)| + |Without(records, p)| == |records|
  {
    if records != [] { HalvesCount(records[..|records| - 1], p); }
  }

  lemma {:induction false} OnlyMembers<R>(records: seq<R>, p: R -> bool)
    ensures forall r :: r in Only(records, p) <==> r in records && p(r)
  {
    if records != [] {
      OnlyMembers(records[..|records| - 1], p);
      assert records == records[..|records| - 1] + [records[|records| - 1]];
    }
  }

  lemma {:induction false} OnlyTwice<R>(records: seq<R>, p: R -> bool, q: R -> bool)
    ensures Only(Only(records, p), q) == Only(records, Both(p, q))
  {
    if records != [] {
      var k := |records| - 1;
      OnlyTwice(records[..k], p, q);
      OnlySnoc(Only(records[..k], p), records[k], q);
    }
  }

  lemma {:induction false} OnlySame<R>(records: seq<R>, p: R -> bool, q: R -> bool)
    requires forall r :: r in records ==> p(r) == q(r)
    ensures Only(records, p) == Only(records, q)
  {
    if records != [] { OnlySame(records[..|records| - 1], p, q); }
  }

  // ----- records, items and filters -----

  datatype Source = System | Runtime | ProviderHttp

  datatype SystemRecord = SystemRecord(timestamp: int, event: string, level: string, requestId: string, actor: string)
  datatype RuntimeRecord = RuntimeRecord(diagnosticId: string, occurredAt: int, severity: string, requestId: string,
    summary: string)
  datatype HttpRecord = HttpRecord(id: string, occurredAt: int, ended: bool, level: string, requestId: string,
    summary: string)

  datatype Item = Item(id: string, source: Source, occurredAt: int, level: string, requestId: string, summary: string)

  datatype Filter = Filter(startedAt: int, endedAt: int, sources: set<Source>, levels: set<string>, needle: string)

  /** The digest that names a system event, and the case-folded JSON text of each kind of record. */
  datatype Texts = Texts(
    digest: SystemRecord -> string,
    systemText: SystemRecord -> string, runtimeText: RuntimeRecord -> string, httpText: HttpRecord -> string)

  predicate Contains(text: string, needle: string) {
    exists i :: 0 <= i <= |text| && needle <= text[i..]
  }

  /** No source selected means all of them. */
  predicate Selects(f: Filter, source: Source) {
    f.sources == {} || source in f.sources
  }

  predicate Matches(f: Filter, occurredAt: int, level: string, text: string) {
    f.startedAt <= occurredAt <= f.endedAt && (f.levels == {} || level in f.levels)
    && (f.needle == "" || Contains(text, f.needle))
  }

  function SystemItem(t: Texts, r: SystemRecord): Item {
    Item(t.digest(r), System, r.timestamp, r.level, r.requestId, r.event)
  }

  function SystemItemOf(t: Texts): SystemRecord -> Item {
    r => SystemItem(t, r)
  }

  function RuntimeItem(r: RuntimeRecord): Item {
    Item(r.diagnosticId, Runtime, r.occurredAt, r.severity, r.requestId, r.summary)
  }

  function HttpItem(r: HttpRecord): Item {
    Item(r.id, ProviderHttp, r.occurredAt, r.level, r.requestId, r.summary)
  }

  /** The items of the records that pass the listing's filter, which looks at the item. */
  function ItemsOf<R>(records: seq<R>, make: R -> Item, text: R -> string, f: Filter): seq<Item> {
    if records == [] then []
    else
      var last := records[|records| - 1];
      var item := make(last);
      var before := ItemsOf(records[..|records| - 1], make, text, f);
      if Matches(f, item.occurredAt, item.level, text(last)) then before + [item] else before
  }

  method PublicItems<R>(records: seq<R>, make: R -> Item, text: R -> string, f: Filter) returns (selected: seq<Item>)
    ensures selected == ItemsOf(records, make, text, f)
  {
    selected := [];
    for i := 0 to |records|
      invariant selected == ItemsOf(records[..i], make, text, f)
    {
      assert records[..i + 1][..i] == records[..i];
      var item := make(records[i]);
      if item.occurredAt < f.startedAt || item.occurredAt > f.endedAt { continue; }
      if f.levels != {} && item.level !in f.levels { continue; }
      if f.needle != "" && !Contains(text(records[i]), f.needle) { continue; }
      selected := selected + [item];
    }
    assert records[..|records|] == records;
  }

  /** The listing, which filters items, selects as many as the deletion, which filters records. */
  lemma {:induction false} ItemsCountMatches<R>(records: seq<R>, make: R -> Item, text: R -> string, f: Filter,
    p: R -> bool)
    requires forall r :: r in records ==> p(r) == Matches(f, make(r).occurredAt, make(r).level, text(r))
    ensures |ItemsOf(records, make, text, f)| == |Only(records, p)|
  {
    hide Matches;
    if records != [] { ItemsCountMatches(records[..|records| - 1], make, text, f, p); }
  }

  // ----- the order of the listing -----

  predicate StringLess(a: string, b: string) {
    b != "" && (a == "" || a[0] < b[0] || (a[0] == b[0] && StringLess(a[1..], b[1..])))
  }

  lemma {:induction false} StringOrder(a: string, b: string, c: string)
    ensures !(StringLess(a, b) && StringLess(b, a))
    ensures StringLess(a, b) || a == b || StringLess(b, a)
    ensures StringLess(a, b) && StringLess(b, c) ==> StringLess(a, c)
  {
    if a != "" && b != "" {
      StringOrder(a[1..], b[1..], if c == "" then "" else c[1..]);
      if a[0] == b[0] && a[1..] == b[1..] { assert a == [a[0]] + a[1..] && b == [b[0]] + b[1..]; }
    }
  }

  function Rank(source: Source): int {
    match source
    case System => 2
    case Runtime => 1
    case ProviderHttp => 3
  }

  predicate KeyLess(a: Item, b: Item) {
    a.occurredAt < b.occurredAt
    || (a.occurredAt == b.occurredAt
        && (Rank(a.source) < Rank(b.source) || (Rank(a.source) == Rank(b.source) && StringLess(a.id, b.id))))
  }

  /** Newest first. */
  predicate Descending(items: seq<Item>) {
    forall i, j :: 0 <= i < j < |items| ==> !KeyLess(items[i], items[j])
  }

  /** A stable insertion: behind the items that are not smaller. */
  function Insert(items: seq<Item>, item: Item): (r: seq<Item>)
    ensures multiset(r) == multiset(items) + multiset{item}
  {
    if items == [] then [item]
    else if KeyLess(items[0], item) then assert items == [items[0]] + items[1..]; [item] + items
    else assert items == [items[0]] + items[1..]; [items[0]] + Insert(items[1..], item)
  }

  function Sorted(items: seq<Item>): (r: seq<Item>)
    ensures multiset(r) == multiset(items)
  {
    if items == [] then []
    else
      assert items == items[..|items| - 1] + [items[|items| - 1]];
      Insert(Sorted(items[..|items| - 1]), items[|items| - 1])
  }

  lemma {:induction false} InsertDescends(items: seq<Item>, item: Item)
    requires Descending(items)
    ensures Descending(Insert(items, item))
  {
    var r := Insert(items, item);
    if items != [] && !KeyLess(items[0], item) {
      InsertDescends(items[1..], item);
      var rest := Insert(items[1..], item);
      forall e | e in rest ensures !KeyLess(items[0], e) {
        assert e in multiset(rest);
        assert e in items[1..] || e == item;
      }
    } else if items != [] {
      forall j | 0 <= j < |items| ensures !KeyLess(item, items[j]) {
        assert j > 0 ==> !KeyLess(items[0], items[j]);
        StringOrder(items[j].id, item.id, items[0].id);
        StringOrder(item.id, items[j].id, items[0].id);
        StringOrder(items[0].id, item.id, items[j].id);
      }
    }
  }

  lemma {:induction false} SortedDescends(items: seq<Item>)
    ensures Descending(Sorted(items))
  {
    if items != [] {
      SortedDescends(items[..|items| - 1]);
      InsertDescends(Sorted(items[..|items| - 1]), items[|items| - 1]);
    }
  }

  lemma SortedLength(items: seq<Item>)
    ensures |Sorted(items)| == |items|
  {
    assert |Sorted(items)| == |multiset(Sorted(items))| == |multiset(items)| == |items|;
  }

  // ----- pages -----

  /** A Python slice with non-negative bounds. */
  function Window(items: seq<Item>, from: nat, to: nat): (r: seq<Item>)
    requires from <= to
    ensures |r| <= to - from
  {
    items[Smaller(from, |items|)..Smaller(to, |items|)]
  }

  function PageOf(items: seq<Item>, page: int, size: int): (r: seq<Item>)
    requires page >= 1 && size >= 1
    ensures |r| <= size
  {
    Window(items, (page - 1) * size, (page - 1) * size + size)
  }

  function FirstPages(items: seq<Item>, pages: int, size: int): seq<Item>
    requires pages >= 0 && size >= 1
  {
    if pages == 0 then [] else FirstPages(items, pages - 1, size) + PageOf(items, pages, size)
  }

  lemma WindowsJoin(items: seq<Item>, from: nat, to: nat)
    requires from <= to
    ensures Window(items, 0, from) + Window(items, from, to) == Window(items, 0, to)
  {
  }

  lemma {:induction false} PagesSoFar(items: seq<Item>, pages: int, size: int)
    requires pages >= 0 && size >= 1
    ensures pages * size >= 0 && FirstPages(items, pages, size) == Window(items, 0, pages * size)
  {
    hide Window;
    if pages == 0 {
      WindowsJoin(items, 0, 0);
    } else {
      PagesSoFar(items, pages - 1, size);
      OneMore(pages, size);
      WindowsJoin(items, (pages - 1) * size, pages * size);
    }
  }

  /** Pages one to the last one together are the whole list, each item once and in order. */
  lemma PagesPartition(items: seq<Item>, size: int)
    requires size >= 1
    ensures FirstPages(items, TotalPages(|items|, size), size) == items
    ensures TotalPages(|items|, size) > 1 ==> PageOf(items, TotalPages(|items|, size), size) != []
  {
    hide TotalPages, FirstPages;
    LastPage(|items|, size);
    PagesSoFar(items, TotalPages(|items|, size), size);
  }

  // ----- the system log -----

  /** The public records of a log; `parse` gives None for a line that is no JSON object with a known event. */
  function Records(parse: string -> Option<SystemRecord>, lines: seq<string>): seq<SystemRecord> {
    if lines == [] then []
    else
      var record := parse(lines[|lines| - 1]);
      var before := Records(parse, lines[..|lines| - 1]);
      if record.Some? then before + [record.value] else before
  }

  /** Whether the rewrite keeps a line. */
  function Keeps(parse: string -> Option<SystemRecord>, p: SystemRecord -> bool): string -> bool {
    line => parse(line).None? || !p(parse(line).value)
  }

  class SystemEventLog {
    const parse: string -> Option<SystemRecord>
    var lines: seq<string>

    constructor (parse: string -> Option<SystemRecord>, lines: seq<string>)
      ensures this.parse == parse && this.lines == lines
    {
      this.parse, this.lines := parse, lines;
    }

    method PublicRecords() returns (records: seq<SystemRecord>)
      ensures records == Records(parse, lines)
    {
      records := [];
      for i := 0 to |lines|
        invariant records == Records(parse, lines[..i])
      {
        assert lines[..i + 1][..i] == lines[..i];
        var record := parse(lines[i]);
        if record.None? { continue; }
        records := records + [record.value];
      }
      assert lines[..|lines|] == lines;
    }

    method DeletePublicRecords(p: SystemRecord -> bool) returns (deleted: nat)
      modifies this`lines
      ensures lines == Only(old(lines), Keeps(parse, p))
      ensures deleted == |old(lines)| - |lines|
    {
      deleted := 0;
      var retained: seq<string> := [];
      for i := 0 to |lines|
        invariant lines == old(lines)
        invariant retained == Only(lines[..i], Keeps(parse, p)) && deleted == i - |retained|
      {
        assert lines[..i + 1][..i] == lines[..i];
        var record := parse(lines[i]);
        if record.Some? && p(record.value) {
          deleted := deleted + 1;
        } else {
          retained := retained + [lines[i]];
        }
      }
      assert lines[..|lines|] == lines;
      lines := retained;
    }
  }

  function Silent(parse: string -> Option<SystemRecord>): string -> bool {
    line => parse(line).None?
  }

  lemma RecordsSnoc(parse: string -> Option<SystemRecord>, lines: seq<string>, line: string)
    ensures Records(parse, lines + [line]) ==
      if parse(line).Some? then Records(parse, lines) + [parse(line).value] else Records(parse, lines)
  {
    assert (lines + [line])[..|lines|] == lines;
  }

  /** Rewriting the log removes the matching records, keeps the others in order and every other line in place. */
  lemma RewriteKeepsTheRest(parse: string -> Option<SystemRecord>, lines: seq<string>, p: SystemRecord -> bool)
    ensures Records(parse, Only(lines, Keeps(parse, p))) == Without(Records(parse, lines), p)
    ensures Only(Only(lines, Keeps(parse, p)), Silent(parse)) == Only(lines, Silent(parse))
    ensures |lines| - |Only(lines, Keeps(parse, p))| == |Only(Records(parse, lines), p)|
  {
    RewriteRecords(parse, lines, p);
    OnlyTwice(lines, Keeps(parse, p), Silent(parse));
    OnlySame(lines, Both(Keeps(parse, p), Silent(parse)), Silent(parse));
  }

  lemma {:induction false} RewriteRecords(parse: string -> Option<SystemRecord>, lines: seq<string>,
    p: SystemRecord -> bool)
    ensures Records(parse, Only(lines, Keeps(parse, p))) == Without(Records(parse, lines), p)
    ensures |lines| - |Only(lines, Keeps(parse, p))| == |Only(Records(parse, lines), p)|
  {
    if lines != [] {
      var k := |lines| - 1;
      var line := lines[k];
      RewriteRecords(parse, lines[..k], p);
      assert lines == lines[..k] + [line];
      hide Records, Only;
      RecordsSnoc(parse, lines[..k], line);
      OnlySnoc(lines[..k], line, Keeps(parse, p));
      RecordsSnoc(parse, Only(lines[..k], Keeps(parse, p)), line);
      if parse(line).Some? {
        OnlySnoc(Records(parse, lines[..k]), parse(line).value, p);
        OnlySnoc(Records(parse, lines[..k]), parse(line).value, Not(p));
      }
    } else {
      assert Records(parse, []) == [];
    }
  }

  // ----- the service -----

  /** The records the three stores hold; without an HTTP log there are none of that kind. */
  datatype Feed = Feed(system: seq<SystemRecord>, runtime: seq<RuntimeRecord>, http: seq<HttpRecord>)

  function Selected(t: Texts, feed: Feed, f: Filter): seq<Item> {
    (if Selects(f, System) then ItemsOf(feed.system, SystemItemOf(t), t.systemText, f) else [])
    + (if Selects(f, Runtime) then ItemsOf(feed.runtime, RuntimeItem, t.runtimeText, f) else [])
    + (if Selects(f, ProviderHttp) then ItemsOf(feed.http, HttpItem, t.httpText, f) else [])
  }

  function SystemMatches(t: Texts, f: Filter): SystemRecord -> bool {
    (r: SystemRecord) => Matches(f, r.timestamp, r.level, t.systemText(r))
  }

  function RuntimeMatches(t: Texts, f: Filter): RuntimeRecord -> bool {
    (r: RuntimeRecord) => Matches(f, r.occurredAt, r.severity, t.runtimeText(r))
  }

  function HttpMatches(t: Texts, f: Filter): HttpRecord -> bool {
    (r: HttpRecord) => Matches(f, r.occurredAt, r.level, t.httpText(r))
  }

  function FinishedMatches(t: Texts, f: Filter): HttpRecord -> bool {
    (r: HttpRecord) => Matches(f, r.occurredAt, r.level, t.httpText(r)) && r.ended
  }

  function ActiveMatches(t: Texts, f: Filter): HttpRecord -> bool {
    (r: HttpRecord) => Matches(f, r.occurredAt, r.level, t.httpText(r)) && !r.ended
  }

  /** The feed without the matching records; an exchange that is still active stays. */
  function Deleted(t: Texts, feed: Feed, f: Filter): Feed {
    Feed(
      if Selects(f, System) then Without(feed.system, SystemMatches(t, f)) else feed.system,
      if Selects(f, Runtime) then Without(feed.runtime, RuntimeMatches(t, f)) else feed.runtime,
      if Selects(f, ProviderHttp) then Without(feed.http, FinishedMatches(t, f)) else feed.http)
  }

  /** Matching exchanges that are still active. */
  function ActiveMatching(t: Texts, feed: Feed, f: Filter): seq<HttpRecord> {
    if Selects(f, ProviderHttp) then Only(feed.http, ActiveMatches(t, f)) else []
  }

  predicate DistinctIds(http: seq<HttpRecord>) {
    forall i, j :: 0 <= i < j < |http| ==> http[i].id != http[j].id
  }

  datatype Listing = Listing(items: seq<Item>, page: int, pageSize: int, total: nat, totalPages: int)

  class EventFeedService {
    const texts: Texts
    const systemEvents: SystemEventLog
    const hasHttpLog: bool
    var runtime: seq<RuntimeRecord>
    var http: seq<HttpRecord>

    constructor (texts: Texts, systemEvents: SystemEventLog, runtime: seq<RuntimeRecord>, http: Option<seq<HttpRecord>>)
      ensures this.texts == texts && this.systemEvents == systemEvents && this.runtime == runtime
      ensures this.hasHttpLog == http.Some? && (http.Some? ==> this.http == http.value)
    {
      this.texts, this.systemEvents, this.runtime, this.hasHttpLog := texts, systemEvents, runtime, http.Some?;
      this.http := if http.Some? then http.value else [];
    }

    ghost function Contents(): Feed
      reads this, systemEvents
    {
      Feed(Records(systemEvents.parse, systemEvents.lines), runtime, if hasHttpLog then http else [])
    }

    /** One page of the matching items, newest first, with the counts. */
    method ListEvents(f: Filter, page: int, pageSize: int) returns (listing: Listing)
      requires page >= 1 && pageSize >= 1
      ensures var all := Selected(texts, Contents(), f);
        listing.total == |all| && listing.totalPages == TotalPages(|all|, pageSize)
        && listing.items == PageOf(Sorted(all), page, pageSize)
    {
      hide ItemsOf, Records, PageOf, TotalPages, Sorted, Matches;
      var items: seq<Item> := [];
      ghost var feed := Contents();
      NothingInEmpty(texts, f);
      if Selects(f, System) {
        var records := systemEvents.PublicRecords();
        items := PublicItems(records, SystemItemOf(texts), texts.systemText, f);
      }
      if Selects(f, Runtime) {
        var more := PublicItems(runtime, RuntimeItem, texts.runtimeText, f);
        items := items + more;
      }
      if Selects(f, ProviderHttp) && hasHttpLog {
        var more := PublicItems(http, HttpItem, texts.httpText, f);
        items := items + more;
      }
      assert items == Selected(texts, feed, f);
      items := Sorted(items);
      SortedLength(Selected(texts, feed, f));
      return Listing(PageOf(items, page, pageSize), page, pageSize, |items|, TotalPages(|items|, pageSize));
    }

    /** Deletes what the listing with the same filter counts, except exchanges that are still active. */
    method DeleteMatching(f: Filter) returns (deleted: nat, skippedActive: nat)
      requires DistinctIds(http)
      modifies this`runtime, this`http, systemEvents`lines
      ensures Contents() == Deleted(texts, old(Contents()), f) && DistinctIds(http)
      ensures deleted + skippedActive == |Selected(texts, old(Contents()), f)|
      ensures skippedActive == |ActiveMatching(texts, old(Contents()), f)|
      ensures Selects(f, System) ==>
        systemEvents.lines == Only(old(systemEvents.lines), Keeps(systemEvents.parse, SystemMatches(texts, f)))
      ensures !Selects(f, System) ==> systemEvents.lines == old(systemEvents.lines)
    {
      hide Matches;
      ghost var before := Contents();
      deleted, skippedActive := 0, 0;
      if Selects(f, System) {
        RewriteKeepsTheRest(systemEvents.parse, systemEvents.lines, SystemMatches(texts, f));
        deleted := systemEvents.DeletePublicRecords(SystemMatches(texts, f));
        ItemsCountMatches(before.system, SystemItemOf(texts), texts.systemText, f, SystemMatches(texts, f));
      }
      if Selects(f, Runtime) {
        HalvesCount(runtime, RuntimeMatches(texts, f));
        ItemsCountMatches(runtime, RuntimeItem, texts.runtimeText, f, RuntimeMatches(texts, f));
        deleted := deleted + |Only(runtime, RuntimeMatches(texts, f))|;
        runtime := Without(runtime, RuntimeMatches(texts, f));
      }
      if Selects(f, ProviderHttp) && hasHttpLog {
        var finished;
        finished, skippedActive := DeleteExchanges(f);
        deleted := deleted + finished;
        ItemsCountMatches(before.http, HttpItem, texts.httpText, f, HttpMatches(texts, f));
      }
      if !hasHttpLog {
        NothingInEmpty(texts, f);
      }
    }

    method DeleteExchanges(f: Filter) returns (deleted: nat, skippedActive: nat)
      requires DistinctIds(http)
      modifies this`http
      ensures http == Without(old(http), FinishedMatches(texts, f)) && DistinctIds(http)
      ensures deleted + skippedActive == |Only(old(http), HttpMatches(texts, f))|
      ensures skippedActive == |Only(old(http), ActiveMatches(texts, f))|
    {
      hide Only, DistinctIds;
      var selected := Only(http, HttpMatches(texts, f));
      var active := Only(selected, Not(IsEnded));
      var ended := Only(selected, IsEnded);
      var ids := set r | r in ended :: r.id;
      var gone := (r: HttpRecord) => r.id in ids;
      HalvesCount(selected, IsEnded);
      SelectedTwice(texts, http, f);
      DeletingByIds(texts, http, f, ids, gone);
      OnlyDistinct(http, Not(FinishedMatches(texts, f)));
      http := Without(http, gone);
      return |ended|, |active|;
    }
  }

  predicate IsEnded(r: HttpRecord) {
    r.ended
  }

  lemma SelectedTwice(t: Texts, http: seq<HttpRecord>, f: Filter)
    ensures Only(Only(http, HttpMatches(t, f)), Not(IsEnded)) == Only(http, ActiveMatches(t, f))
    ensures Only(Only(http, HttpMatches(t, f)), IsEnded) == Only(http, FinishedMatches(t, f))
  {
    hide Only, Matches;
    OnlyTwice(http, HttpMatches(t, f), Not(IsEnded));
    OnlyTwice(http, HttpMatches(t, f), IsEnded);
    OnlySame(http, Both(HttpMatches(t, f), Not(IsEnded)), ActiveMatches(t, f));
    OnlySame(http, Both(HttpMatches(t, f), IsEnded), FinishedMatches(t, f));
  }

  /** Identifiers are distinct, so deleting by identifier deletes the selected records only. */
  lemma DeletingByIds(t: Texts, http: seq<HttpRecord>, f: Filter, ids: set<string>, gone: HttpRecord -> bool)
    requires DistinctIds(http) && ids == (set r | r in Only(http, FinishedMatches(t, f)) :: r.id)
    requires forall r :: gone(r) <==> r.id in ids
    ensures Without(http, gone) == Without(http, FinishedMatches(t, f))
  {
    hide Only, Matches;
    OnlyMembers(http, FinishedMatches(t, f));
    forall r | r in http ensures Not(gone)(r) == Not(FinishedMatches(t, f))(r) {
      if r.id in ids {
        var q :| q in Only(http, FinishedMatches(t, f)) && q.id == r.id;
        assert q in http;
      }
    }
    OnlySame(http, Not(gone), Not(FinishedMatches(t, f)));
  }

  lemma {:induction false} OnlyDistinct(http: seq<HttpRecord>, p: HttpRecord -> bool)
    requires DistinctIds(http)
    ensures DistinctIds(Only(http, p))
  {
    if http != [] {
      var k := |http| - 1;
      var before := Only(http[..k], p);
      OnlyDistinct(http[..k], p);
      OnlyMembers(http[..k], p);
      forall i | 0 <= i < |before| ensures before[i].id != http[k].id {
        assert before[i] in before;
      }
    }
  }

  lemma NothingInEmpty(t: Texts, f: Filter)
    ensures ItemsOf([], HttpItem, t.httpText, f) == [] && Without([], FinishedMatches(t, f)) == []
    ensures Only([], ActiveMatches(t, f)) == []
  {
  }

  /** After a deletion the same filter lists exactly the active exchanges that were skipped. */
  lemma AfterDeletion(t: Texts, feed: Feed, f: Filter)
    ensures Selected(t, Deleted(t, feed, f), f) == ItemsOf(ActiveMatching(t, feed, f), HttpItem, t.httpText, f)
  {
    hide Matches;
    NoItems(Without(feed.system, SystemMatches(t, f)), SystemItemOf(t), t.systemText, f, SystemMatches(t, f),
      feed.system);
    NoItems(Without(feed.runtime, RuntimeMatches(t, f)), RuntimeItem, t.runtimeText, f, RuntimeMatches(t, f),
      feed.runtime);
    NothingInEmpty(t, f);
    if Selects(f, ProviderHttp) { ActiveRemain(t, feed.http, f); }
  }

  lemma {:induction false} NoneLeft<R>(records: seq<R>, p: R -> bool)
    requires forall r :: r in records ==> !p(r)
    ensures Only(records, p) == []
  {
    if records != [] { NoneLeft(records[..|records| - 1], p); }
  }

  lemma NoItems<R>(rest: seq<R>, make: R -> Item, text: R -> string, f: Filter, p: R -> bool, records: seq<R>)
    requires rest == Without(records, p)
    requires forall r: R :: r in records ==> p(r) == Matches(f, make(r).occurredAt, make(r).level, text(r))
    ensures ItemsOf(rest, make, text, f) == []
  {
    hide Only, Matches;
    OnlyMembers(records, Not(p));
    ItemsCountMatches(rest, make, text, f, p);
    forall r | r in rest ensures !p(r) { assert Not(p)(r); }
    NoneLeft(rest, p);
  }

  lemma {:induction false} ActiveRemain(t: Texts, http: seq<HttpRecord>, f: Filter)
    ensures ItemsOf(Without(http, FinishedMatches(t, f)), HttpItem, t.httpText, f)
         == ItemsOf(Only(http, ActiveMatches(t, f)), HttpItem, t.httpText, f)
  {
    hide Matches;
    if http != [] {
      var k := |http| - 1;
      ActiveRemain(t, http[..k], f);
      assert http == http[..k] + [http[k]];
      OnlySnoc(http[..k], http[k], Not(FinishedMatches(t, f)));
      OnlySnoc(http[..k], http[k], ActiveMatches(t, f));
      hide Only, ItemsOf;
      ItemsSnoc(Without(http[..k], FinishedMatches(t, f)), http[k], HttpItem, t.httpText, f);
      ItemsSnoc(Only(http[..k], ActiveMatches(t, f)), http[k], HttpItem, t.httpText, f);
    }
  }

  lemma ItemsSnoc<R>(records: seq<R>, last: R, make: R -> Item, text: R -> string, f: Filter)
    ensures ItemsOf(records + [last], make, text, f) ==
      if Matches(f, make(last).occurredAt, make(last).level, text(last))
      then ItemsOf(records, make, text, f) + [make(last)] else ItemsOf(records, make, text, f)
  {
    assert (records + [last])[..|records|] == records;
  }

  // ----- what is listed, and in which order -----

  ghost predicate Occurs(text: string, needle: string) {
    exists before, after :: text == before + needle + after
  }

  lemma ContainsMeans(text: string, needle: string)
    ensures Contains(text, needle) <==> Occurs(text, needle)
  {
    if Contains(text, needle) {
      var i :| 0 <= i <= |text| && needle <= text[i..];
      FoundAt(text, needle, i);
    }
    hide Contains;
    if before, after :| text == before + needle + after { OccurrenceIsFound(before, needle, after); }
  }

  lemma FoundAt(text: string, needle: string, i: nat)
    requires i <= |text| && needle <= text[i..]
    ensures Occurs(text, needle)
  {
    var tail := text[i..];
    assert tail == needle + tail[|needle|..];
    assert text == text[..i] + tail;
    assert text[..i] + (needle + tail[|needle|..]) == text[..i] + needle + tail[|needle|..];
  }

  lemma OccurrenceIsFound(before: string, needle: string, after: string)
    ensures Contains(before + needle + after, needle)
  {
    var text := before + needle + after;
    assert text[|before|..] == needle + after && needle <= text[|before|..];
  }

  /** The caller asked for this source, this instant, this level and this text. */
  ghost predicate Asked(f: Filter, source: Source, occurredAt: int, level: string, text: string) {
    && (f.sources != {} ==> source in f.sources)
    && f.startedAt <= occurredAt && occurredAt <= f.endedAt
    && (f.levels != {} ==> level in f.levels)
    && Occurs(text, f.needle)
  }

  lemma AskedMeans(f: Filter, source: Source, occurredAt: int, level: string, text: string)
    ensures Selects(f, source) && Matches(f, occurredAt, level, text) <==> Asked(f, source, occurredAt, level, text)
  {
    ContainsMeans(text, f.needle);
    hide Contains, Occurs;
    if f.needle == "" { EmptyOccurs(text); }
  }

  lemma EmptyOccurs(text: string)
    ensures Occurs(text, "")
  {
    assert text == text + "" + "";
  }

  lemma {:induction false} ItemsHold<R>(records: seq<R>, make: R -> Item, text: R -> string, f: Filter, item: Item)
    ensures item in ItemsOf(records, make, text, f) <==>
      exists r :: r in records && item == make(r) && Matches(f, make(r).occurredAt, make(r).level, text(r))
  {
    hide Matches;
    if records != [] {
      ItemsHold(records[..|records| - 1], make, text, f, item);
      assert records == records[..|records| - 1] + [records[|records| - 1]];
    }
  }

  /** Exactly the records that were asked for are listed, as items with their own fields. */
  lemma WhatIsListed(t: Texts, feed: Feed, f: Filter, item: Item)
    ensures item in Selected(t, feed, f) <==>
      || (exists r :: r in feed.system && item == Item(t.digest(r), System, r.timestamp, r.level, r.requestId, r.event)
                      && Asked(f, System, r.timestamp, r.level, t.systemText(r)))
      || (exists r :: r in feed.runtime
                      && item == Item(r.diagnosticId, Runtime, r.occurredAt, r.severity, r.requestId, r.summary)
                      && Asked(f, Runtime, r.occurredAt, r.severity, t.runtimeText(r)))
      || (exists r :: r in feed.http && item == Item(r.id, ProviderHttp, r.occurredAt, r.level, r.requestId, r.summary)
                      && Asked(f, ProviderHttp, r.occurredAt, r.level, t.httpText(r)))
  {
    hide Matches, Asked, Selects, ItemsOf;
    ItemsHold(feed.system, SystemItemOf(t), t.systemText, f, item);
    ItemsHold(feed.runtime, RuntimeItem, t.runtimeText, f, item);
    ItemsHold(feed.http, HttpItem, t.httpText, f, item);
    forall r: SystemRecord
      ensures Selects(f, System) && Matches(f, r.timestamp, r.level, t.systemText(r))
              <==> Asked(f, System, r.timestamp, r.level, t.systemText(r))
    {
      AskedMeans(f, System, r.timestamp, r.level, t.systemText(r));
    }
    forall r: RuntimeRecord
      ensures Selects(f, Runtime) && Matches(f, r.occurredAt, r.severity, t.runtimeText(r))
              <==> Asked(f, Runtime, r.occurredAt, r.severity, t.runtimeText(r))
    {
      AskedMeans(f, Runtime, r.occurredAt, r.severity, t.runtimeText(r));
    }
    forall r: HttpRecord
      ensures Selects(f, ProviderHttp) && Matches(f, r.occurredAt, r.level, t.httpText(r))
              <==> Asked(f, ProviderHttp, r.occurredAt, r.level, t.httpText(r))
    {
      AskedMeans(f, ProviderHttp, r.occurredAt, r.level, t.httpText(r));
    }
  }

  /** The first text comes later in the alphabet: it continues the second one, or wins at the first difference. */
  ghost predicate Later(a: string, b: string) {
    b < a || exists k :: 0 <= k < |a| && k < |b| && a[..k] == b[..k] && a[k] > b[k]
  }

  lemma {:induction false} LaterMeans(a: string, b: string)
    ensures StringLess(b, a) <==> Later(a, b)
  {
    if a != "" && b != "" {
      LaterMeans(a[1..], b[1..]);
      if a[0] == b[0] {
        if StringLess(b[1..], a[1..]) && !(b < a) {
          var k :| 0 <= k < |a[1..]| && k < |b[1..]| && a[1..][..k] == b[1..][..k] && a[1..][k] > b[1..][k];
          assert a[..k + 1] == [a[0]] + a[1..][..k] && b[..k + 1] == [b[0]] + b[1..][..k];
          assert a[k + 1] > b[k + 1];
        }
        if k :| 0 <= k < |a| && k < |b| && a[..k] == b[..k] && a[k] > b[k] {
          assert k > 0 && a[1..][..k - 1] == a[..k][1..] && b[1..][..k - 1] == b[..k][1..];
        }
      } else if a[0] > b[0] {
        assert a[..0] == b[..0];
      }
    }
  }

  /** The listing may show the first item before the second one. */
  ghost predicate MayPrecede(a: Item, b: Item) {
    || a.occurredAt > b.occurredAt
    || (a.occurredAt == b.occurredAt
        && (|| (a.source, b.source) in {(ProviderHttp, System), (ProviderHttp, Runtime), (System, Runtime)}
            || (a.source == b.source && (a.id == b.id || Later(a.id, b.id)))))
  }

  lemma MayPrecedeMeans(a: Item, b: Item)
    ensures !KeyLess(a, b) <==> MayPrecede(a, b)
  {
    LaterMeans(a.id, b.id);
    LaterMeans(b.id, a.id);
    StringOrder(a.id, b.id, a.id);
    hide StringLess, Later;
  }

  /**
   * The listing is newest first; at one instant it shows provider exchanges, then system events, then runtime
   * diagnostics, and within one source the identifiers in descending order.
   */
  lemma ListingOrder(items: seq<Item>)
    ensures forall i, j :: 0 <= i < j < |Sorted(items)| ==> MayPrecede(Sorted(items)[i], Sorted(items)[j])
  {
    SortedDescends(items);
    hide KeyLess, MayPrecede;
    forall i, j | 0 <= i < j < |Sorted(items)| ensures MayPrecede(Sorted(items)[i], Sorted(items)[j]) {
      MayPrecedeMeans(Sorted(items)[i], Sorted(items)[j]);
    }
  }

  function SameKey(item: Item): Item -> bool {
    (other: Item) => other.occurredAt == item.occurredAt && other.source == item.source && other.id == item.id
  }

  /** Items with one key keep their order. */
  lemma {:induction false} SortedIsStable(items: seq<Item>, item: Item)
    ensures Only(Sorted(items), SameKey(item)) == Only(items, SameKey(item))
  {
    hide KeyLess;
    if items != [] {
      var front, last := items[..|items| - 1], items[|items| - 1];
      SortedIsStable(front, item);
      SortedDescends(front);
      InsertIsStable(Sorted(front), last, item);
    }
  }

  lemma {:induction false} InsertIsStable(items: seq<Item>, new_: Item, item: Item)
    requires Descending(items)
    ensures Only(Insert(items, new_), SameKey(item)) ==
      if SameKey(item)(new_) then Only(items, SameKey(item)) + [new_] else Only(items, SameKey(item))
  {
    var p := SameKey(item);
    if items == [] {
      OnlySnoc([], new_, p);
      assert [] + [new_] == [new_];
    } else if KeyLess(items[0], new_) {
      OnlyCons(new_, items, p);
      if p(new_) {
        forall r | r in items ensures !p(r) {
          var j :| 0 <= j < |items| && items[j] == r;
          StringOrder(items[0].id, new_.id, items[0].id);
          if j > 0 {
            assert !KeyLess(items[0], items[j]);
            StringOrder(items[0].id, items[j].id, items[0].id);
          }
        }
        NoneLeft(items, p);
      }
    } else {
      assert items == [items[0]] + items[1..];
      assert Descending(items[1..]) by {
        forall i, j | 0 <= i < j < |items[1..]| ensures !KeyLess(items[1..][i], items[1..][j]) {
          assert !KeyLess(items[i + 1], items[j + 1]);
        }
      }
      InsertIsStable(items[1..], new_, item);
      OnlyCons(items[0], Insert(items[1..], new_), p);
      OnlyCons(items[0], items[1..], p);
    }
  }

  lemma {:induction false} OnlyCons<R>(first: R, rest: seq<R>, p: R -> bool)
    ensures Only([first] + rest, p) == (if p(first) then [first] else []) + Only(rest, p)
  {
    if rest == [] {
      OnlySnoc([], first, p);
      assert [] + [first] == [first] + [];
    } else {
      var front, last := rest[..|rest| - 1], rest[|rest| - 1];
      OnlyCons(first, front, p);
      assert [first] + rest == ([first] + front) + [last] && rest == front + [last];
      OnlySnoc([first] + front, last, p);
      OnlySnoc(front, last, p);
    }
  }

  /** All pages of a listing together are the matching items, newest first and each exactly once. */
  lemma ListingIsComplete(t: Texts, feed: Feed, f: Filter, size: int)
    requires size >= 1
    ensures var all := Selected(t, feed, f);
      var pages := FirstPages(Sorted(all), TotalPages(|all|, size), size);
      && multiset(pages) == multiset(all)
      && (forall i, j :: 0 <= i < j < |pages| ==> MayPrecede(pages[i], pages[j]))
  {
    var all := Selected(t, feed, f);
    ListingOrder(all);
    SortedLength(all);
    hide MayPrecede;
    PagesPartition(Sorted(all), size);
  }
}
