/** Archive selection, the explicit-stack walk over a selected subtree, and the archive preview. */
module ArchiveWalk {
  import opened Text
  import opened FileTree
  import opened FileAccess

  /** One archive member: where it is on disk, its name in the archive, and its size. */
  datatype Entry = Entry(path: Path, name: string, isDirectory: bool, size: nat)

  /** The names a directory scan returns, in its sorting order. */
  type Listing = Path -> seq<string>

  ghost predicate Lists(t: Tree, listing: Listing) {
    forall d :: d in t && t[d] == Dir ==>
      && (forall i, j :: 0 <= i < j < |listing(d)| ==> listing(d)[i] != listing(d)[j])
      && (forall name :: name in listing(d) <==> d + [name] in t)
  }

  /** Segments on disk are non-empty and have no slash. */
  ghost predicate PlainNames(t: Tree) {
    forall p :: p in t ==> forall segment :: segment in p ==> segment != "" && '/' !in segment
  }

  /** The entries an archive of `target` holds: everything below it that is not below a temporary name. */
  predicate Selected(t: Tree, target: Path, p: Path) {
    p in t && target <= p && forall k :: |target| <= k < |p| ==> !Temporary(p[k])
  }

  function EntryFor(t: Tree, target: Path, p: Path): Entry
    requires p in t && target <= p && |target| > 0
  {
    var plain := Join([Name(target)] + p[|target|..], "/");
    if t[p] == Dir then Entry(p, plain + "/", true, 0) else Entry(p, plain, false, |t[p].content|)
  }

  // ----- the recursive specification of a preview -----

  datatype Totals = Totals(size: nat, files: nat, directories: nat) {
    function Plus(other: Totals): Totals {
      Totals(size + other.size, files + other.files, directories + other.directories)
    }
  }

  const NONE := Totals(0, 0, 0)

  ghost function Descendants(t: Tree, p: Path): set<Path> {
    set q | q in t && p < q
  }

  lemma ChildHasFewerDescendants(t: Tree, d: Path, name: string)
    requires d + [name] in t
    ensures |Descendants(t, d + [name])| < |Descendants(t, d)|
  {
    var child := d + [name];
    assert d < child;
    forall q | q in Descendants(t, child) ensures q in Descendants(t, d) {
      assert q[..|d|] == child[..|d|] == d;
    }
    assert Descendants(t, child) + {child} <= Descendants(t, d);
    SubsetSize(Descendants(t, child) + {child}, Descendants(t, d));
  }

  lemma {:induction false} SubsetSize<T>(a: set<T>, b: set<T>)
    requires a <= b
    ensures |a| <= |b|
  {
    if a != {} {
      var x :| x in a;
      SubsetSize(a - {x}, b - {x});
    }
  }

  ghost function TotalsOf(t: Tree, listing: Listing, p: Path): Totals
    decreases |Descendants(t, p)|, 1, 0
  {
    if p !in t then NONE
    else if t[p].File? then Totals(|t[p].content|, 1, 0)
    else Totals(0, 0, 1).Plus(TotalsBelow(t, listing, p, listing(p)))
  }

  ghost function TotalsBelow(t: Tree, listing: Listing, d: Path, names: seq<string>): Totals
    decreases |Descendants(t, d)|, 0, |names|
  {
    if names == [] then NONE
    else
      var rest := TotalsBelow(t, listing, d, names[..|names| - 1]);
      var name := names[|names| - 1];
      if Temporary(name) || d + [name] !in t then rest
      else
        ChildHasFewerDescendants(t, d, name);
        rest.Plus(TotalsOf(t, listing, d + [name]))
  }

  function Measure(e: Entry): Totals {
    if e.isDirectory then Totals(0, 0, 1) else Totals(e.size, 1, 0)
  }

  function Sum(entries: seq<Entry>): Totals {
    if entries == [] then NONE else Sum(entries[..|entries| - 1]).Plus(Measure(entries[|entries| - 1]))
  }

  lemma {:induction false} SumAppend(a: seq<Entry>, b: seq<Entry>)
    ensures Sum(a + b) == Sum(a).Plus(Sum(b))
  {
    hide Measure;
    if b == [] {
      assert a + b == a;
    } else {
      var front, last := b[..|b| - 1], b[|b| - 1];
      assert a + b == (a + front) + [last];
      SumSnoc(a + front, last);
      SumAppend(a, front);
    }
  }

  lemma SumSnoc(a: seq<Entry>, e: Entry)
    ensures Sum([]) == NONE
    ensures Sum(a + [e]) == Sum(a).Plus(Measure(e))
  {
    assert (a + [e])[..|a|] == a;
  }

  // ----- one directory -----

  function Yielded(t: Tree, target: Path, d: Path, names: seq<string>): seq<Entry>
    requires |target| > 0 && target <= d
  {
    if names == [] then []
    else
      var before := Yielded(t, target, d, names[..|names| - 1]);
      var child := d + [names[|names| - 1]];
      if Temporary(names[|names| - 1]) || child !in t then before else before + [EntryFor(t, target, child)]
  }

  function ChildDirectories(t: Tree, d: Path, names: seq<string>): seq<Path> {
    if names == [] then []
    else
      var before := ChildDirectories(t, d, names[..|names| - 1]);
      var child := d + [names[|names| - 1]];
      if Temporary(names[|names| - 1]) || child !in t || t[child].File? then before else before + [child]
  }

  function Reversed(paths: seq<Path>): (r: seq<Path>)
    ensures |r| == |paths| && forall i :: 0 <= i < |r| ==> r[i] == paths[|paths| - 1 - i]
  {
    seq(|paths|, i requires 0 <= i < |paths| => paths[|paths| - 1 - i])
  }

  lemma ReversedMembers(paths: seq<Path>)
    ensures forall p :: p in Reversed(paths) <==> p in paths
  {
    var r := Reversed(paths);
    forall p | p in paths ensures p in r {
      var i :| 0 <= i < |paths| && paths[i] == p;
      assert r[|paths| - 1 - i] == p;
    }
  }

  predicate Distinct<T(==)>(s: seq<T>) {
    forall i, j :: 0 <= i < j < |s| ==> s[i] != s[j]
  }

  /** The children of a directory are yielded once each, and its child directories are the yielded directories. */
  lemma {:induction false} YieldedChildren(t: Tree, target: Path, d: Path, names: seq<string>)
    requires |target| > 0 && target <= d && Distinct(names)
    ensures forall i :: 0 <= i < |Yielded(t, target, d, names)| ==>
      var e := Yielded(t, target, d, names)[i];
      |e.path| == |d| + 1 && d < e.path && e.path in t && Name(e.path) in names && !Temporary(Name(e.path))
      && e == EntryFor(t, target, e.path)
    ensures forall i, j :: 0 <= i < j < |Yielded(t, target, d, names)| ==>
      Yielded(t, target, d, names)[i].path != Yielded(t, target, d, names)[j].path
    ensures forall name :: name in names && !Temporary(name) && d + [name] in t ==>
      exists i :: 0 <= i < |Yielded(t, target, d, names)| && Yielded(t, target, d, names)[i].path == d + [name]
  {
    if names != [] {
      var before := names[..|names| - 1];
      var last := names[|names| - 1];
      YieldedChildren(t, target, d, before);
      assert forall name :: name in names ==> name in before || name == last;
      assert last !in before;
      assert Name(d + [last]) == last;
      var y := Yielded(t, target, d, names);
      if !Temporary(last) && d + [last] in t {
        assert y[|y| - 1].path == d + [last];
        assert d < d + [last];
      }
      forall name | name in names && !Temporary(name) && d + [name] in t
        ensures exists i :: 0 <= i < |y| && y[i].path == d + [name]
      {
        if name in before {
          var i :| 0 <= i < |Yielded(t, target, d, before)| && Yielded(t, target, d, before)[i].path == d + [name];
          assert y[i].path == d + [name];
        }
      }
    }
  }

  lemma {:induction false} ChildDirectoriesAreYielded(t: Tree, target: Path, d: Path, names: seq<string>)
    requires |target| > 0 && target <= d && Distinct(names)
    ensures Distinct(ChildDirectories(t, d, names))
    ensures forall c :: c in ChildDirectories(t, d, names) <==>
      Has(Yielded(t, target, d, names), c) && c in t && t[c] == Dir
  {
    hide EntryFor, Temporary, Yielded, ChildDirectories, Has;
    if names == [] {
      NothingYielded(t, target, d);
    } else {
      var before, last := names[..|names| - 1], names[|names| - 1];
      assert before + [last] == names && last !in before;
      var child, yielded := d + [last], Yielded(t, target, d, before);
      ChildDirectoriesAreYielded(t, target, d, before);
      YieldedSnoc(t, target, d, before, last);
      NotYetYielded(t, target, d, before, last);
      if child in t {
        HasAppend(yielded, [EntryFor(t, target, child)]);
        HasOne(t, target, child);
      }
    }
  }

  lemma NothingYielded(t: Tree, target: Path, d: Path)
    requires |target| > 0 && target <= d
    ensures ChildDirectories(t, d, []) == [] && forall p :: !Has(Yielded(t, target, d, []), p)
  { }

  /** One more name of the listing. */
  lemma YieldedSnoc(t: Tree, target: Path, d: Path, before: seq<string>, name: string)
    requires |target| > 0 && target <= d
    ensures var child := d + [name];
      var skip := Temporary(name) || child !in t;
      && Yielded(t, target, d, before + [name])
         == (if skip then Yielded(t, target, d, before)
           else Yielded(t, target, d, before) + [EntryFor(t, target, child)])
      && ChildDirectories(t, d, before + [name])
         == (if skip || t[child].File? then ChildDirectories(t, d, before)
           else ChildDirectories(t, d, before) + [child])
  {
    hide EntryFor, Temporary;
    var names := before + [name];
    assert names[..|names| - 1] == before && names[|names| - 1] == name;
  }

  lemma NotYetYielded(t: Tree, target: Path, d: Path, before: seq<string>, last: string)
    requires |target| > 0 && target <= d && Distinct(before) && last !in before
    ensures !Has(Yielded(t, target, d, before), d + [last])
  {
    hide EntryFor, Temporary, Yielded;
    YieldedChildren(t, target, d, before);
    assert Name(d + [last]) == last;
  }

  lemma HasOne(t: Tree, target: Path, child: Path)
    requires |target| > 0 && target <= child && child in t
    ensures forall p :: Has([EntryFor(t, target, child)], p) <==> p == child
  {
    var one := [EntryFor(t, target, child)];
    assert one[0].path == child;
  }

  predicate Has(entries: seq<Entry>, p: Path) {
    exists i :: 0 <= i < |entries| && entries[i].path == p
  }

  lemma HasAppend(a: seq<Entry>, b: seq<Entry>)
    ensures forall p :: Has(a + b, p) <==> Has(a, p) || Has(b, p)
  {
    forall p ensures Has(a + b, p) <==> Has(a, p) || Has(b, p) {
      if i :| 0 <= i < |a| && a[i].path == p { assert (a + b)[i].path == p; }
      if i :| 0 <= i < |b| && b[i].path == p { assert (a + b)[|a| + i].path == p; }
    }
  }

  // ----- the walk -----

  ghost predicate Described(t: Tree, target: Path, entries: seq<Entry>) {
    |target| > 0 && forall i :: 0 <= i < |entries| ==>
      Selected(t, target, entries[i].path) && entries[i] == EntryFor(t, target, entries[i].path)
  }

  ghost predicate DistinctPaths(entries: seq<Entry>) {
    forall i, j :: 0 <= i < j < |entries| ==> entries[i].path != entries[j].path
  }

  /** Every directory comes before its contents. */
  ghost predicate ParentsFirst(target: Path, entries: seq<Entry>) {
    forall i :: 0 <= i < |entries| && entries[i].path != target ==>
      |entries[i].path| > 0 && Has(entries[..i], Parent(entries[i].path))
  }

  /** Pending directories were yielded, and none of their children was. */
  ghost predicate Stacked(t: Tree, target: Path, entries: seq<Entry>, pending: seq<Path>) {
    && Distinct(pending)
    && (forall d :: d in pending ==> Has(entries, d) && d in t && t[d] == Dir)
    && (forall i :: 0 <= i < |entries| && entries[i].path != target && |entries[i].path| > 0 ==>
         Parent(entries[i].path) !in pending)
  }

  ghost predicate Closed(t: Tree, target: Path, entries: seq<Entry>, pending: seq<Path>) {
    forall p :: Selected(t, target, p) && |p| > |target| && Has(entries, Parent(p)) && Parent(p) !in pending ==>
      Has(entries, p)
  }

  ghost predicate Walking(t: Tree, target: Path, entries: seq<Entry>, pending: seq<Path>) {
    && Described(t, target, entries) && DistinctPaths(entries) && ParentsFirst(target, entries)
    && Stacked(t, target, entries, pending) && Closed(t, target, entries, pending)
  }

  /** What the loop body makes of the entries and of the stack. */
  ghost predicate Expands(t: Tree, listing: Listing, target: Path, entries: seq<Entry>, pending: seq<Path>,
                          entries': seq<Entry>, pending': seq<Path>)
  {
    && |pending| > 0 && |target| > 0
    && var d := pending[|pending| - 1];
    && target <= d
    && entries' == entries + Yielded(t, target, d, listing(d))
    && pending' == pending[..|pending| - 1] + Reversed(ChildDirectories(t, d, listing(d)))
  }

  /** The facts about the new entries that the clauses below need. */
  lemma NewEntries(t: Tree, listing: Listing, target: Path, entries: seq<Entry>, pending: seq<Path>)
    requires WellFormed(t) && Lists(t, listing) && Walking(t, target, entries, pending) && |pending| > 0
    ensures var d := pending[|pending| - 1];
      && Selected(t, target, d) && t[d] == Dir && d !in pending[..|pending| - 1]
      && (forall p :: p in pending <==> p == d || p in pending[..|pending| - 1])
      && (forall i :: 0 <= i < |Yielded(t, target, d, listing(d))| ==>
            var e := Yielded(t, target, d, listing(d))[i];
            && |e.path| == |d| + 1 && Parent(e.path) == d && Selected(t, target, e.path)
            && e == EntryFor(t, target, e.path)
            && !Has(entries, e.path))
      && DistinctPaths(Yielded(t, target, d, listing(d)))
  {
    hide EntryFor, Lists, Closed, ParentsFirst, WellFormed;
    var d := pending[|pending| - 1];
    assert d in pending;
    var k :| 0 <= k < |entries| && entries[k].path == d;
    assert Distinct(listing(d)) by { ListedOnce(t, listing, d); }
    YieldedChildren(t, target, d, listing(d));
    var y := Yielded(t, target, d, listing(d));
    forall i | 0 <= i < |y|
      ensures Parent(y[i].path) == d && Selected(t, target, y[i].path) && !Has(entries, y[i].path)
    {
      assert y[i].path[..|d|] == d;
      assert forall j :: 0 <= j < |entries| && entries[j].path == y[i].path ==> Parent(entries[j].path) !in pending;
    }
  }

  lemma ListedOnce(t: Tree, listing: Listing, d: Path)
    requires Lists(t, listing) && d in t && t[d] == Dir
    ensures Distinct(listing(d)) && forall name :: name in listing(d) <==> d + [name] in t
  { }

  /** The loop body keeps the invariant. */
  lemma WalkStep(t: Tree, listing: Listing, target: Path, entries: seq<Entry>, pending: seq<Path>,
                 entries': seq<Entry>, pending': seq<Path>)
    requires WellFormed(t) && Lists(t, listing) && Walking(t, target, entries, pending)
    requires Expands(t, listing, target, entries, pending, entries', pending')
    ensures Walking(t, target, entries', pending')
  {
    hide EntryFor, Lists, WellFormed, Yielded, ChildDirectories, Closed, ParentsFirst, Described, Stacked, Selected;
    NewEntries(t, listing, target, entries, pending);
    StepDescribed(t, listing, target, entries, pending, entries', pending');
    StepParentsFirst(t, listing, target, entries, pending, entries', pending');
    StepStacked(t, listing, target, entries, pending, entries', pending');
    StepClosed(t, listing, target, entries, pending, entries', pending');
  }

  lemma StepDescribed(t: Tree, listing: Listing, target: Path, entries: seq<Entry>, pending: seq<Path>,
                      entries': seq<Entry>, pending': seq<Path>)
    requires WellFormed(t) && Lists(t, listing) && Walking(t, target, entries, pending)
    requires Expands(t, listing, target, entries, pending, entries', pending')
    ensures Described(t, target, entries') && DistinctPaths(entries')
  {
    hide EntryFor, Lists, WellFormed, Yielded, ChildDirectories, Closed, ParentsFirst, Stacked, Selected;
    NewEntries(t, listing, target, entries, pending);
  }

  lemma StepParentsFirst(t: Tree, listing: Listing, target: Path, entries: seq<Entry>, pending: seq<Path>,
                         entries': seq<Entry>, pending': seq<Path>)
    requires WellFormed(t) && Lists(t, listing) && Walking(t, target, entries, pending)
    requires Expands(t, listing, target, entries, pending, entries', pending')
    ensures ParentsFirst(target, entries')
  {
    hide EntryFor, Lists, WellFormed, Yielded, ChildDirectories, Closed, Selected;
    NewEntries(t, listing, target, entries, pending);
    var d := pending[|pending| - 1];
    forall i | 0 <= i < |entries'| && entries'[i].path != target
      ensures |entries'[i].path| > 0 && Has(entries'[..i], Parent(entries'[i].path))
    {
      if i < |entries| {
        assert entries'[..i] == entries[..i];
      } else {
        assert d in pending;
        HasAppend(entries, entries'[|entries|..i]);
        assert entries'[..i] == entries + entries'[|entries|..i];
      }
    }
  }

  lemma ChildIsNew(t: Tree, target: Path, entries: seq<Entry>, c: Path)
    requires ParentsFirst(target, entries) && !Has(entries, c)
    ensures forall i :: 0 <= i < |entries| && entries[i].path != target && |entries[i].path| > 0 ==>
      Parent(entries[i].path) != c
  {
    forall i | 0 <= i < |entries| && entries[i].path != target && |entries[i].path| > 0
      ensures Has(entries, Parent(entries[i].path))
    {
      var j :| 0 <= j < i && entries[..i][j].path == Parent(entries[i].path);
      assert entries[j].path == Parent(entries[i].path);
    }
  }

  lemma StepStacked(t: Tree, listing: Listing, target: Path, entries: seq<Entry>, pending: seq<Path>,
                    entries': seq<Entry>, pending': seq<Path>)
    requires WellFormed(t) && Lists(t, listing) && Walking(t, target, entries, pending)
    requires Expands(t, listing, target, entries, pending, entries', pending')
    ensures Stacked(t, target, entries', pending')
  {
    hide EntryFor, Lists, WellFormed, Yielded, ChildDirectories, Closed, Selected, Described, Temporary, ParentsFirst,
      DistinctPaths,
      Reversed, Has, Distinct;
    NewEntries(t, listing, target, entries, pending);
    var d := pending[|pending| - 1];
    var rest := pending[..|pending| - 1];
    var y := Yielded(t, target, d, listing(d));
    var children := ChildDirectories(t, d, listing(d));
    ListedOnce(t, listing, d);
    ChildDirectoriesAreYielded(t, target, d, listing(d));
    HasAppend(entries, y);
    ReversedMembers(children);
    forall c | c in children ensures c !in pending && !Has(entries, c) && |c| == |d| + 1 {
      YieldedIsNew(entries, y, d, c);
      assert c in pending ==> Has(entries, c);
    }
    DistinctStack(pending, children);
    forall c, i | c in pending' && 0 <= i < |entries'| && entries'[i].path != target && |entries'[i].path| > 0
      ensures Parent(entries'[i].path) != c
    {
      if i < |entries| {
        if c in children { ChildIsNew(t, target, entries, c); }
      } else {
        assert entries'[i] == y[i - |entries|];
      }
    }
  }

  lemma YieldedIsNew(entries: seq<Entry>, y: seq<Entry>, d: Path, c: Path)
    requires Has(y, c) && forall i :: 0 <= i < |y| ==> |y[i].path| == |d| + 1 && !Has(entries, y[i].path)
    ensures |c| == |d| + 1 && !Has(entries, c)
  { }

  lemma DistinctStack(pending: seq<Path>, children: seq<Path>)
    requires |pending| > 0 && Distinct(pending) && Distinct(children)
    requires forall c :: c in children ==> c !in pending
    ensures Distinct(pending[..|pending| - 1] + Reversed(children))
  {
    ReversedMembers(children);
    var r := Reversed(children);
    forall i, j | 0 <= i < j < |r| ensures r[i] != r[j] {
      assert r[i] == children[|children| - 1 - i] && r[j] == children[|children| - 1 - j];
    }
    forall j | 0 <= j < |r| ensures r[j] !in pending { assert r[j] in children; }
  }

  lemma ChildIsYielded(t: Tree, target: Path, d: Path, names: seq<string>, p: Path)
    requires |target| > 0 && target <= d && Distinct(names)
    requires p in t && |p| > 0 && Parent(p) == d && Name(p) in names && !Temporary(Name(p))
    ensures Has(Yielded(t, target, d, names), p)
  {
    hide EntryFor, Yielded, Temporary;
    YieldedChildren(t, target, d, names);
    assert p == d + [Name(p)];
  }

  lemma StepClosed(t: Tree, listing: Listing, target: Path, entries: seq<Entry>, pending: seq<Path>,
                   entries': seq<Entry>, pending': seq<Path>)
    requires WellFormed(t) && Lists(t, listing) && Walking(t, target, entries, pending)
    requires Expands(t, listing, target, entries, pending, entries', pending')
    ensures Closed(t, target, entries', pending')
  {
    hide Expands, Walking, Lists, WellFormed, Selected, Has;
    forall p | Selected(t, target, p) && |p| > |target| && Has(entries', Parent(p)) && Parent(p) !in pending'
      ensures Has(entries', p)
    {
      StepClosedAt(t, listing, target, entries, pending, entries', pending', p);
    }
  }

  /** A new entry that is a directory is on the new stack. */
  lemma NewDirectoryIsPending(t: Tree, target: Path, d: Path, names: seq<string>, rest: seq<Path>, q: Path)
    requires |target| > 0 && target <= d && Distinct(names)
    requires Has(Yielded(t, target, d, names), q) && q in t && t[q] == Dir
    ensures q in rest + Reversed(ChildDirectories(t, d, names))
  {
    hide EntryFor, Yielded, ChildDirectories, Has;
    ChildDirectoriesAreYielded(t, target, d, names);
    ReversedMembers(ChildDirectories(t, d, names));
  }

  lemma StepClosedAt(t: Tree, listing: Listing, target: Path, entries: seq<Entry>, pending: seq<Path>,
                     entries': seq<Entry>, pending': seq<Path>, p: Path)
    requires WellFormed(t) && Lists(t, listing) && Walking(t, target, entries, pending)
    requires Expands(t, listing, target, entries, pending, entries', pending')
    requires Selected(t, target, p) && |p| > |target| && Has(entries', Parent(p)) && Parent(p) !in pending'
    ensures Has(entries', p)
  {
    hide EntryFor, Lists, Yielded, ChildDirectories, Described, ParentsFirst, Stacked, DistinctPaths, Has, WellFormed,
      Selected, Reversed;
    var d := pending[|pending| - 1];
    var y := Yielded(t, target, d, listing(d));
    PendingIsDirectory(t, target, entries, pending);
    ListedOnce(t, listing, d);
    HasAppend(entries, y);
    SelectedChild(t, target, p);
    if Parent(p) == d {
      assert p == d + [Name(p)];
      ChildIsYielded(t, target, d, listing(d), p);
    } else if Has(y, Parent(p)) {
      NewDirectoryIsPending(t, target, d, listing(d), pending[..|pending| - 1], Parent(p));
    }
  }

  lemma PendingIsDirectory(t: Tree, target: Path, entries: seq<Entry>, pending: seq<Path>)
    requires Walking(t, target, entries, pending) && |pending| > 0
    ensures var d := pending[|pending| - 1]; d in t && t[d] == Dir
    ensures forall p :: p in pending <==> p == pending[|pending| - 1] || p in pending[..|pending| - 1]
  {
    hide Described, ParentsFirst, Closed, Has;
    assert pending[|pending| - 1] in pending;
  }

  lemma SelectedChild(t: Tree, target: Path, p: Path)
    requires WellFormed(t) && Selected(t, target, p) && |p| > |target| > 0
    ensures p in t && Parent(p) in t && t[Parent(p)] == Dir && !Temporary(Name(p)) && Selected(t, target, Parent(p))
  {
    assert target <= Parent(p);
  }

  /** When the stack is empty, everything selected was yielded. */
  lemma {:induction false} WalkComplete(t: Tree, target: Path, entries: seq<Entry>, p: Path)
    requires WellFormed(t) && Walking(t, target, entries, []) && Has(entries, target) && Selected(t, target, p)
    ensures Has(entries, p)
    decreases |p|
  {
    if |p| > |target| {
      assert target <= Parent(p);
      WalkComplete(t, target, entries, Parent(p));
    } else {
      assert p == target;
    }
  }

  lemma {:induction false} EntriesBounded(t: Tree, target: Path, entries: seq<Entry>)
    requires Described(t, target, entries) && DistinctPaths(entries)
    ensures |entries| <= |t.Keys|
  {
    PathsBounded(entries, t.Keys);
  }

  lemma {:induction false} PathsBounded(entries: seq<Entry>, keys: set<Path>)
    requires DistinctPaths(entries) && forall i :: 0 <= i < |entries| ==> entries[i].path in keys
    ensures |entries| <= |keys|
  {
    if entries != [] {
      var last := entries[|entries| - 1];
      PathsBounded(entries[..|entries| - 1], keys - {last.path});
    }
  }

  // ----- totals -----

  ghost function Outstanding(t: Tree, listing: Listing, pending: seq<Path>): Totals {
    if pending == [] then NONE
    else
      var d := pending[|pending| - 1];
      Outstanding(t, listing, pending[..|pending| - 1]).Plus(TotalsBelow(t, listing, d, listing(d)))
  }

  lemma OutstandingSnoc(t: Tree, listing: Listing, a: seq<Path>, d: Path)
    ensures Outstanding(t, listing, []) == NONE
    ensures Outstanding(t, listing, a + [d]) == Outstanding(t, listing, a).Plus(TotalsBelow(t, listing, d, listing(d)))
    ensures Outstanding(t, listing, [d]) == TotalsBelow(t, listing, d, listing(d))
  {
    hide TotalsBelow;
    assert (a + [d])[..|a|] == a && (a + [d])[|a|] == d;
    assert [d][..0] == [];
  }

  lemma {:induction false} OutstandingAppend(t: Tree, listing: Listing, a: seq<Path>, b: seq<Path>)
    ensures Outstanding(t, listing, a + b) == Outstanding(t, listing, a).Plus(Outstanding(t, listing, b))
  {
    hide TotalsBelow, Outstanding;
    if b == [] {
      OutstandingSnoc(t, listing, a, []);
      assert a + b == a;
    } else {
      var front, last := b[..|b| - 1], b[|b| - 1];
      assert a + b == (a + front) + [last] && b == front + [last];
      OutstandingSnoc(t, listing, a + front, last);
      OutstandingSnoc(t, listing, front, last);
      OutstandingAppend(t, listing, a, front);
    }
  }

  lemma {:induction false} OutstandingReversed(t: Tree, listing: Listing, a: seq<Path>)
    ensures Outstanding(t, listing, Reversed(a)) == Outstanding(t, listing, a)
  {
    hide TotalsBelow, Outstanding;
    if a == [] {
      assert Reversed(a) == a;
    } else {
      var front, last := a[..|a| - 1], a[|a| - 1];
      assert Reversed(a) == [last] + Reversed(front) && a == front + [last];
      OutstandingAppend(t, listing, [last], Reversed(front));
      OutstandingReversed(t, listing, front);
      OutstandingSnoc(t, listing, front, last);
    }
  }

  /** One more scanned name. */
  lemma ScanOne(t: Tree, listing: Listing, target: Path, d: Path, before: seq<string>, name: string)
    requires |target| > 0 && target <= d
    ensures var child := d + [name];
      var skip := Temporary(name) || child !in t;
      && Yielded(t, target, d, before + [name])
         == (if skip then Yielded(t, target, d, before)
           else Yielded(t, target, d, before) + [EntryFor(t, target, child)])
      && ChildDirectories(t, d, before + [name])
         == (if skip || t[child].File? then ChildDirectories(t, d, before)
           else ChildDirectories(t, d, before) + [child])
      && TotalsBelow(t, listing, d, before + [name])
         == (if skip then TotalsBelow(t, listing, d, before)
           else TotalsBelow(t, listing, d, before).Plus(TotalsOf(t, listing, child)))
  {
    hide EntryFor, TotalsOf, Yielded, ChildDirectories;
    YieldedSnoc(t, target, d, before, name);
    var names := before + [name];
    assert names[..|names| - 1] == before && names[|names| - 1] == name;
  }

  lemma Rearranged(a: Totals, o: Totals, m: Totals, b: Totals)
    ensures a.Plus(o).Plus(m.Plus(b)) == a.Plus(m).Plus(o.Plus(b))
    ensures a.Plus(o).Plus(m.Plus(NONE)) == a.Plus(m).Plus(o)
  { }

  /** What is below a directory is what it yields and what its child directories still owe. */
  lemma {:induction false} BelowSplits(t: Tree, listing: Listing, target: Path, d: Path, names: seq<string>)
    requires |target| > 0 && target <= d
    ensures TotalsBelow(t, listing, d, names)
      == Sum(Yielded(t, target, d, names)).Plus(Outstanding(t, listing, ChildDirectories(t, d, names)))
  {
    hide *;
    if names == [] {
      NothingBelowYet(t, listing, target, d);
    } else {
      BelowSplits(t, listing, target, d, names[..|names| - 1]);
      BelowSplitsStep(t, listing, target, d, names[..|names| - 1], names[|names| - 1]);
      assert names == names[..|names| - 1] + [names[|names| - 1]];
    }
  }

  lemma NothingBelowYet(t: Tree, listing: Listing, target: Path, d: Path)
    requires |target| > 0 && target <= d
    ensures TotalsBelow(t, listing, d, [])
      == Sum(Yielded(t, target, d, [])).Plus(Outstanding(t, listing, ChildDirectories(t, d, [])))
  {
    hide *;
    NoneBelow(t, listing, d);
    NoneYielded(t, target, d);
    SumNil();
    OutstandingNil(t, listing);
    PlusNone(Sum(Yielded(t, target, d, [])));
  }

  lemma SumNil()
    ensures Sum([]) == NONE
  { }

  lemma OutstandingNil(t: Tree, listing: Listing)
    ensures Outstanding(t, listing, []) == NONE
  {
    hide TotalsBelow;
  }

  lemma PlusNone(a: Totals)
    ensures a.Plus(NONE) == a
  { }

  lemma NoneBelow(t: Tree, listing: Listing, d: Path)
    ensures TotalsBelow(t, listing, d, []) == NONE
  {
    hide TotalsOf, Descendants;
  }

  lemma NoneYielded(t: Tree, target: Path, d: Path)
    requires |target| > 0 && target <= d
    ensures Yielded(t, target, d, []) == [] && ChildDirectories(t, d, []) == []
  {
    hide EntryFor;
  }

  lemma BelowSplitsStep(t: Tree, listing: Listing, target: Path, d: Path, before: seq<string>, name: string)
    requires |target| > 0 && target <= d
    requires TotalsBelow(t, listing, d, before)
      == Sum(Yielded(t, target, d, before)).Plus(Outstanding(t, listing, ChildDirectories(t, d, before)))
    ensures TotalsBelow(t, listing, d, before + [name])
      == Sum(Yielded(t, target, d, before + [name])).Plus(Outstanding(t, listing,
        ChildDirectories(t, d, before + [name])))
  {
    hide *;
    ScanOne(t, listing, target, d, before, name);
    var child := d + [name];
    if !Temporary(name) && child in t {
      var yielded, directories := Yielded(t, target, d, before), ChildDirectories(t, d, before);
      var e := EntryFor(t, target, child);
      ChildSplits(t, listing, target, child);
      SumSnoc(yielded, e);
      OutstandingSnoc(t, listing, directories, child);
      Rearranged(Sum(yielded), Outstanding(t, listing, directories), Measure(e),
        TotalsBelow(t, listing, child, listing(child)));
    }
  }

  lemma ChildSplits(t: Tree, listing: Listing, target: Path, child: Path)
    requires |target| > 0 && target <= child && child in t
    ensures TotalsOf(t, listing, child)
      == Measure(EntryFor(t, target, child)).Plus(if t[child] == Dir then TotalsBelow(t, listing, child, listing(child))
        else NONE)
  {
    hide TotalsBelow;
  }

  /** The loop body keeps the sum of what was yielded and what is outstanding. */
  lemma TotalsStep(t: Tree, listing: Listing, target: Path, entries: seq<Entry>, pending: seq<Path>,
                   entries': seq<Entry>, pending': seq<Path>)
    requires Expands(t, listing, target, entries, pending, entries', pending')
    ensures Sum(entries').Plus(Outstanding(t, listing, pending')) == Sum(entries).Plus(Outstanding(t, listing, pending))
  {
    hide TotalsBelow, Yielded, ChildDirectories, Reversed;
    var d := pending[|pending| - 1];
    var children := ChildDirectories(t, d, listing(d));
    SumAppend(entries, Yielded(t, target, d, listing(d)));
    OutstandingAppend(t, listing, pending[..|pending| - 1], Reversed(children));
    OutstandingReversed(t, listing, children);
    BelowSplits(t, listing, target, d, listing(d));
  }

  lemma FileAlone(t: Tree, listing: Listing, target: Path, entries: seq<Entry>)
    requires WellFormed(t) && target in t && t[target].File? && entries == [EntryFor(t, target, target)]
    ensures Described(t, target, entries) && DistinctPaths(entries) && ParentsFirst(target, entries)
    ensures forall p :: Selected(t, target, p) <==> Has(entries, p)
    ensures Sum(entries) == TotalsOf(t, listing, target)
  {
    hide TotalsBelow;
    assert [] + entries == entries;
    SumSnoc([], entries[0]);
    assert entries[0].path == target;
    forall p ensures Selected(t, target, p) <==> Has(entries, p) {
      if Selected(t, target, p) && p != target { NothingBelow(t, target, p); }
    }
  }

  lemma StartTotals(t: Tree, listing: Listing, target: Path, e: Entry)
    requires |target| > 0 && target in t && t[target] == Dir && e == EntryFor(t, target, target)
    ensures Sum([e]).Plus(Outstanding(t, listing, [target])) == TotalsOf(t, listing, target)
  {
    hide TotalsOf, TotalsBelow, Outstanding, Sum, Join, EntryFor;
    assert [] + [e] == [e];
    SumSnoc([], e);
    OutstandingSnoc(t, listing, [], target);
    DirectoryTotals(t, listing, target);
    DirectoryMeasure(t, target);
  }

  lemma DirectoryTotals(t: Tree, listing: Listing, d: Path)
    requires d in t && t[d] == Dir
    ensures TotalsOf(t, listing, d) == Totals(0, 0, 1).Plus(TotalsBelow(t, listing, d, listing(d)))
  {
    hide TotalsBelow;
  }

  lemma DirectoryMeasure(t: Tree, d: Path)
    requires |d| > 0 && d in t && t[d] == Dir
    ensures NONE.Plus(Measure(EntryFor(t, d, d))) == Totals(0, 0, 1)
  {
    hide Join;
  }

  lemma TargetNotEmpty(t: Tree, target: Path)
    requires WellFormed(t) && target in t
    ensures |target| > 0
  { }

  lemma OneEntry(t: Tree, target: Path, entries: seq<Entry>)
    requires |target| > 0 && target in t && t[target] == Dir && entries == [EntryFor(t, target, target)]
    ensures Walking(t, target, entries, [target]) && Has(entries, target) && |entries| <= |t.Keys|
  {
    hide Join;
    assert Described(t, target, entries) && DistinctPaths(entries);
    EntriesBounded(t, target, entries);
    assert entries[0].path == target;
    assert forall d :: d in [target] ==> d == target;
  }

  lemma PendingIsSelected(t: Tree, target: Path, entries: seq<Entry>, pending: seq<Path>)
    requires Walking(t, target, entries, pending) && |pending| > 0
    ensures var d := pending[|pending| - 1]; d in t && t[d] == Dir && target <= d
  {
    hide ParentsFirst, Closed, EntryFor;
    assert pending[|pending| - 1] in pending;
  }

  // ----- the order of the entries -----

  /**
   * The order in which the entries below a directory come: first all its children, in the order of the scan,
   * and then what is below each child directory, one after the other.
   */
  ghost function OrderBelow(t: Tree, listing: Listing, target: Path, d: Path): seq<Entry>
    requires |target| > 0 && target <= d
    decreases |Descendants(t, d)|, 1, 0
  {
    Yielded(t, target, d, listing(d)) + OrderDeeper(t, listing, target, d, listing(d))
  }

  /** What is below the child directories with these names. */
  ghost function OrderDeeper(t: Tree, listing: Listing, target: Path, d: Path, names: seq<string>): seq<Entry>
    requires |target| > 0 && target <= d
    decreases |Descendants(t, d)|, 0, |names|
  {
    if names == [] then []
    else
      var before := OrderDeeper(t, listing, target, d, names[..|names| - 1]);
      var name := names[|names| - 1];
      if Temporary(name) || d + [name] !in t || t[d + [name]].File? then before
      else
        ChildHasFewerDescendants(t, d, name);
        before + OrderBelow(t, listing, target, d + [name])
  }

  predicate Under(target: Path, pending: seq<Path>) {
    forall i :: 0 <= i < |pending| ==> target <= pending[i]
  }

  /** What a stack of directories still has to yield, from its top. */
  ghost function OrderOfStack(t: Tree, listing: Listing, target: Path, pending: seq<Path>): seq<Entry>
    requires |target| > 0 && Under(target, pending)
  {
    if pending == [] then []
    else
      var n := |pending| - 1;
      OrderBelow(t, listing, target, pending[n]) + OrderOfStack(t, listing, target, pending[..n])
  }

  lemma StackSnoc(t: Tree, listing: Listing, target: Path, pending: seq<Path>, d: Path)
    requires |target| > 0 && target <= d && Under(target, pending)
    ensures OrderOfStack(t, listing, target, pending + [d])
      == OrderBelow(t, listing, target, d) + OrderOfStack(t, listing, target, pending)
  {
    hide OrderBelow;
    assert (pending + [d])[..|pending|] == pending;
  }

  /** The child directories, pushed in reverse, are popped in the order of the scan. */
  lemma {:induction false} PushedChildren(t: Tree, listing: Listing, target: Path, d: Path, names: seq<string>,
    pending: seq<Path>)
    requires |target| > 0 && target <= d && Under(target, pending)
    ensures Under(target, pending + Reversed(ChildDirectories(t, d, names)))
    ensures OrderOfStack(t, listing, target, pending + Reversed(ChildDirectories(t, d, names)))
      == OrderDeeper(t, listing, target, d, names) + OrderOfStack(t, listing, target, pending)
  {
    hide OrderBelow, OrderOfStack, Descendants;
    if names == [] {
      assert pending + Reversed(ChildDirectories(t, d, names)) == pending;
      assert [] + OrderOfStack(t, listing, target, pending) == OrderOfStack(t, listing, target, pending);
    } else {
      var front, name := names[..|names| - 1], names[|names| - 1];
      var before, child := ChildDirectories(t, d, front), d + [name];
      if Temporary(name) || child !in t || t[child].File? {
        PushedChildren(t, listing, target, d, front, pending);
      } else {
        PushedChildren(t, listing, target, d, front, pending + [child]);
        StackSnoc(t, listing, target, pending, child);
        assert Reversed(before + [child]) == [child] + Reversed(before);
        assert pending + ([child] + Reversed(before)) == (pending + [child]) + Reversed(before);
        var deeper, below := OrderDeeper(t, listing, target, d, front), OrderBelow(t, listing, target, child);
        var rest := OrderOfStack(t, listing, target, pending);
        assert deeper + (below + rest) == (deeper + below) + rest;
      }
    }
  }

  /** The loop body keeps what was yielded followed by what the stack still has to yield. */
  lemma OrderStep(t: Tree, listing: Listing, target: Path, entries: seq<Entry>, pending: seq<Path>, d: Path)
    requires |target| > 0 && target <= d && Under(target, pending)
    ensures Under(target, pending + Reversed(ChildDirectories(t, d, listing(d))))
    ensures entries + OrderOfStack(t, listing, target, pending + [d])
      == (entries + Yielded(t, target, d, listing(d)))
         + OrderOfStack(t, listing, target, pending + Reversed(ChildDirectories(t, d, listing(d))))
  {
    hide OrderBelow, OrderDeeper, OrderOfStack, Yielded, ChildDirectories, Reversed, Under;
    PushedChildren(t, listing, target, d, listing(d), pending);
    UnderSnoc(target, pending, d);
    StackSnoc(t, listing, target, pending, d);
    OrderOfOne(t, listing, target, d);
    var yielded, deeper := Yielded(t, target, d, listing(d)), OrderDeeper(t, listing, target, d, listing(d));
    var rest := OrderOfStack(t, listing, target, pending);
    assert entries + ((yielded + deeper) + rest) == (entries + yielded) + (deeper + rest);
  }

  lemma UnderSnoc(target: Path, pending: seq<Path>, d: Path)
    requires Under(target, pending) && target <= d
    ensures Under(target, pending + [d])
  {
  }

  lemma OrderOfOne(t: Tree, listing: Listing, target: Path, d: Path)
    requires |target| > 0 && target <= d
    ensures OrderBelow(t, listing, target, d)
      == Yielded(t, target, d, listing(d)) + OrderDeeper(t, listing, target, d, listing(d))
  {
    hide OrderDeeper, Yielded, Descendants;
  }

  /** At the start everything is still on the stack, and at the end nothing. */
  lemma OrderEnds(t: Tree, listing: Listing, target: Path, entries: seq<Entry>)
    requires |target| > 0
    ensures OrderOfStack(t, listing, target, [target]) == OrderBelow(t, listing, target, target)
    ensures entries + OrderOfStack(t, listing, target, []) == entries
  {
    hide OrderBelow;
    var below := OrderBelow(t, listing, target, target);
    StackSnoc(t, listing, target, [], target);
    assert [] + [target] == [target] && below + [] == below;
  }

  // ----- the generator and the commands that use it -----

  /** The inner loop of the generator: one scanned directory. */
  method ScanDirectory(t: Tree, listing: Listing, target: Path, directory: Path)
    returns (entries: seq<Entry>, childDirectories: seq<Path>)
    requires Lists(t, listing) && directory in t && t[directory] == Dir && |target| > 0 && target <= directory
    ensures entries == Yielded(t, target, directory, listing(directory))
    ensures childDirectories == ChildDirectories(t, directory, listing(directory))
    ensures |childDirectories| <= |entries|
  {
    hide Yielded, ChildDirectories, EntryFor;
    var names := listing(directory);
    entries, childDirectories := [], [];
    NothingScanned(t, target, directory);
    for i := 0 to |names|
      invariant entries == Yielded(t, target, directory, names[..i])
      invariant childDirectories == ChildDirectories(t, directory, names[..i])
      invariant |childDirectories| <= |entries|
    {
      ScanOne(t, listing, target, directory, names[..i], names[i]);
      assert names[..i + 1] == names[..i] + [names[i]];
      if Temporary(names[i]) { continue; }
      assert names[i] in names;
      var path := directory + [names[i]];
      entries := entries + [EntryFor(t, target, path)];
      if t[path] == Dir { childDirectories := childDirectories + [path]; }
    }
    assert names[..|names|] == names;
  }

  lemma NothingScanned(t: Tree, target: Path, d: Path)
    requires |target| > 0 && target <= d
    ensures forall names: seq<string> ::
      Yielded(t, target, d, names[..0]) == []
      && ChildDirectories(t, d, names[..0]) == []
  {
    hide EntryFor;
  }

  /**
   * `_archive_entries`: yields each directory and file of the selection exactly once, each directory
   * before its contents, with sizes that add up to the recursive specification.
   */
  method ArchiveEntries(t: Tree, listing: Listing, target: Path) returns (entries: seq<Entry>)
    requires WellFormed(t) && Lists(t, listing) && target in t
    ensures Described(t, target, entries) && DistinctPaths(entries) && ParentsFirst(target, entries)
    ensures forall p :: Selected(t, target, p) <==> Has(entries, p)
    ensures Sum(entries) == TotalsOf(t, listing, target)
    ensures |target| > 0 && entries
      == [EntryFor(t, target, target)] + (if t[target] == Dir then OrderBelow(t, listing, target, target) else [])
  {
    hide TotalsBelow, TotalsOf, Lists, EntryFor, Yielded, ChildDirectories, Sum, Outstanding, Walking, WellFormed,
      Selected, Has, Reversed, OrderBelow, OrderOfStack;
    TargetNotEmpty(t, target);
    entries := [EntryFor(t, target, target)];
    if t[target].File? {
      FileAlone(t, listing, target, entries);
      return;
    }
    var pending := [target];
    OneEntry(t, target, entries);
    StartTotals(t, listing, target, entries[0]);
    OrderEnds(t, listing, target, entries);
    ghost var order := entries + OrderBelow(t, listing, target, target);
    while pending != []
      invariant Walking(t, target, entries, pending) && Has(entries, target)
      invariant Sum(entries).Plus(Outstanding(t, listing, pending)) == TotalsOf(t, listing, target)
      invariant |entries| <= |t.Keys|
      invariant Under(target, pending)
      invariant entries + OrderOfStack(t, listing, target, pending) == order
      decreases |t.Keys| + |pending| - |entries|
    {
      PendingIsSelected(t, target, entries, pending);
      ghost var entries0, pending0 := entries, pending;
      var directory := pending[|pending| - 1];
      pending := pending[..|pending| - 1];
      var yielded, childDirectories := ScanDirectory(t, listing, target, directory);
      entries := entries + yielded;
      pending := pending + Reversed(childDirectories);
      assert pending0 == pending0[..|pending0| - 1] + [directory];
      OrderStep(t, listing, target, entries0, pending0[..|pending0| - 1], directory);
      WalkStep(t, listing, target, entries0, pending0, entries, pending);
      TotalsStep(t, listing, target, entries0, pending0, entries, pending);
      WalkingBounded(t, target, entries, pending);
      HasAppend(entries0, yielded);
    }
    OrderEnds(t, listing, target, entries);
    WalkFinished(t, listing, target, entries);
  }

  lemma WalkingBounded(t: Tree, target: Path, entries: seq<Entry>, pending: seq<Path>)
    requires Walking(t, target, entries, pending)
    ensures |entries| <= |t.Keys|
  {
    hide Stacked, Closed, ParentsFirst;
    EntriesBounded(t, target, entries);
  }

  lemma WalkFinished(t: Tree, listing: Listing, target: Path, entries: seq<Entry>)
    requires WellFormed(t) && Walking(t, target, entries, []) && Has(entries, target)
    ensures Described(t, target, entries) && DistinctPaths(entries) && ParentsFirst(target, entries)
    ensures forall p :: Selected(t, target, p) <==> Has(entries, p)
    ensures Outstanding(t, listing, []) == NONE
  {
    hide EntryFor, Closed, ParentsFirst, Stacked;
    forall p ensures Selected(t, target, p) <==> Has(entries, p) {
      if Selected(t, target, p) { WalkComplete(t, target, entries, p); }
    }
  }

  /** The accumulation of one target's entries. */
  method AddEntries(before: Totals, entries: seq<Entry>) returns (totals: Totals)
    ensures totals == before.Plus(Sum(entries))
  {
    hide Sum;
    totals := before;
    SumNone();
    for k := 0 to |entries|
      invariant totals == before.Plus(Sum(entries[..k]))
    {
      assert entries[..k + 1] == entries[..k] + [entries[k]];
      SumSnoc(entries[..k], entries[k]);
      if entries[k].isDirectory {
        totals := totals.(directories := totals.directories + 1);
      } else {
        totals := totals.(files := totals.files + 1, size := totals.size + entries[k].size);
      }
    }
    assert entries[..|entries|] == entries;
  }

  /** `preview_archive`: the totals of all selected targets. */
  method PreviewArchive(t: Tree, listing: Listing, targets: seq<Path>) returns (totals: Totals)
    requires WellFormed(t) && Lists(t, listing) && forall target :: target in targets ==> target in t
    ensures totals == TotalsOfAll(t, listing, targets)
  {
    hide TotalsOf, Sum, Lists, WellFormed;
    totals := NONE;
    NoTargets(t, listing);
    for i := 0 to |targets|
      invariant totals == TotalsOfAll(t, listing, targets[..i])
    {
      var entries := ArchiveEntries(t, listing, targets[i]);
      totals := AddEntries(totals, entries);
      assert targets[..i + 1][..i] == targets[..i];
    }
    assert targets[..|targets|] == targets;
  }

  lemma SumNone()
    ensures forall entries: seq<Entry> :: Sum(entries[..0]) == NONE
  { }

  ghost function TotalsOfAll(t: Tree, listing: Listing, targets: seq<Path>): Totals {
    if targets == [] then NONE
    else TotalsOfAll(t, listing, targets[..|targets| - 1]).Plus(TotalsOf(t, listing, targets[|targets| - 1]))
  }

  lemma NoTargets(t: Tree, listing: Listing)
    ensures forall targets: seq<Path> :: TotalsOfAll(t, listing, targets[..0]) == NONE
  {
    hide TotalsOf;
  }

  // ----- which targets are archived, and under which names -----

  /** The path a selected value resolves to. */
  function Target(env: Environment, t: Tree, value: string): (r: Result<Path>)
    ensures r.Ok? ==> r.value in t && |r.value| > 0
  {
    hide Parts, ModeOf, ValidSegment;
    var (p, _) :- Require(env, t, value, Archive);
    Ok(p)
  }

  /** Every path resolves, and no two different ones share a name. */
  ghost predicate Archivable(env: Environment, t: Tree, paths: seq<string>) {
    && (forall i :: 0 <= i < |paths| ==> Target(env, t, paths[i]).Ok?)
    && (forall i, j :: 0 <= i < |paths| && 0 <= j < |paths| ==>
          Name(Target(env, t, paths[i]).value) == Name(Target(env, t, paths[j]).value) ==>
          Target(env, t, paths[i]) == Target(env, t, paths[j]))
  }

  /** The targets are what the paths resolve to, each once. */
  ghost predicate Resolved(env: Environment, t: Tree, paths: seq<string>, targets: seq<Path>) {
    && (forall i :: 0 <= i < |paths| ==> Target(env, t, paths[i]).Ok? && Target(env, t, paths[i]).value in targets)
    && (forall k :: 0 <= k < |targets| ==> exists i :: 0 <= i < |paths| && Target(env, t, paths[i]) == Ok(targets[k]))
    && (forall k :: 0 <= k < |targets| ==> |targets[k]| > 0)
    && (forall j, k :: 0 <= j < k < |targets| ==> Name(targets[j]) != Name(targets[k]))
  }

  /** `_archive_targets`: succeeds exactly on non-empty archivable selections; a repeated path is taken once. */
  method ArchiveTargets(env: Environment, t: Tree, paths: seq<string>) returns (r: Result<seq<Path>>)
    ensures r.Ok? <==> paths != [] && Archivable(env, t, paths)
    ensures r.Ok? ==> Resolved(env, t, paths, r.value)
  {
    hide Target;
    if paths == [] { return Err(SelectionRequired); }
    var targets: seq<Path> := [];
    var selected: set<Path>, names: set<string> := {}, {};
    for i := 0 to |paths|
      invariant Resolved(env, t, paths[..i], targets)
      invariant forall target :: target in selected <==> target in targets
      invariant forall name :: name in names <==>
        exists k :: 0 <= k < |targets| && |targets[k]| > 0 && Name(targets[k]) == name
    {
      var resolved := Target(env, t, paths[i]);
      if resolved.Err? { return Err(resolved.error); }
      var target := resolved.value;
      ResolvedMore(env, t, paths, i, targets);
      if target in selected { continue; }
      if Name(target) in names {
        var k :| 0 <= k < |targets| && |targets[k]| > 0 && Name(targets[k]) == Name(target);
        return Err(ArchiveNameConflict);
      }
      assert targets + [target] != [] && (targets + [target])[|targets|] == target;
      selected, names, targets := selected + {target}, names + {Name(target)}, targets + [target];
    }
    assert paths[..|paths|] == paths;
    ResolvedIsArchivable(env, t, paths, targets);
    return Ok(targets);
  }

  lemma ResolvedMore(env: Environment, t: Tree, paths: seq<string>, i: nat, targets: seq<Path>)
    requires i < |paths| && Resolved(env, t, paths[..i], targets) && Target(env, t, paths[i]).Ok?
    ensures Target(env, t, paths[i]).value in targets ==> Resolved(env, t, paths[..i + 1], targets)
    ensures (forall k :: 0 <= k < |targets| ==> Name(targets[k]) != Name(Target(env, t, paths[i]).value)) ==>
      Resolved(env, t, paths[..i + 1], targets + [Target(env, t, paths[i]).value])
    ensures Target(env, t, paths[i]).value !in targets ==>
      forall k :: 0 <= k < |targets| && Name(targets[k]) == Name(Target(env, t, paths[i]).value) ==>
        !Archivable(env, t, paths)
  {
    hide Target;
    var target := Target(env, t, paths[i]).value;
    forall k | 0 <= k < |targets| ensures exists j :: 0 <= j < i && Target(env, t, paths[j]) == Ok(targets[k]) {
      var j :| 0 <= j < |paths[..i]| && Target(env, t, paths[..i][j]) == Ok(targets[k]);
      assert Target(env, t, paths[j]) == Ok(targets[k]);
    }
    var longer := paths[..i + 1];
    forall k | 0 <= k < |targets| ensures exists j :: 0 <= j < |longer| && Target(env, t, longer[j]) == Ok(targets[k]) {
      var j :| 0 <= j < i && Target(env, t, paths[j]) == Ok(targets[k]);
      assert longer[j] == paths[j];
    }
    assert paths[..i + 1][i] == paths[i];
    assert forall j :: 0 <= j < i ==> paths[..i + 1][j] == paths[..i][j];
  }

  lemma ResolvedIsArchivable(env: Environment, t: Tree, paths: seq<string>, targets: seq<Path>)
    requires Resolved(env, t, paths, targets)
    ensures Archivable(env, t, paths)
  {
    hide Target;
    forall i, j | 0 <= i < |paths| && 0 <= j < |paths|
      && Name(Target(env, t, paths[i]).value) == Name(Target(env, t, paths[j]).value)
      ensures Target(env, t, paths[i]) == Target(env, t, paths[j])
    {
      var a :| 0 <= a < |targets| && targets[a] == Target(env, t, paths[i]).value;
      var b :| 0 <= b < |targets| && targets[b] == Target(env, t, paths[j]).value;
    }
  }

  /** Archive names are pairwise different across all selected targets. */
  lemma ArchiveNamesDiffer(t: Tree, a: Path, p: Path, b: Path, q: Path)
    requires PlainNames(t) && |a| > 0 && |b| > 0 && (Name(a) == Name(b) ==> a == b)
    requires p in t && a <= p && q in t && b <= q
    requires EntryFor(t, a, p).name == EntryFor(t, b, q).name
    ensures a == b && p == q
  {
    var s, r := [Name(a)] + p[|a|..], [Name(b)] + q[|b|..];
    ArchiveSegments(t, a, p);
    ArchiveSegments(t, b, q);
    PlainJoin(s);
    PlainJoin(r);
    SameName(Join(s, "/"), Join(r, "/"), t[p] == Dir, t[q] == Dir);
    JoinInjective(s, r, '/');
    assert a + p[|a|..] == p && b + q[|b|..] == q;
    assert s[0] == Name(a) && r[0] == Name(b) && s[1..] == p[|a|..] && r[1..] == q[|b|..];
  }

  /**
   * What a reader of the archive finds: a member's name ends in a slash exactly for a directory, its segments
   * are the target's name and the way from the target to the entry, and its size is that of the content.
   */
  lemma ArchiveNameMeans(t: Tree, target: Path, p: Path)
    requires PlainNames(t) && |target| > 0 && p in t && target <= p
    ensures var (e, segments) := (EntryFor(t, target, p), [Name(target)] + p[|target|..]);
      && e.path == p
      && (e.isDirectory <==> t[p] == Dir)
      && e.size == (if t[p] == Dir then 0 else |t[p].content|)
      && e.name != "" && (e.isDirectory <==> e.name[|e.name| - 1] == '/')
      && Split(e.name, '/') == if e.isDirectory then segments + [""] else segments
  {
    var segments := [Name(target)] + p[|target|..];
    ArchiveSegments(t, target, p);
    PlainJoin(segments);
    hide Split, Join;
    if t[p] == Dir {
      JoinAppend(segments, [""], "/");
      OneJoined();
      assert Join(segments, "/") + "/" + "" == Join(segments, "/") + "/" && ['/'] == "/";
      SplitOfJoin(segments + [""], '/');
    } else {
      SplitOfJoin(segments, '/');
    }
  }

  lemma OneJoined()
    ensures Join([""], "/") == ""
  {
  }

  lemma SameName(s: string, r: string, directory: bool, other: bool)
    requires s != "" && r != "" && s[|s| - 1] != '/' && r[|r| - 1] != '/'
    requires (if directory then s + "/" else s) == (if other then r + "/" else r)
    ensures s == r
  {
    assert directory ==> (s + "/")[..|s|] == s && (s + "/")[|s|] == '/';
    assert other ==> (r + "/")[..|r|] == r && (r + "/")[|r|] == '/';
  }

  lemma ArchiveSegments(t: Tree, target: Path, p: Path)
    requires PlainNames(t) && p in t && target <= p && |target| > 0
    ensures var s := [Name(target)] + p[|target|..];
      forall segment :: segment in s ==> segment != "" && '/' !in segment
  {
    assert Name(target) == p[|target| - 1] && p[|target| - 1] in p;
    assert forall segment :: segment in p[|target|..] ==> segment in p;
  }

  lemma {:induction false} PlainJoin(parts: seq<string>)
    requires |parts| > 0 && forall segment :: segment in parts ==> segment != "" && '/' !in segment
    ensures Join(parts, "/") != "" && Join(parts, "/")[|Join(parts, "/")| - 1] != '/'
  {
    assert parts[0] in parts;
    if |parts| > 1 {
      assert forall segment :: segment in parts[1..] ==> segment in parts;
      PlainJoin(parts[1..]);
    } else {
      assert parts[0][|parts[0]| - 1] in parts[0];
    }
  }
}
