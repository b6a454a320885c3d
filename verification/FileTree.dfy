/** A link-free, case-sensitive directory tree: the part of the disk below the data root. */
module FileTree {
  import opened Text

  /** Path segments from the virtual root "data" down to the entry. */
  type Path = seq<string>

  datatype Node = Dir | File(content: Bytes)

  type Tree = map<Path, Node>

  const ROOT: Path := ["data"]

  function Parent(p: Path): Path
    requires |p| > 0
  {
    p[..|p| - 1]
  }

  function Name(p: Path): string
    requires |p| > 0
  {
    p[|p| - 1]
  }

  /** Every entry hangs below the root and below a directory: no orphan, no cycle. */
  ghost predicate WellFormed(t: Tree) {
    && ROOT in t && t[ROOT] == Dir
    && forall p :: p in t ==> |p| > 0 && p[0] == "data" && (|p| > 1 ==> Parent(p) in t && t[Parent(p)] == Dir)
  }

  /** The empty data root is a tree. */
  lemma DataRootAlone()
    ensures WellFormed(map[["data"] := Dir])
  {
  }

  /** All proper ancestors of an entry are directories of the tree. */
  lemma {:induction false} AncestorsAreDirectories(t: Tree, p: Path, k: nat)
    requires WellFormed(t) && p in t
    requires 1 <= k < |p|
    ensures p[..k] in t && t[p[..k]] == Dir
    decreases |p|
  {
    if k < |p| - 1 {
      AncestorsAreDirectories(t, Parent(p), k);
      assert Parent(p)[..k] == p[..k];
    }
  }

  /** A vacant path has a vacant subtree, and a file has nothing below it. */
  lemma NothingBelow(t: Tree, p: Path, q: Path)
    requires WellFormed(t) && 1 <= |p| && p <= q
    requires if p in t then t[p].File? && p != q else true
    ensures q !in t
  {
    assert q[..|p|] == p;
    assert |q| == |p| ==> q == p;
    if q in t && |p| < |q| {
      AncestorsAreDirectories(t, q, |p|);
    }
  }

  /**
   * `Path.mkdir(parents=True, exist_ok=True)`: creates the missing directories from the outermost
   * inwards; None when a file is in the way, in which case nothing was created.
   */
  function MkdirParents(t: Tree, p: Path): (r: Option<Tree>)
    requires WellFormed(t) && |p| > 0 && p[0] == "data"
    ensures r.Some? ==> WellFormed(r.value) && p in r.value && r.value[p] == Dir
    ensures r.Some? ==> forall q :: q in t ==> q in r.value && r.value[q] == t[q]
    ensures r.Some? ==> forall q :: q in r.value && q !in t ==> q <= p && r.value[q] == Dir
    ensures r.None? <==> exists k :: 1 <= k <= |p| && p[..k] in t && t[p[..k]].File?
    decreases |p|
  {
    assert p[..|p|] == p;
    if p in t then
      if t[p] == Dir then
        assert forall k :: 1 <= k < |p| ==> p[..k] in t && t[p[..k]] == Dir by {
          forall k | 1 <= k < |p| ensures p[..k] in t && t[p[..k]] == Dir { AncestorsAreDirectories(t, p, k); }
        }
        Some(t)
      else None
    else
      assert |p| == 1 ==> p == ROOT;
      assert forall k :: 1 <= k < |p| ==> p[..k] == Parent(p)[..k];
      match MkdirParents(t, Parent(p))
      case None => None
      case Some(made) => Some(made[p := Dir])
  }

  /** Where an entry is after the subtree at `source` was moved to `destination`. */
  function Relocate(source: Path, destination: Path, p: Path): Path {
    if source <= p then destination + p[|source|..] else p
  }

  /** `os.rename` of a whole subtree to a vacant destination. */
  function MoveTree(t: Tree, source: Path, destination: Path): Tree {
    var keys := set p | p in t :: Relocate(source, destination, p);
    map q | q in keys :: Lookup(t, Relocate(destination, source, q))
  }

  function Lookup(t: Tree, p: Path): Node {
    if p in t then t[p] else Dir
  }

  /** Sibling paths: same parent, different names. */
  predicate Siblings(a: Path, b: Path) {
    |a| == |b| > 1 && Parent(a) == Parent(b) && Name(a) != Name(b)
  }

  /** A rename inside one directory: the source exists and the destination is vacant. */
  ghost predicate CanMove(t: Tree, source: Path, destination: Path) {
    WellFormed(t) && source in t && destination !in t && Siblings(source, destination)
  }

  lemma RelocateBack(source: Path, destination: Path, p: Path)
    requires Siblings(source, destination) && !(destination <= p)
    ensures Relocate(destination, source, Relocate(source, destination, p)) == p
    ensures destination <= Relocate(source, destination, p) <==> source <= p
  {
    if source <= p {
      var q := destination + p[|source|..];
      assert destination <= q && q[|destination|..] == p[|source|..];
      assert source + p[|source|..] == p;
    }
  }

  lemma MovedEntry(t: Tree, source: Path, destination: Path, p: Path)
    requires CanMove(t, source, destination) && p in t
    ensures !(destination <= p)
    ensures var q := Relocate(source, destination, p);
      q in MoveTree(t, source, destination) && MoveTree(t, source, destination)[q] == t[p]
  {
    if destination <= p { NothingBelow(t, destination, p); }
    RelocateBack(source, destination, p);
  }

  lemma MovedFrom(t: Tree, source: Path, destination: Path, q: Path)
    requires CanMove(t, source, destination) && q in MoveTree(t, source, destination)
    ensures var p := Relocate(destination, source, q);
      p in t && q == Relocate(source, destination, p) && MoveTree(t, source, destination)[q] == t[p]
  {
    var p :| p in t && q == Relocate(source, destination, p);
    MovedEntry(t, source, destination, p);
    RelocateBack(source, destination, p);
  }

  lemma MovedParent(t: Tree, source: Path, destination: Path, p: Path)
    requires CanMove(t, source, destination) && p in t && |p| > 1
    ensures var q := Relocate(source, destination, p);
      |q| == |p| && q[0] == "data" && Parent(q) == if p == source then Parent(p)
        else Relocate(source, destination, Parent(p))
  {
    var q := Relocate(source, destination, p);
    assert source[0] == Parent(source)[0] && destination[0] == Parent(destination)[0];
    if source <= p {
      if |source| < |p| {
        assert source <= Parent(p);
        assert Parent(q) == destination + Parent(p)[|source|..];
      } else {
        assert q == destination;
      }
    } else {
      assert source <= Parent(p) ==> source <= p;
    }
  }

  lemma MoveTreeWellFormed(t: Tree, source: Path, destination: Path)
    requires CanMove(t, source, destination)
    ensures WellFormed(MoveTree(t, source, destination))
  {
    var moved := MoveTree(t, source, destination);
    MovedEntry(t, source, destination, ROOT);
    forall q | q in moved
      ensures |q| > 0 && q[0] == "data" && (|q| > 1 ==> Parent(q) in moved && moved[Parent(q)] == Dir)
    {
      MovedFrom(t, source, destination, q);
      var p := Relocate(destination, source, q);
      if |p| > 1 {
        MovedParent(t, source, destination, p);
        MovedEntry(t, source, destination, Parent(p));
        assert !(source <= Parent(source));
      }
    }
  }

  /**
   * A rename moves the subtree and nothing else: contents travel with their entries, every entry
   * outside keeps its place, and nothing appears that was not there before.
   */
  lemma MoveTreeMoves(t: Tree, source: Path, destination: Path)
    requires CanMove(t, source, destination)
    ensures WellFormed(MoveTree(t, source, destination))
    ensures forall suffix: Path :: source + suffix in t <==> destination + suffix in MoveTree(t, source, destination)
    ensures forall suffix: Path :: source + suffix in t ==>
      MoveTree(t, source, destination)[destination + suffix] == t[source + suffix]
    ensures forall p :: !(source <= p) && !(destination <= p) ==>
      (p in t <==> p in MoveTree(t, source, destination))
      && (p in t ==> MoveTree(t, source, destination)[p] == t[p])
    ensures forall p :: source <= p ==> p !in MoveTree(t, source, destination)
  {
    var moved := MoveTree(t, source, destination);
    MoveTreeWellFormed(t, source, destination);
    forall suffix: Path
      ensures source + suffix in t <==> destination + suffix in moved
      ensures source + suffix in t ==> moved[destination + suffix] == t[source + suffix]
    {
      assert (source + suffix)[|source|..] == suffix && (destination + suffix)[|destination|..] == suffix;
      if source + suffix in t { MovedEntry(t, source, destination, source + suffix); }
      if destination + suffix in moved { MovedFrom(t, source, destination, destination + suffix); }
    }
    forall p | !(source <= p) && !(destination <= p)
      ensures p in t <==> p in moved
      ensures p in t ==> moved[p] == t[p]
    {
      if p in t { MovedEntry(t, source, destination, p); }
      if p in moved { MovedFrom(t, source, destination, p); }
    }
    forall p | source <= p ensures p !in moved {
      SiblingsApart(source, destination, p);
      if p in moved { MovedFrom(t, source, destination, p); }
    }
  }

  lemma SiblingsApart(a: Path, b: Path, p: Path)
    requires Siblings(a, b)
    ensures a <= p ==> !(b <= p)
  {
    assert a <= p ==> p[|a| - 1] == Name(a);
    assert b <= p ==> p[|b| - 1] == Name(b);
  }

  lemma CanMoveBack(t: Tree, source: Path, destination: Path)
    requires CanMove(t, source, destination)
    ensures CanMove(MoveTree(t, source, destination), destination, source)
  {
    MoveTreeMoves(t, source, destination);
    assert source + [] == source && destination + [] == destination;
  }

  lemma MovedBackEntry(t: Tree, moved: Tree, back: Tree, source: Path, destination: Path, p: Path)
    requires CanMove(t, source, destination) && moved == MoveTree(t, source, destination)
    requires CanMove(moved, destination, source) && back == MoveTree(moved, destination, source)
    ensures p in t ==> p in back && back[p] == t[p]
    ensures p in back ==> p in t
  {
    if p in t {
      MovedEntry(t, source, destination, p);
      RelocateBack(source, destination, p);
      MovedEntry(moved, destination, source, Relocate(source, destination, p));
    }
    if p in back {
      MovedFrom(moved, destination, source, p);
      MovedFrom(t, source, destination, Relocate(source, destination, p));
    }
  }

  lemma Difference(a: Tree, b: Tree) returns (p: Path)
    requires a != b
    ensures !(p in a <==> p in b) || (p in a && p in b && a[p] != b[p])
  {
    p :| !(p in a <==> p in b) || (p in a && p in b && a[p] != b[p]);
  }

  /** Renaming back restores the tree exactly. */
  lemma MoveTreeBack(t: Tree, source: Path, destination: Path)
    requires CanMove(t, source, destination)
    ensures MoveTree(MoveTree(t, source, destination), destination, source) == t
  {
    CanMoveBack(t, source, destination);
    var moved := MoveTree(t, source, destination);
    var back := MoveTree(moved, destination, source);
    if back != t {
      var p := Difference(t, back);
      MovedBackEntry(t, moved, back, source, destination, p);
    }
  }

  /** `shutil.rmtree`, or `unlink` for a file: removes an entry with everything below it. */
  function RemoveTree(t: Tree, target: Path): Tree {
    map p | p in t && !(target <= p) :: t[p]
  }

  lemma RemoveTreeWellFormed(t: Tree, target: Path)
    requires WellFormed(t) && |target| > 1
    ensures WellFormed(RemoveTree(t, target))
  {
    forall p | p in t && !(target <= p) && |p| > 1 ensures !(target <= Parent(p)) {
      assert target <= Parent(p) ==> target <= p;
    }
  }
}
