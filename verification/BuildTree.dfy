/**
 From the overlay tree to the planner's tree (mkfs.go): every live path becomes exactly one entry,
 children in name order, and an entry's place in the list spells its path.
 */
module BuildTree {
  import opened Bytes
  import opened Order
  import opened Format
  import opened Layout
  import opened Tree
  import opened Overlay
  import Xattrs

  /** path.Base */
  function Base(p: Path): bytes { if p == [] then [47] else p[|p| - 1] }

  ghost function NamesUnder(m: View, p: Path): set<bytes> {
    set q | q in m && q != [] && Dir(q) == p :: Base(q)
  }

  lemma NameUnder(m: View, p: Path, n: bytes)
    ensures n in NamesUnder(m, p) <==> p + [n] in m
  {
    assert Dir(p + [n]) == p && Base(p + [n]) == n;
    if n in NamesUnder(m, p) {
      var q :| q in m && q != [] && Dir(q) == p && Base(q) == n;
      assert q == p + [n];
    }
  }

  /** Names of the live children, sorted. */
  ghost function KidList(m: View, p: Path): (r: seq<bytes>)
    ensures Xattrs.Lists(r, NamesUnder(m, p)) && Ascending(r)
  {
    Xattrs.AnyOrderLists(NamesUnder(m, p));
    Xattrs.SortedLists(Xattrs.AnyOrder(NamesUnder(m, p)), NamesUnder(m, p));
    Xattrs.SortedKeys(NamesUnder(m, p))
  }

  /** Live child directories. */
  ghost function DirNames(m: View, p: Path): set<bytes> {
    set n | n in NamesUnder(m, p) && p + [n] in m && DirAttr(m[p + [n]])
  }

  /** fsToErofs: the planner's input for an entry; a directory's link count is completed later. */
  function Convert(p: Path, a: Attr): Info {
    var i := a.info;
    i.(name := Base(p),
       nlink := if a.nlinkSet then i.nlink else if DirAttr(a) then 2 else 1,
       data := if i.chunks == [] && !i.metadataOnly && TypeOf(i.mode) == S_REG && i.size > 0 then i.data else None)
  }

  /** With the link count of a directory that was not given one: 2 and one per child directory. */
  function WithLinks(a: Attr, i: Info, childDirs: nat): Info {
    if !a.nlinkSet && DirAttr(a) then i.(nlink := (2 + childDirs) % 0x1_0000_0000) else i
  }

  ghost function InfoAt(m: View, p: Path): Info
    requires p in m
  {
    WithLinks(m[p], Convert(p, m[p]), |DirNames(m, p)|)
  }

  ghost function Sub(m: View, p: Path): set<Path> {
    set q | q in m && p <= q
  }

  lemma SubSmaller(m: View, p: Path, n: bytes)
    requires p in m
    ensures Sub(m, p + [n]) < Sub(m, p)
  {
    assert p in Sub(m, p) && p !in Sub(m, p + [n]);
  }

  /** The planner's tree for the part of the map at and below p. */
  ghost function TreeOf(m: View, p: Path): Node
    requires p in m
    decreases Sub(m, p), 1, 0
  {
    Node(InfoAt(m, p), Trees(m, p, KidList(m, p)))
  }

  ghost function Trees(m: View, p: Path, names: seq<bytes>): (r: seq<Node>)
    requires p in m && forall n <- names :: n in NamesUnder(m, p)
    ensures |r| == |names|
    decreases Sub(m, p), 0, |names|
  {
    if names == [] then []
    else
      NameUnder(m, p, names[0]);
      SubSmaller(m, p, names[0]);
      [TreeOf(m, p + [names[0]])] + Trees(m, p, names[1..])
  }

  lemma {:induction false} TreesAt(m: View, p: Path, names: seq<bytes>, k: nat)
    requires p in m && (forall n <- names :: n in NamesUnder(m, p)) && k < |names|
    ensures p + [names[k]] in m && Trees(m, p, names)[k] == TreeOf(m, p + [names[k]])
    decreases k
  {
    hide TreeOf, NamesUnder;
    NameUnder(m, p, names[k]);
    if k > 0 {
      TreesAt(m, p, names[1..], k - 1);
    }
  }

  lemma ModeAt(m: View, p: Path)
    requires p in m
    ensures TreeOf(m, p).info == InfoAt(m, p) && InfoAt(m, p).mode == m[p].info.mode
    ensures InfoAt(m, p).name == Base(p) && TreeOf(m, p).kids == Trees(m, p, KidList(m, p))
  {
  }

  /** The live directories in the directory p. */
  ghost function DirsIn(m: View, p: Path): set<Path> {
    set q | q in m && q != [] && Dir(q) == p && IsDir(m[q].info.mode)
  }

  /** There are as many names of child directories as child directories. */
  lemma DirsCounted(m: View, p: Path)
    ensures |DirNames(m, p)| == |DirsIn(m, p)|
  {
    forall q: Path
      ensures q in DirsIn(m, p) <==> q in PathsTo(p, DirNames(m, p))
    {
      if q in DirsIn(m, p) {
        assert q == p + [Base(q)];
        NameUnder(m, p, Base(q));
      }
      if q in PathsTo(p, DirNames(m, p)) {
        var n :| n in DirNames(m, p) && q == p + [n];
        assert Dir(q) == p;
      }
    }
    assert DirsIn(m, p) == PathsTo(p, DirNames(m, p));
    PathsCounted(p, DirNames(m, p));
  }

  ghost function PathsTo(p: Path, ns: set<bytes>): set<Path> {
    set n | n in ns :: p + [n]
  }

  lemma {:induction false} PathsCounted(p: Path, ns: set<bytes>)
    ensures |PathsTo(p, ns)| == |ns|
    decreases ns
  {
    if ns != {} {
      var n :| n in ns;
      PathsCounted(p, ns - {n});
      assert PathsTo(p, ns) == PathsTo(p, ns - {n}) + {p + [n]};
      assert p + [n] !in PathsTo(p, ns - {n}) by {
        forall x | x in ns - {n}
          ensures p + [x] != p + [n]
        {
          assert (p + [x])[|p|] == x && (p + [n])[|p|] == n;
        }
      }
    }
  }

  /**
   The planner's entry for a live path has the path's own fields: its link count is the given one, or 2
   and one per live directory in it, or 1; its data the source of a regular file that has one.
   */
  lemma OwnFields(m: View, p: Path)
    requires p in m
    ensures var i, a := TreeOf(m, p).info, m[p].info;
            && i.name == (if p == [] then [47] else p[|p| - 1]) && i.mode == a.mode && i.uid == a.uid && i.gid == a.gid
            && i.mtime == a.mtime && i.mtimeNs == a.mtimeNs && i.size == a.size && i.rdev == a.rdev && i.symTarget == a.symTarget
            && i.chunks == a.chunks && i.contiguous == a.contiguous && i.metadataOnly == a.metadataOnly && i.xattrs == a.xattrs
            && i.nlink == LinksAt(m, p)
            && i.data == if TypeOf(a.mode) == S_REG && a.size > 0 && a.chunks == [] && !a.metadataOnly then a.data else None
  {
    hide NamesUnder, DirNames, DirsIn, KidList, Trees;
    ModeAt(m, p);
    DirsCounted(m, p);
  }

  ghost function LinksAt(m: View, p: Path): u32
    requires p in m
  {
    if m[p].nlinkSet then m[p].info.nlink
    else if IsDir(m[p].info.mode) then (2 + |DirsIn(m, p)|) % 0x1_0000_0000
    else 1
  }

  /** The paths in list order. */
  ghost function Paths(m: View, p: Path): (r: seq<Path>)
    requires p in m
    ensures |r| > 0 && r[0] == p
    decreases Sub(m, p), 1, 0
  {
    [p] + if DirAttr(m[p]) then PathsAll(m, p, KidList(m, p)) else []
  }

  ghost function PathsAll(m: View, p: Path, names: seq<bytes>): seq<Path>
    requires p in m && forall n <- names :: n in NamesUnder(m, p)
    decreases Sub(m, p), 0, |names|
  {
    if names == [] then []
    else
      NameUnder(m, p, names[0]);
      SubSmaller(m, p, names[0]);
      Paths(m, p + [names[0]]) + PathsAll(m, p, names[1..])
  }

  lemma UnfoldPaths(m: View, p: Path)
    requires p in m
    ensures Paths(m, p) == [p] + if DirAttr(m[p]) then PathsAll(m, p, KidList(m, p)) else []
    ensures Preorder(TreeOf(m, p)) == [TreeOf(m, p)] + if DirAttr(m[p]) then PreorderAll(Trees(m, p, KidList(m, p))) else []
  {
    ModeAt(m, p);
  }

  lemma UnfoldNames(m: View, p: Path, names: seq<bytes>)
    requires p in m && names != [] && forall n <- names :: n in NamesUnder(m, p)
    ensures p + [names[0]] in m
    ensures PathsAll(m, p, names) == Paths(m, p + [names[0]]) + PathsAll(m, p, names[1..])
    ensures PreorderAll(Trees(m, p, names)) == Preorder(TreeOf(m, p + [names[0]])) + PreorderAll(Trees(m, p, names[1..]))
  {
    hide NamesUnder, TreeOf, Paths, Preorder;
    NameUnder(m, p, names[0]);
    var ts := Trees(m, p, names);
    assert ts[0] == TreeOf(m, p + [names[0]]) && ts[1..] == Trees(m, p, names[1..]);
  }

  /** Position i of the list holds the tree of path i. */
  lemma {:induction false} PathsMatch(m: View, p: Path)
    requires p in m
    ensures |Paths(m, p)| == |Preorder(TreeOf(m, p))|
    ensures forall i :: 0 <= i < |Paths(m, p)| ==> Paths(m, p)[i] in m && Preorder(TreeOf(m, p))[i] == TreeOf(m, Paths(m, p)[i])
    decreases Sub(m, p), 1, 0
  {
    hide NamesUnder, TreeOf, Paths, PathsAll, Trees, Preorder, PreorderAll, KidList;
    UnfoldPaths(m, p);
    PathsAllMatch(m, p, KidList(m, p));
  }

  lemma {:induction false} PathsAllMatch(m: View, p: Path, names: seq<bytes>)
    requires p in m && forall n <- names :: n in NamesUnder(m, p)
    ensures |PathsAll(m, p, names)| == |PreorderAll(Trees(m, p, names))|
    ensures forall i :: 0 <= i < |PathsAll(m, p, names)| ==>
              PathsAll(m, p, names)[i] in m && PreorderAll(Trees(m, p, names))[i] == TreeOf(m, PathsAll(m, p, names)[i])
    decreases Sub(m, p), 0, |names|
  {
    hide NamesUnder, TreeOf, Paths, PathsAll, Trees, Preorder, PreorderAll;
    if names == [] {
      NoPaths(m, p);
    } else {
      UnfoldNames(m, p, names);
      SubSmaller(m, p, names[0]);
      PathsMatch(m, p + [names[0]]);
      PathsAllMatch(m, p, names[1..]);
    }
  }

  lemma NoPaths(m: View, p: Path)
    requires p in m
    ensures PathsAll(m, p, []) == [] && Trees(m, p, []) == [] && PreorderAll([]) == []
  {
  }

  // ---- Every path once ----

  /** Every live path at or below p is in the list. */
  lemma {:induction false} PathsComplete(m: View, p: Path, q: Path) returns (i: nat)
    requires Shaped(m) && p in m && q in m && p <= q
    ensures i < |Paths(m, p)| && Paths(m, p)[i] == q
    decreases Sub(m, p), 1, 0
  {
    hide NamesUnder, Paths, PathsAll, KidList, Preorder, PreorderAll, Shaped;
    UnfoldPaths(m, p);
    if p == q {
      i := 0;
    } else {
      var n := q[|p|];
      assert p + [n] <= q;
      PrefixThere(m, q, p + [n]);
      PrefixThere(m, q, p);
      NameUnder(m, p, n);
      assert n in KidList(m, p);
      i := PathsAllComplete(m, p, KidList(m, p), n, q);
      i := i + 1;
    }
  }

  lemma {:induction false} PathsAllComplete(m: View, p: Path, names: seq<bytes>, n: bytes, q: Path) returns (i: nat)
    requires Shaped(m) && p in m && (forall x <- names :: x in NamesUnder(m, p)) && n in names
    requires q in m && p + [n] <= q
    ensures i < |PathsAll(m, p, names)| && PathsAll(m, p, names)[i] == q
    decreases Sub(m, p), 0, |names|
  {
    hide NamesUnder, Paths, PathsAll, Preorder, PreorderAll, Shaped;
    UnfoldNames(m, p, names);
    SubSmaller(m, p, names[0]);
    if names[0] == n {
      i := PathsComplete(m, p + [n], q);
    } else {
      i := PathsAllComplete(m, p, names[1..], n, q);
      i := |Paths(m, p + [names[0]])| + i;
    }
  }

  lemma {:induction false} PathsBelow(m: View, p: Path)
    requires p in m
    ensures forall q <- Paths(m, p) :: p <= q
    decreases Sub(m, p), 1, 0
  {
    hide NamesUnder, Paths, PathsAll, KidList, Preorder, PreorderAll;
    UnfoldPaths(m, p);
    PathsAllBelow(m, p, KidList(m, p));
  }

  lemma {:induction false} PathsAllBelow(m: View, p: Path, names: seq<bytes>)
    requires p in m && forall n <- names :: n in NamesUnder(m, p)
    ensures forall q <- PathsAll(m, p, names) :: p < q && q[|p|] in names
    decreases Sub(m, p), 0, |names|
  {
    hide NamesUnder, Paths, PathsAll, Preorder, PreorderAll;
    if names == [] {
      NoPaths(m, p);
    } else {
      UnfoldNames(m, p, names);
      SubSmaller(m, p, names[0]);
      PathsBelow(m, p + [names[0]]);
      PathsAllBelow(m, p, names[1..]);
      forall q <- PathsAll(m, p, names)
        ensures p < q && q[|p|] in names
      {
        if q in Paths(m, p + [names[0]]) {
          assert q[|p|] == (p + [names[0]])[|p|];
        }
      }
    }
  }

  /** No path is in the list twice. */
  lemma {:induction false} PathsDistinct(m: View, p: Path, i: nat, j: nat)
    requires p in m && i < j < |Paths(m, p)|
    ensures Paths(m, p)[i] != Paths(m, p)[j]
    decreases Sub(m, p), 1, 0
  {
    hide NamesUnder, Paths, PathsAll, KidList, Preorder, PreorderAll;
    UnfoldPaths(m, p);
    PathsAllBelow(m, p, KidList(m, p));
    if i > 0 {
      PathsAllDistinct(m, p, KidList(m, p), i - 1, j - 1);
    } else {
      assert Paths(m, p)[j] in PathsAll(m, p, KidList(m, p));
    }
  }

  lemma {:induction false} PathsAllDistinct(m: View, p: Path, names: seq<bytes>, i: nat, j: nat)
    requires p in m && (forall n <- names :: n in NamesUnder(m, p)) && Ascending(names)
    requires i < j < |PathsAll(m, p, names)|
    ensures PathsAll(m, p, names)[i] != PathsAll(m, p, names)[j]
    decreases Sub(m, p), 0, |names|
  {
    hide NamesUnder, Paths, PathsAll, Preorder, PreorderAll, Ascending;
    NoPaths(m, p);
    UnfoldNames(m, p, names);
    SubSmaller(m, p, names[0]);
    HeadOnce(names);
    var first, rest := Paths(m, p + [names[0]]), PathsAll(m, p, names[1..]);
    PathsBelow(m, p + [names[0]]);
    PathsAllBelow(m, p, names[1..]);
    if j < |first| {
      PathsDistinct(m, p + [names[0]], i, j);
    } else if i >= |first| {
      PathsAllDistinct(m, p, names[1..], i - |first|, j - |first|);
    } else {
      assert first[i] in first && rest[j - |first|] in rest;
      assert first[i][|p|] == (p + [names[0]])[|p|];
    }
  }

  lemma HeadOnce(names: seq<bytes>)
    requires Ascending(names) && names != []
    ensures names[0] !in names[1..] && Ascending(names[1..])
  {
  }

  // ---- Where a path's children are in the list ----

  lemma {:induction false} PathsSlice(m: View, p: Path, i: nat)
    requires p in m && i < |Paths(m, p)|
    ensures Paths(m, p)[i] in m
    ensures var n := |Paths(m, Paths(m, p)[i])|;
            i + n <= |Paths(m, p)| && Paths(m, p)[i..i + n] == Paths(m, Paths(m, p)[i])
    decreases Sub(m, p), 1, 0
  {
    hide NamesUnder, Paths, PathsAll, KidList, Preorder, PreorderAll;
    UnfoldPaths(m, p);
    if i > 0 {
      var rest := PathsAll(m, p, KidList(m, p));
      PathsAllSlice(m, p, KidList(m, p), i - 1);
      FoundBehind([p], rest, i - 1, Paths(m, rest[i - 1]));
    }
  }

  lemma FoundBehind<T>(a: seq<T>, b: seq<T>, i: nat, part: seq<T>)
    requires i < |b| && i + |part| <= |b| && b[i..i + |part|] == part
    ensures (a + b)[|a| + i] == b[i]
    ensures (a + b)[|a| + i..|a| + i + |part|] == part
  {
    assert (a + b)[|a| + i..|a| + i + |part|] == b[i..i + |part|];
  }

  lemma FoundBefore<T>(a: seq<T>, b: seq<T>, i: nat, part: seq<T>)
    requires i < |a| && i + |part| <= |a| && a[i..i + |part|] == part
    ensures (a + b)[i] == a[i]
    ensures (a + b)[i..i + |part|] == part
  {
    assert (a + b)[i..i + |part|] == a[i..i + |part|];
  }

  lemma {:induction false} PathsAllSlice(m: View, p: Path, names: seq<bytes>, i: nat)
    requires p in m && (forall n <- names :: n in NamesUnder(m, p)) && i < |PathsAll(m, p, names)|
    ensures PathsAll(m, p, names)[i] in m
    ensures var n := |Paths(m, PathsAll(m, p, names)[i])|;
            i + n <= |PathsAll(m, p, names)| && PathsAll(m, p, names)[i..i + n] == Paths(m, PathsAll(m, p, names)[i])
    decreases Sub(m, p), 0, |names|
  {
    hide NamesUnder, Paths, PathsAll, Sub;
    PathsStep(m, p, names);
    var first, rest := Paths(m, p + [names[0]]), PathsAll(m, p, names[1..]);
    if i < |first| {
      PathsSlice(m, p + [names[0]], i);
      FoundBefore(first, rest, i, Paths(m, first[i]));
    } else {
      PathsAllSlice(m, p, names[1..], i - |first|);
      FoundBehind(first, rest, i - |first|, Paths(m, rest[i - |first|]));
    }
  }

  lemma PathsStep(m: View, p: Path, names: seq<bytes>)
    requires p in m && (forall n <- names :: n in NamesUnder(m, p)) && PathsAll(m, p, names) != []
    ensures names != [] && p + [names[0]] in m && Sub(m, p + [names[0]]) < Sub(m, p)
    ensures PathsAll(m, p, names) == Paths(m, p + [names[0]]) + PathsAll(m, p, names[1..])
  {
    hide NamesUnder, Paths, PathsAll, Preorder, PreorderAll;
    NoPaths(m, p);
    UnfoldNames(m, p, names);
    SubSmaller(m, p, names[0]);
  }

  lemma {:induction false} PathsAllAt(m: View, p: Path, names: seq<bytes>, k: nat)
    requires p in m && (forall n <- names :: n in NamesUnder(m, p)) && k < |names|
    ensures var b := |PreorderAll(Trees(m, p, names)[..k])|;
            b < |PathsAll(m, p, names)| && PathsAll(m, p, names)[b] == p + [names[k]]
    decreases k
  {
    hide NamesUnder, Paths, PathsAll, Preorder, Trees, TreeOf;
    UnfoldNames(m, p, names);
    UnfoldTrees(m, p, names);
    if k > 0 {
      PathsMatch(m, p + [names[0]]);
      PathsAllAt(m, p, names[1..], k - 1);
      var ts := Trees(m, p, names);
      assert ts[..k][1..] == Trees(m, p, names[1..])[..k - 1];
    }
  }

  lemma UnfoldTrees(m: View, p: Path, names: seq<bytes>)
    requires p in m && names != [] && forall n <- names :: n in NamesUnder(m, p)
    ensures p + [names[0]] in m
    ensures Trees(m, p, names)[0] == TreeOf(m, p + [names[0]]) && Trees(m, p, names)[1..] == Trees(m, p, names[1..])
  {
    NameUnder(m, p, names[0]);
  }

  /** The path at the place of kid k of entry i is the kid's name below the entry's path. */
  lemma PathsKid(m: View, p: Path, i: nat, k: nat)
    requires p in m && i < |Paths(m, p)|
    requires Paths(m, p)[i] in m && DirAttr(m[Paths(m, p)[i]]) && k < |KidList(m, Paths(m, p)[i])|
    ensures var q := Paths(m, p)[i];
            var j := i + KidIndex(TreeOf(m, q), k);
            j < |Paths(m, p)| && Paths(m, p)[j] == q + [KidList(m, q)[k]]
  {
    hide NamesUnder, Paths, PathsAll, KidList, Preorder, PreorderAll, TreeOf, Trees;
    PathsSlice(m, p, i);
    var q := Paths(m, p)[i];
    UnfoldPaths(m, q);
    ModeAt(m, q);
    PathsAllAt(m, q, KidList(m, q), k);
    var at := KidIndex(TreeOf(m, q), k);
    assert Paths(m, q)[at] == q + [KidList(m, q)[k]];
    assert Paths(m, p)[i..i + |Paths(m, q)|][at] == Paths(m, p)[i + at];
  }

  // ---- buildErofsTree ----

  /** An erofsEntry under construction: its fields and the names of its children. */
  datatype Row = Row(info: Info, kids: seq<bytes>)

  /** The finished entry for path p. */
  ghost function RowAt(m: View, p: Path): Row
    requires p in m
  {
    Row(InfoAt(m, p), KidList(m, p))
  }

  ghost predicate RowDone(m: View, rows: map<Path, Row>, waiting: set<Path>, p: Path) {
    p in m && p in rows && rows[p] == if p in waiting then Row(Convert(p, m[p]), []) else RowAt(m, p)
  }

  ghost predicate ParentDone(rows: map<Path, Row>, waiting: set<Path>, p: Path) {
    p != [] ==> Dir(p) in rows && Dir(p) !in waiting
  }

  ghost predicate KidsThere(m: View, rows: map<Path, Row>, p: Path) {
    forall n <- NamesUnder(m, p) :: p + [n] in rows
  }

  /** Waiting entries are still bare, all others are finished, and their children are there. */
  ghost predicate Converted(m: View, rows: map<Path, Row>, waiting: set<Path>) {
    && [] in rows && waiting <= rows.Keys
    && (forall p {:trigger RowDone(m, rows, waiting, p)} :: p in rows ==> RowDone(m, rows, waiting, p))
    && (forall p {:trigger ParentDone(rows, waiting, p)} :: p in rows ==> ParentDone(rows, waiting, p))
    && (forall p {:trigger KidsThere(m, rows, p)} :: p in rows && p !in waiting ==> KidsThere(m, rows, p))
  }

  lemma {:induction false} AllConverted(m: View, rows: map<Path, Row>, p: Path)
    requires Shaped(m) && Converted(m, rows, {}) && p in m
    ensures p in rows
    decreases |p|
  {
    hide RowAt, NamesUnder;
    if p != [] {
      AllConverted(m, rows, Dir(p));
      assert KidsThere(m, rows, Dir(p));
      assert p == Dir(p) + [Base(p)];
      NameUnder(m, Dir(p), Base(p));
    }
  }

  /** What is converted: the root, and whatever is not removed. */
  predicate Emitted(t: FsTree, e: FsEntry)
    reads e`removed
  {
    e == t.root || !e.removed
  }

  lemma EmittedFacts(t: FsTree, e: FsEntry)
    requires t.Sound() && e in t.all && Emitted(t, e)
    ensures e.path in t.View() && t.View()[e.path] == e.attr && t.Here(e.path) && t.EntryAt(e.path) == e
  {
    hide FsTree.Linked, FsTree.View;
    t.Basics();
    if e != t.root {
      assert t.byPath[e.path] == e;
    }
  }

  /** A live child of an emitted entry is found through it, and only live children are. */
  lemma LiveChildren(t: FsTree, e: FsEntry)
    requires t.Sound() && t.InPlace() && e in t.all && Emitted(t, e)
    ensures forall c <- e.children :: c in t.all && c != t.root
    ensures forall c <- e.children :: !c.removed ==>
              c.path != [] && Dir(c.path) == e.path && Base(c.path) in NamesUnder(t.View(), e.path)
              && c.path in t.byPath && t.byPath[c.path] == c
    ensures forall n <- NamesUnder(t.View(), e.path) ::
              e.path + [n] in t.byPath && t.byPath[e.path + [n]] in e.children && !t.byPath[e.path + [n]].removed
  {
    hide FsTree.Placed, NamesUnder, FsTree.View;
    t.Basics();
    EmittedFacts(t, e);
    assert t.KidsBack(e);
    forall c <- e.children
      ensures c in t.all && c != t.root
      ensures !c.removed ==> c.path != [] && Dir(c.path) == e.path && Base(c.path) in NamesUnder(t.View(), e.path)
                             && c.path in t.byPath && t.byPath[c.path] == c
    {
      if !c.removed {
        ChildHome(t, e, c);
      }
    }
    forall n <- NamesUnder(t.View(), e.path)
      ensures e.path + [n] in t.byPath && t.byPath[e.path + [n]] in e.children && !t.byPath[e.path + [n]].removed
    {
      NameUnder(t.View(), e.path, n);
      var c := t.byPath[e.path + [n]];
      assert Dir(c.path) == e.path;
      t.HomeFacts(c.path);
      InChildren(t, c);
    }
  }

  lemma ChildHome(t: FsTree, e: FsEntry, c: FsEntry)
    requires t.Sound() && t.InPlace() && e in t.all && Emitted(t, e)
    requires c in t.all && c != t.root && c.parent == e && !c.removed
    ensures c.path != [] && Dir(c.path) == e.path && Base(c.path) in NamesUnder(t.View(), e.path)
    ensures c.path in t.byPath && t.byPath[c.path] == c
  {
    hide FsTree.KidsBack, NamesUnder, FsTree.View;
    t.Basics();
    assert t.Placed(c) && t.AtHome(t.byPath, c.path);
    assert c.path == e.path + [Base(c.path)];
    NameUnder(t.View(), e.path, Base(c.path));
  }

  lemma InChildren(t: FsTree, c: FsEntry)
    requires t.Sound() && c in t.all && c != t.root
    ensures c.parent in t.all && c in c.parent.children
  {
    hide FsTree.KidsBack;
    assert t.Placed(c);
  }

  lemma Alike(e: FsEntry, t: FsTree, i: nat)
    requires t.Sound() && e in t.all && i < |e.children|
    ensures e.children[i] !in e.children[..i]
  {
    assert t.KidsBack(e);
  }

  /** Bare rows for the named children of p, and no others, have been added. */
  ghost predicate Added(m: View, p: Path, names: seq<bytes>, before: map<Path, Row>, rows: map<Path, Row>) {
    && (forall q :: q in rows <==> q in before || (q != [] && Dir(q) == p && Base(q) in names))
    && (forall q <- before :: rows[q] == before[q])
    && (forall q <- rows :: q !in before ==> q in m && rows[q] == Row(Convert(q, m[q]), []))
  }

  lemma AddedNone(m: View, p: Path, before: map<Path, Row>)
    ensures Added(m, p, [], before, before)
  {
  }

  lemma AddRow(m: View, p: Path, names: seq<bytes>, before: map<Path, Row>, rows: map<Path, Row>, q: Path)
    requires Added(m, p, names, before, rows) && q !in rows && q != [] && Dir(q) == p && q in m
    ensures Added(m, p, names + [Base(q)], before, rows[q := Row(Convert(q, m[q]), [])])
  {
    var after := rows[q := Row(Convert(q, m[q]), [])];
    forall x: Path
      ensures x in after <==> x in before || (x != [] && Dir(x) == p && Base(x) in names + [Base(q)])
    {
      if x != [] && Dir(x) == p && Base(x) == Base(q) {
        assert x == p + [Base(q)] == q;
      }
    }
  }

  /** The directories among the named children, each queued once. */
  ghost predicate Enqueued(m: View, p: Path, names: seq<bytes>, added: seq<FsEntry>) {
    && (forall k :: 0 <= k < |added| ==> ChildDir(m, p, names, added[k].path))
    && (forall k, l :: 0 <= k < l < |added| ==> added[k].path != added[l].path)
    && (forall n <- names :: p + [n] in m && DirAttr(m[p + [n]]) ==> p + [n] in PathsOf(added))
  }

  ghost predicate ChildDir(m: View, p: Path, names: seq<bytes>, q: Path) {
    q != [] && Dir(q) == p && Base(q) in names && q in m && DirAttr(m[q])
  }

  lemma EnqueuedNone(m: View, p: Path)
    ensures Enqueued(m, p, [], [])
  {
  }

  lemma AddEntry(m: View, p: Path, names: seq<bytes>, added: seq<FsEntry>, c: FsEntry)
    requires Enqueued(m, p, names, added) && c.path != [] && Dir(c.path) == p && Base(c.path) !in names && c.path in m
    ensures Enqueued(m, p, names + [Base(c.path)], if DirAttr(m[c.path]) then added + [c] else added)
  {
    var more := if DirAttr(m[c.path]) then added + [c] else added;
    assert c.path == p + [Base(c.path)];
    forall n <- names + [Base(c.path)] | p + [n] in m && DirAttr(m[p + [n]])
      ensures p + [n] in PathsOf(more)
    {
      if n in names {
        var k :| 0 <= k < |added| && added[k].path == p + [n];
        assert more[k] == added[k];
      } else {
        assert more[|added|] == c;
      }
    }
  }

  /** Names of the children met so far, each with its own live object. */
  ghost predicate Met(t: FsTree, e: FsEntry, i: nat, names: seq<bytes>)
    requires i <= |e.children|
    reads t, e, e.children
  {
    && (forall x <- names :: e.path + [x] in t.byPath && t.byPath[e.path + [x]] in e.children[..i])
    && (forall k :: 0 <= k < i && !e.children[k].removed ==> Base(e.children[k].path) in names)
    && DistinctKeys(Same, names)
  }

  lemma MetAll(t: FsTree, e: FsEntry, names: seq<bytes>)
    requires t.Sound() && t.InPlace() && e in t.all && Emitted(t, e) && Met(t, e, |e.children|, names)
    ensures Xattrs.Lists(names, NamesUnder(t.View(), e.path))
  {
    LiveChildren(t, e);
    forall n <- NamesUnder(t.View(), e.path)
      ensures n in names
    {
      var c := t.byPath[e.path + [n]];
      var k :| 0 <= k < |e.children| && e.children[k] == c;
      assert Base(c.path) == n;
    }
    forall n <- names
      ensures n in NamesUnder(t.View(), e.path)
    {
      NameUnder(t.View(), e.path, n);
    }
  }

  lemma NextChild(t: FsTree, e: FsEntry, i: nat)
    requires t.Sound() && t.InPlace() && e in t.all && Emitted(t, e) && i < |e.children|
    ensures var c := e.children[i];
            && c in t.all && c != t.root && c !in e.children[..i]
            && (!c.removed ==> c.path != [] && Dir(c.path) == e.path && c.path in t.byPath && t.byPath[c.path] == c)
  {
    hide FsTree.Sound, FsTree.View, FsTree.InPlace, NamesUnder;
    LiveChildren(t, e);
    Alike(e, t, i);
    assert e.children[i] in e.children;
  }

  lemma MetNext(t: FsTree, e: FsEntry, i: nat, names: seq<bytes>)
    requires i < |e.children| && Met(t, e, i, names)
    requires var c := e.children[i];
             c !in e.children[..i]
             && (!c.removed ==> c.path != [] && Dir(c.path) == e.path && c.path in t.byPath && t.byPath[c.path] == c)
    ensures var c := e.children[i];
            && (c.removed ==> Met(t, e, i + 1, names))
            && (!c.removed ==> Base(c.path) !in names && Met(t, e, i + 1, names + [Base(c.path)]))
  {
    var c := e.children[i];
    assert !c.removed ==> c.path == e.path + [Base(c.path)];
    assert e.children[..i + 1] == e.children[..i] + [c];
  }

  ghost function DirsAmong(m: View, p: Path, names: seq<bytes>): set<bytes> {
    set n | n in names && p + [n] in m && DirAttr(m[p + [n]])
  }

  lemma DirsAmongNext(m: View, p: Path, names: seq<bytes>, q: Path)
    requires q != [] && Dir(q) == p && q in m && Base(q) !in names
    ensures |DirsAmong(m, p, names + [Base(q)])| == |DirsAmong(m, p, names)| + if DirAttr(m[q]) then 1 else 0
  {
    assert q == p + [Base(q)];
    var d := DirsAmong(m, p, names);
    assert DirsAmong(m, p, names + [Base(q)]) == if DirAttr(m[q]) then d + {Base(q)} else d;
  }

  lemma DirsAmongAll(m: View, p: Path, names: seq<bytes>)
    requires Xattrs.Lists(names, NamesUnder(m, p))
    ensures DirsAmong(m, p, names) == DirNames(m, p)
  {
    hide NamesUnder;
  }

  /** The count of live child directories. */
  method CountDirs(t: FsTree, e: FsEntry) returns (childDirs: nat)
    requires t.Sound() && t.InPlace() && e in t.all && Emitted(t, e)
    ensures childDirs == |DirNames(t.View(), e.path)|
  {
    hide Met, NamesUnder, DirsAmong, DirNames;
    ghost var m, names: seq<bytes> := t.View(), [];
    childDirs := 0;
    var i := 0;
    MetNone(t, e);
    NoDirsAmong(m, e.path);
    while i < |e.children|
      invariant i <= |e.children| && Met(t, e, i, names)
      invariant childDirs == |DirsAmong(m, e.path, names)|
    {
      var c := e.children[i];
      NextChild(t, e, i);
      MetNext(t, e, i, names);
      if !c.removed {
        DirsAmongNext(m, e.path, names, c.path);
        names := names + [Base(c.path)];
        if DirAttr(c.attr) {
          childDirs := childDirs + 1;
        }
      }
      i := i + 1;
    }
    MetAll(t, e, names);
    DirsAmongAll(m, e.path, names);
  }

  lemma NoDirsAmong(m: View, p: Path)
    ensures |DirsAmong(m, p, [])| == 0
  {
    assert DirsAmong(m, p, []) == {};
  }

  /** Converts and collects the live children of e; each is met for the first time. */
  method ConvertChildren(t: FsTree, e: FsEntry, before: map<Path, Row>) returns (names: seq<bytes>, rows: map<Path, Row>, added: seq<FsEntry>)
    requires t.Sound() && t.InPlace() && e in t.all && Emitted(t, e)
    requires forall q <- before :: q != [] ==> Dir(q) != e.path
    ensures Xattrs.Lists(names, NamesUnder(t.View(), e.path))
    ensures Added(t.View(), e.path, names, before, rows) && Enqueued(t.View(), e.path, names, added)
    ensures forall c <- added :: c in t.all && Emitted(t, c)
  {
    hide Added, Enqueued, Met, Convert;
    names, rows, added := [], before, [];
    ghost var m := t.View();
    AddedNone(m, e.path, before);
    EnqueuedNone(m, e.path);
    var i := 0;
    MetNone(t, e);
    while i < |e.children|
      invariant i <= |e.children| && Met(t, e, i, names)
      invariant Added(m, e.path, names, before, rows) && Enqueued(m, e.path, names, added)
      invariant forall c <- added :: c in t.all && Emitted(t, c)
    {
      var c := e.children[i];
      NextChild(t, e, i);
      MetNext(t, e, i, names);
      if !c.removed {
        NotYet(m, e.path, names, before, rows, c.path);
        AddRow(m, e.path, names, before, rows, c.path);
        AddEntry(m, e.path, names, added, c);
        rows := rows[c.path := Row(Convert(c.path, c.attr), [])];
        names := names + [Base(c.path)];
        if DirAttr(c.attr) {
          added := added + [c];
        }
      }
      i := i + 1;
    }
    MetAll(t, e, names);
  }

  lemma MetNone(t: FsTree, e: FsEntry)
    ensures Met(t, e, 0, [])
  {
  }

  /** A child met for the first time has no row yet: nothing is converted twice. */
  lemma NotYet(m: View, p: Path, names: seq<bytes>, before: map<Path, Row>, rows: map<Path, Row>, q: Path)
    requires Added(m, p, names, before, rows) && q != [] && Dir(q) == p && Base(q) !in names
    requires forall x <- before :: x != [] ==> Dir(x) != p
    ensures q !in rows
  {
  }

  ghost function PathsOf(queue: seq<FsEntry>): set<Path> {
    set k | 0 <= k < |queue| :: queue[k].path
  }

  /** Live entries of the tree, none twice. */
  ghost predicate Pending(t: FsTree, queue: seq<FsEntry>)
    reads t, t.all
  {
    && (forall k :: 0 <= k < |queue| ==> queue[k] in t.all && Emitted(t, queue[k]))
    && (forall k, l :: 0 <= k < l < |queue| ==> queue[k].path != queue[l].path)
  }

  /** An entry without children keeps its bare row. */
  lemma BareIsDone(m: View, p: Path)
    requires Shaped(m) && p in m && !DirAttr(m[p])
    ensures RowAt(m, p) == Row(Convert(p, m[p]), [])
  {
    hide Convert;
    forall n: bytes
      ensures n !in NamesUnder(m, p)
    {
      NameUnder(m, p, n);
      assert Dir(p + [n]) == p;
    }
    assert NamesUnder(m, p) == {};
    FirstIn(KidList(m, p));
  }

  lemma FirstIn(q: seq<bytes>)
    ensures q != [] ==> q[0] in q
  {
  }

  /** Expanding the first waiting path: its row is finished, its children are bare, its directories wait. */
  lemma ConvertedStep(m: View, rows0: map<Path, Row>, p: Path, rest: set<Path>, names: seq<bytes>, rows1: map<Path, Row>, more: set<Path>)
    requires Shaped(m) && Converted(m, rows0, rest + {p}) && p !in rest && p in m
    requires Xattrs.Lists(names, NamesUnder(m, p)) && Added(m, p, names, rows0, rows1)
    requires forall q <- more :: ChildDir(m, p, names, q)
    requires forall n <- names :: p + [n] in m && DirAttr(m[p + [n]]) ==> p + [n] in more
    ensures Converted(m, rows1[p := RowAt(m, p)], rest + more)
  {
    hide RowAt, Convert, NamesUnder, Shaped;
    var rows, waiting := rows1[p := RowAt(m, p)], rest + more;
    forall q | q in rows
      ensures RowDone(m, rows, waiting, q)
    {
      RowStep(m, rows0, p, rest, names, rows1, more, q);
    }
    forall q | q in rows
      ensures ParentDone(rows, waiting, q)
    {
      if q in rows0 {
        assert ParentDone(rows0, rest + {p}, q);
      }
      assert forall x <- more :: x !in rows0 || ParentDone(rows0, rest + {p}, x);
    }
    forall q | q in rows && q !in waiting
      ensures KidsThere(m, rows, q)
    {
      KidsStep(m, rows0, p, rest, names, rows1, more, q);
    }
  }

  lemma RowStep(m: View, rows0: map<Path, Row>, p: Path, rest: set<Path>, names: seq<bytes>, rows1: map<Path, Row>, more: set<Path>, q: Path)
    requires Shaped(m) && Converted(m, rows0, rest + {p}) && p !in rest && p in m
    requires Added(m, p, names, rows0, rows1) && q in rows1
    requires forall x <- more :: ChildDir(m, p, names, x)
    requires forall n <- names :: p + [n] in m && DirAttr(m[p + [n]]) ==> p + [n] in more
    ensures p in rows0 && RowDone(m, rows1[p := RowAt(m, p)], rest + more, q)
  {
    hide RowAt, Convert, NamesUnder, Shaped;
    if q in rows0 {
      assert RowDone(m, rows0, rest + {p}, q) && ParentDone(rows0, rest + {p}, q);
    } else {
      assert q == p + [Base(q)];
      if !DirAttr(m[q]) {
        BareIsDone(m, q);
      }
    }
  }

  lemma KidsStep(m: View, rows0: map<Path, Row>, p: Path, rest: set<Path>, names: seq<bytes>, rows1: map<Path, Row>, more: set<Path>, q: Path)
    requires Shaped(m) && Converted(m, rows0, rest + {p}) && p in m
    requires Xattrs.Lists(names, NamesUnder(m, p)) && Added(m, p, names, rows0, rows1) && q in rows1 && q !in rest + more
    requires forall n <- names :: p + [n] in m && DirAttr(m[p + [n]]) ==> p + [n] in more
    ensures KidsThere(m, rows1[p := RowAt(m, p)], q)
  {
    hide RowAt, Convert, NamesUnder, Shaped, KidsThere;
    assert Added(m, p, names, rows0, rows1);
    if q == p {
      AllAdded(m, p, names, rows0, rows1);
    } else if q in rows0 {
      assert KidsThere(m, rows0, q);
      KidsStay(m, p, names, rows0, rows1, q);
    } else {
      NewKid(q, p);
      LeafKids(m, rows1, q);
    }
    KidsSame(m, rows1, p, q);
  }

  lemma AllAdded(m: View, p: Path, names: seq<bytes>, before: map<Path, Row>, rows: map<Path, Row>)
    requires Xattrs.Lists(names, NamesUnder(m, p)) && Added(m, p, names, before, rows)
    ensures KidsThere(m, rows, p)
  {
    hide NamesUnder, Convert;
    forall n <- NamesUnder(m, p)
      ensures p + [n] in rows
    {
      assert Dir(p + [n]) == p && Base(p + [n]) == n;
    }
  }

  lemma KidsStay(m: View, p: Path, names: seq<bytes>, before: map<Path, Row>, rows: map<Path, Row>, q: Path)
    requires Added(m, p, names, before, rows) && KidsThere(m, before, q)
    ensures KidsThere(m, rows, q)
  {
    hide NamesUnder, Convert;
  }

  lemma NewKid(q: Path, p: Path)
    requires q != [] && Dir(q) == p
    ensures q == p + [Base(q)]
  {
  }

  lemma LeafKids(m: View, rows: map<Path, Row>, q: Path)
    requires Shaped(m) && q in m && !DirAttr(m[q])
    ensures KidsThere(m, rows, q)
  {
    hide NamesUnder, Shaped;
    forall n: bytes
      ensures n !in NamesUnder(m, q)
    {
      NoKidsUnder(m, q, n);
    }
  }

  lemma KidsSame(m: View, rows: map<Path, Row>, p: Path, q: Path)
    requires KidsThere(m, rows, q) && p in m
    ensures KidsThere(m, rows[p := RowAt(m, p)], q)
  {
    hide RowAt, NamesUnder;
  }

  lemma NoKidsUnder(m: View, p: Path, n: bytes)
    requires Shaped(m) && p in m && !DirAttr(m[p])
    ensures n !in NamesUnder(m, p)
  {
    NameUnder(m, p, n);
    assert Dir(p + [n]) == p;
  }

  lemma PathsOfConcat(a: seq<FsEntry>, b: seq<FsEntry>)
    ensures PathsOf(a + b) == PathsOf(a) + PathsOf(b)
  {
    forall p | p in PathsOf(a) + PathsOf(b)
      ensures p in PathsOf(a + b)
    {
      if p in PathsOf(a) {
        var k :| 0 <= k < |a| && a[k].path == p;
        assert (a + b)[k].path == p;
      } else {
        var k :| 0 <= k < |b| && b[k].path == p;
        assert (a + b)[|a| + k].path == p;
      }
    }
  }

  lemma PathsOfOne(e: FsEntry)
    ensures PathsOf([e]) == {e.path}
  {
    assert [e][0] == e;
  }

  /** The head of the queue is bare, met once, and none of its children has been met. */
  lemma FirstWaiting(t: FsTree, m: View, rows0: map<Path, Row>, queue0: seq<FsEntry>)
    requires queue0 != [] && Pending(t, queue0) && Converted(m, rows0, PathsOf(queue0))
    ensures var p := queue0[0].path;
            && p in m && p in rows0 && rows0[p] == Row(Convert(p, m[p]), [])
            && PathsOf(queue0) == PathsOf(queue0[1..]) + {p} && p !in PathsOf(queue0[1..])
            && forall q <- rows0 :: q != [] ==> Dir(q) != p
  {
    hide RowAt, Convert, NamesUnder;
    var p := queue0[0].path;
    assert queue0 == [queue0[0]] + queue0[1..];
    PathsOfConcat([queue0[0]], queue0[1..]);
    PathsOfOne(queue0[0]);
    assert RowDone(m, rows0, PathsOf(queue0), p);
    forall q <- rows0 | q != []
      ensures Dir(q) != p
    {
      assert ParentDone(rows0, PathsOf(queue0), q);
    }
  }

  lemma FinishedRow(m: View, p: Path, names: seq<bytes>)
    requires p in m && Xattrs.Lists(names, NamesUnder(m, p))
    ensures RowAt(m, p) == Row(WithLinks(m[p], Convert(p, m[p]), |DirNames(m, p)|), Sort(Same, names))
  {
    Xattrs.SortedKeysUnique(names, NamesUnder(m, p));
  }

  lemma EnqueuedParts(m: View, p: Path, names: seq<bytes>, added: seq<FsEntry>)
    requires Enqueued(m, p, names, added)
    ensures forall q <- PathsOf(added) :: ChildDir(m, p, names, q)
    ensures forall n <- names :: p + [n] in m && DirAttr(m[p + [n]]) ==> p + [n] in PathsOf(added)
    ensures forall k :: 0 <= k < |added| ==> added[k].path != [] && Dir(added[k].path) == p && Base(added[k].path) in names
    ensures forall k, l :: 0 <= k < l < |added| ==> added[k].path != added[l].path
  {
  }

  lemma QueueAfter(t: FsTree, queue0: seq<FsEntry>, added: seq<FsEntry>, rows0: map<Path, Row>, p: Path)
    requires queue0 != [] && Pending(t, queue0) && PathsOf(queue0) <= rows0.Keys
    requires forall c <- added :: c in t.all && Emitted(t, c)
    requires forall k :: 0 <= k < |added| ==> added[k].path != [] && Dir(added[k].path) == p
    requires forall k, l :: 0 <= k < l < |added| ==> added[k].path != added[l].path
    requires forall q <- rows0 :: q != [] ==> Dir(q) != p
    ensures Pending(t, queue0[1..] + added)
  {
    var queue := queue0[1..] + added;
    forall k, l | 0 <= k < l < |queue|
      ensures queue[k].path != queue[l].path
    {
      if k < |queue0| - 1 <= l {
        assert queue[k] == queue0[k + 1] && queue0[k + 1].path in PathsOf(queue0);
        assert queue[l] == added[l - (|queue0| - 1)];
      }
    }
    forall k | 0 <= k < |queue|
      ensures queue[k] in t.all && Emitted(t, queue[k])
    {
      if k >= |queue0| - 1 {
        assert queue[k] in added;
      }
    }
  }

  lemma RowsGrow(m: View, p: Path, names: seq<bytes>, rows0: map<Path, Row>, rows1: map<Path, Row>, added: seq<FsEntry>)
    requires Added(m, p, names, rows0, rows1) && rows0.Keys <= m.Keys && p in rows0
    requires forall q <- rows0 :: q != [] ==> Dir(q) != p
    requires forall k :: 0 <= k < |added| ==> added[k].path != [] && Dir(added[k].path) == p && Base(added[k].path) in names
    ensures p in rows1 && rows1[p] == rows0[p] && rows0.Keys <= rows1.Keys <= m.Keys
    ensures added != [] ==> rows1.Keys != rows0.Keys
  {
    if added != [] {
      assert added[0].path in rows1 && added[0].path !in rows0;
    }
  }

  lemma KeysWithin(m: View, rows: map<Path, Row>, waiting: set<Path>)
    requires Converted(m, rows, waiting)
    ensures rows.Keys <= m.Keys && waiting <= rows.Keys
  {
    forall p <- rows
      ensures p in m
    {
      assert RowDone(m, rows, waiting, p);
    }
  }

  /** One round of the queue. */
  method ExpandFirst(t: FsTree, queue0: seq<FsEntry>, rows0: map<Path, Row>) returns (rows: map<Path, Row>, queue: seq<FsEntry>)
    requires t.Sound() && t.InPlace() && Shaped(t.View()) && queue0 != []
    requires Pending(t, queue0) && Converted(t.View(), rows0, PathsOf(queue0))
    ensures Pending(t, queue) && Converted(t.View(), rows, PathsOf(queue))
    ensures rows0.Keys <= rows.Keys <= t.View().Keys
    ensures rows.Keys == rows0.Keys ==> |queue| < |queue0|
  {
    hide RowAt, Convert, WithLinks, NamesUnder, Shaped, Added, Enqueued, Converted, PathsOf, DirNames;
    ghost var m := t.View();
    var cur := queue0[0];
    FirstWaiting(t, m, rows0, queue0);
    EmittedFacts(t, cur);
    KeysWithin(m, rows0, PathsOf(queue0));
    var childDirs := CountDirs(t, cur);
    var names, rows1, added := ConvertChildren(t, cur, rows0);
    EnqueuedParts(m, cur.path, names, added);
    RowsGrow(m, cur.path, names, rows0, rows1, added);
    FinishedRow(m, cur.path, names);
    rows := rows1[cur.path := Row(WithLinks(cur.attr, rows1[cur.path].info, childDirs), Sort(Same, names))];
    queue := queue0[1..] + added;
    assert m[cur.path] == cur.attr;
    ConvertedStep(m, rows0, cur.path, PathsOf(queue0[1..]), names, rows1, PathsOf(added));
    PathsOfConcat(queue0[1..], added);
    QueueAfter(t, queue0, added, rows0, cur.path);
    assert rows.Keys == rows1.Keys;
  }

  lemma Started(m: View, a: Attr)
    requires [] in m && m[[]] == a
    ensures Converted(m, map[[] := Row(Convert([], a), [])], {[]})
  {
    hide Convert, RowAt, NamesUnder;
  }

  lemma Finished(m: View, rows: map<Path, Row>)
    requires Shaped(m) && Converted(m, rows, {})
    ensures rows.Keys == m.Keys
    ensures forall p <- rows :: rows[p] == RowAt(m, p)
  {
    hide Convert, RowAt, NamesUnder, Shaped;
    KeysWithin(m, rows, {});
    forall p <- rows
      ensures rows[p] == RowAt(m, p)
    {
      assert RowDone(m, rows, {}, p);
    }
    forall p <- m
      ensures p in rows
    {
      AllConverted(m, rows, p);
    }
  }

  /**
   buildErofsTree, breadth first: every live path gets exactly one entry, with its own fields, the
   sorted names of its live children, and 2 plus its child directories as the default link count.
   */
  method BuildErofsTree(t: FsTree) returns (rows: map<Path, Row>)
    requires t.Sound() && t.InPlace() && Shaped(t.View())
    ensures rows.Keys == t.View().Keys
    ensures forall p <- rows :: rows[p] == RowAt(t.View(), p)
  {
    hide NamesUnder, Shaped, RowAt, Convert, Converted;
    t.Basics();
    EmittedFacts(t, t.root);
    ghost var m := t.View();
    rows := map[[] := Row(Convert([], t.root.attr), [])];
    var queue := [t.root];
    PathsOfOne(t.root);
    Started(m, t.root.attr);
    while queue != []
      invariant Pending(t, queue) && Converted(m, rows, PathsOf(queue))
      decreases m.Keys - rows.Keys, |queue|
    {
      rows, queue := ExpandFirst(t, queue, rows);
    }
    assert PathsOf(queue) == {};
    Finished(m, rows);
  }
}
