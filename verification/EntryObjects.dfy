/**
 The writer's entry objects (mkfs.go): a tree of mutable records, its objects in list order, and
 the pass that stores every directory's parent. Each object is tied to the value that describes it.
 */
module EntryObjects {
  import opened Bytes
  import opened Order
  import opened Format
  import opened Dirents
  import opened Chunks
  import opened Xattrs
  import opened Layout
  import opened Tree
  import opened Inodes
  import opened Placement
  import opened TreeImage

  /** An output that only grows, until Rewind replaces its front. */
  class Sink {
    var contents: bytes

    constructor ()
      ensures contents == []
    {
      contents := [];
    }

    method Write(b: bytes)
      modifies this
      ensures contents == old(contents) + b
    {
      contents := contents + b;
    }

    /** Seek to the start and write over what is there. */
    method Rewrite(b: bytes)
      requires |b| <= |contents|
      modifies this
      ensures contents == b + old(contents)[|b|..]
    {
      contents := b + contents[|b|..];
    }
  }

  /** erofsEntry: inputs from the tree, and the fields that planning fills in. */
  class Entry {
    const info: Info
    const children: seq<Entry>
    ghost const node: Node

    var nid: nat
    var parentNid: nat
    var layout: nat
    var compact: bool
    var xattrSize: nat
    var trailingSize: nat
    var chunkBits: nat
    var dataBlkAddr: u32

    constructor (info: Info, children: seq<Entry>, ghost kids: seq<Node>)
      requires Match(children, kids)
      ensures Shaped() && node == Node(info, kids) && this.info == info && this.children == children
      ensures chunkBits == 0 && dataBlkAddr == 0
    {
      this.info, this.children, this.node := info, children, Node(info, kids);
      nid, parentNid, layout, compact, xattrSize, trailingSize, chunkBits, dataBlkAddr := 0, 0, 0, false, 0, 0, 0, 0;
    }

    /** The object and those below it form the tree `node`. */
    ghost predicate Shaped()
      decreases node, 1
    {
      node.info == info && Match(children, node.kids)
    }
  }

  ghost predicate Match(es: seq<Entry>, ts: seq<Node>)
    decreases ts, 0
  {
    |es| == |ts| && forall k :: 0 <= k < |ts| ==> es[k].node == ts[k] && es[k].Shaped()
  }

  /** The objects of a tree in list order. */
  ghost function Objects(e: Entry): (r: seq<Entry>)
    requires e.Shaped()
    ensures |r| == |Preorder(e.node)| && r[0] == e
    decreases e.node, 1
  {
    [e] + if IsDir(e.info.mode) then ObjectsAll(e.children, e.node.kids) else []
  }

  ghost function ObjectsAll(es: seq<Entry>, ts: seq<Node>): (r: seq<Entry>)
    requires Match(es, ts)
    ensures |r| == |PreorderAll(ts)|
    decreases ts, 0
  {
    if ts == [] then [] else Objects(es[0]) + ObjectsAll(es[1..], ts[1..])
  }

  lemma {:induction false} ObjectsAre(e: Entry, i: nat)
    requires e.Shaped() && i < |Objects(e)|
    ensures Objects(e)[i].Shaped() && Objects(e)[i].node == Preorder(e.node)[i]
    decreases e.node, 1
  {
    if i > 0 {
      ObjectsAllAre(e.children, e.node.kids, i - 1);
    }
  }

  lemma {:induction false} ObjectsAllAre(es: seq<Entry>, ts: seq<Node>, i: nat)
    requires Match(es, ts) && i < |ObjectsAll(es, ts)|
    ensures ObjectsAll(es, ts)[i].Shaped() && ObjectsAll(es, ts)[i].node == PreorderAll(ts)[i]
    decreases ts, 0
  {
    if i < |Objects(es[0])| {
      ObjectsAre(es[0], i);
    } else {
      ObjectsAllAre(es[1..], ts[1..], i - |Objects(es[0])|);
    }
  }

  lemma UnfoldObjects(e: Entry)
    requires e.Shaped()
    ensures Match(e.children, e.node.kids)
    ensures Objects(e) == [e] + if IsDir(e.info.mode) then ObjectsAll(e.children, e.node.kids) else []
  {
  }

  lemma UnfoldAll(es: seq<Entry>, ts: seq<Node>, k: nat)
    requires k < |es| == |ts| && Match(es[k..], ts[k..])
    ensures es[k].Shaped() && es[k].node == ts[k] && Match(es[k + 1..], ts[k + 1..])
    ensures ObjectsAll(es[k..], ts[k..]) == Objects(es[k]) + ObjectsAll(es[k + 1..], ts[k + 1..])
  {
    hide Objects;
    assert es[k..][0] == es[k] && es[k..][1..] == es[k + 1..];
    assert ts[k..][0] == ts[k] && ts[k..][1..] == ts[k + 1..];
  }

  lemma NoObjects(es: seq<Entry>, ts: seq<Node>)
    requires Match(es, ts) && ts == []
    ensures ObjectsAll(es, ts) == []
  {
  }

  ghost predicate Distinct(es: seq<Entry>) {
    forall i, j :: 0 <= i < j < |es| ==> es[i] != es[j]
  }

  /** The objects carry these nodes, one each. */
  ghost predicate Nodes(es: seq<Entry>, ns: seq<Node>) {
    |es| == |ns| && forall i :: 0 <= i < |es| ==> es[i].Shaped() && es[i].node == ns[i]
  }

  lemma ObjectsList(e: Entry)
    requires e.Shaped()
    ensures Nodes(Objects(e), Preorder(e.node))
  {
    hide Objects, Preorder;
    forall i | 0 <= i < |Objects(e)|
      ensures Objects(e)[i].Shaped() && Objects(e)[i].node == Preorder(e.node)[i]
    {
      ObjectsAre(e, i);
    }
  }

  lemma PlanStep(nodes: seq<Node>, plans: seq<Plan>, i: nat, off: nat, c: Config)
    requires ValidConfig(c) && i < |nodes| == |plans| && PlanFrom(nodes[i..], off, c) == plans[i..]
    ensures plans[i] == PlanOne(nodes[i], off, c)
    ensures PlanFrom(nodes[i + 1..], End(plans[i]), c) == plans[i + 1..]
  {
    hide PlanOne;
    assert nodes[i..][0] == nodes[i] && nodes[i..][1..] == nodes[i + 1..];
    assert plans[i..][0] == plans[i] && plans[i..][1..] == plans[i + 1..];
  }

  ghost function PlanOf(e: Entry): Plan
    reads e`nid, e`layout, e`compact, e`xattrSize, e`trailingSize, e`chunkBits
  {
    Plan(e.nid, e.layout, e.compact, e.xattrSize, e.trailingSize, e.chunkBits)
  }

  /** The dirents that writeDirents collects for an entry. */
  function KidDirents(es: seq<Entry>): (r: seq<Dirent>)
    reads es`nid
    ensures |r| == |es|
    ensures forall k :: 0 <= k < |r| ==> r[k] == Dirent(es[k].info.name, Nid64(es[k].nid), FileTypeByte(es[k].info.mode))
  {
    if es == [] then []
    else
      var last := es[|es| - 1];
      KidDirents(es[..|es| - 1]) + [Dirent(last.info.name, Nid64(last.nid), FileTypeByte(last.info.mode))]
  }

  /** An object as the value the image is described by. */
  ghost function ItemAt(e: Entry): Item
    reads e`nid, e`parentNid, e`layout, e`compact, e`xattrSize, e`trailingSize, e`chunkBits, e.children`nid
  {
    Item(e.node, PlanOf(e),
         if IsDir(e.info.mode) then EntryList(Nid64(e.nid), Nid64(e.parentNid), KidDirents(e.children)) else [])
  }

  /** These objects, in this order, stand for these items. */
  ghost predicate Represents(es: seq<Entry>, items: seq<Item>)
    reads es`nid, es`parentNid, es`layout, es`compact, es`xattrSize, es`trailingSize, es`chunkBits
    reads (set i, k | 0 <= i < |es| && 0 <= k < |es[i].children| :: es[i].children[k])`nid
  {
    |es| == |items| && forall i :: 0 <= i < |es| ==> es[i].Shaped() && ItemAt(es[i]) == items[i]
  }

  lemma RepresentsAt(es: seq<Entry>, items: seq<Item>, i: nat)
    requires Represents(es, items) && i < |es|
    ensures |es| == |items| && es[i].Shaped() && ItemAt(es[i]) == items[i] && es[i].node == items[i].node && PlanOf(es[i]) == items[i].plan
  {
    hide EntryList, KidDirents;
  }

  /** Object i has been linked to the object at position p as its parent. */
  ghost predicate Linked(all: seq<Entry>, i: nat, p: nat)
    reads all`nid, all`parentNid
  {
    i < |all| && p < |all| && all[i].parentNid == all[p].nid
  }

  // ---- Where an object's children are in the list ----

  lemma {:induction false} ObjectsAllAt(es: seq<Entry>, ts: seq<Node>, k: nat)
    requires Match(es, ts) && k < |es|
    ensures |PreorderAll(ts[..k])| < |ObjectsAll(es, ts)| && ObjectsAll(es, ts)[|PreorderAll(ts[..k])|] == es[k]
    decreases k
  {
    hide Objects, Preorder;
    if k > 0 {
      ObjectsAllAt(es[1..], ts[1..], k - 1);
      assert ts[..k][1..] == ts[1..][..k - 1];
    }
  }

  lemma ObjectKid(e: Entry, k: nat)
    requires e.Shaped() && IsDir(e.info.mode) && k < |e.children|
    ensures |e.children| == |e.node.kids| && KidIndex(e.node, k) < |Objects(e)| && Objects(e)[KidIndex(e.node, k)] == e.children[k]
  {
    hide Objects, ObjectsAll, Preorder, PreorderAll;
    UnfoldObjects(e);
    ObjectsAllAt(e.children, e.node.kids, k);
  }

  lemma {:induction false} ObjectsSlice(e: Entry, i: nat)
    requires e.Shaped() && i < |Objects(e)|
    ensures Objects(e)[i].Shaped()
    ensures var n := |Objects(Objects(e)[i])|;
            i + n <= |Objects(e)| && Objects(e)[i..i + n] == Objects(Objects(e)[i])
    decreases e.node, 1
  {
    hide Objects, ObjectsAll, Preorder, PreorderAll;
    UnfoldObjects(e);
    if i > 0 {
      ObjectsAllSlice(e.children, e.node.kids, i - 1);
      assert Objects(e)[1..] == ObjectsAll(e.children, e.node.kids);
      SliceOfTail(Objects(e), i - 1, i - 1 + |Objects(Objects(e)[i])|);
    }
  }

  lemma {:induction false} ObjectsAllSlice(es: seq<Entry>, ts: seq<Node>, i: nat)
    requires Match(es, ts) && i < |ObjectsAll(es, ts)|
    ensures ObjectsAll(es, ts)[i].Shaped()
    ensures var n := |Objects(ObjectsAll(es, ts)[i])|;
            i + n <= |ObjectsAll(es, ts)| && ObjectsAll(es, ts)[i..i + n] == Objects(ObjectsAll(es, ts)[i])
    decreases ts, 0
  {
    hide Objects, ObjectsAll, Preorder, PreorderAll;
    NoneIfEmpty();
    UnfoldFirst(es, ts);
    var first := |Objects(es[0])|;
    if i < first {
      ObjectsSlice(es[0], i);
      SliceOfConcat(Objects(es[0]), ObjectsAll(es[1..], ts[1..]), i, i + |Objects(ObjectsAll(es, ts)[i])|);
    } else {
      ObjectsAllSlice(es[1..], ts[1..], i - first);
      SliceOfConcat(Objects(es[0]), ObjectsAll(es[1..], ts[1..]), i - first, i - first + |Objects(ObjectsAll(es, ts)[i])|);
    }
  }

  lemma NoneIfEmpty()
    ensures PreorderAll([]) == []
  {
  }

  lemma UnfoldFirst(es: seq<Entry>, ts: seq<Node>)
    requires Match(es, ts) && ts != []
    ensures es[0].Shaped() && es[0].node == ts[0] && Match(es[1..], ts[1..])
    ensures ObjectsAll(es, ts) == Objects(es[0]) + ObjectsAll(es[1..], ts[1..])
  {
    hide Objects;
  }

  /** Child k of object i is the object at the child's list position. */
  lemma ChildObject(root: Entry, i: nat, k: nat)
    requires root.Shaped() && i < |Objects(root)|
    requires IsDir(Objects(root)[i].info.mode) && k < |Objects(root)[i].children|
    ensures Objects(root)[i].Shaped() && |Objects(root)[i].node.kids| == |Objects(root)[i].children|
    ensures var j := i + KidIndex(Objects(root)[i].node, k);
            j < |Objects(root)| && Objects(root)[j] == Objects(root)[i].children[k]
  {
    hide Objects, Preorder, KidIndex;
    ObjectsSlice(root, i);
    var e := Objects(root)[i];
    ObjectKid(e, k);
    assert Objects(root)[i..i + |Objects(e)|][KidIndex(e.node, k)] == Objects(e)[KidIndex(e.node, k)];
  }

  /** After planning and parent fixing, the objects are the items of the tree. */
  lemma ObjectsAreItems(root: Entry, objs: seq<Entry>, c: Config, i: nat)
    requires root.Shaped() && objs == Objects(root) && ValidConfig(c) && i < |objs|
    requires forall j :: 0 <= j < |objs| ==> PlanOf(objs[j]) == PlanAll(Preorder(root.node), c)[j]
    requires forall j :: 0 <= j < |objs| && IsDir(objs[j].info.mode) ==> Linked(objs, j, Parents(root.node, 0, 0)[j])
    ensures ItemAt(objs[i]) == ItemsOf(root.node, c)[i]
  {
    hide Objects, Preorder, PlanFrom, KidIndex, EntryList, Parents, KidDirents, ChildDirents, PlanOf;
    ObjectsAre(root, i);
    var e, n := objs[i], Preorder(root.node)[i];
    assert e.info == n.info;
    if IsDir(e.info.mode) {
      KidsInRange(root.node, i);
      ParentInRange(root.node, i);
      KidsAreDirents(root, objs, c, i);
      PlanNids(root, objs, c, i);
      assert Linked(objs, i, Parents(root.node, 0, 0)[i]);
      PlanNids(root, objs, c, Parents(root.node, 0, 0)[i]);
    }
  }

  lemma PlanNids(root: Entry, objs: seq<Entry>, c: Config, i: nat)
    requires root.Shaped() && objs == Objects(root) && ValidConfig(c) && i < |objs|
    requires PlanOf(objs[i]) == PlanAll(Preorder(root.node), c)[i]
    ensures objs[i].nid == PlanAll(Preorder(root.node), c)[i].nid
  {
    hide Objects, Preorder, PlanFrom;
  }

  /** The dirents collected from a directory's objects are those of its tree node. */
  lemma KidsAreDirents(root: Entry, objs: seq<Entry>, c: Config, i: nat)
    requires root.Shaped() && objs == Objects(root) && ValidConfig(c) && i < |objs| && IsDir(Preorder(root.node)[i].info.mode)
    requires forall j :: 0 <= j < |objs| ==> PlanOf(objs[j]) == PlanAll(Preorder(root.node), c)[j]
    requires forall k :: 0 <= k < |Preorder(root.node)[i].kids| ==> i + KidIndex(Preorder(root.node)[i], k) < |Preorder(root.node)|
    ensures KidDirents(objs[i].children) == ChildDirents(Preorder(root.node), PlanAll(Preorder(root.node), c), i)
  {
    hide Objects, Preorder, PlanFrom, KidIndex, PlanOf;
    ObjectsAre(root, i);
    var e, n := objs[i], Preorder(root.node)[i];
    var kids := ChildDirents(Preorder(root.node), PlanAll(Preorder(root.node), c), i);
    assert |e.children| == |n.kids|;
    forall k | 0 <= k < |kids|
      ensures KidDirents(e.children)[k] == kids[k]
    {
      ChildObject(root, i, k);
      ObjectsAre(root, i + KidIndex(n, k));
      PlanNids(root, objs, c, i + KidIndex(n, k));
    }
  }

  /** The objects of the next kid and of the kids after it share what is left of the slice. */
  lemma KidSlice<T>(all: seq<T>, pos: nat, end: nat, first: seq<T>, rest: seq<T>)
    requires pos <= end <= |all| && all[pos..end] == first + rest
    ensures pos + |first| <= end && all[pos..pos + |first|] == first && all[pos + |first|..end] == rest
  {
    SliceOfSlice(all, pos, end, 0, |first|);
    SliceOfSlice(all, pos, end, |first|, end - pos);
  }

  lemma Apart(all: seq<Entry>, at: nat, mine: seq<Entry>, pos: nat, theirs: seq<Entry>)
    requires Distinct(all) && at <= pos && pos + |theirs| <= at + |mine| <= |all|
    requires all[at..at + |mine|] == mine && all[pos..pos + |theirs|] == theirs
    ensures forall i :: 0 <= i < |theirs| ==> theirs[i] == mine[pos - at + i]
    ensures forall i :: 0 <= i < pos ==> all[i] !in theirs
  {
    forall i | 0 <= i < |theirs|
      ensures theirs[i] == mine[pos - at + i]
    {
      assert mine[pos - at + i] == all[pos + i];
    }
  }

  lemma KidParents(ps: seq<nat>, o: nat, first: seq<nat>, rest: seq<nat>)
    requires o <= |ps| && ps[o..] == first + rest
    ensures forall i :: 0 <= i < |first| ==> o + i < |ps| && ps[o + i] == first[i]
    ensures o + |first| <= |ps| && ps[o + |first|..] == rest
  {
    assert |ps| == o + |first| + |rest|;
    assert ps[o..][|first|..] == ps[o + |first|..];
    forall i | 0 <= i < |first|
      ensures ps[o + i] == first[i]
    {
      assert ps[o..][i] == ps[o + i];
    }
  }

  /** Objects of the list slice that starts at `at` carry their parents' nids. */
  ghost predicate Fixed(all: seq<Entry>, at: nat, ps: seq<nat>, n: nat)
    reads all`nid, all`parentNid
  {
    n <= |ps| && at + n <= |all| && forall i :: 0 <= i < n && IsDir(all[at + i].info.mode) ==> Linked(all, at + i, ps[i])
  }

  /** Where the loop of fixParentNids stands: kids k.. of e fill the slice from pos on. */
  ghost predicate AtKid(e: Entry, k: nat, all: seq<Entry>, at: nat, mine: seq<Entry>, pos: nat, ps: seq<nat>)
    requires k <= |e.children| == |e.node.kids|
  {
    && at < pos <= at + |mine| <= |all| && pos - at <= |ps| && Match(e.children[k..], e.node.kids[k..])
    && all[at..at + |mine|] == mine
    && all[pos..at + |mine|] == ObjectsAll(e.children[k..], e.node.kids[k..])
    && ps[pos - at..] == ParentsAll(e.node.kids[k..], pos, at)
  }

  lemma FirstKid(e: Entry, all: seq<Entry>, at: nat, pp: nat, mine: seq<Entry>)
    requires e.Shaped() && IsDir(e.info.mode)
    requires mine == Objects(e) && at + |mine| <= |all| && all[at..at + |mine|] == mine
    ensures |e.children| == |e.node.kids| && all[at] == e && |Parents(e.node, at, pp)| == |mine| && Parents(e.node, at, pp)[0] == pp
    ensures AtKid(e, 0, all, at, mine, at + 1, Parents(e.node, at, pp))
  {
    hide Objects, ObjectsAll, Preorder, PreorderAll, Parents, ParentsAll;
    UnfoldObjects(e);
    UnfoldTree(e.node, at, pp);
    assert all[at] == mine[0] == e;
    assert e.children[0..] == e.children && e.node.kids[0..] == e.node.kids;
    assert all[at + 1..at + |mine|] == mine[1..] == ObjectsAll(e.children, e.node.kids);
  }

  lemma NextKid(e: Entry, k: nat, all: seq<Entry>, at: nat, mine: seq<Entry>, pos: nat, ps: seq<nat>)
    requires k < |e.children| == |e.node.kids| && Distinct(all) && AtKid(e, k, all, at, mine, pos, ps)
    ensures var child := e.children[k];
            && child.Shaped() && child.node == e.node.kids[k]
            && var theirs := Objects(child);
            var next := pos + |theirs|;
            && next <= |all| && next - at <= |ps| && all[pos..next] == theirs
            && next <= at + |mine| && (forall i :: 0 <= i < |theirs| ==> theirs[i] == mine[pos - at + i])
            && (forall i :: 0 <= i < pos ==> all[i] !in theirs)
            && (forall i :: 0 <= i < |theirs| ==> ps[pos - at + i] == Parents(child.node, pos, at)[i])
            && AtKid(e, k + 1, all, at, mine, next, ps)
  {
    hide Objects, ObjectsAll, Preorder, PreorderAll, Parents, ParentsAll, Match;
    var child := e.children[k];
    UnfoldAll(e.children, e.node.kids, k);
    UnfoldKidsAt(e.node.kids, k, pos, at);
    var theirs := Objects(child);
    var next := pos + |theirs|;
    KidSlice(all, pos, at + |mine|, theirs, ObjectsAll(e.children[k + 1..], e.node.kids[k + 1..]));
    Apart(all, at, mine, pos, theirs);
    KidParents(ps, pos - at, Parents(child.node, pos, at), ParentsAll(e.node.kids[k + 1..], next, at));
    assert pos - at + |Parents(child.node, pos, at)| == next - at;
  }

  lemma UnfoldKidsAt(ts: seq<Node>, k: nat, at: nat, parent: nat)
    requires k < |ts|
    ensures ParentsAll(ts[k..], at, parent) == Parents(ts[k], at, parent) + ParentsAll(ts[k + 1..], at + |Preorder(ts[k])|, parent)
  {
    hide Preorder, Parents, PreorderAll, ParentsAll;
    UnfoldKids(ts[k..], at, parent);
    assert ts[k..][0] == ts[k] && ts[k..][1..] == ts[k + 1..];
  }

  lemma LastKid(e: Entry, all: seq<Entry>, at: nat, mine: seq<Entry>, pos: nat, ps: seq<nat>)
    requires |e.children| == |e.node.kids| && AtKid(e, |e.children|, all, at, mine, pos, ps)
    ensures pos == at + |mine|
  {
    hide Objects;
    NoObjects(e.children[|e.children|..], e.node.kids[|e.children|..]);
  }

  /** fixParentNids: below e, every directory gets its parent's nid. */
  method FixParentNids(e: Entry, parent: Entry, ghost all: seq<Entry>, ghost at: nat, ghost pp: nat, ghost mine: seq<Entry>)
    requires e.Shaped() && IsDir(e.info.mode) && Distinct(all) && pp < |all| && all[pp] == parent
    requires mine == Objects(e) && at + |mine| <= |all| && all[at..at + |mine|] == mine
    modifies mine`parentNid
    ensures Fixed(all, at, Parents(e.node, at, pp), |mine|)
    decreases e.node, 1
  {
    hide Objects, ObjectsAll, Parents, AtKid;
    FirstKid(e, all, at, pp, mine);
    e.parentNid := parent.nid;
    var k := 0;
    ghost var pos, ps := at + 1, Parents(e.node, at, pp);
    while k < |e.children|
      invariant k <= |e.children| == |e.node.kids| && at < pos && at < |all| && all[at] == e
      invariant AtKid(e, k, all, at, mine, pos, ps)
      invariant Fixed(all, at, ps, pos - at)
    {
      pos := FixKid(e, k, all, at, mine, pos, ps);
      k := k + 1;
    }
    LastKid(e, all, at, mine, pos, ps);
  }

  /** One round of its loop. */
  method FixKid(e: Entry, k: nat, ghost all: seq<Entry>, ghost at: nat, ghost mine: seq<Entry>, ghost pos: nat, ghost ps: seq<nat>)
    returns (ghost next: nat)
    requires k < |e.children| == |e.node.kids| && Distinct(all) && at < pos && at < |all| && all[at] == e
    requires AtKid(e, k, all, at, mine, pos, ps) && Fixed(all, at, ps, pos - at)
    modifies mine`parentNid
    ensures pos <= next && AtKid(e, k + 1, all, at, mine, next, ps) && Fixed(all, at, ps, next - at)
    decreases e.node, 0
  {
    hide Objects, ObjectsAll, Parents, AtKid, Fixed;
    NextKid(e, k, all, at, mine, pos, ps);
    ghost var theirs := Objects(e.children[k]);
    KidSmaller(e.node.kids, k);
    FixChild(e.children[k], e, all, at, pos, theirs, ps);
    next := pos + |theirs|;
  }

  /** Only directories are descended into. */
  method FixChild(child: Entry, e: Entry, ghost all: seq<Entry>, ghost at: nat, ghost pos: nat, ghost theirs: seq<Entry>, ghost ps: seq<nat>)
    requires child.Shaped() && Distinct(all) && at < pos && at < |all| && all[at] == e
    requires theirs == Objects(child) && pos + |theirs| <= |all| && all[pos..pos + |theirs|] == theirs
    requires Fixed(all, at, ps, pos - at) && forall i :: 0 <= i < pos ==> all[i] !in theirs
    requires pos - at + |theirs| <= |ps|
    requires forall i :: 0 <= i < |theirs| ==> ps[pos - at + i] == Parents(child.node, pos, at)[i]
    modifies theirs`parentNid
    ensures Fixed(all, at, ps, pos - at + |theirs|)
    decreases child.node, 2
  {
    hide Objects, Preorder, Parents;
    if IsDir(child.info.mode) {
      FixParentNids(child, e, all, pos, at, theirs);
    } else {
      UnfoldObjects(child);
      assert all[pos] == theirs[0] == child;
    }
    forall i | 0 <= i < pos - at + |theirs| && IsDir(all[at + i].info.mode)
      ensures Linked(all, at + i, ps[i])
    {
      if i >= pos - at {
        assert Linked(all, pos + (i - (pos - at)), Parents(child.node, pos, at)[i - (pos - at)]);
      } else {
        assert all[at + i] !in theirs;
      }
    }
  }

  lemma KidSmaller(ts: seq<Node>, k: nat)
    requires k < |ts|
    ensures ts[k] in ts
  {
  }
}
