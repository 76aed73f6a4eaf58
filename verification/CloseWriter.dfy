/**
 Close (mkfs.go): the tree of live entries becomes linked erofsEntry objects, and these the image of
 exactly that tree.
 */
module CloseWriter {
  import opened Bytes
  import opened Order
  import opened Format
  import opened Layout
  import opened Tree
  import opened Placement
  import opened TreeImage
  import opened EntryObjects
  import opened ErofsWriter
  import opened EndToEnd
  import Xattrs
  import opened Overlay
  import opened Layers
  import opened BuildTree
  import opened OverlayImage
  import opened Resolve
  import opened TreeResolve
  import opened Reader
  import opened Superblock

  /** Distinct objects for which nothing has been planned. */
  ghost predicate Blank(objs: seq<Entry>)
    reads objs`chunkBits, objs`dataBlkAddr
  {
    && EntryObjects.Distinct(objs)
    && forall k :: 0 <= k < |objs| ==> objs[k].chunkBits == 0 && objs[k].dataBlkAddr == 0
  }

  lemma BlankBoth(a: seq<Entry>, b: seq<Entry>)
    requires Blank(a) && Blank(b) && forall k, l :: 0 <= k < |a| && 0 <= l < |b| ==> a[k] != b[l]
    ensures Blank(a + b)
  {
  }

  ghost predicate RowsOf(m: View, rows: map<Path, Row>) {
    rows.Keys == m.Keys && forall p <- rows :: rows[p] == RowAt(m, p)
  }

  lemma RowFacts(m: View, p: Path, rows: map<Path, Row>)
    requires p in m && RowsOf(m, rows)
    ensures p in rows && rows[p] == Row(InfoAt(m, p), KidList(m, p))
    ensures forall n <- KidList(m, p) :: n in NamesUnder(m, p)
    ensures TreeOf(m, p) == Node(InfoAt(m, p), Trees(m, p, KidList(m, p)))
  {
  }

  /** The object for path p, those of its children below it. */
  method MakeEntry(rows: map<Path, Row>, ghost m: View, p: Path) returns (e: Entry, ghost objs: seq<Entry>)
    requires p in m && RowsOf(m, rows)
    ensures e.Shaped() && e.node == TreeOf(m, p) && objs == Objects(e) && fresh(objs) && Blank(objs)
    decreases Sub(m, p), 1, 0
  {
    hide NamesUnder, RowsOf, InfoAt, TreeOf, Trees, KidList, Objects, ObjectsAll, Match, Blank, Sub;
    RowFacts(m, p, rows);
    var row := rows[p];
    ghost var below: seq<Entry>;
    var children;
    children, below := MakeAll(rows, m, p, row.kids);
    e := new Entry(row.info, children, Trees(m, p, row.kids));
    UnfoldObjects(e);
    BlankOne(e);
    objs := [e];
    if IsDir(e.info.mode) {
      BlankBoth([e], below);
      objs := [e] + below;
    }
    assert [e] + [] == [e];
  }

  lemma BlankOne(e: Entry)
    requires e.chunkBits == 0 && e.dataBlkAddr == 0
    ensures Blank([e])
  {
  }

  method MakeAll(rows: map<Path, Row>, ghost m: View, p: Path, names: seq<bytes>) returns (es: seq<Entry>, ghost objs: seq<Entry>)
    requires p in m && RowsOf(m, rows) && forall n <- names :: n in NamesUnder(m, p)
    ensures Match(es, Trees(m, p, names)) && objs == ObjectsAll(es, Trees(m, p, names)) && fresh(objs) && Blank(objs)
    decreases Sub(m, p), 0, |names|
  {
    hide NamesUnder, TreeOf, Trees, Objects, RowsOf, Blank, Sub, Match, ObjectsAll;
    if names == [] {
      NothingMade(m, p);
      return [], [];
    }
    UnfoldTrees(m, p, names);
    SubSmaller(m, p, names[0]);
    ghost var o, rest: seq<Entry>;
    var first, others;
    first, o := MakeEntry(rows, m, p + [names[0]]);
    others, rest := MakeAll(rows, m, p, names[1..]);
    BlankBoth(o, rest);
    es, objs := [first] + others, o + rest;
    MatchMore(first, others, Trees(m, p, names));
  }

  lemma NothingMade(m: View, p: Path)
    requires p in m
    ensures Match([], Trees(m, p, [])) && ObjectsAll([], Trees(m, p, [])) == [] && Blank([])
  {
  }

  lemma MatchMore(first: Entry, others: seq<Entry>, ts: seq<Node>)
    requires ts != [] && first.Shaped() && first.node == ts[0] && Match(others, ts[1..])
    ensures Match([first] + others, ts)
    ensures ObjectsAll([first] + others, ts) == Objects(first) + ObjectsAll(others, ts[1..])
  {
    hide Objects;
    var es := [first] + others;
    assert es[1..] == others;
    forall k | 0 <= k < |ts|
      ensures es[k].node == ts[k] && es[k].Shaped()
    {
      assert k > 0 ==> es[k] == others[k - 1] && ts[k] == ts[1..][k - 1];
    }
  }

  /** What Close asks of the live entries: names that dirents can carry, sources for plain files, room in 2^32 blocks. */
  ghost predicate Closable(m: View, c: Config) {
    && Shaped(m) && GoodNames(m) && Sourced(m) && DirAttr(m[[]])
    && FitsBlocks(Root(m), c) && RunsFull(Root(m))
  }

  /** No plain source is short and every device count fits its slot. */
  ghost predicate Writable(m: View, c: Config)
    requires Closable(m, c)
  {
    (forall it <- ItemsOf(Root(m), c) :: !ShortItem(it)) && forall d <- c.devices :: d < 0x1_0000_0000
  }

  /** The image of the live entries' tree. */
  ghost function Output(m: View, c: Config): bytes
    requires Closable(m, c)
  {
    RootIsOK(m);
    TreeOutput(Root(m), c)
  }

  /** The default chunk size of Close: the least number of blocks, doubling from one, that makes 4096 bytes. */
  method DefaultChunkBits(bs: nat) returns (bits: nat)
    requires BlockSize(bs)
    ensures bs * Pow2(bits) >= 4096 && (bits > 0 ==> bs * Pow2(bits - 1) < 4096)
    ensures bits <= 3
  {
    hide PowerOfTwo, Pow2;
    bits := 0;
    var cs: int := bs;
    UnfoldPow2(0);
    while cs < 4096
      invariant bits <= 3 && cs == bs * Pow2(bits) && (bits > 0 ==> bs * Pow2(bits - 1) < 4096)
      decreases 4096 - cs
    {
      UnfoldPow2(bits);
      UnfoldPow2(bits + 1);
      EightBlocks(bs, bits);
      bits, cs := bits + 1, cs * 2;
    }
  }

  /** Eight blocks are 4096 bytes at least. */
  lemma EightBlocks(bs: nat, bits: nat)
    requires bs >= 512 && bits <= 3 && bs * Pow2(bits) < 4096
    ensures bits < 3 && bs * Pow2(bits) * 2 == bs * (2 * Pow2(bits)) && bs * Pow2(bits) > 0
  {
    Powers();
    MulMono(512, bs, 8);
  }

  /**
   Close, for a tree in place with every entry below a directory: the output is the image of the live
   entries' tree unless a source is short or a device count does not fit.
   */
  method Close(t: FsTree, c: Config, out: Sink) returns (ok: bool)
    requires t.Sound() && t.InPlace() && Closable(t.View(), c) && out.contents == []
    modifies out
    ensures Closable(old(t.View()), c) && ok == Writable(old(t.View()), c)
    ensures ok ==> out.contents == Output(old(t.View()), c)
  {
    hide Root, TreeOK, Shaped, GoodNames, Sourced, FsTree.Sound, FsTree.InPlace, FsTree.View, RowAt, FitsBlocks, RunsFull, ShortItem, ItemsOf, TreeOutput, Blank;
    ghost var m := t.View();
    RootThere(m);
    RootIsOK(m);
    RootIs(m);
    var rows := BuildErofsTree(t);
    ghost var objs: seq<Entry>;
    var root;
    root, objs := MakeEntry(rows, m, []);
    BlankFresh(root, objs);
    ok := BuildImage(c, root, out, objs);
  }

  const EMPTY: Layers.State := Layers.State.State(map[[] := IMPLICIT], true)

  /** From the operations of all layers to the image of the map they describe. */
  method WriteLayers(es: seq<Event>, c: Config, out: Sink) returns (ok: bool)
    requires AllGuarded(EMPTY, es) && Closable(ApplyAll(EMPTY, es).view, c) && out.contents == []
    modifies out
    ensures ok == Writable(ApplyAll(EMPTY, es).view, c)
    ensures ok ==> out.contents == Output(ApplyAll(EMPTY, es).view, c)
  {
    hide AllGuarded, AllAllowed, ApplyAll, Closable, Writable, Output, FsTree.Sound, FsTree.InPlace, FsTree.View;
    StartShaped();
    GuardedRun(EMPTY, es);
    var t := new FsTree();
    Replay(t, es);
    ok := Close(t, c, out);
  }

  lemma StartShaped()
    ensures Shaped(EMPTY.view)
  {
  }

  lemma RootIs(m: View)
    requires [] in m
    ensures Root(m) == TreeOf(m, [])
  {
  }

  lemma BlankFresh(root: Entry, objs: seq<Entry>)
    requires root.Shaped() && objs == Objects(root) && Blank(objs)
    ensures FreshTree(root, objs)
  {
  }

  /** The output opens, and each live path resolves in it to an entry of its type. */
  lemma LayersFound(m: View, c: Config, extra: seq<bytes>, p: Path) returns (i: nat)
    requires Closable(m, c) && Readable(Root(m), c) && |extra| == |c.devices| <= 65535 && p in m && p != []
    ensures OpenSpec(Output(m, c), extra).Ok? && BlockSize(OpenSpec(Output(m, c), extra).value.bs) && ValidConfig(c)
    ensures i < |Preorder(Root(m))| && Preorder(Root(m))[i].info == InfoAt(m, p)
    ensures ResolveSpec(OpenSpec(Output(m, c), extra).value, Join(p), false)
         == Ok(Found(NidOf(Root(m), c)(i), TypeMode(m[p].info.mode), Base(p)))
  {
    hide Root, Shaped, GoodNames, Sourced, FitsBlocks, RunsFull, Readable, OpenSpec, ResolveSpec, Join, Mounted, Preorder, InfoAt, TreeOutput, NidOf, SbArea;
    RootThere(m);
    ReadableFacts(Root(m), c);
    OutputMounts(Root(m), c, extra);
    i := LivePathResolves(OpenSpec(Output(m, c), extra).value, SbArea(SuperOf(ItemsOf(Root(m), c), c), c), m, c, p);
  }
}
