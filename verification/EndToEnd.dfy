/**
 From a tree of entry objects to an opened image: the writer's passes in the order Close runs them,
 and what the reader then finds.
 */
module EndToEnd {
  import opened Bytes
  import opened Format
  import opened Layout
  import opened Tree
  import opened Placement
  import opened Reader
  import opened RoundTrip
  import opened TreeImage
  import opened TreeResolve
  import opened Resolve
  import opened EntryObjects
  import opened ErofsWriter
  import opened Superblock

  /** Fresh objects: nothing planned yet, and no object twice in the tree. */
  ghost predicate FreshTree(root: Entry, objs: seq<Entry>)
    reads objs`chunkBits, objs`dataBlkAddr
  {
    && root.Shaped() && objs == Objects(root) && Distinct(objs)
    && forall j :: 0 <= j < |objs| ==> objs[j].chunkBits == 0 && objs[j].dataBlkAddr == 0
  }

  /** Every chunk list in the tree starts with a run that is not empty. */
  ghost predicate RunsFull(root: Node) {
    forall n <- Preorder(root) :: n.info.chunks != [] ==> n.info.chunks[0].count > 0
  }

  /** The output Close leaves for a tree. */
  ghost function TreeOutput(root: Node, c: Config): bytes
    requires TreeOK(root) && FitsBlocks(root, c)
  {
    TreePlanned(root, c);
    WrittenImage(ItemsOf(root, c), c)
  }

  /** Planning and parent fixing turn fresh objects into the items of the tree. */
  method Prepare(c: Config, root: Entry, ghost objs: seq<Entry>) returns (w: Writer)
    requires FreshTree(root, objs) && TreeOK(root.node) && ValidConfig(c)
    modifies objs
    ensures fresh(w) && w.c == c && w.Valid() && w.entries == objs && w.totalInodes == |objs|
    ensures Represents(objs, ItemsOf(root.node, c))
    ensures forall j :: 0 <= j < |objs| ==> objs[j].dataBlkAddr == 0
    ensures |objs| > 0 && w.rootNid == PlanOf(objs[0]).nid
  {
    hide TreeOK, PlanFrom, Preorder, Parents, Objects, Match, ItemAt, SafeFrom, PowerOfTwo;
    RootIsDir(root);
    w := new Writer(c);
    w.PlanLayout(root, objs);
    FixParentNids(root, root, objs, 0, 0, objs);
    BecomesItems(root, objs, c);
  }

  /** The end of Close: planLayout, fixParentNids, write. */
  method BuildImage(c: Config, root: Entry, out: Sink, ghost objs: seq<Entry>) returns (ok: bool)
    requires FreshTree(root, objs) && TreeOK(root.node) && FitsBlocks(root.node, c) && RunsFull(root.node)
    requires out.contents == []
    modifies objs, out
    ensures ok <==> (forall it <- ItemsOf(root.node, c) :: !ShortItem(it)) && forall d <- c.devices :: d < 0x1_0000_0000
    ensures ok ==> out.contents == TreeOutput(root.node, c)
  {
    hide TreeOK, Planned, PlanFrom, Preorder, Objects, ItemAt, WrittenImage, ShortSource, PowerOfTwo, RunsFull, Represents, FirstRunFull;
    ghost var items := ItemsOf(root.node, c);
    TreePlanned(root.node, c);
    RunsFullItems(root.node, c);
    var w := Prepare(c, root, objs);
    RepresentsAt(objs, items, 0);
    ok := w.Write(out, items);
    ShortItems(objs, items);
  }

  /** A plain file of the tree whose source ends before its size. */
  ghost predicate ShortItem(it: Item) {
    var i := it.node.info;
    it.plan.layout == FLAT_PLAIN && TypeOf(i.mode) == S_REG && i.data.Some? && |i.data.value| < i.size
  }

  lemma ShortItems(objs: seq<Entry>, items: seq<Item>)
    requires Represents(objs, items)
    ensures (forall e <- objs :: !ShortSource(e)) <==> forall it <- items :: !ShortItem(it)
  {
    hide ItemAt, ItemOK, Ready;
    forall k | 0 <= k < |objs|
      ensures ShortSource(objs[k]) <==> ShortItem(items[k])
    {
      RepresentsAt(objs, items, k);
    }
    assert forall k :: 0 <= k < |objs| ==> objs[k] in objs && items[k] in items;
  }

  lemma RootIsDir(root: Entry)
    requires root.Shaped() && TreeOK(root.node)
    ensures IsDir(root.info.mode) && |Objects(root)| > 0 && Objects(root)[0] == root
    ensures |Preorder(root.node)| > 0 && Preorder(root.node)[0] == root.node
  {
  }

  lemma RunsFullItems(root: Node, c: Config)
    requires ValidConfig(c) && RunsFull(root)
    ensures forall it <- ItemsOf(root, c) :: FirstRunFull(it)
  {
    hide Preorder, PlanFrom, EntriesAt;
    var items := ItemsOf(root, c);
    forall it <- items
      ensures FirstRunFull(it)
    {
      var i :| 0 <= i < |items| && items[i] == it;
      assert Preorder(root)[i] in Preorder(root);
    }
  }

  lemma BecomesItems(root: Entry, objs: seq<Entry>, c: Config)
    requires root.Shaped() && objs == Objects(root) && ValidConfig(c)
    requires forall j :: 0 <= j < |objs| ==> PlanOf(objs[j]) == PlanAll(Preorder(root.node), c)[j]
    requires Fixed(objs, 0, Parents(root.node, 0, 0), |objs|)
    ensures Represents(objs, ItemsOf(root.node, c))
  {
    hide Preorder, PlanFrom, Parents, Objects, ItemAt, PlanOf;
    ObjectsList(root);
    forall j | 0 <= j < |objs| && IsDir(objs[j].info.mode)
      ensures Linked(objs, j, Parents(root.node, 0, 0)[j])
    {
      assert Linked(objs, 0 + j, Parents(root.node, 0, 0)[j]);
    }
    forall i | 0 <= i < |objs|
      ensures objs[i].Shaped() && ItemAt(objs[i]) == ItemsOf(root.node, c)[i]
    {
      ObjectsAreItems(root, objs, c, i);
    }
  }

  // ---- What the reader finds ----

  /** What must hold of a tree for every entry to be readable from its image. */
  ghost predicate Readable(root: Node, c: Config) {
    && TreeOK(root) && FitsBlocks(root, c) && !CutOff(ItemsOf(root, c), c)
    && forall i :: 0 <= i < |Preorder(root)| ==> FieldsFit(ItemsOf(root, c)[i], c) && DirReadable(ItemsOf(root, c)[i], c)
  }

  /** The written image opens, and then every theorem about mounted trees applies to it. */
  lemma OutputMounts(root: Node, c: Config, extra: seq<bytes>)
    requires Readable(root, c) && |extra| == |c.devices| <= 65535
    ensures OpenSpec(TreeOutput(root, c), extra).Ok? && c.bs > 0 && ValidConfig(c)
    ensures Mounted(OpenSpec(TreeOutput(root, c), extra).value, SbArea(SuperOf(ItemsOf(root, c), c), c), root, c)
  {
    hide TreeOK, CutOff, FieldsFit, DirReadable, Planned, PlanFrom, Preorder, EntriesAt, Opened, OpenSpec, SbArea, TotalBlocks, OpenedImage, SuperOf, WrittenImage;
    TreePlanned(root, c);
    var items := ItemsOf(root, c);
    OpenWritten(items, c, extra);
    OpenedImageIs(items, c, extra);
    SuperRoot(items, c);
    RootFirst(Preorder(root), c);
  }

  lemma SuperRoot(items: seq<Item>, c: Config)
    requires ValidConfig(c) && items != []
    ensures SuperOf(items, c).rootNid == items[0].plan.nid
  {
    hide TotalBlocks, MetaBlock, AnyChunks, Log2;
  }

  /**
   Write, open, read: a file comes back under its path, byte for byte, when its name and those of its
   directories have no slash and it is within ReadFile's limit. A source that is longer than the file
   is cut off, one that is shorter is continued with zeros.
   */
  lemma WriteOpenRead(root: Node, c: Config, extra: seq<bytes>, i: nat)
    requires Readable(root, c) && |extra| == |c.devices| <= 65535
    requires 0 < i < |Preorder(root)| && Named(PathOf(root, i))
    requires var f := Preorder(root)[i].info;
             && TypeOf(f.mode) == S_REG && f.data.Some? && f.size <= 128 * 1024 * 1024
             && f.chunks == [] && !f.metadataOnly
    ensures OpenSpec(TreeOutput(root, c), extra).Ok?
    ensures BlockSize(OpenSpec(TreeOutput(root, c), extra).value.bs)
    ensures var f := Preorder(root)[i].info;
            FileBytes(OpenSpec(TreeOutput(root, c), extra).value, Join(PathOf(root, i))) == Ok(Fit(f.data.value, f.size))
  {
    hide Readable, OpenSpec, Mounted, Preorder, PathOf, Named, FileBytes, Join, TreeOutput, SbArea, PowerOfTwo;
    ReadableFacts(root, c);
    OutputMounts(root, c, extra);
    var img := OpenSpec(TreeOutput(root, c), extra).value;
    MountedFacts(img, SbArea(SuperOf(ItemsOf(root, c), c), c), root, c);
    FileByPath(img, SbArea(SuperOf(ItemsOf(root, c), c), c), root, c, i);
  }

  lemma ReadableFacts(root: Node, c: Config)
    requires Readable(root, c)
    ensures TreeOK(root) && FitsBlocks(root, c)
  {
  }
}
