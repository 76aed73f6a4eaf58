/**
 Two small trees. One is written, opened and read back; on the other the last inode cannot be read,
 because the reader asks for 64 bytes where the image has only the 32 of a compact inode.
 */
module Examples {
  import opened Bytes
  import opened Order
  import opened Format
  import opened Dirents
  import opened DirReader
  import opened DirList
  import opened Chunks
  import opened Xattrs
  import opened Layout
  import opened Tree
  import opened Inodes
  import opened Placement
  import opened Reader
  import opened RoundTrip
  import opened TreeImage
  import opened Resolve
  import opened TreeResolve
  import opened Superblock
  import opened EndToEnd

  const SETTINGS: Config := Config(512, 3, 0, 0, [])

  function PlainInfo(name: bytes, mode: u16, size: u64, data: Option<bytes>): Info {
    Info(name, mode, 0, 0, 0, 0, 1, size, 0, [], [], false, false, data, map[])
  }

  /** A directory with a 352-byte file "a" and an empty file "z". */
  function Tree3(): Node {
    Node(PlainInfo([47], 0x41ED, 0, None), [FileA(Zeros(352)), FileZ()])
  }

  function FileA(data: bytes): Node { Node(PlainInfo([97], 0x81A4, 352, Some(data)), []) }

  function FileZ(): Node { Node(PlainInfo([122], 0x81A4, 0, None), []) }

  lemma Listed()
    ensures Preorder(Tree3()) == [Tree3(), FileA(Zeros(352)), FileZ()]
  {
    var ts: seq<Node> := [FileA(Zeros(352)), FileZ()];
    assert ts[1..] == [FileZ()];
    var one: seq<Node> := [FileZ()];
    assert one[1..] == [];
    assert PreorderAll(one) == [FileZ()];
    assert PreorderAll(ts) == [FileA(Zeros(352))] + PreorderAll(ts[1..]);
  }

  /** Short directories take one block, exactly as long as headers and names. */
  lemma OneBlockDir(names: seq<bytes>, bs: nat)
    requires names != [] && 0 < Need(names) <= bs
    ensures DirSize(names, bs) == Need(names)
  {
    assert names[..|names|] == names;
    NeedMono(names, 1, |names|);
    FitCountMaximal(names, bs);
    var k := FitCount(names, bs);
    NeedMono(names, if k < |names| then k + 1 else k, |names|);
    assert names[|names|..] == [];
  }

  lemma {:induction false} InsertLen(n: bytes, s: seq<bytes>)
    ensures NameLen(Insert(Same, n, s)) == |n| + NameLen(s)
    ensures |Insert(Same, n, s)| == |s| + 1
  {
    if s == [] || Less(n, s[0]) {
      assert ([n] + s)[1..] == s;
    } else {
      InsertLen(n, s[1..]);
      assert ([s[0]] + Insert(Same, n, s[1..]))[1..] == Insert(Same, n, s[1..]);
    }
  }

  lemma {:induction false} SortLen(s: seq<bytes>)
    ensures NameLen(Sort(Same, s)) == NameLen(s) && |Sort(Same, s)| == |s|
  {
    if s != [] {
      SortLen(s[1..]);
      InsertLen(s[0], Sort(Same, s[1..]));
    }
  }

  lemma RootSize()
    ensures DirDataSize(Tree3(), 512) == 53
  {
    var kids := KidNames(Tree3());
    assert kids == [[97], [122]];
    var all := UnsortedNames(kids);
    assert all == [DOT, DOTDOT, [97], [122]];
    var t1: seq<bytes> := all[1..];
    assert t1 == [DOTDOT, [97], [122]];
    var t2: seq<bytes> := t1[1..];
    assert t2 == [[97], [122]];
    var t3: seq<bytes> := t2[1..];
    assert t3 == [[122]];
    assert NameLen(t3) == 1 && NameLen(t2) == 2 && NameLen(t1) == 4 && NameLen(all) == 5;
    SortLen(all);
    OneBlockDir(NameList(kids), 512);
  }

  lemma SettingsOK()
    ensures ValidConfig(SETTINGS)
  {
    assert PowerOfTwo(512) by {
      assert PowerOfTwo(512 / 2 / 2 / 2) by {
        assert PowerOfTwo(64 / 2 / 2 / 2) by {
          assert PowerOfTwo(8 / 2 / 2);
        }
      }
    }
  }

  /** Planned positions: bytes 0 to 96, 96 to 480, 480 to 512. The file's source does not matter. */
  lemma Plans(data: bytes)
    ensures ValidConfig(SETTINGS)
    ensures PlanOne(Tree3(), 0, SETTINGS) == Plan(0, FLAT_INLINE, true, 0, 53, 0)
    ensures PlanOne(FileA(data), 96, SETTINGS) == Plan(3, FLAT_INLINE, true, 0, 352, 0)
    ensures PlanOne(FileZ(), 480, SETTINGS) == Plan(15, FLAT_PLAIN, true, 0, 0, 0)
  {
    hide PowerOfTwo, DirDataSize, ChunkBitsFor;
    SettingsOK();
    RootSize();
  }

  lemma PlannedList()
    ensures ValidConfig(SETTINGS)
    ensures PlanAll(Preorder(Tree3()), SETTINGS)
         == [Plan(0, FLAT_INLINE, true, 0, 53, 0), Plan(3, FLAT_INLINE, true, 0, 352, 0), Plan(15, FLAT_PLAIN, true, 0, 0, 0)]
  {
    hide PlanOne, PowerOfTwo;
    Plans(Zeros(352));
    Listed();
    var es: seq<Node> := [Tree3(), FileA(Zeros(352)), FileZ()];
    var e1: seq<Node> := es[1..];
    assert e1 == [FileA(Zeros(352)), FileZ()];
    var e2: seq<Node> := e1[1..];
    assert e2 == [FileZ()] && e2[1..] == [];
    assert PlanFrom(e2, 480, SETTINGS) == [Plan(15, FLAT_PLAIN, true, 0, 0, 0)];
    assert PlanFrom(e1, 96, SETTINGS) == [Plan(3, FLAT_INLINE, true, 0, 352, 0)] + PlanFrom(e2, 480, SETTINGS);
  }

  /** The tree is fine for the writer, and its last inode is cut off. */
  lemma LastInodeCutOff()
    ensures TreeOK(Tree3()) && ValidConfig(SETTINGS) && CutOff(ItemsOf(Tree3(), SETTINGS), SETTINGS)
  {
    hide Preorder, PlanFrom, EntriesAt, NodeOK, PowerOfTwo;
    PlannedList();
    Listed();
    Fine();
    var items := ItemsOf(Tree3(), SETTINGS);
    var i1: seq<Item> := items[1..];
    var i2: seq<Item> := i1[1..];
    assert i2 == [items[2]] && i2[1..] == [];
    assert MetaEnd(i2, 480) == 512;
    assert MetaEnd(i1, 96) == 512;
  }

  /** On any image of this tree, reading that inode fails. */
  lemma LastUnreadable(img: Image, sb: bytes, c: Config)
    requires c == SETTINGS && ValidConfig(c) && Opened(img, sb, ItemsOf(Tree3(), c), c)
    ensures BlockSize(img.bs) && ReadInfo(img, 15).Err?
  {
    hide Opened, ReadInfo, CutOff, Preorder, PlanFrom, EntriesAt, InodeAddr, PowerOfTwo, TreeOK;
    LastInodeCutOff();
    PlannedList();
    Listed();
    var items := ItemsOf(Tree3(), c);
    OpenedFacts(img, sb, items, c);
    RoomForInode(img, sb, items, c, 2);
    ReadInfoWindow(img, 15);
  }

  lemma Fine()
    ensures NodeOK(Tree3()) && NodeOK(FileA(Zeros(352))) && NodeOK(FileZ())
  {
    assert KidNames(Tree3()) == [[97], [122]];
    assert Compare([97], [122]) == -1;
  }

  // ---- A tree that comes back ----

  /** A directory with the 352-byte file alone, of any source. */
  function Tree2(data: bytes): Node {
    Node(PlainInfo([47], 0x41ED, 0, None), [FileA(data)])
  }

  lemma Listed2(data: bytes)
    ensures Preorder(Tree2(data)) == [Tree2(data), FileA(data)]
  {
    var ts: seq<Node> := [FileA(data)];
    assert ts[1..] == [];
    assert PreorderAll(ts) == [FileA(data)];
  }

  lemma RootSize2(data: bytes)
    ensures DirDataSize(Tree2(data), 512) == 40
  {
    var kids := KidNames(Tree2(data));
    assert kids == [[97]];
    var all := UnsortedNames(kids);
    assert all == [DOT, DOTDOT, [97]];
    var t1: seq<bytes> := all[1..];
    assert t1 == [DOTDOT, [97]];
    var t2: seq<bytes> := t1[1..];
    assert t2 == [[97]];
    assert NameLen(t2) == 1 && NameLen(t1) == 3 && NameLen(all) == 4;
    SortLen(all);
    OneBlockDir(NameList(kids), 512);
  }

  lemma PlannedList2(data: bytes)
    ensures ValidConfig(SETTINGS)
    ensures PlanAll(Preorder(Tree2(data)), SETTINGS)
         == [Plan(0, FLAT_INLINE, true, 0, 40, 0), Plan(3, FLAT_INLINE, true, 0, 352, 0)]
  {
    hide PowerOfTwo, PlanOne, PlanFrom;
    RootPlan2(data);
    Plans(data);
    Listed2(data);
    TwoPlans(Tree2(data), FileA(data), SETTINGS);
  }

  lemma RootPlan2(data: bytes)
    ensures ValidConfig(SETTINGS) && PlanOne(Tree2(data), 0, SETTINGS) == Plan(0, FLAT_INLINE, true, 0, 40, 0)
  {
    hide PowerOfTwo, DirDataSize, ChunkBitsFor;
    SettingsOK();
    RootSize2(data);
  }

  lemma TwoPlans(a: Node, b: Node, c: Config)
    requires ValidConfig(c)
    ensures var p := PlanOne(a, 0, c);
            PlanAll([a, b], c) == [p, PlanOne(b, End(p), c)]
  {
    hide PlanOne;
    var es: seq<Node> := [a, b];
    var e1: seq<Node> := es[1..];
    assert e1 == [b] && e1[1..] == [];
    var q := PlanOne(b, End(PlanOne(a, 0, c)), c);
    assert PlanFrom(e1, End(PlanOne(a, 0, c)), c) == [q];
    assert PlanFrom(es, 0, c) == [PlanOne(a, 0, c)] + [q];
  }

  lemma ItemsOf2(c: Config, data: bytes)
    requires c == SETTINGS && ValidConfig(c)
    ensures var items := ItemsOf(Tree2(data), c);
            && |items| == 2 && items[0].node == Tree2(data) && items[1].node == FileA(data)
            && items[0].plan == Plan(0, FLAT_INLINE, true, 0, 40, 0) && items[1].plan == Plan(3, FLAT_INLINE, true, 0, 352, 0)
  {
    hide Preorder, PlanFrom, EntriesAt, PowerOfTwo;
    PlannedList2(data);
    Listed2(data);
  }

  lemma Budget2(c: Config, data: bytes)
    requires c == SETTINGS && ValidConfig(c)
    ensures c.bs > 0 && MetaEnd(ItemsOf(Tree2(data), c), 0) == 480 && TotalBlocks(ItemsOf(Tree2(data), c), c) < 0x1_0000_0000
  {
    hide PlanFrom, EntriesAt, PowerOfTwo, Preorder;
    ItemsOf2(c, data);
    var items := ItemsOf(Tree2(data), c);
    var i1: seq<Item> := items[1..];
    assert i1 == [items[1]] && i1[1..] == [];
    assert MetaEnd(i1, 96) == 480;
    assert DataBlocks(i1, c) == 0 && DataBlocks(items, c) == 0;
    assert CeilDiv(480, 512) == 1;
    assert CeilDiv(1152, 512) == 3 by {
      assert CeilDiv(1152 - 512, 512) == 2;
    }
  }

  /** Everything the theorems ask for holds of this tree. */
  lemma SmallTreeReadable(c: Config, data: bytes)
    requires c == SETTINGS && ValidConfig(c)
    ensures Readable(Tree2(data), c)
  {
    hide Preorder, PlanFrom, EntriesAt, NodeOK, PowerOfTwo, MetaEnd, TotalBlocks, DirDataSize;
    ItemsOf2(c, data);
    Budget2(c, data);
    Listed2(data);
    Fine2(data);
    RootSize2(data);
  }

  lemma Fine2(data: bytes)
    ensures NodeOK(Tree2(data)) && NodeOK(FileA(data))
  {
    assert KidNames(Tree2(data)) == [[97]];
  }

  /** The tree can be written, and its output opens and gives these bytes for a name. */
  ghost predicate ReadsBack(root: Node, c: Config, name: bytes, content: bytes) {
    && Readable(root, c)
    && var r := OpenSpec(TreeOutput(root, c), []);
       r.Ok? && BlockSize(r.value.bs) && FileBytes(r.value, name) == Ok(content)
  }

  /**
   The file comes back under its name from the opened output: the source, cut off or continued with
   zeros at 352 bytes.
   */
  lemma SmallTreeReads(c: Config, data: bytes)
    requires c == SETTINGS && ValidConfig(c)
    ensures ReadsBack(Tree2(data), c, [97], Fit(data, 352))
  {
    hide Readable, OpenSpec, TreeOutput, FileBytes, Preorder, PowerOfTwo, PathOf;
    SmallTreeReadable(c, data);
    Listed2(data);
    PathOfA(data);
    WriteOpenRead(Tree2(data), c, [], 1);
  }

  lemma PathOfA(data: bytes)
    ensures |Preorder(Tree2(data))| == 2 && PathOf(Tree2(data), 1) == [[97]] && Named([[97]]) && Join([[97]]) == [97]
  {
    hide Preorder;
    Listed2(data);
    ParentEarlier(Tree2(data), 1);
    assert PathOf(Tree2(data), 0) == [];
  }
}
