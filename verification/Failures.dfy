/** Inputs on which the program falls short of what it is for, one for each exact condition that needs one. */
module Failures {
  import opened Bytes
  import opened Order
  import opened Format
  import opened Dirents
  import opened DirReader
  import DirList
  import ChunkCopy
  import opened Chunks
  import opened Layout
  import opened Tree
  import opened Inodes
  import opened Placement
  import opened Reader
  import opened RoundTrip
  import opened TreeImage
  import opened Superblock
  import opened EndToEnd
  import opened Examples

  // ---- A device of eight blocks ----

  const DATA: bytes := [120]

  const ONE_DEVICE: Config := SETTINGS.(devices := [8])

  lemma {:induction false} PlanIgnoresDevices(es: seq<Node>, off: nat, c: Config, devices: seq<u64>)
    requires ValidConfig(c)
    ensures ValidConfig(c.(devices := devices)) && PlanFrom(es, off, c.(devices := devices)) == PlanFrom(es, off, c)
    decreases |es|
  {
    hide PlanOne;
    if es != [] {
      OneIgnoresDevices(es[0], off, c, devices);
      PlanIgnoresDevices(es[1..], End(PlanOne(es[0], off, c)), c, devices);
    }
  }

  lemma OneIgnoresDevices(n: Node, off: nat, c: Config, devices: seq<u64>)
    requires ValidConfig(c)
    ensures ValidConfig(c.(devices := devices)) && PlanOne(n, off, c.(devices := devices)) == PlanOne(n, off, c)
  {
    hide PowerOfTwo, FirstLayout, Trailing, PlannedChunkBits, AlignCore, SettledLayout, XattrSize;
    FirstIgnoresDevices(n, off, CoreSize(FitsCompact(n.info, c)) + XattrSize(n.info), c, devices);
    var first := FirstLayout(n, off, CoreSize(FitsCompact(n.info, c)) + XattrSize(n.info), c);
    var bits := PlannedChunkBits(n, first, c);
    TrailingIgnoresDevices(n, first, bits, c, devices);
    TrailingIgnoresDevices(n, PlanOne(n, off, c).layout, bits, c, devices);
  }

  lemma FirstIgnoresDevices(n: Node, off: nat, header: nat, c: Config, devices: seq<u64>)
    requires ValidConfig(c)
    ensures FirstLayout(n, off, header, c.(devices := devices)) == FirstLayout(n, off, header, c)
    ensures forall l: nat :: PlannedChunkBits(n, l, c.(devices := devices)) == PlannedChunkBits(n, l, c)
  {
    hide PowerOfTwo, DirDataSize, ChunkBitsFor;
  }

  lemma TrailingIgnoresDevices(n: Node, layout: nat, bits: nat, c: Config, devices: seq<u64>)
    requires ValidConfig(c)
    ensures Trailing(n, layout, bits, c.(devices := devices)) == Trailing(n, layout, bits, c)
  {
    hide PowerOfTwo, DirDataSize, CeilDiv;
  }

  lemma ItemsOfDevice()
    ensures ValidConfig(SETTINGS) && ValidConfig(ONE_DEVICE)
    ensures var items := ItemsOf(Tree2(DATA), ONE_DEVICE);
            && |items| == 2 && items[0].node == Tree2(DATA) && items[1].node == FileA(DATA)
            && items[0].plan == Plan(0, FLAT_INLINE, true, 0, 40, 0) && items[1].plan == Plan(3, FLAT_INLINE, true, 0, 352, 0)
  {
    hide Preorder, PlanFrom, EntriesAt, PowerOfTwo;
    SettingsOK();
    ItemsOf2(SETTINGS, DATA);
    PlanIgnoresDevices(Preorder(Tree2(DATA)), 0, SETTINGS, [8]);
  }

  lemma FitsDevice()
    ensures FitsBlocks(Tree2(DATA), ONE_DEVICE) && TreeOK(Tree2(DATA))
  {
    hide PlanFrom, EntriesAt, PowerOfTwo, Preorder, NodeOK;
    ItemsOfDevice();
    Listed2(DATA);
    Fine2(DATA);
    var items := ItemsOf(Tree2(DATA), ONE_DEVICE);
    var i1: seq<Item> := items[1..];
    assert i1 == [items[1]] && i1[1..] == [];
    assert MetaEnd(i1, 96) == 480;
    assert DataBlocks(i1, ONE_DEVICE) == 0 && DataBlocks(items, ONE_DEVICE) == 0;
    assert CeilDiv(480, 512) == 1;
    assert CeilDiv(1280, 512) == 3 by {
      assert CeilDiv(1280 - 512, 512) == 2;
    }
  }

  /** A written tree with a device of 8 blocks opens with a device of another size. */
  lemma DeviceShrinks(content: bytes)
    ensures TreeOK(Tree2(DATA)) && FitsBlocks(Tree2(DATA), ONE_DEVICE) && ValidConfig(ONE_DEVICE)
    ensures var r := OpenSpec(TreeOutput(Tree2(DATA), ONE_DEVICE), [content]);
            r.Ok? && |r.value.devices| == 1 && r.value.devices[0].blocks != ONE_DEVICE.devices[0]
  {
    hide Planned, WrittenImage, OpenSpec, TreeOK, FitsBlocks, Preorder, PlanFrom, PowerOfTwo;
    FitsDevice();
    TreePlanned(Tree2(DATA), ONE_DEVICE);
    DeviceBlocksSurvive(ItemsOf(Tree2(DATA), ONE_DEVICE), ONE_DEVICE, [content]);
    assert 8 in ONE_DEVICE.devices;
  }

  // ---- A chunk of 65536 blocks ----

  /** One index for a chunk of 65536 blocks at block 0 is parsed as a run of no blocks. */
  lemma HugeChunk(mask: nat)
    ensures HoleFree(Zeros(8), 1, mask) && ParsedChunks(Zeros(8), 1, 65536, mask) == [Chunk(0, 0, 0)]
    ensures !Faithful(ParsedChunks(Zeros(8), 1, 65536, mask), Zeros(8), 65536, 1, mask)
  {
    hide Faithful;
    ZeroIndex(mask);
    assert ParsedChunks(Zeros(8), 0, 65536, mask) == [];
    ParsedExact(Zeros(8), 1, 65536, mask);
  }

  /** A hole before a chunk: the chunk moves to the front. */
  lemma HoleInside(mask: nat)
    ensures var data := IndexBytes(None) + IndexBytes(Some(Loc(5, 1)));
            !Faithful(ParsedChunks(data, 2, 1, mask), data, 1, 2, mask)
  {
    hide IndexBytes, Faithful, ParsedChunks, Get16, Get32;
    var data := IndexBytes(None) + IndexBytes(Some(Loc(5, 1)));
    HoleDecodes(data, mask);
    ParsedExact(data, 2, 1, mask);
    forall k: nat
      ensures !HolesFrom(data, k, 2, mask)
    {
      assert ParseIndex(data, 0, mask) == None && ParseIndex(data, 1, mask).Some?;
    }
  }

  lemma HoleDecodes(data: bytes, mask: nat)
    requires data == IndexBytes(None) + IndexBytes(Some(Loc(5, 1)))
    ensures ParseIndex(data, 0, mask) == None && ParseIndex(data, 1, mask).Some?
  {
    hide U16, U32, Get16, Get32;
    var none: Option<Loc> := None;
    AtThree(U16(0xFFFF) + U16(0), U32(NULL_ADDR), IndexBytes(Some(Loc(5, 1))));
    LoadStored32(data, 4, NULL_ADDR);
    AtThree(IndexBytes(none) + (U16(0) + U16(1)), U32(5), []);
    assert data == IndexBytes(none) + (U16(5 / 0x1_0000_0000) + U16(1)) + U32(5) + [];
    LoadStored32(data, 12, 5);
  }

  // ---- A chunk-based file of two runs ----

  /** Copied as one chunk of two blocks, it has its second block looked up behind the first. */
  lemma TwoRuns()
    ensures var chunks := [Chunk(10, 1, 1), Chunk(20, 1, 1)];
            && !ChunkCopy.OneRun(chunks, 2) && ChunkBitsFor(512, 0, 1024) == 1
            && Locate(chunks, 1) == Some(Loc(20, 1)) && Chunks.Resolve(chunks, Pow2(1), 1) == Some(Loc(11, 1))
  {
    var chunks := [Chunk(10, 1, 1), Chunk(20, 1, 1)];
    assert chunks[1..] == [Chunk(20, 1, 1)];
    assert Pow2(1) == 2 && Pow2(0) == 1;
    DivUnique(1, 2, 0, 1);
    assert Locate(chunks, 0) == Some(Loc(10, 1));
    assert Locate(chunks, 1) != Shift(Locate(chunks, 0), 1);
  }

  lemma ZeroIndex(mask: nat)
    ensures ParseIndex(Zeros(8), 0, mask) == Some(Index(0, 0))
  {
    ZeroWord(Zeros(8), 0, 8, 0);
    ZeroWord(Zeros(8), 0, 8, 2);
    ZeroWord(Zeros(8), 0, 8, 4);
  }

  // ---- A source that ends early ----

  /** A file of 1024 bytes with a source of 10. */
  function ShortFile(): Node { Node(PlainInfo([115], 0x81A4, 1024, Some(Zeros(10))), []) }

  /** It is laid out plain, so that writing any tree that plans it so fails. */
  lemma ShortPlain(entries: seq<Dirent>)
    ensures ValidConfig(SETTINGS) && ShortItem(Item(ShortFile(), PlanOne(ShortFile(), 96, SETTINGS), entries))
  {
    hide PowerOfTwo, DirDataSize, ChunkBitsFor;
    SettingsOK();
  }

  /** An inline file of 352 bytes with a source of one: it is written, and reads back as that byte and zeros. */
  lemma ShortInline(c: Config)
    requires c == SETTINGS && ValidConfig(c)
    ensures |DATA| == 1 && ReadsBack(Tree2(DATA), c, [97], DATA + Zeros(351))
    ensures forall it <- ItemsOf(Tree2(DATA), c) :: !ShortItem(it)
  {
    hide ReadsBack, Zeros, PowerOfTwo, Preorder, PlanFrom, EntriesAt;
    SmallTreeReads(c, DATA);
    ItemsOf2(c, DATA);
  }

  // ---- A build time with nanoseconds ----

  const NANOSECONDS: Config := SETTINGS.(buildTimeNs := 1)

  /** An empty file of the build time's second comes back a nanosecond later. */
  lemma NanosecondGained(img: Image, dataAddr: nat)
    requires img.buildTime == 0 && img.buildTimeNs == 1
    ensures ValidConfig(NANOSECONDS) && PlanOne(FileZ(), 0, NANOSECONDS).compact && NANOSECONDS.bs > 0
    ensures var p := PlanOne(FileZ(), 0, NANOSECONDS);
            var f := FieldsOf(FileZ(), p, dataAddr, NANOSECONDS);
            f.mtimeNs == 0 && Decoded(img, p.nid, f, p.compact).mtimeNs == 1
  {
    hide PowerOfTwo, DirDataSize, ChunkBitsFor;
    SettingsOK();
  }

  // ---- A full directory block of 64 KiB ----

  /** A name of 255 bytes, none of them zero or a slash; the first byte tells the names apart. */
  function LongName(i: nat): (n: bytes)
    requires i < 250
    ensures |n| == 255 && n[0] == (if i < 46 then i + 1 else i + 2) as byte && 0 !in n && 47 !in n
  {
    [(if i < 46 then i + 1 else i + 2) as byte] + seq(254, _ => 97)
  }

  /** A directory of 250 such files. */
  function LongKids(): (ds: seq<Dirent>)
    ensures |ds| == 250 && forall i :: 0 <= i < 250 ==> ds[i] == Dirent(LongName(i), 0, 1)
  {
    seq(250, i requires 0 <= i < 250 => Dirent(LongName(i), 0, 1))
  }

  lemma LongKidsValid()
    ensures DirList.ValidChildren(LongKids()) && forall n <- Names(LongKids()) :: |n| == 255
  {
    hide LongName;
    var names := Names(LongKids());
    forall i, j | 0 <= i < j < |names|
      ensures Less(names[i], names[j])
    {
      FirstDiffers(names[i], names[j]);
    }
  }

  lemma FirstDiffers(a: bytes, b: bytes)
    requires a != [] && b != [] && a[0] < b[0]
    ensures Less(a, b)
  {
  }

  lemma {:induction false} LongLen(names: seq<bytes>)
    requires forall n <- names :: |n| == 255
    ensures NameLen(names) == 255 * |names|
  {
    if names != [] {
      assert names[0] in names;
      assert forall n <- names[1..] :: n in names;
      LongLen(names[1..]);
    }
  }

  lemma EntryListLen(self: u64, parent: u64, kids: seq<Dirent>)
    ensures Need(Names(EntryList(self, parent, kids))) == SIZE_DIRENT * (|kids| + 2) + 3 + NameLen(Names(kids))
  {
    hide Sort, NameLen;
    var all := Unsorted(self, parent, kids);
    SortNames(all);
    SortLen(Names(all));
    SortElements(NameOf, all);
    assert Names(all) == [DOT, DOTDOT] + Names(kids);
    NameLenConcat([DOT, DOTDOT], Names(kids));
    FewNames(DOT, DOTDOT);
  }

  /** With the two dot entries it needs more than 64 KiB. */
  lemma LongNeed(self: u64, parent: u64)
    ensures ValidNames(Names(EntryList(self, parent, LongKids()))) && Need(Names(EntryList(self, parent, LongKids()))) > 0x1_0000
  {
    hide EntryList, LongKids, ValidNames, Need, NameLen;
    LongKidsValid();
    DirList.VisibleIsChildren(self, parent, LongKids());
    EntryListLen(self, parent, LongKids());
    LongLen(Names(LongKids()));
  }

  lemma FirstFull(ds: seq<Dirent>)
    requires ValidNames(Names(ds)) && Need(Names(ds)) > 0x1_0000
    ensures 0 < |Blocks(ds, 0x1_0000)| && Full(ds, 0x1_0000, 0)
  {
    hide Need, FitCount, ValidNames, Blocks, Head, Rest, DirBytes, PaddedBlock;
    NoNeed(ds);
    Unroll(ds, 0x1_0000);
    HeadFacts(ds, 0x1_0000);
    if Rest(ds, 0x1_0000) == [] {
      WholeHead(ds, 0x1_0000);
    }
  }

  lemma NoNeed(ds: seq<Dirent>)
    ensures ds == [] ==> Need(Names(ds)) == 0
  {
  }

  lemma WholeHead(ds: seq<Dirent>, bs: nat)
    requires ds != [] && Rest(ds, bs) == []
    ensures Head(ds, bs) == ds
  {
    hide FitCount;
  }

  /** Written in 64 KiB blocks, this directory has an entry that no lookup finds: the answer is a format error. */
  lemma FullBlock(img: Image, nid: nat, self: u64, parent: u64) returns (name: bytes)
    requires img.bs == 0x1_0000 && BlockSize(img.bs) && ReadInfo(img, nid).Ok?
    requires Stored(img, ReadInfo(img, nid).value, DirBytes(EntryList(self, parent, LongKids()), img.bs))
    ensures Find(EntryList(self, parent, LongKids()), name).Ok? && LookupSpec(img, nid, name) == Err(Invalid)
  {
    hide Stored, ReadInfo, LookupSpec, EntryList, LongKids, Full, Missed, Find, ValidNames, Need, Blocks, DirBytes, PowerOfTwo;
    LongNeed(self, parent);
    var ds := EntryList(self, parent, LongKids());
    FirstFull(ds);
    name := FullMisses(ds, 0x1_0000, 0);
    LookupExact(img, nid, ds, name);
  }
}
