/**
 The image as the writer lays it out: superblock area, data blocks, metadata. Every data run and
 every inode region is shown to lie at the address that the plan gives it.
 */
module Placement {
  import opened Bytes
  import opened Format
  import opened Dirents
  import opened Chunks
  import opened Xattrs
  import opened Layout
  import opened Inodes

  /** One entry of the writer's list: the node, its plan and, for a directory, its sorted dirents. */
  datatype Item = Item(node: Node, plan: Plan, entries: seq<Dirent>)

  function PlansOf(items: seq<Item>): (r: seq<Plan>)
    ensures |r| == |items| && forall i :: 0 <= i < |items| ==> r[i] == items[i].plan
  {
    seq(|items|, i requires 0 <= i < |items| => items[i].plan)
  }

  /**
   What the round trip asks of an entry: a file with content has a source or is chunk-based, and
   the dirents carry the names the planner measured.
   */
  ghost predicate ItemOK(it: Item, c: Config)
    requires c.bs > 0
  {
    var i := it.node.info;
    && (TypeOf(i.mode) == S_REG && i.size > 0 && i.data == None ==> i.chunks != [] || i.metadataOnly)
    && (IsDir(i.mode) ==> Names(it.entries) == NameList(KidNames(it.node)))
    && it.plan.xattrSize == XattrSize(i) && it.plan.chunkBits <= 31
    && it.plan.layout in {FLAT_PLAIN, FLAT_INLINE, CHUNK_BASED}
    && (it.plan.layout == CHUNK_BASED ==> TypeOf(i.mode) == S_REG && (i.chunks != [] || i.metadataOnly))
    && (it.plan.layout != CHUNK_BASED && TypeOf(i.mode) == S_REG ==> i.chunks == [] && !i.metadataOnly)
  }

  /** flatPlainDataSize */
  function PlainSize(it: Item, c: Config): nat
    requires c.bs > 0
  {
    var i := it.node.info;
    var t := TypeOf(i.mode);
    if it.plan.layout != FLAT_PLAIN then 0
    else if t == S_REG then (if i.size > 0 && i.data.Some? then i.size else 0)
    else if t == S_DIR then DirDataSize(it.node, c.bs)
    else if t == S_LNK then |i.symTarget|
    else 0
  }

  /** The first n bytes of a source; one that ends early is continued with zeros. */
  function Fit(source: bytes, n: nat): (r: bytes)
    ensures |r| == n
    ensures |source| == n ==> r == source
  {
    if |source| >= n then source[..n] else source + Zeros(n - |source|)
  }

  /** The entry's own bytes: file source, dirents or link target. */
  function Content(it: Item, c: Config): bytes
    requires c.bs > 0
  {
    var i := it.node.info;
    var t := TypeOf(i.mode);
    if t == S_REG then (if i.data.Some? then Fit(i.data.value, i.size) else [])
    else if t == S_DIR then DirBytes(it.entries, c.bs)
    else if t == S_LNK then i.symTarget
    else []
  }

  lemma ContentSize(it: Item, c: Config)
    requires c.bs > 0 && ItemOK(it, c) && it.plan.layout != CHUNK_BASED
    requires TypeOf(it.node.info.mode) in {S_REG, S_DIR, S_LNK}
    ensures |Content(it, c)| == FileSize(it.node, c.bs)
    ensures it.plan.layout == FLAT_PLAIN ==> |Content(it, c)| == PlainSize(it, c)
  {
    DirSizeIsWritten(it.entries, c.bs);
  }

  function Padded(b: bytes, bs: nat): (r: bytes)
    requires bs > 0
    ensures |r| == RoundUp(|b|, bs)
  {
    b + Zeros(RoundUp(|b|, bs) - |b|)
  }

  lemma RoundUpBlocks(x: nat, bs: nat)
    requires bs > 0
    ensures RoundUp(x, bs) == CeilDiv(x, bs) * bs
  {
    CeilDivIsDivision(x, bs);
  }

  // ---- Data blocks ----

  function DataBlocks(items: seq<Item>, c: Config): nat
    requires c.bs > 0
  {
    if items == [] then 0 else CeilDiv(PlainSize(items[0], c), c.bs) + DataBlocks(items[1..], c)
  }

  /** Block address of each entry's data when data starts at block addr; 0 where there is none. */
  function DataAddrs(items: seq<Item>, addr: nat, c: Config): (r: seq<nat>)
    requires c.bs > 0
    ensures |r| == |items|
  {
    if items == [] then []
    else
      var ds := PlainSize(items[0], c);
      [if ds > 0 then addr % 0x1_0000_0000 else 0] + DataAddrs(items[1..], addr + CeilDiv(ds, c.bs), c)
  }

  function PlainBytes(it: Item, c: Config): bytes
    requires c.bs > 0
  {
    if PlainSize(it, c) == 0 then [] else Padded(Content(it, c), c.bs)
  }

  function DataArea(items: seq<Item>, c: Config): bytes
    requires c.bs > 0
  {
    if items == [] then [] else PlainBytes(items[0], c) + DataArea(items[1..], c)
  }

  lemma PlainBytesSize(it: Item, c: Config)
    requires c.bs > 0 && ItemOK(it, c)
    ensures |PlainBytes(it, c)| == CeilDiv(PlainSize(it, c), c.bs) * c.bs
  {
    hide ItemOK, Content, RoundUp, CeilDiv, FileSize;
    if PlainSize(it, c) > 0 {
      PlainSizeKind(it, c);
      ContentSize(it, c);
      RoundUpBlocks(PlainSize(it, c), c.bs);
    } else {
      NothingToStore(c.bs);
    }
  }

  lemma NothingToStore(bs: nat)
    requires bs > 0
    ensures CeilDiv(0, bs) * bs == 0
  {
  }

  lemma PlainSizeKind(it: Item, c: Config)
    requires c.bs > 0 && PlainSize(it, c) > 0
    ensures it.plan.layout == FLAT_PLAIN && TypeOf(it.node.info.mode) in {S_REG, S_DIR, S_LNK}
  {
  }

  lemma Distribute(a: nat, b: nat, m: nat)
    ensures (a + b) * m == a * m + b * m
  {
  }

  lemma {:induction false} DataAreaSize(items: seq<Item>, c: Config)
    requires c.bs > 0 && forall it <- items :: ItemOK(it, c)
    ensures |DataArea(items, c)| == DataBlocks(items, c) * c.bs
  {
    hide ItemOK, PlainBytes, PlainSize;
    if items != [] {
      PlainBytesSize(items[0], c);
      DataAreaSize(items[1..], c);
      Distribute(CeilDiv(PlainSize(items[0], c), c.bs), DataBlocks(items[1..], c), c.bs);
    }
  }

  /** Blocks of data before entry i. */
  function BlocksBefore(items: seq<Item>, i: nat, c: Config): (n: nat)
    requires c.bs > 0 && i <= |items|
  {
    if i == 0 then 0 else CeilDiv(PlainSize(items[0], c), c.bs) + BlocksBefore(items[1..], i - 1, c)
  }

  lemma {:induction false} AddressOf(items: seq<Item>, addr: nat, c: Config, i: nat)
    requires c.bs > 0 && i < |items| && PlainSize(items[i], c) > 0
    requires addr + DataBlocks(items, c) < 0x1_0000_0000
    ensures DataAddrs(items, addr, c)[i] == addr + BlocksBefore(items, i, c)
    decreases i
  {
    hide PlainSize, CeilDiv;
    if i > 0 {
      AddressOf(items[1..], addr + CeilDiv(PlainSize(items[0], c), c.bs), c, i - 1);
    }
  }

  /** Data of entry i lies right after that of the entries before it. */
  lemma {:induction false} DataAt(items: seq<Item>, c: Config, i: nat)
    requires c.bs > 0 && i < |items|
    requires forall it <- items :: ItemOK(it, c)
    ensures At(DataArea(items, c), BlocksBefore(items, i, c) * c.bs, PlainBytes(items[i], c))
    decreases i
  {
    hide ItemOK, PlainBytes, PlainSize, At, CeilDiv;
    PlainBytesSize(items[0], c);
    var head, tail := PlainBytes(items[0], c), DataArea(items[1..], c);
    if i == 0 {
      AtThree([], head, tail);
      assert [] + head + tail == DataArea(items, c);
    } else {
      DataAt(items[1..], c, i - 1);
      var n, m := CeilDiv(PlainSize(items[0], c), c.bs), BlocksBefore(items[1..], i - 1, c);
      Distribute(n, m, c.bs);
      AtShift(head, tail, m * c.bs, PlainBytes(items[i], c));
    }
  }

  lemma AtShift(a: bytes, b: bytes, o: nat, p: bytes)
    requires At(b, o, p)
    ensures At(a + b, |a| + o, p)
  {
    AtThree(a, b, []);
    assert a + b + [] == a + b;
    AtSub(a + b, |a|, b, o, p);
  }

  // ---- Metadata ----

  /** Bytes after inode and xattrs. */
  function TrailingBytes(it: Item, c: Config): bytes
    requires ValidConfig(c)
  {
    var i := it.node.info;
    if it.plan.layout == CHUNK_BASED then
      var cs := EntryChunkSize(it.plan.chunkBits, c);
      if i.size == 0 && i.chunks == [] then []
      else ChunkIndexes(i.chunks, Pow2(EntryChunkBits(it.plan.chunkBits, c)), CeilDiv(i.size, cs))
    else if it.plan.layout == FLAT_INLINE then Content(it, c)
    else []
  }

  ghost function RawRegion(it: Item, addr: nat, c: Config): bytes
    requires ValidConfig(c) && (it.plan.xattrSize == 0 || it.plan.xattrSize >= SIZE_XATTR_HEADER)
  {
    InodeBytes(FieldsOf(it.node, it.plan, addr, c), it.plan.compact) + XattrArea(it.node.info.xattrs) + TrailingBytes(it, c)
  }

  lemma XattrSizeRange(i: Info)
    ensures XattrSize(i) == 0 || XattrSize(i) >= SIZE_XATTR_HEADER
  {
  }

  ghost predicate PlannedTrailing(it: Item, c: Config)
    requires ValidConfig(c)
  {
    it.plan.trailing == Trailing(it.node, it.plan.layout, it.plan.chunkBits, c)
  }

  /** Everything the writer needs of an entry to land it where planned. */
  ghost predicate Ready(it: Item, c: Config) {
    ValidConfig(c) && ItemOK(it, c) && PlannedTrailing(it, c)
    && (it.plan.layout == FLAT_INLINE ==> TypeOf(it.node.info.mode) in {S_REG, S_DIR, S_LNK})
  }

  ghost predicate AllReady(items: seq<Item>, c: Config) {
    ValidConfig(c) && forall it <- items :: Ready(it, c)
  }

  lemma ReadyFacts(it: Item, c: Config)
    requires Ready(it, c)
    ensures ValidConfig(c) && c.bs > 0 && ItemOK(it, c)
    ensures it.plan.xattrSize == XattrSize(it.node.info)
    ensures it.plan.xattrSize == 0 || it.plan.xattrSize >= SIZE_XATTR_HEADER
  {
    XattrSizeRange(it.node.info);
  }

  lemma TrailingSize(it: Item, c: Config)
    requires Ready(it, c)
    ensures |TrailingBytes(it, c)| == it.plan.trailing
  {
    hide FileSize, PowerOfTwo;
    if it.plan.layout == FLAT_INLINE {
      InlineSize(it, c);
    } else if it.plan.layout == CHUNK_BASED {
      assert TypeOf(it.node.info.mode) == S_REG;
    }
  }

  lemma InlineSize(it: Item, c: Config)
    requires Ready(it, c) && it.plan.layout == FLAT_INLINE
    ensures |Content(it, c)| == it.plan.trailing == FileSize(it.node, c.bs)
  {
    ContentSize(it, c);
  }

  lemma RawRegionSize(it: Item, addr: nat, c: Config)
    requires Ready(it, c)
    ensures it.plan.xattrSize == 0 || it.plan.xattrSize >= SIZE_XATTR_HEADER
    ensures |RawRegion(it, addr, c)| == RawSize(it.plan)
  {
    hide Ready, FieldsOf, TrailingBytes;
    ReadyFacts(it, c);
    TrailingSize(it, c);
  }

  /** An inode region: core, xattrs, trailing bytes, padding to 32. */
  ghost function Region(it: Item, addr: nat, c: Config): (r: bytes)
    requires Ready(it, c)
    ensures |r| == RegionSize(it.plan)
  {
    RawRegionSize(it, addr, c);
    var raw := RawRegion(it, addr, c);
    raw + Zeros(RegionSize(it.plan) - |raw|)
  }

  /** The metadata area from offset pos on: gaps are zero-filled, regions follow the plan. */
  ghost function MetaFrom(items: seq<Item>, addrs: seq<nat>, pos: nat, c: Config): (r: bytes)
    requires AllReady(items, c) && |addrs| == |items| && SafeFrom(PlansOf(items), pos, c.bs)
    ensures |r| == MetaEnd(items, pos) - pos
    decreases |items|
  {
    if items == [] then []
    else
      SafeTail(items, pos, c.bs);
      var p := items[0].plan;
      Zeros(Begin(p) - pos) + (Region(items[0], addrs[0], c) + MetaFrom(items[1..], addrs[1..], End(p), c))
  }

  /** Where the metadata of these entries ends. */
  function MetaEnd(items: seq<Item>, pos: nat): nat {
    if items == [] then pos else MetaEnd(items[1..], End(items[0].plan))
  }

  lemma SafeTail(items: seq<Item>, pos: nat, bs: nat)
    requires bs > 0 && items != [] && SafeFrom(PlansOf(items), pos, bs)
    ensures pos <= Begin(items[0].plan)
    ensures SafeFrom(PlansOf(items[1..]), End(items[0].plan), bs)
  {
    assert PlansOf(items)[1..] == PlansOf(items[1..]);
  }

  /** Region i lies at byte nid * 32 of the metadata area. */
  lemma {:induction false} MetaAt(items: seq<Item>, addrs: seq<nat>, pos: nat, c: Config, i: nat)
    requires AllReady(items, c) && |addrs| == |items| && SafeFrom(PlansOf(items), pos, c.bs) && i < |items|
    ensures pos <= Begin(items[i].plan)
    ensures Ready(items[i], c)
    ensures At(MetaFrom(items, addrs, pos, c), Begin(items[i].plan) - pos, Region(items[i], addrs[i], c))
    decreases i
  {
    hide Region, Ready, At, SafeFrom, MetaFrom;
    SafeTail(items, pos, c.bs);
    RestReady(items, c);
    var p := items[0].plan;
    if i == 0 {
      FirstRegion(items, addrs, pos, c);
    } else {
      MetaAt(items[1..], addrs[1..], End(p), c, i - 1);
      LaterRegion(items, addrs, pos, c, Begin(items[i].plan) - End(p), Region(items[i], addrs[i], c));
    }
  }

  lemma RestReady(items: seq<Item>, c: Config)
    requires AllReady(items, c) && items != []
    ensures AllReady(items[1..], c) && Ready(items[0], c)
  {
    hide Ready;
  }

  lemma FirstRegion(items: seq<Item>, addrs: seq<nat>, pos: nat, c: Config)
    requires AllReady(items, c) && |addrs| == |items| > 0 && SafeFrom(PlansOf(items), pos, c.bs)
    ensures pos <= Begin(items[0].plan) && Ready(items[0], c)
    ensures At(MetaFrom(items, addrs, pos, c), Begin(items[0].plan) - pos, Region(items[0], addrs[0], c))
  {
    hide Region, Ready, At, SafeFrom;
    SafeTail(items, pos, c.bs);
    RestReady(items, c);
    var p := items[0].plan;
    AtConcat(Zeros(Begin(p) - pos), Region(items[0], addrs[0], c), MetaFrom(items[1..], addrs[1..], End(p), c));
  }

  /** What lies in the area of the later entries lies in the whole area, behind the first entry. */
  lemma LaterRegion(items: seq<Item>, addrs: seq<nat>, pos: nat, c: Config, o: nat, b: bytes)
    requires AllReady(items, c) && |addrs| == |items| > 0 && SafeFrom(PlansOf(items), pos, c.bs)
    requires AllReady(items[1..], c) && SafeFrom(PlansOf(items[1..]), End(items[0].plan), c.bs)
    requires At(MetaFrom(items[1..], addrs[1..], End(items[0].plan), c), o, b)
    ensures pos <= Begin(items[0].plan) <= End(items[0].plan)
    ensures At(MetaFrom(items, addrs, pos, c), End(items[0].plan) - pos + o, b)
  {
    hide *;
    MetaUnfold(items, addrs, pos, c);
    var p := items[0].plan;
    var gap, head, tail := Zeros(Begin(p) - pos), Region(items[0], addrs[0], c), MetaFrom(items[1..], addrs[1..], End(p), c);
    AtShift(head, tail, o, b);
    AtShift(gap, head + tail, |head| + o, b);
  }

  lemma MetaUnfold(items: seq<Item>, addrs: seq<nat>, pos: nat, c: Config)
    requires AllReady(items, c) && |addrs| == |items| > 0 && SafeFrom(PlansOf(items), pos, c.bs)
    requires AllReady(items[1..], c) && SafeFrom(PlansOf(items[1..]), End(items[0].plan), c.bs)
    ensures pos <= Begin(items[0].plan) <= End(items[0].plan) && Ready(items[0], c)
    ensures |Zeros(Begin(items[0].plan) - pos)| == Begin(items[0].plan) - pos
    ensures |Region(items[0], addrs[0], c)| == End(items[0].plan) - Begin(items[0].plan)
    ensures MetaFrom(items, addrs, pos, c)
         == Zeros(Begin(items[0].plan) - pos) + (Region(items[0], addrs[0], c) + MetaFrom(items[1..], addrs[1..], End(items[0].plan), c))
  {
    hide Region, Ready, SafeFrom;
    SafeTail(items, pos, c.bs);
    RestReady(items, c);
  }

  // ---- The image ----

  /** sbAreaSize in blocks: 1024 bytes, superblock, device slots. */
  function SbBlocks(c: Config): nat
    requires c.bs > 0
  {
    CeilDiv(SUPER_OFFSET + SIZE_SUPER + |c.devices| * SIZE_DEVICE_SLOT, c.bs)
  }

  /** An entry list with its plan: the input of the three write passes. */
  ghost predicate Planned(items: seq<Item>, c: Config) {
    && AllReady(items, c)
    && SafeFrom(PlansOf(items), 0, c.bs)
    && SbBlocks(c) + DataBlocks(items, c) + CeilDiv(MetaEnd(items, 0), c.bs) < 0x1_0000_0000
  }

  function MetaBlock(items: seq<Item>, c: Config): nat
    requires c.bs > 0
  {
    SbBlocks(c) + DataBlocks(items, c)
  }

  function TotalBlocks(items: seq<Item>, c: Config): nat
    requires c.bs > 0
  {
    SbBlocks(c) + CeilDiv(MetaEnd(items, 0), c.bs) + DataBlocks(items, c)
  }

  ghost function MetaArea(items: seq<Item>, c: Config): bytes
    requires Planned(items, c)
  {
    Padded(MetaFrom(items, DataAddrs(items, SbBlocks(c), c), 0, c), c.bs)
  }

  ghost function ImageBytes(sb: bytes, items: seq<Item>, c: Config): bytes
    requires Planned(items, c) && |sb| == SbBlocks(c) * c.bs
  {
    sb + DataArea(items, c) + MetaArea(items, c)
  }

  lemma PlannedFacts(items: seq<Item>, c: Config)
    requires Planned(items, c)
    ensures AllReady(items, c) && ValidConfig(c) && c.bs > 0
    ensures SafeFrom(PlansOf(items), 0, c.bs)
    ensures forall it <- items :: ItemOK(it, c) && Ready(it, c)
    ensures TotalBlocks(items, c) < 0x1_0000_0000
  {
  }

  /** The superblock's block total times the block size is the length of the image. */
  lemma ImageLength(sb: bytes, items: seq<Item>, c: Config)
    requires Planned(items, c) && |sb| == SbBlocks(c) * c.bs
    ensures |ImageBytes(sb, items, c)| == TotalBlocks(items, c) * c.bs
    ensures |ImageBytes(sb, items, c)| % c.bs == 0
  {
    hide ItemOK, Ready, CeilDiv, DataArea, DataBlocks, MetaEnd, MetaFrom, SbBlocks, RoundUp;
    PlannedFacts(items, c);
    DataAreaSize(items, c);
    RoundUpBlocks(MetaEnd(items, 0), c.bs);
    var s, d, m := SbBlocks(c), DataBlocks(items, c), CeilDiv(MetaEnd(items, 0), c.bs);
    Distribute(s + m, d, c.bs);
    Distribute(s, m, c.bs);
    MulMod(TotalBlocks(items, c), c.bs);
  }

  /** First byte of an entry's data blocks. */
  ghost function DataStart(items: seq<Item>, c: Config, i: nat): (r: nat)
    requires c.bs > 0 && i < |items|
  {
    var blk: nat := DataAddrs(items, SbBlocks(c), c)[i];
    MulMono(0, blk, c.bs);
    blk * c.bs
  }

  /** Plain data in the image: at the entry's block address. */
  lemma DataInImage(sb: bytes, items: seq<Item>, c: Config, i: nat)
    requires Planned(items, c) && |sb| == SbBlocks(c) * c.bs
    requires i < |items| && PlainSize(items[i], c) > 0
    ensures At(ImageBytes(sb, items, c), DataStart(items, c, i), Content(items[i], c))
  {
    hide *;
    PlannedFacts(items, c);
    BlockBudget(items, c);
    DataStartIs(items, c, i);
    ImageParts(sb, items, c);
    var s, n := SbBlocks(c), BlocksBefore(items, i, c);
    AddressOf(items, s, c, i);
    DataAt(items, c, i);
    Distribute(s, n, c.bs);
    AtShift(sb, DataArea(items, c), n * c.bs, PlainBytes(items[i], c));
    AtExtend(sb + DataArea(items, c), MetaArea(items, c), (s + n) * c.bs, PlainBytes(items[i], c));
    PlainBytesIs(items[i], c);
    var content := Content(items[i], c);
    AtFront(ImageBytes(sb, items, c), (s + n) * c.bs, content, Zeros(RoundUp(|content|, c.bs) - |content|));
  }

  lemma DataStartIs(items: seq<Item>, c: Config, i: nat)
    requires c.bs > 0 && i < |items|
    ensures DataStart(items, c, i) == DataAddrs(items, SbBlocks(c), c)[i] * c.bs
  {
    hide DataAddrs, SbBlocks;
  }

  lemma BlockBudget(items: seq<Item>, c: Config)
    requires Planned(items, c)
    ensures c.bs > 0 && SbBlocks(c) + DataBlocks(items, c) < 0x1_0000_0000
  {
  }

  lemma ImageParts(sb: bytes, items: seq<Item>, c: Config)
    requires Planned(items, c) && |sb| == SbBlocks(c) * c.bs
    ensures c.bs > 0 && SafeFrom(PlansOf(items), 0, c.bs) && AllReady(items, c)
    ensures ImageBytes(sb, items, c) == sb + DataArea(items, c) + MetaArea(items, c)
    ensures var meta := MetaFrom(items, DataAddrs(items, SbBlocks(c), c), 0, c);
            MetaArea(items, c) == meta + Zeros(RoundUp(|meta|, c.bs) - |meta|)
  {
    hide Ready, SafeFrom, MetaFrom, DataArea, DataAddrs, DataBlocks, SbBlocks, MetaEnd, RoundUp, CeilDiv, PlansOf, Zeros;
  }

  lemma PlainBytesIs(it: Item, c: Config)
    requires c.bs > 0 && PlainSize(it, c) > 0
    ensures var content := Content(it, c);
            PlainBytes(it, c) == content + Zeros(RoundUp(|content|, c.bs) - |content|)
  {
  }

  lemma AtExtend(a: bytes, b: bytes, o: nat, p: bytes)
    requires At(a, o, p)
    ensures At(a + b, o, p)
  {
  }

  lemma AtFront(b: bytes, o: nat, x: bytes, y: bytes)
    requires At(b, o, x + y)
    ensures At(b, o, x)
  {
    AtThree([], x, y);
    assert [] + x + y == x + y;
    AtSub(b, o, x + y, 0, x);
  }

  /** An entry's region lies in b at offset o. */
  ghost predicate RegionAt(b: bytes, o: nat, it: Item, addr: nat, c: Config) {
    Ready(it, c) && At(b, o, Region(it, addr, c))
  }

  function RegionOffset(items: seq<Item>, i: nat, c: Config): nat
    requires c.bs > 0 && i < |items|
  {
    MetaBlock(items, c) * c.bs + Begin(items[i].plan)
  }

  /** Metadata in the image: region i at metaBlkAddr * bs + nid * 32. */
  lemma RegionInImage(sb: bytes, items: seq<Item>, c: Config, i: nat)
    requires Planned(items, c) && |sb| == SbBlocks(c) * c.bs && i < |items|
    ensures RegionAt(ImageBytes(sb, items, c), RegionOffset(items, i, c), items[i], DataAddrs(items, SbBlocks(c), c)[i], c)
  {
    hide *;
    PlannedFacts(items, c);
    ImageParts(sb, items, c);
    var addrs := DataAddrs(items, SbBlocks(c), c);
    var meta := MetaFrom(items, addrs, 0, c);
    MetaAt(items, addrs, 0, c, i);
    var r := Region(items[i], addrs[i], c);
    var o := Begin(items[i].plan);
    AtExtend(meta, Zeros(RoundUp(|meta|, c.bs) - |meta|), o, r);
    DataAreaSize(items, c);
    Distribute(SbBlocks(c), DataBlocks(items, c), c.bs);
    AtShift(sb + DataArea(items, c), MetaArea(items, c), o, r);
    MetaBlockIs(items, c);
    RegionIsAt(ImageBytes(sb, items, c), items, c, i, o);
  }

  lemma MetaBlockIs(items: seq<Item>, c: Config)
    requires c.bs > 0
    ensures MetaBlock(items, c) == SbBlocks(c) + DataBlocks(items, c)
  {
  }

  lemma RegionIsAt(b: bytes, items: seq<Item>, c: Config, i: nat, o: nat)
    requires c.bs > 0 && i < |items| && o == Begin(items[i].plan) && Ready(items[i], c)
    requires At(b, MetaBlock(items, c) * c.bs + o, Region(items[i], DataAddrs(items, SbBlocks(c), c)[i], c))
    ensures RegionAt(b, RegionOffset(items, i, c), items[i], DataAddrs(items, SbBlocks(c), c)[i], c)
  {
  }

  /** The parts of a region, addressed from its start. */
  lemma RegionParts(b: bytes, o: nat, it: Item, addr: nat, c: Config)
    requires RegionAt(b, o, it, addr, c)
    ensures c.bs > 0 && (it.plan.xattrSize == 0 || it.plan.xattrSize >= SIZE_XATTR_HEADER)
    ensures At(b, o, InodeBytes(FieldsOf(it.node, it.plan, addr, c), it.plan.compact))
    ensures At(b, o + CoreSize(it.plan.compact), XattrArea(it.node.info.xattrs))
    ensures ValidConfig(c) && At(b, o + CoreSize(it.plan.compact) + it.plan.xattrSize, TrailingBytes(it, c))
  {
    hide Ready, At, FieldsOf, XattrArea, TrailingBytes, RegionSize, ValidConfig;
    ReadyFacts(it, c);
    RawRegionSize(it, addr, c);
    var raw := RawRegion(it, addr, c);
    AtFront(b, o, raw, Zeros(RegionSize(it.plan) - |raw|));
    AtParts(b, o, InodeBytes(FieldsOf(it.node, it.plan, addr, c), it.plan.compact), XattrArea(it.node.info.xattrs), TrailingBytes(it, c));
    XattrSizeIs(it.node.info);
  }

  lemma XattrSizeIs(i: Info)
    ensures XattrSize(i) == |XattrArea(i.xattrs)|
  {
  }
}
