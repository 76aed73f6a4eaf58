/** Reading chunk-based files: the indexes the writer emitted, resolved block by block. */
module ChunkReader {
  import opened Bytes
  import opened Format
  import opened Chunks
  import opened Reader
  import opened Inodes
  import opened Layout
  import opened Placement
  import opened RoundTrip

  /**
   The reader aligns the index array to 8 bytes, the writer does not: they agree exactly when inode
   and xattrs together are a multiple of 8.
   */
  lemma IndexBaseAgrees(img: Image, ino: Inode)
    requires BlockSize(img.bs)
    ensures IndexBase(img, ino) == InodeAddr(img, ino.nid) + ino.icsize + ino.xsize
            <==> (ino.icsize + ino.xsize) % 8 == 0
  {
    hide InodeAddr, RoundUp, BlockSize;
    InodeAligned(img, ino.nid);
    RoundUpEight(InodeAddr(img, ino.nid), ino.icsize + ino.xsize);
  }

  lemma InodeAligned(img: Image, nid: nat)
    requires BlockSize(img.bs)
    ensures InodeAddr(img, nid) % 8 == 0
  {
    hide BlockSize;
    BlockSizeAligned(img.bs);
    MultipleOf32(img.metaBlkAddr, img.bs);
    SumMod32(img.metaBlkAddr * img.bs, nid);
  }

  lemma SumMod32(x: nat, nid: nat)
    requires x % 32 == 0
    ensures (x + nid * 32) % 8 == 0
  {
  }

  lemma RoundUpEight(a: nat, h: nat)
    requires a % 8 == 0
    ensures RoundUp(a + h, 8) == a + h <==> h % 8 == 0
    ensures h % 8 == 4 ==> RoundUp(a + h, 8) == a + h + 4
  {
    SumMod8(a, h);
  }

  lemma SumMod8(a: nat, b: nat)
    requires a % 8 == 0
    ensures (a + b) % 8 == 0 <==> b % 8 == 0
  {
  }

  /** One attribute with a 5-byte entry already breaks the agreement for a compact inode. */
  lemma MisalignedIndexes(img: Image, ino: Inode)
    requires BlockSize(img.bs) && ino.icsize == SIZE_COMPACT && ino.xsize == SIZE_XATTR_HEADER + 8
    ensures IndexBase(img, ino) == InodeAddr(img, ino.nid) + ino.icsize + ino.xsize + 4
  {
    hide InodeAddr, RoundUp, BlockSize;
    InodeAligned(img, ino.nid);
    RoundUpEight(InodeAddr(img, ino.nid), ino.icsize + ino.xsize);
  }

  /** A location that a 32-bit index can express and the device mask keeps. */
  predicate Expressible(l: Option<Loc>, mask: nat) {
    l.Some? ==> l.value.phys < NULL_ADDR && l.value.dev <= mask
  }

  /** What the reader decodes from a written index. */
  function EntryFor(l: Option<Loc>): Option<(u32, nat)>
    requires l.Some? ==> l.value.phys < NULL_ADDR
  {
    match l
    case None => None
    case Some(Loc(p, d)) => Some((p, d))
  }

  lemma IndexDecodes(b: bytes, l: Option<Loc>, mask: nat)
    requires b == IndexBytes(l) && Expressible(l, mask)
    ensures l == None ==> Get32(b, 4) == NULL_ADDR
    ensures l.Some? ==> Get32(b, 4) == l.value.phys && Get16(b, 2) % (mask + 1) == l.value.dev
  {
    hide U16, U32, Get16, Get32;
    match l {
      case None =>
        AtThree(U16(0xFFFF), U16(0), U32(NULL_ADDR));
        LoadStored32(b, 4, NULL_ADDR);
      case Some(Loc(p, d)) =>
        AtThree(U16(p / 0x1_0000_0000), U16(d), U32(p));
        LoadStored32(b, 4, p);
        LoadStored16(b, 2, d);
        SmallMod(d, mask + 1);
    }
  }

  lemma SmallMod(x: nat, m: nat)
    requires x < m
    ensures x % m == x
  {
  }

  /** The image holds the index array of a chunk list where the reader looks for it. */
  ghost predicate HoldsIndexes(img: Image, ino: Inode, chunks: seq<Chunk>, bpc: nat, n: nat) {
    At(img.meta, IndexBase(img, ino), ChunkIndexes(chunks, bpc, n))
  }

  lemma WrittenEntry(img: Image, ino: Inode, format: u16, chunks: seq<Chunk>, bpc: nat, n: nat, cn: nat)
    requires HoldsIndexes(img, ino, chunks, bpc, n) && cn < n && format / 32 % 2 == 1
    requires Expressible(Locate(chunks, cn * bpc), img.deviceIDMask)
    ensures ChunkEntry(img, ino, format, cn) == Ok(EntryFor(Locate(chunks, cn * bpc)))
  {
    hide IndexBytes, Locate, IndexBase, Get16, Get32, ChunkIndexes, ChunkEntry, At;
    var l := Locate(chunks, cn * bpc);
    IndexAt(chunks, bpc, n, cn);
    AtSub(img.meta, IndexBase(img, ino), ChunkIndexes(chunks, bpc, n), 8 * cn, IndexBytes(l));
    IndexDecodes(IndexBytes(l), l, img.deviceIDMask);
    EntryReads(img, ino, format, cn, IndexBytes(l));
  }

  /** The reader's entry of chunk cn, from the eight bytes there. */
  lemma EntryReads(img: Image, ino: Inode, format: u16, cn: nat, b: bytes)
    requires At(img.meta, IndexBase(img, ino) + 8 * cn, b) && |b| == 8 && format / 32 % 2 == 1
    ensures ChunkEntry(img, ino, format, cn)
         == Ok(if Get32(b, 4) == NULL_ADDR then None else Some((Get32(b, 4), Get16(b, 2) % (img.deviceIDMask + 1))))
  {
    hide IndexBase, Get16, Get32;
  }

  /** Chunk arithmetic: the chunk of a position is the chunk of its block. */
  lemma ChunkOfBlock(pos: nat, bs: nat, bpc: nat)
    requires bs > 0 && bpc > 0
    ensures bpc * bs > 0
    ensures Quo(pos, bpc * bs) == Quo(Quo(pos, bs), bpc)
    ensures Quo(pos, bs) * bs - Quo(pos, bpc * bs) * (bpc * bs) == Rem(Quo(pos, bs), bpc) * bs
  {
    MulMono(1, bpc, bs);
    var bn, r := Quo(pos, bs), Rem(pos, bs);
    var cn, s := Quo(bn, bpc), Rem(bn, bpc);
    Distribute(cn * bpc, s, bs);
    MulMono(s + 1, bpc, bs);
    MulStep(s, bs);
    Associate(cn, bpc, bs);
    DivUnique(pos, bpc * bs, cn, s * bs + r);
  }

  lemma Associate(a: nat, b: nat, c: nat)
    ensures a * b * c == a * (b * c)
  {
  }

  lemma ChunkExists(pos: nat, size: nat, cs: nat)
    requires cs > 0 && pos < size
    ensures Quo(pos, cs) <= (size - 1) / cs
    ensures Quo(pos, cs) < CeilDiv(size, cs)
    ensures ChunkNumber(size, cs, pos) == Some(Quo(pos, cs))
  {
    var q, m := Quo(pos, cs), Quo(size - 1, cs);
    MulStep(m, cs);
    MulMono(m + 1, q, cs);
    CeilDivIsDivision(size, cs);
    DivUnique(size + cs - 1, cs, m + 1, Rem(size - 1, cs));
  }

  /** A chunk-based inode with indexes, its chunks 2^bits blocks long. */
  ghost predicate ChunkInode(ino: Inode, bits: nat) {
    ino.layout == CHUNK_BASED && bits <= 31 && ino.data == 32 + bits
  }

  lemma FormatBits(bits: nat)
    requires bits <= 31
    ensures var f := (32 + bits) % 0x1_0000;
            f == 32 + bits && f / 64 % 2 == 0 && f < 64 && f / 32 % 2 == 1 && f % 32 == bits
  {
  }

  /**
   loadBlock on a chunk-based inode reads block bn from where the chunk list puts it, or zeros when
   the list has ended, provided chunk-granular resolution is right for it.
   */
  lemma ChunkBlockRead(img: Image, ino: Inode, bits: nat, chunks: seq<Chunk>, pos: nat)
    requires BlockSize(img.bs) && ChunkInode(ino, bits) && pos < ino.size
    requires var bpc := Pow2(bits);
             && CeilPrecondition(ino, bpc * img.bs)
             && HoldsIndexes(img, ino, chunks, bpc, CeilDiv(ino.size, bpc * img.bs))
             && Resolve(chunks, bpc, Quo(pos, img.bs)) == Locate(chunks, Quo(pos, img.bs))
             && Expressible(Locate(chunks, Quo(Quo(pos, img.bs), bpc) * bpc), img.deviceIDMask)
             && Expressible(Locate(chunks, Quo(pos, img.bs)), img.deviceIDMask)
    ensures LoadBlock(img, ino, pos)
         == ReadChunk(img, EntryFor(Locate(chunks, Quo(pos, img.bs))), 0, Rem(pos, img.bs),
                      EndInBlock(ino.size, img.bs, Quo(pos, img.bs)))
  {
    hide PowerOfTwo, HoldsIndexes, ChunkIndexes, Locate, ReadChunk, ChunkEntry, EndInBlock, ChunkNumber, Quo, Rem, BlockCount, Pow2, CeilDiv;
    var bs, bpc := img.bs, Pow2(bits);
    FormatBits(bits);
    ChunkOfBlock(pos, bs, bpc);
    var cs := ChunkSize(bs, ino.data % 0x1_0000);
    assert cs == bpc * bs;
    ChunkExists(pos, ino.size, cs);
    var bn := Quo(pos, bs);
    var cn := Quo(pos, cs);
    EndAfter(ino.size, bs, pos);
    WrittenEntry(img, ino, 32 + bits, chunks, bpc, CeilDiv(ino.size, cs), cn);
    SkipIsShift(img, Locate(chunks, cn * bpc), Rem(bn, bpc), Rem(pos, bs), EndInBlock(ino.size, bs, bn));
    assert LoadBlock(img, ino, pos) == LoadChunkBlock(img, ino, pos);
  }

  ghost predicate CeilPrecondition(ino: Inode, cs: nat) {
    cs > 0 && ino.size >= 0
  }

  /** Skipping k blocks into a chunk is starting k blocks further on. */
  lemma SkipIsShift(img: Image, l: Option<Loc>, k: nat, blockOffset: int, blockEnd: int)
    requires Expressible(l, img.deviceIDMask) && Expressible(Shift(l, k), img.deviceIDMask)
    ensures ReadChunk(img, EntryFor(l), k * img.bs, blockOffset, blockEnd)
         == ReadChunk(img, EntryFor(Shift(l, k)), 0, blockOffset, blockEnd)
  {
    if l.Some? {
      Distribute(l.value.phys, k, img.bs);
    }
  }

  /** Block bn of a contiguous extent on extra device d, as stored by the data-file writer. */
  lemma DeviceBlock(img: Image, phys: nat, dev: nat, pos: nat, size: nat)
    requires BlockSize(img.bs) && pos < size && phys < NULL_ADDR && 0 < dev <= |img.devices|
    requires phys * img.bs + size <= |img.devices[dev - 1].data|
    requires phys + Quo(pos, img.bs) < NULL_ADDR
    ensures ReadChunk(img, Some((phys + Quo(pos, img.bs), dev)), 0, Rem(pos, img.bs), EndInBlock(size, img.bs, Quo(pos, img.bs)))
         == Ok(img.devices[dev - 1].data[phys * img.bs + pos..phys * img.bs + BlockStop(img.bs, size, pos)])
  {
    hide PowerOfTwo, EndInBlock, BlockStop, Quo, Rem;
    EndAfter(size, img.bs, pos);
    Distribute(phys, Quo(pos, img.bs), img.bs);
  }

  /** Blocks per chunk of a planned entry. */
  function BlocksPerChunk(it: Item, c: Config): (n: nat)
    ensures n > 0
  {
    Pow2(EntryChunkBits(it.plan.chunkBits, c))
  }

  /** Every place the reader will compute for the first n blocks fits a 32-bit index and the mask. */
  ghost predicate AllExpressible(chunks: seq<Chunk>, mask: nat) {
    forall b: nat :: Expressible(Locate(chunks, b), mask)
  }

  /**
   Chunk round trip. On the written image, a chunk-based file whose header is 8-aligned and whose
   list resolves at its chunk size reads every block from where the list puts it, zeros past its end.
   */
  lemma ChunkRoundTrip(img: Image, sb: bytes, items: seq<Item>, c: Config, i: nat, pos: nat)
    requires Planned(items, c) && i < |items| && c.bs > 0
    requires Opened(img, sb, items, c)
    requires items[i].plan.layout == CHUNK_BASED && FieldsFit(items[i], c) && pos < items[i].node.info.size
    requires !(i == |items| - 1 && CutOff(items, c))
    requires items[i].plan.xattrSize % 8 == 0
    requires ResolvesAll(items[i].node.info.chunks, BlocksPerChunk(items[i], c), Quo(pos, c.bs) + 1)
    requires AllExpressible(items[i].node.info.chunks, img.deviceIDMask)
    ensures BlockSize(img.bs)
    ensures ReadInfo(img, items[i].plan.nid) == Ok(ExpectedInode(img, items, i, c))
    ensures LoadBlock(img, ExpectedInode(img, items, i, c), pos)
         == ReadChunk(img, EntryFor(Locate(items[i].node.info.chunks, Quo(pos, img.bs))), 0, Rem(pos, img.bs),
                      EndInBlock(items[i].node.info.size, img.bs, Quo(pos, img.bs)))
  {
    hide *;
    OpenedFacts(img, sb, items, c);
    RoomForInode(img, sb, items, c, i);
    InodeOnImage(img, sb, items, c, i);
    ExpectedFields(img, items, i, c);
    var ino, chunks, bits := ExpectedInode(img, items, i, c), items[i].node.info.chunks, EntryChunkBits(items[i].plan.chunkBits, c);
    IndexesOnImage(img, items, c, i, ino);
    ResolvesHere(chunks, BlocksPerChunk(items[i], c), Quo(pos, c.bs) + 1, Quo(pos, c.bs));
    BlocksPerChunkIs(items[i], c);
    ExpressibleAt(chunks, img.deviceIDMask, Quo(pos, img.bs));
    ExpressibleAt(chunks, img.deviceIDMask, Quo(Quo(pos, img.bs), Pow2(bits)) * Pow2(bits));
    ChunkBlockRead(img, ino, bits, chunks, pos);
  }

  lemma ResolvesHere(chunks: seq<Chunk>, bpc: nat, n: nat, b: nat)
    requires bpc > 0 && ResolvesAll(chunks, bpc, n) && b < n
    ensures Resolve(chunks, bpc, b) == Locate(chunks, b)
  {
  }

  lemma ExpressibleAt(chunks: seq<Chunk>, mask: nat, b: nat)
    requires AllExpressible(chunks, mask)
    ensures Expressible(Locate(chunks, b), mask)
    ensures Locate(chunks, b).Some? ==> Locate(chunks, b).value.phys < NULL_ADDR
  {
  }

  lemma BlocksPerChunkIs(it: Item, c: Config)
    ensures BlocksPerChunk(it, c) == Pow2(EntryChunkBits(it.plan.chunkBits, c))
  {
  }

  lemma IndexesOnImage(img: Image, items: seq<Item>, c: Config, i: nat, ino: Inode)
    requires Planned(items, c) && i < |items| && c.bs > 0 && BlockSize(img.bs) && img.bs == c.bs
    requires items[i].plan.layout == CHUNK_BASED && items[i].node.info.size > 0
    requires ino.layout == items[i].plan.layout && ino.size == FileSize(items[i].node, c.bs)
    requires ino.nid == items[i].plan.nid && ino.icsize == CoreSize(items[i].plan.compact) && ino.xsize == items[i].plan.xattrSize
    requires ino.data == InodeData(items[i].node, items[i].plan, DataAddrs(items, SbBlocks(c), c)[i], c) % 0x1_0000_0000
    requires items[i].plan.xattrSize % 8 == 0 && ValidConfig(c)
    requires At(img.meta, InodeAddr(img, ino.nid) + ino.icsize + ino.xsize, TrailingBytes(items[i], c))
    ensures var bits := EntryChunkBits(items[i].plan.chunkBits, c);
            var bpc := Pow2(bits);
            && ino.size == items[i].node.info.size
            && ChunkInode(ino, bits)
            && CeilPrecondition(ino, bpc * img.bs)
            && HoldsIndexes(img, ino, items[i].node.info.chunks, bpc, CeilDiv(ino.size, bpc * img.bs))
  {
    hide *;
    var it := items[i];
    PlannedFacts(items, c);
    ChunkItem(it, DataAddrs(items, SbBlocks(c), c)[i], c);
    IndexBaseAgrees(img, ino);
    HeaderAligned(it.plan);
    ChunkInodeIs(img, ino, it, c);
  }

  lemma HeaderAligned(p: Plan)
    ensures (CoreSize(p.compact) + p.xattrSize) % 8 == 0 <==> p.xattrSize % 8 == 0
  {
  }

  lemma ChunkItem(it: Item, addr: nat, c: Config)
    requires Ready(it, c) && it.plan.layout == CHUNK_BASED && it.node.info.size > 0
    ensures c.bs > 0 && ValidConfig(c)
    ensures var bits := EntryChunkBits(it.plan.chunkBits, c);
            && bits <= 31
            && InodeData(it.node, it.plan, addr, c) == 32 + bits
            && FileSize(it.node, c.bs) == it.node.info.size
            && Pow2(bits) * c.bs > 0
            && TrailingBytes(it, c) == ChunkIndexes(it.node.info.chunks, Pow2(bits), CeilDiv(it.node.info.size, Pow2(bits) * c.bs))
  {
    hide PowerOfTwo, ChunkIndexes, CeilDiv, Pow2;
    MulMono(1, Pow2(EntryChunkBits(it.plan.chunkBits, c)), c.bs);
  }

  lemma ChunkInodeIs(img: Image, ino: Inode, it: Item, c: Config)
    requires c.bs > 0 && ValidConfig(c) && img.bs == c.bs
    requires var bits := EntryChunkBits(it.plan.chunkBits, c);
             var n := it.node.info.size;
             && bits <= 31 && ino.layout == CHUNK_BASED && ino.data == (32 + bits) % 0x1_0000_0000 && ino.size == n
             && Pow2(bits) * c.bs > 0
             && At(img.meta, IndexBase(img, ino), ChunkIndexes(it.node.info.chunks, Pow2(bits), CeilDiv(n, Pow2(bits) * c.bs)))
    ensures var bits := EntryChunkBits(it.plan.chunkBits, c);
            && ChunkInode(ino, bits)
            && CeilPrecondition(ino, Pow2(bits) * img.bs)
            && HoldsIndexes(img, ino, it.node.info.chunks, Pow2(bits), CeilDiv(ino.size, Pow2(bits) * img.bs))
  {
    hide PowerOfTwo, ChunkIndexes, CeilDiv, Pow2, IndexBase;
  }
}
