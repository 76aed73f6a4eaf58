/**
 Copying a chunk-based file from an image (mkfs_image.go): its indexes are parsed into runs, the entry is
 marked contiguous whatever the runs are, and the writer chooses one chunk for the file. When the copy reads
 as the source does.
 */
module ChunkCopy {
  import opened Bytes
  import opened Format
  import opened Chunks
  import opened Layout
  import opened Inodes
  import opened Placement
  import opened Reader
  import opened ChunkReader
  import opened DirectReader
  import opened RoundTrip

  /** Number of index entries of a chunk-based file. */
  function IndexCount(src: Image, ino: Inode): nat
    requires BlockSize(src.bs) && ino.size > 0
  {
    ChunkCount(ino.size, ChunkSize(src.bs, ino.data % 0x1_0000))
  }

  /** The index array of a source inode. */
  function IndexArray(src: Image, ino: Inode): Result<bytes>
    requires BlockSize(src.bs) && ino.size > 0
  {
    ReadAt(src.meta, IndexBase(src, ino), SIZE_CHUNK_INDEX * IndexCount(src, ino))
  }

  /** A file whose indexes are parsed, with the runs that come of it. */
  ghost predicate Parsed(src: Image, ino: Inode, chunks: seq<Chunk>) {
    && BlockSize(src.bs) && ino.size > 0 && ino.layout == CHUNK_BASED && ino.data % 0x1_0000 / 32 % 2 == 1
    && IndexArray(src, ino).Ok? && |IndexArray(src, ino).value| == SIZE_CHUNK_INDEX * IndexCount(src, ino)
    && chunks == ParsedChunks(IndexArray(src, ino).value, IndexCount(src, ino), Pow2(ino.data % 0x1_0000 % 32), src.deviceIDMask)
  }

  /** The runs say what the indexes say: Chunks.ParsedExact has the exact condition. */
  ghost predicate Truly(src: Image, ino: Inode, chunks: seq<Chunk>) {
    Parsed(src, ino, chunks)
    && Faithful(chunks, IndexArray(src, ino).value, Pow2(ino.data % 0x1_0000 % 32), IndexCount(src, ino), src.deviceIDMask)
  }

  /** Device ids are moved up when the sources' devices are appended to others. */
  function Moved(chunks: seq<Chunk>, offset: nat): (r: seq<Chunk>)
    ensures |r| == |chunks|
  {
    seq(|chunks|, i requires 0 <= i < |chunks| => Chunk(chunks[i].phys, chunks[i].count, (chunks[i].dev + offset) % 0x1_0000))
  }

  function MovedLoc(l: Option<Loc>, offset: nat): Option<Loc> {
    match l
    case None => None
    case Some(Loc(p, d)) => Some(Loc(p, (d + offset) % 0x1_0000))
  }

  lemma {:induction false} LocateMoved(chunks: seq<Chunk>, offset: nat, b: nat)
    ensures Locate(Moved(chunks, offset), b) == MovedLoc(Locate(chunks, b), offset)
  {
    if chunks != [] {
      assert Moved(chunks, offset)[1..] == Moved(chunks[1..], offset);
      if b >= chunks[0].count {
        LocateMoved(chunks[1..], offset, b - chunks[0].count);
      }
    }
  }

  /** The devices that the runs use are the same bytes on both sides. */
  ghost predicate ServedAlike(src: Image, img: Image, chunks: seq<Chunk>, offset: nat) {
    && img.bs == src.bs
    && forall b: nat {:trigger Locate(chunks, b)} ::
         Locate(chunks, b).Some? ==> SameDevice(src, img, Locate(chunks, b).value.dev, offset)
  }

  ghost predicate SameDevice(src: Image, img: Image, dev: nat, offset: nat) {
    && 0 < dev <= |src.devices| && dev + offset <= |img.devices| && dev + offset < 0x1_0000
    && src.devices[dev - 1].data == img.devices[dev + offset - 1].data
  }

  // ---- The source's side ----

  /** What loadBlock reads for a block of the source, in terms of the parsed runs. */
  lemma SourceBlock(src: Image, ino: Inode, chunks: seq<Chunk>, pos: nat)
    requires Truly(src, ino, chunks) && pos < ino.size && LoadBlock(src, ino, pos).Ok? && AllExpressible(chunks, src.deviceIDMask)
    ensures Expressible(Locate(chunks, Quo(pos, src.bs)), src.deviceIDMask)
    ensures LoadBlock(src, ino, pos)
         == ReadChunk(src, EntryFor(Locate(chunks, Quo(pos, src.bs))), 0, Rem(pos, src.bs), EndInBlock(ino.size, src.bs, Quo(pos, src.bs)))
  {
    hide *;
    TrulyMeans(src, ino, chunks);
    BlockPositive(src.bs);
    var format, data, n := ino.data % 0x1_0000, IndexArray(src, ino).value, IndexCount(src, ino);
    var bpc, cs := Pow2(format % 32), ChunkSize(src.bs, format);
    ChunkSizeIs(src.bs, format);
    PowPositive(format % 32);
    var bn, cn := Quo(pos, src.bs), Quo(pos, cs);
    ChunkOfBlock(pos, src.bs, bpc);
    ChunkExists(pos, ino.size, cs);
    CountIs(ino.size, cs, cn);
    EntryInArray(src, ino, format, n, cn);
    ExpressibleAt(chunks, src.deviceIDMask, cn * bpc);
    ExpressibleAt(chunks, src.deviceIDMask, bn);
    FirstOfChunk(bn, bpc);
    PlaceAt(chunks, data, bpc, n, cn, src.deviceIDMask, Rem(bn, bpc));
    LoadsEntry(src, ino, pos, EntryFor(Locate(chunks, cn * bpc)));
    SkipIs(src.bs, cs, bn, cn);
    SkipIsShift(src, Locate(chunks, cn * bpc), Rem(bn, bpc), Rem(pos, src.bs), EndInBlock(ino.size, src.bs, bn));
  }

  lemma FirstOfChunk(bn: nat, bpc: nat)
    requires bpc > 0
    ensures bn == Quo(bn, bpc) * bpc + Rem(bn, bpc) && Rem(bn, bpc) < bpc
  {
  }

  lemma SkipIs(bs: nat, cs: nat, bn: nat, cn: nat)
    ensures SkipInChunk(bs, cs, bn, cn) == bn * bs - cn * cs
  {
  }

  lemma TrulyMeans(src: Image, ino: Inode, chunks: seq<Chunk>)
    requires Truly(src, ino, chunks)
    ensures && BlockSize(src.bs) && ino.size > 0 && ino.layout == CHUNK_BASED && ino.data % 0x1_0000 / 32 % 2 == 1
            && IndexArray(src, ino) == ReadAt(src.meta, IndexBase(src, ino), 8 * IndexCount(src, ino))
            && IndexArray(src, ino).Ok? && |IndexArray(src, ino).value| == 8 * IndexCount(src, ino)
            && Faithful(chunks, IndexArray(src, ino).value, Pow2(ino.data % 0x1_0000 % 32), IndexCount(src, ino), src.deviceIDMask)
    ensures IndexCount(src, ino) == ChunkCount(ino.size, ChunkSize(src.bs, ino.data % 0x1_0000))
  {
    hide Faithful, ParsedChunks, ReadAt, IndexBase, ChunkSize, ChunkCount, Pow2, PowerOfTwo;
  }

  lemma PowPositive(k: nat)
    ensures Pow2(k) > 0
  {
  }

  /** Where the runs put a chunk is what loadBlock decodes from its index, when the address fits 32 bits. */
  lemma PlaceAt(chunks: seq<Chunk>, data: bytes, bpc: nat, n: nat, cn: nat, mask: nat, k: nat)
    requires 8 * n <= |data| && Faithful(chunks, data, bpc, n, mask) && cn < n && k < bpc
    requires Expressible(Locate(chunks, cn * bpc), mask)
    ensures 8 * cn + 8 <= |data|
    ensures Locate(chunks, cn * bpc + k) == Shift(Locate(chunks, cn * bpc), k)
    ensures EntryFor(Locate(chunks, cn * bpc))
         == if Get32(data, 8 * cn + 4) == NULL_ADDR then None else Some((Get32(data, 8 * cn + 4), IndexDev(data, cn, mask)))
  {
    hide Get16, Get32, Locate;
    assert ChunkRight(chunks, data, bpc, cn, mask);
    RightAt(chunks, data, bpc, cn, mask, 0);
    RightAt(chunks, data, bpc, cn, mask, k);
    LowWord(Get16(data, 8 * cn), Get32(data, 8 * cn + 4));
  }

  // ---- The copy's side ----

  /** An entry copied from the source: its runs, the flag that the copy always sets, and the plan it leads to. */
  ghost predicate CopyOf(ino: Inode, it: Item, chunks: seq<Chunk>, offset: nat, c: Config)
    requires ValidConfig(c)
  {
    && it.node.info.chunks == Moved(chunks, offset) && it.node.info.contiguous && it.node.info.size == ino.size
    && it.plan.layout == CHUNK_BASED && it.plan.chunkBits == PlannedChunkBits(it.node, CHUNK_BASED, c)
  }

  /** The chunk size that the flag leads to: the whole file in one chunk, unless it would need more than 31 bits. */
  lemma ForcedChunk(ino: Inode, it: Item, chunks: seq<Chunk>, offset: nat, c: Config)
    requires ValidConfig(c) && CopyOf(ino, it, chunks, offset, c)
    ensures BlocksPerChunk(it, c) == Pow2(ChunkBitsFor(c.bs, c.chunkBits, it.node.info.size))
    ensures ChunkBitsFor(c.bs, c.chunkBits, it.node.info.size) < 31 ==> c.bs * BlocksPerChunk(it, c) >= it.node.info.size
  {
    hide PowerOfTwo, Pow2;
    ChunkBitsMinimal(c.bs, c.chunkBits, it.node.info.size);
  }

  /** The blocks 0..n are one run, or none of them is anywhere. */
  ghost predicate OneRun(chunks: seq<Chunk>, n: nat) {
    forall b: nat :: b < n ==> Locate(chunks, b) == Shift(Locate(chunks, 0), b)
  }

  /** With the whole file in one chunk, blocks resolve right exactly when they are one run. */
  lemma OneChunkResolves(chunks: seq<Chunk>, bpc: nat, n: nat)
    requires n <= bpc && bpc > 0
    ensures ResolvesAll(chunks, bpc, n) <==> OneRun(chunks, n)
  {
    hide Locate;
    forall b: nat | b < n
      ensures Resolve(chunks, bpc, b) == Shift(Locate(chunks, 0), b)
    {
      DivUnique(b, bpc, 0, b);
    }
  }

  /** One run stays one when its device id moves. */
  lemma OneRunMoved(chunks: seq<Chunk>, offset: nat, n: nat)
    requires OneRun(chunks, n)
    ensures OneRun(Moved(chunks, offset), n)
  {
    hide Locate, Moved;
    LocateMoved(chunks, offset, 0);
    forall b: nat | b < n
      ensures Locate(Moved(chunks, offset), b) == Shift(Locate(Moved(chunks, offset), 0), b)
    {
      LocateMoved(chunks, offset, b);
    }
  }

  /** Reading a located block through either image gives the same. */
  lemma SameRead(src: Image, img: Image, chunks: seq<Chunk>, offset: nat, b: nat, from: int, to: int)
    requires ServedAlike(src, img, chunks, offset)
    requires Expressible(Locate(chunks, b), src.deviceIDMask) && Expressible(Locate(Moved(chunks, offset), b), img.deviceIDMask)
    ensures ReadChunk(img, EntryFor(Locate(Moved(chunks, offset), b)), 0, from, to) == ReadChunk(src, EntryFor(Locate(chunks, b)), 0, from, to)
  {
    hide Locate, Moved, ReadBounded;
    LocateMoved(chunks, offset, b);
    if Locate(chunks, b).Some? {
      assert SameDevice(src, img, Locate(chunks, b).value.dev, offset);
    }
  }

  /** Entry i of the written image is a copy of the source's inode, and both see the same devices. */
  ghost predicate Copied(src: Image, ino: Inode, chunks: seq<Chunk>, offset: nat, img: Image, sb: bytes, items: seq<Item>, c: Config, i: nat) {
    && Truly(src, ino, chunks)
    && Planned(items, c) && i < |items| && c.bs > 0 && ValidConfig(c) && Opened(img, sb, items, c)
    && CopyOf(ino, items[i], chunks, offset, c) && FieldsFit(items[i], c)
    && !(i == |items| - 1 && CutOff(items, c)) && items[i].plan.xattrSize % 8 == 0
    && AllExpressible(chunks, src.deviceIDMask) && AllExpressible(Moved(chunks, offset), img.deviceIDMask)
    && ServedAlike(src, img, chunks, offset)
  }

  /**
   One block of the copy: where the source reads, the copy reads the same bytes, if the block resolves
   right at the copy's chunk size.
   */
  lemma CopiedBlock(src: Image, ino: Inode, chunks: seq<Chunk>, offset: nat, img: Image, sb: bytes, items: seq<Item>, c: Config, i: nat, pos: nat)
    requires Copied(src, ino, chunks, offset, img, sb, items, c, i) && pos < ino.size && BlockSize(src.bs) && LoadBlock(src, ino, pos).Ok?
    requires ResolvesAll(Moved(chunks, offset), BlocksPerChunk(items[i], c), Quo(pos, c.bs) + 1)
    ensures BlockSize(img.bs) && ReadInfo(img, items[i].plan.nid) == Ok(ExpectedInode(img, items, i, c))
    ensures LoadBlock(img, ExpectedInode(img, items, i, c), pos) == LoadBlock(src, ino, pos)
  {
    hide *;
    CopiedMeans(src, ino, chunks, offset, img, sb, items, c, i);
    OpenedFacts(img, sb, items, c);
    SourceBlock(src, ino, chunks, pos);
    ChunkRoundTrip(img, sb, items, c, i, pos);
    var b := Quo(pos, c.bs);
    ExpressibleAt(Moved(chunks, offset), img.deviceIDMask, b);
    SameRead(src, img, chunks, offset, b, Rem(pos, c.bs), EndInBlock(ino.size, c.bs, b));
  }

  lemma CopiedMeans(src: Image, ino: Inode, chunks: seq<Chunk>, offset: nat, img: Image, sb: bytes, items: seq<Item>, c: Config, i: nat)
    requires Copied(src, ino, chunks, offset, img, sb, items, c, i)
    ensures Truly(src, ino, chunks) && ino.size > 0 && BlockSize(src.bs) && img.bs == src.bs
    ensures Planned(items, c) && i < |items| && c.bs > 0 && ValidConfig(c) && Opened(img, sb, items, c) && FieldsFit(items[i], c)
    ensures !(i == |items| - 1 && CutOff(items, c)) && items[i].plan.xattrSize % 8 == 0
    ensures AllExpressible(chunks, src.deviceIDMask) && AllExpressible(Moved(chunks, offset), img.deviceIDMask)
    ensures ServedAlike(src, img, chunks, offset) && CopyOf(ino, items[i], chunks, offset, c)
    ensures items[i].node.info.chunks == Moved(chunks, offset) && items[i].node.info.size == ino.size && items[i].plan.layout == CHUNK_BASED
  {
    hide Locate, PowerOfTwo, Planned, Opened, FieldsFit, CutOff, Moved, AllExpressible, SameDevice, Faithful, ParsedChunks, IndexArray;
  }

  /**
   The whole copy: a chunk-based file that is one run comes out with its content, whatever chunk size it
   had: parsed, marked contiguous, planned, written and opened.
   */
  lemma CopiedFile(src: Image, ino: Inode, chunks: seq<Chunk>, offset: nat, content: bytes,
                   img: Image, sb: bytes, items: seq<Item>, c: Config, i: nat)
    requires Copied(src, ino, chunks, offset, img, sb, items, c, i) && BlockSize(src.bs) && Stored(src, ino, content)
    requires ChunkBitsFor(c.bs, c.chunkBits, ino.size) < 31 && OneRun(chunks, CeilDiv(ino.size, c.bs))
    ensures BlockSize(img.bs) && ReadInfo(img, items[i].plan.nid) == Ok(ExpectedInode(img, items, i, c))
    ensures Stored(img, ExpectedInode(img, items, i, c), content)
  {
    hide *;
    CopiedMeans(src, ino, chunks, offset, img, sb, items, c, i);
    StoredSize(src, ino, content);
    OpenedFacts(img, sb, items, c);
    ExpectedFields(img, items, i, c);
    CopiedSize(items, c, i);
    FileResolves(ino, items[i], chunks, offset, c);
    var ino' := ExpectedInode(img, items, i, c);
    forall pos: nat | pos < |content|
      ensures LoadBlock(img, ino', pos) == Ok(content[pos..BlockStop(img.bs, |content|, pos)])
    {
      CopiedAt(src, ino, chunks, offset, content, img, sb, items, c, i, pos);
    }
    CopiedAt(src, ino, chunks, offset, content, img, sb, items, c, i, 0);
    StoredIf(img, ino', content);
  }

  /** All blocks of the file resolve right. */
  lemma FileResolves(ino: Inode, it: Item, chunks: seq<Chunk>, offset: nat, c: Config)
    requires ValidConfig(c) && c.bs > 0 && ino.size > 0 && CopyOf(ino, it, chunks, offset, c)
    requires ChunkBitsFor(c.bs, c.chunkBits, ino.size) < 31 && OneRun(chunks, CeilDiv(ino.size, c.bs))
    ensures ResolvesAll(Moved(chunks, offset), BlocksPerChunk(it, c), CeilDiv(ino.size, c.bs))
  {
    hide *;
    CopyMeans(ino, it, chunks, offset, c);
    var n := CeilDiv(ino.size, c.bs);
    ForcedChunk(ino, it, chunks, offset, c);
    FewBlocks(ino.size, c.bs, BlocksPerChunk(it, c));
    OneRunMoved(chunks, offset, n);
    OneChunkResolves(Moved(chunks, offset), BlocksPerChunk(it, c), n);
  }

  lemma CopyMeans(ino: Inode, it: Item, chunks: seq<Chunk>, offset: nat, c: Config)
    requires ValidConfig(c) && CopyOf(ino, it, chunks, offset, c)
    ensures it.node.info.size == ino.size
  {
    hide PowerOfTwo;
  }

  lemma CopiedAt(src: Image, ino: Inode, chunks: seq<Chunk>, offset: nat, content: bytes,
                 img: Image, sb: bytes, items: seq<Item>, c: Config, i: nat, pos: nat)
    requires Copied(src, ino, chunks, offset, img, sb, items, c, i) && BlockSize(src.bs) && Stored(src, ino, content) && pos < |content|
    requires ino.size > 0 && ResolvesAll(Moved(chunks, offset), BlocksPerChunk(items[i], c), CeilDiv(ino.size, c.bs))
    ensures BlockSize(img.bs) && ReadInfo(img, items[i].plan.nid) == Ok(ExpectedInode(img, items, i, c))
    ensures LoadBlock(img, ExpectedInode(img, items, i, c), pos) == Ok(content[pos..BlockStop(img.bs, |content|, pos)])
  {
    hide *;
    CopiedMeans(src, ino, chunks, offset, img, sb, items, c, i);
    OpenedFacts(img, sb, items, c);
    StoredSize(src, ino, content);
    StoredAt(src, ino, content, pos);
    ChunkExists(pos, ino.size, c.bs);
    ResolvesFewer(Moved(chunks, offset), BlocksPerChunk(items[i], c), Quo(pos, c.bs) + 1, CeilDiv(ino.size, c.bs));
    CopiedBlock(src, ino, chunks, offset, img, sb, items, c, i, pos);
  }

  lemma CopiedSize(items: seq<Item>, c: Config, i: nat)
    requires Planned(items, c) && i < |items| && c.bs > 0 && items[i].plan.layout == CHUNK_BASED && items[i].node.info.size > 0
    ensures FileSize(items[i].node, c.bs) == items[i].node.info.size
  {
    hide *;
    PlannedFacts(items, c);
    ChunkItem(items[i], 0, c);
  }

  lemma StoredIf(img: Image, ino: Inode, content: bytes)
    requires BlockSize(img.bs) && ino.size == |content|
    requires forall pos: nat :: pos < |content| ==> LoadBlock(img, ino, pos) == Ok(content[pos..BlockStop(img.bs, |content|, pos)])
    ensures Stored(img, ino, content)
  {
    hide LoadBlock, PowerOfTwo;
  }

  lemma ResolvesFewer(chunks: seq<Chunk>, bpc: nat, m: nat, n: nat)
    requires bpc > 0 && ResolvesAll(chunks, bpc, n) && m <= n
    ensures ResolvesAll(chunks, bpc, m)
  {
    hide Resolve, Locate;
  }

  lemma {:induction false} FewBlocks(size: nat, bs: nat, bpc: nat)
    requires bs > 0 && bs * bpc >= size
    ensures CeilDiv(size, bs) <= bpc
  {
    if size > bs {
      MulStep(bpc - 1, bs);
      FewBlocks(size - bs, bs, bpc - 1);
    }
  }

  // ---- Which files are one run ----

  /** The runs of a hole-free array of neighbouring chunks on one device are one run. */
  lemma RunIndexesParsed(data: bytes, n: nat, bpc: nat, mask: nat)
    requires |data| == SIZE_CHUNK_INDEX * n && n > 0 && 0 < bpc <= 65535 && RunIndexes(data, n, bpc, mask)
    ensures Faithful(ParsedChunks(data, n, bpc, mask), data, bpc, n, mask) && OneRun(ParsedChunks(data, n, bpc, mask), n * bpc)
  {
    hide ParseIndex, ParsedChunks, Locate, IndexPhys, IndexDev, RunIndexes, Quo, Rem;
    var r := ParsedChunks(data, n, bpc, mask);
    forall i | 0 <= i < n
      ensures ParseIndex(data, i, mask).Some?
    {
      RunIndexParsed(data, n, i, bpc, mask);
    }
    ParsedDescribes(data, n, bpc, mask);
    var first := ParseIndex(data, 0, mask).value;
    forall b: nat | b < n * bpc
      ensures Locate(r, b) == Some(Loc(first.phys + b, first.dev))
    {
      FirstOfChunk(b, bpc);
      BlockInRun(b, bpc, n);
      RunIndexParsed(data, n, Quo(b, bpc), bpc, mask);
      assert ChunkRight(r, data, bpc, Quo(b, bpc), mask);
      RightAt(r, data, bpc, Quo(b, bpc), mask, Rem(b, bpc));
    }
  }

  lemma RunIndexParsed(data: bytes, n: nat, i: nat, bpc: nat, mask: nat)
    requires |data| == SIZE_CHUNK_INDEX * n && i < n && RunIndexes(data, n, bpc, mask)
    ensures var first, x := ParseIndex(data, 0, mask), ParseIndex(data, i, mask);
            first.Some? && x.Some? && x.value.phys == first.value.phys + i * bpc && x.value.dev == first.value.dev
  {
    hide Get16, Get32;
    assert RunIndex(data, 0, bpc, mask) && RunIndex(data, i, bpc, mask);
  }

  lemma BlockInRun(b: nat, bpc: nat, n: nat)
    requires bpc > 0 && b < n * bpc
    ensures Quo(b, bpc) < n
  {
    if Quo(b, bpc) >= n {
      MulMono(n, Quo(b, bpc), bpc);
    }
  }

  /** A chunk-based file that openDirect serves, with chunks of fewer than 65536 blocks, is parsed into one run. */
  lemma DirectIsOneRun(src: Image, ino: Inode)
    requires BlockSize(src.bs) && src.bs > 0 && ino.size > 0 && ino.layout == CHUNK_BASED && DirectChunks(src, ino).Some?
    requires Pow2(ino.data % 0x1_0000 % 32) <= 65535
    ensures IndexArray(src, ino).Ok? && |IndexArray(src, ino).value| == SIZE_CHUNK_INDEX * IndexCount(src, ino)
    ensures var chunks := ParsedChunks(IndexArray(src, ino).value, IndexCount(src, ino), Pow2(ino.data % 0x1_0000 % 32), src.deviceIDMask);
            Truly(src, ino, chunks) && OneRun(chunks, CeilDiv(ino.size, src.bs))
  {
    hide ReadAt, IndexBase, ChunkSize, Pow2, ParsedChunks, RunIndexes, PowerOfTwo, CeilDiv, ChunkCount, Locate, DirectChunks, Faithful;
    DirectIs(src, ino);
    var format, data, n := ino.data % 0x1_0000, IndexArray(src, ino).value, IndexCount(src, ino);
    var bpc := Pow2(format % 32);
    PowPositive(format % 32);
    RunIndexesParsed(data, n, bpc, src.deviceIDMask);
    ChunkSizeIs(src.bs, format);
    ChunksCover(ino.size, bpc, src.bs, n);
  }

  lemma ChunksCover(size: nat, bpc: nat, bs: nat, n: nat)
    requires size > 0 && bs > 0 && bpc * bs > 0 && n == ChunkCount(size, bpc * bs)
    ensures CeilDiv(size, bs) <= n * bpc
  {
    hide CeilDiv;
    var q := Quo(size - 1, bpc * bs);
    MulStep(q, bpc * bs);
    Associate(n, bpc, bs);
    FewBlocks(size, bs, n * bpc);
  }
}
