/**
 The reader on the writer's image: every inode decodes to its entry's fields, every flat entry's
 blocks hold exactly its content, and every chunk-based entry's blocks come from its chunk list.
 */
module RoundTrip {
  import opened Bytes
  import opened Format
  import opened Dirents
  import opened Chunks
  import opened Xattrs
  import opened Layout
  import opened Inodes
  import opened Placement
  import opened Reader

  /** The opened image is the one that was written. */
  ghost predicate Opened(img: Image, sb: bytes, items: seq<Item>, c: Config) {
    && Planned(items, c) && |sb| == SbBlocks(c) * c.bs
    && img.meta == ImageBytes(sb, items, c)
    && img.bs == c.bs && img.metaBlkAddr == MetaBlock(items, c)
    && img.buildTime == c.buildTime && img.buildTimeNs == c.buildTimeNs
  }

  lemma OpenedFacts(img: Image, sb: bytes, items: seq<Item>, c: Config)
    requires Opened(img, sb, items, c)
    ensures Planned(items, c) && |sb| == SbBlocks(c) * c.bs && img.meta == ImageBytes(sb, items, c)
    ensures BlockSize(img.bs) && img.bs == c.bs && c.bs > 0 && ValidConfig(c)
    ensures |img.meta| % img.bs == 0 && |img.meta| == TotalBlocks(items, c) * c.bs
    ensures img.buildTime == c.buildTime && img.buildTimeNs == c.buildTimeNs
  {
    hide ImageBytes, BlockSize;
    ImageLength(sb, items, c);
    PlannedFacts(items, c);
    ConfigBlock(c);
  }

  lemma AddressOfInode(img: Image, sb: bytes, items: seq<Item>, c: Config, i: nat)
    requires Opened(img, sb, items, c) && i < |items|
    ensures InodeAddr(img, items[i].plan.nid) == RegionOffset(items, i, c)
  {
    hide ImageBytes, Planned;
  }

  /** Fields of entry i with its assigned data address. */
  ghost function ItemFields(items: seq<Item>, i: nat, c: Config): Fields
    requires Planned(items, c) && i < |items|
  {
    ReadyFacts(items[i], c);
    FieldsOf(items[i].node, items[i].plan, DataAddrs(items, SbBlocks(c), c)[i], c)
  }

  /** What readInfo should return for entry i. */
  ghost function ExpectedInode(img: Image, items: seq<Item>, i: nat, c: Config): Inode
    requires Planned(items, c) && i < |items|
  {
    Decoded(img, items[i].plan.nid, ItemFields(items, i, c), items[i].plan.compact)
  }

  lemma FormatBit(layout: nat, compact: bool)
    ensures InodeFormat(layout, compact) % 2 == if compact then 0 else 1
    ensures layout < 8 ==> InodeFormat(layout, compact) % 0x1_0000 / 2 % 8 == layout
  {
  }

  lemma InodeOnImage(img: Image, sb: bytes, items: seq<Item>, c: Config, i: nat)
    requires Opened(img, sb, items, c) && i < |items|
    requires InodeAddr(img, items[i].plan.nid) + SIZE_EXTENDED <= |img.meta|
    ensures ReadInfo(img, items[i].plan.nid) == Ok(ExpectedInode(img, items, i, c))
    ensures var o, p := InodeAddr(img, items[i].plan.nid), items[i].plan;
            && At(img.meta, o + CoreSize(p.compact), XattrArea(items[i].node.info.xattrs))
            && At(img.meta, o + CoreSize(p.compact) + p.xattrSize, TrailingBytes(items[i], c))
  {
    hide *;
    OpenedFacts(img, sb, items, c);
    AddressOfInode(img, sb, items, c, i);
    RegionInImage(sb, items, c, i);
    var a := DataAddrs(items, SbBlocks(c), c)[i];
    RegionParts(img.meta, RegionOffset(items, i, c), items[i], a, c);
    FieldsAre(items, i, c);
    FormatBit(items[i].plan.layout, items[i].plan.compact);
    ReadInfoWritten(img, items[i].plan.nid, ItemFields(items, i, c), items[i].plan.compact);
    ExpectedIs(img, items, i, c);
  }

  lemma FieldsAre(items: seq<Item>, i: nat, c: Config)
    requires Planned(items, c) && i < |items|
    ensures c.bs > 0
    ensures items[i].plan.xattrSize == 0 || items[i].plan.xattrSize >= SIZE_XATTR_HEADER
    ensures ItemFields(items, i, c) == FieldsOf(items[i].node, items[i].plan, DataAddrs(items, SbBlocks(c), c)[i], c)
    ensures ItemFields(items, i, c).format == InodeFormat(items[i].plan.layout, items[i].plan.compact)
  {
    hide Ready, FileSize, InodeData, XattrCount;
    PlannedFacts(items, c);
    ReadyFacts(items[i], c);
  }

  lemma ExpectedIs(img: Image, items: seq<Item>, i: nat, c: Config)
    requires Planned(items, c) && i < |items|
    ensures ExpectedInode(img, items, i, c) == Decoded(img, items[i].plan.nid, ItemFields(items, i, c), items[i].plan.compact)
  {
  }

  // ---- Which inodes can be read ----

  /** The one entry that can be cut off: a bare compact inode that ends the last block exactly. */
  ghost predicate CutOff(items: seq<Item>, c: Config)
    requires c.bs > 0
  {
    && items != []
    && RegionSize(items[|items| - 1].plan) == SIZE_COMPACT
    && MetaEnd(items, 0) % c.bs == 0
  }

  lemma {:induction false} MetaEndIs(items: seq<Item>, pos: nat, bs: nat, i: nat)
    requires bs > 0 && SafeFrom(PlansOf(items), pos, bs) && i < |items|
    ensures End(items[i].plan) <= MetaEnd(items, pos)
    ensures i == |items| - 1 ==> End(items[i].plan) == MetaEnd(items, pos)
    ensures i < |items| - 1 ==> End(items[i].plan) + SIZE_COMPACT <= MetaEnd(items, pos)
    decreases |items|
  {
    SafeTail(items, pos, bs);
    var rest := items[1..];
    if i == 0 {
      if rest != [] {
        MetaEndIs(rest, End(items[0].plan), bs, 0);
        SafeTail(rest, End(items[0].plan), bs);
        assert RegionSize(rest[0].plan) >= SIZE_COMPACT;
      }
    } else {
      MetaEndIs(rest, End(items[0].plan), bs, i - 1);
    }
  }

  /** Length of the image from the start of metadata. */
  lemma MetaLength(img: Image, sb: bytes, items: seq<Item>, c: Config)
    requires Opened(img, sb, items, c)
    ensures |img.meta| == MetaBlock(items, c) * c.bs + RoundUp(MetaEnd(items, 0), c.bs)
  {
    hide *;
    OpenedFacts(img, sb, items, c);
    MetaLengthSum(items, c);
  }

  lemma MetaLengthSum(items: seq<Item>, c: Config)
    requires c.bs > 0
    ensures TotalBlocks(items, c) * c.bs == MetaBlock(items, c) * c.bs + RoundUp(MetaEnd(items, 0), c.bs)
  {
    hide SbBlocks, DataBlocks, MetaEnd, RoundUp, CeilDiv;
    RoundUpBlocks(MetaEnd(items, 0), c.bs);
    var m := CeilDiv(MetaEnd(items, 0), c.bs);
    Distribute(MetaBlock(items, c), m, c.bs);
    assert TotalBlocks(items, c) == MetaBlock(items, c) + m;
  }

  /** Entry i has 64 image bytes from its address unless it is last and cut off. */
  lemma RoomForInode(img: Image, sb: bytes, items: seq<Item>, c: Config, i: nat)
    requires Opened(img, sb, items, c) && i < |items|
    ensures InodeAddr(img, items[i].plan.nid) + SIZE_EXTENDED <= |img.meta|
            <==> !(i == |items| - 1 && CutOff(items, c))
  {
    hide ImageBytes, AllReady, MetaEnd, MetaBlock, RoundUp, RawSize, PowerOfTwo, SafeFrom, SbBlocks, TotalBlocks, DataBlocks;
    MetaLength(img, sb, items, c);
    AddressOfInode(img, sb, items, c, i);
    OpenedFacts(img, sb, items, c);
    MetaEndIs(items, 0, c.bs, i);
    EndAligned(items[i].plan);
    AlignedGap(MetaEnd(items, 0), c.bs, i == |items| - 1 ==> End(items[i].plan) == MetaEnd(items, 0));
  }

  lemma EndAligned(p: Plan)
    ensures End(p) % 32 == 0 && RegionSize(p) % 32 == 0 && RegionSize(p) >= 32
  {
  }

  /** Rounding a multiple of 32 up to a block either changes nothing or adds at least 32. */
  lemma AlignedGap(x: nat, bs: nat, trivial: bool)
    requires BlockSize(bs)
    ensures x % 32 == 0 ==> RoundUp(x, bs) == x || RoundUp(x, bs) >= x + 32
    ensures RoundUp(x, bs) == x <==> x % bs == 0
  {
    BlockSizeAligned(bs);
    var r := RoundUp(x, bs);
    DivMod(r, bs);
    MultipleOf32(r / bs, bs);
  }

  /** Every inode of the image can be read exactly when the last one is not cut off. */
  lemma EveryInodeReads(img: Image, sb: bytes, items: seq<Item>, c: Config)
    requires Opened(img, sb, items, c)
    ensures (forall i :: 0 <= i < |items| ==> ReadInfo(img, items[i].plan.nid).Ok?) <==> !CutOff(items, c)
  {
    hide Opened, ReadInfo, CutOff, InodeAddr;
    OpenedFacts(img, sb, items, c);
    forall i | 0 <= i < |items|
      ensures ReadInfo(img, items[i].plan.nid).Ok? <==> !(i == |items| - 1 && CutOff(items, c))
    {
      RoomForInode(img, sb, items, c, i);
      ReadInfoWindow(img, items[i].plan.nid);
    }
    NotEmptyIfCut(items, c);
    if CutOff(items, c) {
      assert !ReadInfo(img, items[|items| - 1].plan.nid).Ok?;
    }
  }

  lemma NotEmptyIfCut(items: seq<Item>, c: Config)
    requires c.bs > 0
    ensures CutOff(items, c) ==> items != []
  {
  }

  // ---- Flat content ----

  /** A plain inode whose bytes lie at its block address stores them. */
  lemma PlainStored(img: Image, ino: Inode, content: bytes)
    requires BlockSize(img.bs) && ino.layout == FLAT_PLAIN && ino.size == |content|
    requires ContentAt(img, ino, content)
    ensures Stored(img, ino, content)
  {
    hide PowerOfTwo;
    forall pos: nat | pos < |content|
      ensures LoadBlock(img, ino, pos) == Ok(content[pos..BlockStop(img.bs, |content|, pos)])
    {
      PlainBlock(img, ino, content, pos);
    }
  }

  lemma PlainBlock(img: Image, ino: Inode, content: bytes, pos: nat)
    requires BlockSize(img.bs) && ino.layout == FLAT_PLAIN && ino.size == |content| && pos < |content|
    requires At(img.meta, ino.data * img.bs, content)
    ensures LoadBlock(img, ino, pos) == Ok(content[pos..BlockStop(img.bs, |content|, pos)])
  {
    hide PowerOfTwo, EndInBlock, BlockCount, BlockStop, Rem, Quo;
    EndAfter(ino.size, img.bs, pos);
    Distribute(ino.data, Quo(pos, img.bs), img.bs);
    ReadPart(img.meta, ino.data * img.bs, content, pos, BlockStop(img.bs, |content|, pos));
  }

  lemma ReadPart(b: bytes, o: nat, content: bytes, lo: nat, hi: nat)
    requires At(b, o, content) && lo <= hi <= |content|
    ensures ReadAt(b, o + lo, hi - lo) == Ok(content[lo..hi])
  {
    SliceOfSlice(b, o, o + |content|, lo, hi);
  }

  /** Where the last block of n bytes starts. */
  function TailAt(n: nat, bs: nat): (k: nat)
    requires bs > 0 && n > 0
    ensures k < n
  {
    Quo(n - 1, bs) * bs
  }

  /** Bytes before the last block lie at the inode's block address, those of the last block right behind the inode. */
  ghost predicate TailInline(img: Image, ino: Inode, content: bytes)
    requires BlockSize(img.bs) && content != []
  {
    var k := TailAt(|content|, img.bs);
    && (k > 0 ==> At(img.meta, ino.data * img.bs, content[..k]))
    && At(img.meta, InodeAddr(img, ino.nid) + ino.icsize + ino.xsize, content[k..])
  }

  /**
   A tail-inline inode of any size stores its content exactly when the bytes of its last block, which
   follow the inode and its attributes, do not cross a block.
   */
  lemma TailInlineStored(img: Image, ino: Inode, content: bytes)
    requires BlockSize(img.bs) && ino.layout == FLAT_INLINE && content != [] && ino.size == |content|
    requires TailInline(img, ino, content)
    ensures Stored(img, ino, content)
            <==> Rem(InodeAddr(img, ino.nid) + ino.icsize + ino.xsize, img.bs) + (|content| - TailAt(|content|, img.bs)) <= img.bs
  {
    hide LoadBlock, BlockStop, InodeAddr, TailInline, PowerOfTwo;
    var d := InodeAddr(img, ino.nid) + ino.icsize + ino.xsize;
    var k := TailAt(|content|, img.bs);
    LastBlock(|content|, img.bs);
    if Rem(d, img.bs) + (|content| - k) <= img.bs {
      forall pos: nat | pos < |content|
        ensures LoadBlock(img, ino, pos) == Ok(content[pos..BlockStop(img.bs, |content|, pos)])
      {
        if Quo(pos, img.bs) < Quo(|content| - 1, img.bs) {
          EarlierBlock(img, ino, content, pos);
        } else {
          TailBlock(img, ino, content, pos);
        }
      }
    } else {
      MulMod(Quo(|content| - 1, img.bs), img.bs);
      TailCrosses(img, ino, content, k);
      if Stored(img, ino, content) {
        StoredAt(img, ino, content, k);
      }
    }
  }

  lemma LastBlock(n: nat, bs: nat)
    requires bs > 0 && n > 0
    ensures BlockCount(n, bs) == Quo(n - 1, bs) + 1
    ensures forall pos: nat :: pos < n ==> Quo(pos, bs) <= Quo(n - 1, bs)
  {
    var q := Quo(n, bs);
    MulStep(Quo(n - 1, bs), bs);
    EndAfter(n, bs, n - 1);
    if Rem(n, bs) == 0 {
      MulStep(q - 1, bs);
      DivUnique(n - 1, bs, q - 1, bs - 1);
    } else {
      DivUnique(n - 1, bs, q, Rem(n, bs) - 1);
    }
    forall pos: nat | pos < n
      ensures Quo(pos, bs) <= Quo(n - 1, bs)
    {
      if Quo(pos, bs) > Quo(n - 1, bs) {
        MulMono(Quo(n - 1, bs) + 1, Quo(pos, bs), bs);
      }
    }
  }

  /** A block before the last is read at the block address plus its number. */
  lemma EarlierBlock(img: Image, ino: Inode, content: bytes, pos: nat)
    requires BlockSize(img.bs) && ino.layout == FLAT_INLINE && pos < |content| == ino.size && TailInline(img, ino, content)
    requires Quo(pos, img.bs) < Quo(|content| - 1, img.bs)
    ensures LoadBlock(img, ino, pos) == Ok(content[pos..BlockStop(img.bs, |content|, pos)])
  {
    hide PowerOfTwo, BlockCount, BlockStop, Rem, Quo, InodeAddr, LoadBlock, ReadBounded, At;
    var bs, k := img.bs, TailAt(|content|, img.bs);
    StopBefore(bs, |content|, pos);
    var stop := BlockStop(bs, |content|, pos);
    LoadsEarlier(img, ino, pos);
    FullBlocksThere(img, ino, content);
    BoundedFull(img.meta, bs, ino.data, content[..k], pos, stop);
    assert content[..k][pos..stop] == content[pos..stop];
  }

  lemma FullBlocksThere(img: Image, ino: Inode, content: bytes)
    requires BlockSize(img.bs) && content != [] && TailInline(img, ino, content) && TailAt(|content|, img.bs) > 0
    ensures At(img.meta, ino.data * img.bs, content[..TailAt(|content|, img.bs)])
  {
    hide PowerOfTwo, InodeAddr, At, TailAt;
  }

  /** The load of a block before the last. */
  lemma LoadsEarlier(img: Image, ino: Inode, pos: nat)
    requires BlockSize(img.bs) && ino.layout == FLAT_INLINE && pos < ino.size && Quo(pos, img.bs) < Quo(ino.size - 1, img.bs)
    ensures LoadBlock(img, ino, pos)
         == ReadBounded(img.meta, img.bs, (ino.data + Quo(pos, img.bs)) * img.bs, Rem(pos, img.bs), img.bs)
  {
    hide PowerOfTwo, BlockCount, Rem, Quo, ReadBounded;
    LastBlock(ino.size, img.bs);
  }

  /** A full block of what lies from block `data` on, read to its end. */
  lemma BoundedFull(b: bytes, bs: nat, data: nat, full: bytes, pos: nat, stop: nat)
    requires bs > 0 && At(b, data * bs, full) && pos < stop <= |full| && stop == Quo(pos, bs) * bs + bs
    ensures ReadBounded(b, bs, (data + Quo(pos, bs)) * bs, Rem(pos, bs), bs) == Ok(full[pos..stop])
  {
    hide Rem, Quo, At;
    Distribute(data, Quo(pos, bs), bs);
    assert pos == Quo(pos, bs) * bs + Rem(pos, bs);
    ReadPart(b, data * bs, full, pos, stop);
  }

  lemma StopBefore(bs: nat, n: nat, pos: nat)
    requires bs > 0 && pos < n && Quo(pos, bs) < Quo(n - 1, bs)
    ensures BlockStop(bs, n, pos) == Quo(pos, bs) * bs + bs <= TailAt(n, bs)
    ensures pos == Quo(pos, bs) * bs + Rem(pos, bs) && Rem(pos, bs) < bs
  {
    MulStep(Quo(pos, bs), bs);
    MulMono(Quo(pos, bs) + 1, Quo(n - 1, bs), bs);
  }

  lemma StopAtEnd(bs: nat, n: nat, pos: nat)
    requires bs > 0 && pos < n && Quo(pos, bs) >= Quo(n - 1, bs)
    ensures Quo(pos, bs) == Quo(n - 1, bs) && BlockStop(bs, n, pos) == n
    ensures pos == TailAt(n, bs) + Rem(pos, bs)
  {
    LastBlock(n, bs);
    MulStep(Quo(n - 1, bs), bs);
  }

  /** The last block is read behind the inode. */
  lemma TailBlock(img: Image, ino: Inode, content: bytes, pos: nat)
    requires BlockSize(img.bs) && ino.layout == FLAT_INLINE && pos < |content| == ino.size && TailInline(img, ino, content)
    requires Quo(pos, img.bs) >= Quo(|content| - 1, img.bs)
    requires Rem(InodeAddr(img, ino.nid) + ino.icsize + ino.xsize, img.bs) + (|content| - TailAt(|content|, img.bs)) <= img.bs
    ensures LoadBlock(img, ino, pos) == Ok(content[pos..BlockStop(img.bs, |content|, pos)])
  {
    hide *;
    var d := InodeAddr(img, ino.nid) + ino.icsize + ino.xsize;
    var k := TailAt(|content|, img.bs);
    BlockPositive(img.bs);
    StopAtEnd(img.bs, |content|, pos);
    TailThere(img, ino, content);
    LoadsTail(img, ino, pos);
    ReadPart(img.meta, d, content[k..], pos - k, |content| - k);
    assert content[k..][pos - k..|content| - k] == content[pos..|content|];
    BoundedInBlock(img.meta, img.bs, d, Rem(pos, img.bs), |content| - k);
  }

  lemma BlockPositive(bs: nat)
    requires BlockSize(bs)
    ensures bs > 0
  {
  }

  lemma TailThere(img: Image, ino: Inode, content: bytes)
    requires BlockSize(img.bs) && content != [] && TailInline(img, ino, content)
    ensures At(img.meta, InodeAddr(img, ino.nid) + ino.icsize + ino.xsize, content[TailAt(|content|, img.bs)..])
  {
    hide PowerOfTwo, InodeAddr;
  }

  /** The load of a last block. */
  lemma LoadsTail(img: Image, ino: Inode, pos: nat)
    requires BlockSize(img.bs) && ino.layout == FLAT_INLINE && pos < ino.size && Quo(pos, img.bs) >= Quo(ino.size - 1, img.bs)
    ensures var d := InodeAddr(img, ino.nid) + ino.icsize + ino.xsize;
            LoadBlock(img, ino, pos)
            == ReadBounded(img.meta, img.bs, Quo(d, img.bs) * img.bs, Rem(d, img.bs) + Rem(pos, img.bs),
                           Rem(d, img.bs) + (ino.size - TailAt(ino.size, img.bs)))
  {
    hide PowerOfTwo, BlockCount, Rem, Quo, InodeAddr, EndInBlock, ReadBounded;
    LastBlock(ino.size, img.bs);
    StopAtEnd(img.bs, ino.size, pos);
    assert LoadBlock(img, ino, pos) == LoadInlineTail(img, ino, pos);
  }

  /** A bounded read that stays in the block of address d. */
  lemma BoundedInBlock(b: bytes, bs: nat, d: nat, lo: nat, hi: nat)
    requires bs > 0 && lo < hi && Rem(d, bs) + hi <= bs
    ensures ReadBounded(b, bs, Quo(d, bs) * bs, Rem(d, bs) + lo, Rem(d, bs) + hi) == ReadAt(b, d + lo, hi - lo)
  {
    hide Quo, Rem, ReadAt;
    assert d == Quo(d, bs) * bs + Rem(d, bs);
  }

  /** A tail that would cross a block is refused. */
  lemma TailCrosses(img: Image, ino: Inode, content: bytes, pos: nat)
    requires BlockSize(img.bs) && ino.layout == FLAT_INLINE && pos < |content| == ino.size
    requires Quo(pos, img.bs) >= Quo(|content| - 1, img.bs)
    requires Rem(InodeAddr(img, ino.nid) + ino.icsize + ino.xsize, img.bs) + (|content| - TailAt(|content|, img.bs)) > img.bs
    ensures LoadBlock(img, ino, pos) == Err(Invalid)
  {
    hide PowerOfTwo, Rem, Quo, InodeAddr, LoadBlock, TailAt;
    LoadsTail(img, ino, pos);
  }

  /** An inline inode whose data follows it within its block stores it. */
  lemma InlineStored(img: Image, ino: Inode, content: bytes)
    requires BlockSize(img.bs) && ino.layout == FLAT_INLINE && ino.size == |content|
    requires var d := InodeAddr(img, ino.nid) + ino.icsize + ino.xsize;
             At(img.meta, d, content) && Rem(d, img.bs) + |content| <= img.bs
    ensures Stored(img, ino, content)
  {
    hide *;
    if content != [] {
      BlockPositive(img.bs);
      FirstIsLast(|content|, img.bs);
      assert content[0..] == content;
      TailAlone(img, ino, content);
      TailInlineStored(img, ino, content);
    } else {
      NothingStored(img, ino);
    }
  }

  lemma FirstIsLast(n: nat, bs: nat)
    requires 0 < n <= bs
    ensures TailAt(n, bs) == 0
  {
    DivUnique(n - 1, bs, 0, n - 1);
  }

  lemma TailAlone(img: Image, ino: Inode, content: bytes)
    requires BlockSize(img.bs) && content != [] && TailAt(|content|, img.bs) == 0
    requires At(img.meta, InodeAddr(img, ino.nid) + ino.icsize + ino.xsize, content)
    ensures TailInline(img, ino, content)
  {
    hide PowerOfTwo, InodeAddr, TailAt;
    assert content[0..] == content;
  }

  lemma NothingStored(img: Image, ino: Inode)
    requires BlockSize(img.bs) && ino.size == 0
    ensures Stored(img, ino, [])
  {
    hide LoadBlock;
  }

  lemma OneBlock(pos: nat, size: nat, bs: nat)
    requires bs > 0 && pos < size <= bs
    ensures Quo(pos, bs) == 0 && Rem(pos, bs) == pos && BlockCount(size, bs) == 1
    ensures BlockStop(bs, size, pos) == size && 0 * bs == 0
  {
    if pos < bs {
      DivUnique(pos, bs, 0, pos);
    }
    if size < bs {
      DivUnique(size, bs, 0, size);
    } else {
      DivUnique(size, bs, 1, 0);
    }
  }

  /** The entry's size and xattr area fit the inode's fields. */
  ghost predicate FieldsFit(it: Item, c: Config)
    requires c.bs > 0
  {
    && FileSize(it.node, c.bs) < (if it.plan.compact then 0x1_0000_0000 else 0x8000_0000_0000_0000)
    && it.plan.xattrSize <= SIZE_XATTR_HEADER + 4 * 65534
  }

  lemma ExpectedFields(img: Image, items: seq<Item>, i: nat, c: Config)
    requires Planned(items, c) && i < |items| && c.bs > 0 && FieldsFit(items[i], c)
    ensures var ino, it := ExpectedInode(img, items, i, c), items[i];
            && ino.nid == it.plan.nid && ino.icsize == CoreSize(it.plan.compact)
            && ino.xsize == it.plan.xattrSize
            && ino.layout == it.plan.layout && ino.mode == it.node.info.mode
            && ino.size == FileSize(it.node, c.bs)
            && ino.data == InodeData(it.node, it.plan, DataAddrs(items, SbBlocks(c), c)[i], c) % 0x1_0000_0000
  {
    hide *;
    PlannedFacts(items, c);
    ReadyFacts(items[i], c);
    FieldsAre(items, i, c);
    FieldParts(items[i].node, items[i].plan, DataAddrs(items, SbBlocks(c), c)[i], c);
    ExpectedIs(img, items, i, c);
    var f := ItemFields(items, i, c);
    FitsAre(items[i], c);
    DecodedParts(img, items[i].plan.nid, f, items[i].plan.compact);
    XattrAligned(items[i].node.info);
    XattrCountRoundTrip(items[i].plan.xattrSize);
    LayoutSmall(items[i], c);
    FormatBit(items[i].plan.layout, items[i].plan.compact);
  }

  /**
   What readInfo gives of an entry of the written image, from the entry's own values: an extended inode
   keeps them all, a compact one keeps 16 bits of the owner, group and link count and has the build time.
   */
  lemma InodeFields(img: Image, sb: bytes, items: seq<Item>, c: Config, i: nat)
    requires Opened(img, sb, items, c) && i < |items| && c.bs > 0
    requires FieldsFit(items[i], c) && !(i == |items| - 1 && CutOff(items, c))
    ensures BlockSize(img.bs) && ReadInfo(img, items[i].plan.nid).Ok?
    ensures var ino, info, compact := ReadInfo(img, items[i].plan.nid).value, items[i].node.info, items[i].plan.compact;
            && ino.nid == items[i].plan.nid && ino.layout == items[i].plan.layout && ino.mode == info.mode
            && ino.uid == (if compact then info.uid % 0x1_0000 else info.uid)
            && ino.gid == (if compact then info.gid % 0x1_0000 else info.gid)
            && ino.nlink == (if compact then info.nlink % 0x1_0000 else info.nlink)
            && ino.mtime == (if compact then c.buildTime else info.mtime)
            && ino.mtimeNs == (if compact then c.buildTimeNs else info.mtimeNs)
            && (TypeOf(info.mode) in {S_CHR, S_BLK, S_FIFO, S_SOCK} ==> ino.data == info.rdev)
            && (TypeOf(info.mode) == S_LNK ==> ino.size == |info.symTarget|)
            && (TypeOf(info.mode) !in {S_DIR, S_LNK} ==> ino.size == info.size)
  {
    hide *;
    OpenedFacts(img, sb, items, c);
    PlannedFacts(items, c);
    ReadyFacts(items[i], c);
    RoomForInode(img, sb, items, c, i);
    InodeOnImage(img, sb, items, c, i);
    ExpectedFields(img, items, i, c);
    var addr := DataAddrs(items, SbBlocks(c), c)[i];
    FieldsAre(items, i, c);
    ExpectedIs(img, items, i, c);
    DecodedOwn(img, items[i].node, items[i].plan, addr, c);
    OwnSize(items[i].node, c.bs);
  }

  /** The stored fields, decoded, are the entry's values. */
  lemma DecodedOwn(img: Image, n: Node, p: Plan, addr: nat, c: Config)
    requires c.bs > 0 && (p.xattrSize == 0 || p.xattrSize >= SIZE_XATTR_HEADER)
    requires img.buildTime == c.buildTime && img.buildTimeNs == c.buildTimeNs
    ensures var ino, info := Decoded(img, p.nid, FieldsOf(n, p, addr, c), p.compact), n.info;
            && ino.uid == (if p.compact then info.uid % 0x1_0000 else info.uid)
            && ino.gid == (if p.compact then info.gid % 0x1_0000 else info.gid)
            && ino.nlink == (if p.compact then info.nlink % 0x1_0000 else info.nlink)
            && ino.mtime == (if p.compact then c.buildTime else info.mtime)
            && ino.mtimeNs == (if p.compact then c.buildTimeNs else info.mtimeNs)
            && (TypeOf(info.mode) in {S_CHR, S_BLK, S_FIFO, S_SOCK} ==> ino.data == info.rdev)
  {
    hide FileSize, XattrCount, XattrAreaSize, InodeFormat;
  }

  lemma OwnSize(n: Node, bs: nat)
    requires bs > 0
    ensures TypeOf(n.info.mode) == S_LNK ==> FileSize(n, bs) == |n.info.symTarget|
    ensures TypeOf(n.info.mode) !in {S_DIR, S_LNK} ==> FileSize(n, bs) == n.info.size
  {
  }

  lemma FitsAre(it: Item, c: Config)
    requires c.bs > 0 && FieldsFit(it, c)
    ensures FileSize(it.node, c.bs) < (if it.plan.compact then 0x1_0000_0000 else 0x8000_0000_0000_0000)
    ensures it.plan.xattrSize <= SIZE_XATTR_HEADER + 4 * 65534
  {
  }

  lemma FieldParts(n: Node, p: Plan, addr: nat, c: Config)
    requires c.bs > 0 && (p.xattrSize == 0 || p.xattrSize >= SIZE_XATTR_HEADER)
    ensures var f := FieldsOf(n, p, addr, c);
            && f.xattrCount == XattrCount(p.xattrSize) < 0x1_0000 && f.mode == n.info.mode
            && f.size == FileSize(n, c.bs) && f.data == InodeData(n, p, addr, c)
  {
  }

  lemma DecodedParts(img: Image, nid: nat, f: Fields, compact: bool)
    requires f.size < (if compact then 0x1_0000_0000 else 0x8000_0000_0000_0000) && f.xattrCount < 0x1_0000
    ensures var ino := Decoded(img, nid, f, compact);
            && ino.nid == nid && ino.icsize == CoreSize(compact) && ino.xsize == XattrAreaSize(f.xattrCount)
            && ino.layout == f.format % 0x1_0000 / 2 % 8 && ino.mode == f.mode && ino.size == f.size
            && ino.data == f.data % 0x1_0000_0000
  {
  }

  lemma LayoutSmall(it: Item, c: Config)
    requires Ready(it, c)
    ensures it.plan.layout < 8
  {
  }

  lemma XattrAligned(i: Info)
    ensures XattrSize(i) == 0 || (XattrSize(i) > SIZE_XATTR_HEADER && XattrSize(i) % 4 == 0)
  {
    hide EntriesBytes, SumSizes, SortedAttrs;
    if i.xattrs != map[] {
      var es := SortedAttrs(i.xattrs);
      SomeAttrs(i.xattrs);
      EntriesSize(es);
      EntriesAligned(es);
    }
  }

  lemma SomeAttrs(m: map<bytes, bytes>)
    requires m != map[]
    ensures SortedAttrs(m) != []
  {
    AnyOrderLists(m.Keys);
    SortedLists(AnyOrder(m.Keys), m.Keys);
    var k :| k in m.Keys;
    assert k in SortedKeys(m.Keys);
  }

  lemma {:induction false} EntriesAligned(es: seq<Attr>)
    ensures SumSizes(es) % 4 == 0
    ensures es != [] ==> SumSizes(es) > 0
  {
    hide EntrySize;
    if es != [] {
      EntriesAligned(es[1..]);
      AddFours(EntrySize(es[0]), SumSizes(es[1..]));
    }
  }

  lemma AddFours(a: nat, b: nat)
    requires a % 4 == 0 && b % 4 == 0
    ensures (a + b) % 4 == 0
  {
  }

  predicate HasContent(it: Item) {
    TypeOf(it.node.info.mode) in {S_REG, S_DIR, S_LNK} && it.plan.layout in {FLAT_PLAIN, FLAT_INLINE}
  }

  /**
   Content round trip. On the written image the inode of every flat file, directory and symlink can
   be read and its blocks hold exactly the content; File.Read then returns any part of it. The
   conditions are checkable before writing: fields wide enough, and not the one cut-off inode.
   */
  lemma ContentRoundTrip(img: Image, sb: bytes, items: seq<Item>, c: Config, i: nat)
    requires Opened(img, sb, items, c) && i < |items|
    requires c.bs > 0 && HasContent(items[i]) && FieldsFit(items[i], c)
    requires !(i == |items| - 1 && CutOff(items, c))
    ensures BlockSize(img.bs)
    ensures ReadInfo(img, items[i].plan.nid) == Ok(ExpectedInode(img, items, i, c))
    ensures Stored(img, ExpectedInode(img, items, i, c), Content(items[i], c))
  {
    hide *;
    OpenedFacts(img, sb, items, c);
    RoomForInode(img, sb, items, c, i);
    InodeOnImage(img, sb, items, c, i);
    ExpectedFields(img, items, i, c);
    ContentLength(items, i, c);
    KindOfContent(items[i]);
    if items[i].plan.layout == FLAT_PLAIN {
      PlainContent(img, sb, items, c, i);
      PlainStored(img, ExpectedInode(img, items, i, c), Content(items[i], c));
    } else {
      InlineContent(img, sb, items, c, i);
      InlineStored(img, ExpectedInode(img, items, i, c), Content(items[i], c));
    }
  }

  lemma KindOfContent(it: Item)
    requires HasContent(it)
    ensures it.plan.layout == FLAT_PLAIN || it.plan.layout == FLAT_INLINE
  {
  }

  lemma ContentLength(items: seq<Item>, i: nat, c: Config)
    requires Planned(items, c) && c.bs > 0 && i < |items| && HasContent(items[i])
    ensures |Content(items[i], c)| == FileSize(items[i].node, c.bs)
  {
    hide Content, FileSize, ItemOK, Ready;
    PlannedFacts(items, c);
    ContentSize(items[i], c);
  }

  ghost predicate ContentAt(img: Image, ino: Inode, content: bytes) {
    content != [] ==> At(img.meta, ino.data * img.bs, content)
  }

  lemma PlainContent(img: Image, sb: bytes, items: seq<Item>, c: Config, i: nat)
    requires Planned(items, c) && i < |items| && c.bs > 0
    requires Opened(img, sb, items, c)
    requires HasContent(items[i]) && items[i].plan.layout == FLAT_PLAIN && FieldsFit(items[i], c)
    ensures ContentAt(img, ExpectedInode(img, items, i, c), Content(items[i], c))
  {
    hide *;
    OpenedFacts(img, sb, items, c);
    ExpectedFields(img, items, i, c);
    ContentLength(items, i, c);
    var addr := DataAddrs(items, SbBlocks(c), c)[i];
    if Content(items[i], c) != [] {
      PlainPositive(items, i, c);
      DataInImage(sb, items, c, i);
      DataStartIs(items, c, i);
      BlockBudget(items, c);
      AddressOf(items, SbBlocks(c), c, i);
      AddressFits(items, c, i);
      PlainWord(items[i], addr, c);
      NoWrap32(addr);
    }
    PlacedContent(img, ExpectedInode(img, items, i, c), Content(items[i], c));
  }

  lemma NoWrap32(addr: nat)
    requires addr < 0x1_0000_0000
    ensures addr % 0x1_0000_0000 == addr
  {
  }

  lemma PlacedContent(img: Image, ino: Inode, content: bytes)
    requires content != [] ==> At(img.meta, ino.data * img.bs, content)
    ensures ContentAt(img, ino, content)
  {
  }

  lemma PlainPositive(items: seq<Item>, i: nat, c: Config)
    requires Planned(items, c) && i < |items| && c.bs > 0 && HasContent(items[i])
    requires items[i].plan.layout == FLAT_PLAIN && Content(items[i], c) != []
    ensures PlainSize(items[i], c) > 0 && FileSize(items[i].node, c.bs) > 0
  {
    hide Content, FileSize, ItemOK, Ready, PlainSize;
    PlannedFacts(items, c);
    ContentSize(items[i], c);
  }

  lemma PlainWord(it: Item, addr: nat, c: Config)
    requires HasContent(it) && it.plan.layout == FLAT_PLAIN && c.bs > 0 && FileSize(it.node, c.bs) > 0
    ensures InodeData(it.node, it.plan, addr, c) == addr
  {
  }

  lemma {:induction false} BeforeAtMost(items: seq<Item>, i: nat, c: Config)
    requires c.bs > 0 && i <= |items|
    ensures BlocksBefore(items, i, c) <= DataBlocks(items, c)
  {
    if i > 0 {
      BeforeAtMost(items[1..], i - 1, c);
    }
  }

  lemma AddressFits(items: seq<Item>, c: Config, i: nat)
    requires c.bs > 0 && i < |items| && SbBlocks(c) + DataBlocks(items, c) < 0x1_0000_0000
    ensures SbBlocks(c) + BlocksBefore(items, i, c) < 0x1_0000_0000
  {
    BeforeAtMost(items, i, c);
  }

  lemma InlineContent(img: Image, sb: bytes, items: seq<Item>, c: Config, i: nat)
    requires Opened(img, sb, items, c) && i < |items| && c.bs > 0
    requires HasContent(items[i]) && items[i].plan.layout == FLAT_INLINE && FieldsFit(items[i], c)
    requires InodeAddr(img, items[i].plan.nid) + SIZE_EXTENDED <= |img.meta|
    ensures var ino := ExpectedInode(img, items, i, c);
            var d := InodeAddr(img, ino.nid) + ino.icsize + ino.xsize;
            && img.bs > 0
            && At(img.meta, d, Content(items[i], c))
            && Rem(d, img.bs) + |Content(items[i], c)| <= img.bs
  {
    hide *;
    OpenedFacts(img, sb, items, c);
    ExpectedFields(img, items, i, c);
    InodeOnImage(img, sb, items, c, i);
    InlineTrailing(items, i, c);
    AddressOfInode(img, sb, items, c, i);
    InlineInBlock(items, c, i);
    RegionOffsetIs(items, i, c);
    var p := items[i].plan;
    RemAfter(MetaBlock(items, c), Begin(p), CoreSize(p.compact) + p.xattrSize, p.trailing, c.bs);
  }

  lemma InlineTrailing(items: seq<Item>, i: nat, c: Config)
    requires Planned(items, c) && i < |items| && items[i].plan.layout == FLAT_INLINE
    ensures ValidConfig(c) && c.bs > 0 && TrailingBytes(items[i], c) == Content(items[i], c)
    ensures |Content(items[i], c)| == items[i].plan.trailing
  {
    hide Content, Ready, Trailing;
    PlannedFacts(items, c);
    TrailingSize(items[i], c);
  }

  lemma RegionOffsetIs(items: seq<Item>, i: nat, c: Config)
    requires c.bs > 0 && i < |items|
    ensures RegionOffset(items, i, c) == MetaBlock(items, c) * c.bs + Begin(items[i].plan)
  {
  }

  lemma InlineInBlock(items: seq<Item>, c: Config, i: nat)
    requires Planned(items, c) && i < |items| && items[i].plan.layout == FLAT_INLINE
    ensures c.bs > 0
    ensures var p := items[i].plan;
            Rem(Begin(p), c.bs) + CoreSize(p.compact) + p.xattrSize + p.trailing <= c.bs
  {
    hide AllReady, SafeFrom, Rem;
    PlannedFacts(items, c);
    SafeAt(PlansOf(items), 0, c.bs, i);
  }

  /** Within a block, moving on does not wrap. */
  lemma RemAfter(k: nat, begin: nat, header: nat, len: nat, bs: nat)
    requires bs > 0 && Rem(begin, bs) + header + len <= bs
    ensures Rem(k * bs + begin + header, bs) + len <= bs
  {
    var q, r := Quo(begin, bs), Rem(begin, bs);
    Distribute(k, q, bs);
    if r + header < bs {
      DivUnique(k * bs + begin + header, bs, k + q, r + header);
    } else {
      Distribute(k + q, 1, bs);
      DivUnique(k * bs + begin + header, bs, k + q + 1, 0);
    }
  }
}
