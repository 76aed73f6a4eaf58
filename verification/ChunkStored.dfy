/**
 Chunk-based files on any image, with 4-byte block addresses or 8-byte indexes behind the inode: when the
 chunks lie where their entries say, on the image or on its devices, the file reads as its content.
 */
module ChunkStored {
  import opened Bytes
  import opened Format
  import opened Reader
  import opened RoundTrip
  import opened ChunkReader
  import opened DirectReader

  // ---- Devices ----

  /** Address pa of the primary device lies in the range that is mapped to device k. */
  predicate Serves(img: Image, k: nat, pa: int)
    requires k < |img.devices|
  {
    var d := img.devices[k];
    d.mappedBlkAddr != 0 && d.mappedBlkAddr * img.bs <= pa < d.mappedBlkAddr * img.bs + d.blocks * img.bs
  }

  /** The first device that serves pa is k. */
  predicate FirstServes(img: Image, k: nat, pa: int) {
    k < |img.devices| && Serves(img, k, pa) && forall j | 0 <= j < k :: !Serves(img, j, pa)
  }

  predicate NoneServes(img: Image, pa: int) {
    forall k | 0 <= k < |img.devices| :: !Serves(img, k, pa)
  }

  /** mapDev: an extra device by its number; the primary one through the mapped ranges, the first that fits. */
  lemma MapDevExact(img: Image, dev: nat, pa: int)
    ensures dev > |img.devices| ==> MapDev(img, dev, pa) == Err(Invalid)
    ensures 0 < dev <= |img.devices| ==> MapDev(img, dev, pa) == Ok((img.devices[dev - 1].data, pa))
    ensures dev == 0 && NoneServes(img, pa) ==> MapDev(img, dev, pa) == Ok((img.meta, pa))
    ensures forall k: nat :: dev == 0 && FirstServes(img, k, pa) ==>
              MapDev(img, dev, pa) == Ok((img.devices[k].data, pa - img.devices[k].mappedBlkAddr * img.bs))
  {
    if dev == 0 {
      assert img.devices[0..] == img.devices;
      PrimaryFrom(img, 0, pa);
    }
  }

  lemma {:induction false} PrimaryFrom(img: Image, i: nat, pa: int)
    requires i <= |img.devices| && forall j | 0 <= j < i :: !Serves(img, j, pa)
    ensures NoneServes(img, pa) ==> MapPrimary(img, img.devices[i..], pa) == Ok((img.meta, pa))
    ensures forall k: nat :: FirstServes(img, k, pa) ==>
              MapPrimary(img, img.devices[i..], pa) == Ok((img.devices[k].data, pa - img.devices[k].mappedBlkAddr * img.bs))
    decreases |img.devices| - i
  {
    if i < |img.devices| {
      assert img.devices[i..][0] == img.devices[i] && img.devices[i..][1..] == img.devices[i + 1..];
      if !Serves(img, i, pa) {
        PrimaryFrom(img, i + 1, pa);
      } else {
        assert forall k: nat :: FirstServes(img, k, pa) ==> k == i;
      }
    }
  }

  // ---- Chunks ----

  /** An entry of the map: the low half is the block address, the rest is there in 8-byte entries only. */
  datatype Entry = Entry(hi: u16, dev: u16, lo: u32)

  /** Bit 5 of the format: 8-byte indexes. */
  predicate Indexed(ino: Inode) { ino.data / 32 % 2 == 1 }

  /** The entry of chunk cn lies behind inode and attributes; 8-byte entries start at a multiple of 8. */
  ghost predicate EntryLies(img: Image, ino: Inode, cn: nat, e: Entry) {
    var behind := InodeAddr(img, ino.nid) + ino.icsize + ino.xsize;
    if Indexed(ino) then At(img.meta, RoundUp(behind, 8) + 8 * cn, U16(e.hi) + U16(e.dev) + U32(e.lo))
    else At(img.meta, behind + 4 * cn, U32(e.lo))
  }

  function DeviceOf(img: Image, ino: Inode, e: Entry): nat {
    if Indexed(ino) then e.dev % (img.deviceIDMask + 1) else 0
  }

  /** The bytes lie at address pa of device dev. */
  ghost predicate LiesAt(img: Image, dev: nat, pa: nat, part: bytes) {
    if dev > 0 then dev <= |img.devices| && At(img.devices[dev - 1].data, pa, part)
    else
      || (At(img.meta, pa, part) && forall a: nat | pa <= a < pa + |part| :: NoneServes(img, a))
      || exists k: nat :: k < |img.devices| && MappedAt(img, k, pa, part)
  }

  /** The bytes at address pa of the primary device are those of the device k mapped there. */
  ghost predicate MappedAt(img: Image, k: nat, pa: nat, part: bytes)
    requires k < |img.devices|
  {
    && pa >= img.devices[k].mappedBlkAddr * img.bs
    && At(img.devices[k].data, pa - img.devices[k].mappedBlkAddr * img.bs, part)
    && forall a: nat | pa <= a < pa + |part| :: FirstServes(img, k, a)
  }

  /** A chunk of the content is where its entry says; a hole stands for zeros. */
  ghost predicate ChunkLies(img: Image, ino: Inode, e: Entry, part: bytes) {
    if e.lo == 0xFFFF_FFFF then part == Zeros(|part|) else LiesAt(img, DeviceOf(img, ino, e), e.lo * img.bs, part)
  }

  /** Chunk cn of the content. */
  function Part(content: bytes, cs: nat, cn: nat): bytes
    requires cn * cs <= |content|
  {
    content[cn * cs..Min(cn * cs + cs, |content|)]
  }

  /** Reading part of what lies at address a of a byte string. */
  lemma BoundedPart(b: bytes, bs: nat, a: nat, part: bytes, skip: nat, lo: nat, hi: nat)
    requires At(b, a, part) && lo < hi <= bs && skip + hi <= |part|
    ensures ReadBounded(b, bs, a + skip, lo, hi) == Ok(part[skip + lo..skip + hi])
  {
    hide At;
    ReadPart(b, a, part, skip + lo, skip + hi);
  }

  lemma MappedRead(img: Image, dev: nat, pa: nat, part: bytes, skip: nat, lo: nat, hi: nat)
    requires LiesAt(img, dev, pa, part) && skip < |part| && lo < hi <= img.bs && skip + hi <= |part|
    ensures MapDev(img, dev, pa + skip).Ok?
    ensures var (b, a) := MapDev(img, dev, pa + skip).value;
            ReadBounded(b, img.bs, a, lo, hi) == Ok(part[skip + lo..skip + hi])
  {
    hide MapDev, Serves, FirstServes, NoneServes, At, ReadBounded;
    MapDevExact(img, dev, pa + skip);
    if dev > 0 {
      BoundedPart(img.devices[dev - 1].data, img.bs, pa, part, skip, lo, hi);
    } else if At(img.meta, pa, part) && forall a: nat | pa <= a < pa + |part| :: NoneServes(img, a) {
      assert NoneServes(img, pa + skip);
      BoundedPart(img.meta, img.bs, pa, part, skip, lo, hi);
    } else {
      var k: nat :| k < |img.devices| && MappedAt(img, k, pa, part);
      assert FirstServes(img, k, pa + skip);
      BoundedPart(img.devices[k].data, img.bs, pa - img.devices[k].mappedBlkAddr * img.bs, part, skip, lo, hi);
    }
  }

  lemma EntryLoads(img: Image, ino: Inode, cn: nat, e: Entry)
    requires EntryLies(img, ino, cn, e)
    ensures ChunkEntry(img, ino, ino.data % 0x1_0000, cn)
         == Ok(if e.lo == 0xFFFF_FFFF then None else Some((e.lo, DeviceOf(img, ino, e))))
  {
    hide InodeAddr, U16, U32, Get16, Get32, RoundUp, ReadAt, At;
    FormatLow(ino.data);
    var behind := InodeAddr(img, ino.nid) + ino.icsize + ino.xsize;
    if Indexed(ino) {
      IndexLoads(img.meta, RoundUp(behind, 8) + 8 * cn, e);
    } else {
      WordLoads(img.meta, behind + 4 * cn, e.lo);
    }
  }

  lemma IndexLoads(b: bytes, a: nat, e: Entry)
    requires At(b, a, U16(e.hi) + U16(e.dev) + U32(e.lo))
    ensures ReadAt(b, a, 8).Ok? && |ReadAt(b, a, 8).value| == 8
    ensures Get16(ReadAt(b, a, 8).value, 2) == e.dev && Get32(ReadAt(b, a, 8).value, 4) == e.lo
  {
    hide U16, U32, Get16, Get32;
    AtParts(b, a, U16(e.hi), U16(e.dev), U32(e.lo));
    LoadStored16(b, a + 2, e.dev);
    LoadStored32(b, a + 4, e.lo);
    Window(b, a, 8, 2);
    Window(b, a, 8, 4);
  }

  lemma WordLoads(b: bytes, a: nat, lo: u32)
    requires At(b, a, U32(lo))
    ensures ReadAt(b, a, 4).Ok? && |ReadAt(b, a, 4).value| == 4 && Get32(ReadAt(b, a, 4).value, 0) == lo
  {
    hide U32, Get32;
    LoadStored32(b, a, lo);
    Window(b, a, 4, 0);
  }

  /** One block of a chunk. */
  lemma ChunkLoads(img: Image, ino: Inode, e: Entry, part: bytes, skip: nat, lo: nat, hi: nat)
    requires ChunkLies(img, ino, e, part) && skip < |part| && lo < hi <= img.bs && skip + hi <= |part|
    ensures ReadChunk(img, if e.lo == 0xFFFF_FFFF then None else Some((e.lo, DeviceOf(img, ino, e))), skip, lo, hi)
         == Ok(part[skip + lo..skip + hi])
  {
    hide LiesAt, MapDev, ReadBounded, DeviceOf;
    if e.lo != 0xFFFF_FFFF {
      MappedRead(img, DeviceOf(img, ino, e), e.lo * img.bs, part, skip, lo, hi);
    } else {
      assert part[skip + lo..skip + hi] == Zeros(hi - lo);
    }
  }

  /** What every chunk-based inode must have on the image to stand for its content. */
  ghost predicate ChunksLie(img: Image, ino: Inode, entries: seq<Entry>, cs: nat, content: bytes)
    requires cs > 0
  {
    forall cn: nat :: cn < |entries| ==>
      EntryLies(img, ino, cn, entries[cn]) && cn * cs <= |content| && ChunkLies(img, ino, entries[cn], Part(content, cs, cn))
  }

  /** A file whose chunks lie where its entries say reads as its content, at every position. */
  lemma ChunksStored(img: Image, ino: Inode, entries: seq<Entry>, content: bytes)
    requires BlockSize(img.bs) && ino.layout == CHUNK_BASED && ino.size == |content| && ino.data % 0x1_0000 < 64
    requires var cs := Pow2(ino.data % 32) * img.bs;
             cs > 0 && |entries| == CeilDiv(|content|, cs) && ChunksLie(img, ino, entries, cs, content)
    ensures Stored(img, ino, content)
  {
    hide LoadBlock, BlockStop, PowerOfTwo, ChunksLie, CeilDiv, Pow2;
    forall pos: nat | pos < |content|
      ensures LoadBlock(img, ino, pos) == Ok(content[pos..BlockStop(img.bs, |content|, pos)])
    {
      ChunkOf(img, ino, entries, content, pos);
    }
  }

  /** Where block and position lie in their chunk. */
  lemma InChunk(n: nat, bs: nat, bpc: nat, pos: nat)
    requires bs > 0 && bpc > 0 && pos < n
    ensures var cs := bpc * bs;
            var cn := Quo(pos, cs);
            var stop := BlockStop(bs, n, pos);
            && cn * cs <= Quo(pos, bs) * bs <= pos < stop <= Min(cn * cs + cs, n)
            && stop <= Quo(pos, bs) * bs + bs
            && SkipInChunk(bs, cs, Quo(pos, bs), cn) == Quo(pos, bs) * bs - cn * cs
  {
    var cs := bpc * bs;
    ChunkOfBlock(pos, bs, bpc);
    var s := Rem(Quo(pos, bs), bpc);
    MulMono(s + 1, bpc, bs);
    MulStep(s, bs);
    MulStep(Quo(pos, bs), bs);
  }

  /** The load of a block, from its chunk's entry. */
  lemma LoadsChunk(img: Image, ino: Inode, pos: nat, entry: Option<(u32, nat)>)
    requires BlockSize(img.bs) && ino.layout == CHUNK_BASED && pos < ino.size && ino.data % 0x1_0000 < 64
    requires var format := ino.data % 0x1_0000;
             var cs := ChunkSize(img.bs, format);
             && ChunkNumber(ino.size, cs, pos) == Some(Quo(pos, cs))
             && ChunkEntry(img, ino, format, Quo(pos, cs)) == Ok(entry)
    ensures var cs := ChunkSize(img.bs, ino.data % 0x1_0000);
            var bn := Quo(pos, img.bs);
            LoadBlock(img, ino, pos)
              == ReadChunk(img, entry, SkipInChunk(img.bs, cs, bn, Quo(pos, cs)), Rem(pos, img.bs), EndInBlock(ino.size, img.bs, bn))
  {
    hide PowerOfTwo, EndInBlock, BlockCount, ChunkEntry, ReadChunk, ChunkNumber, Rem, Quo, Pow2, SkipInChunk;
    FormatLow(ino.data);
    EndAfter(ino.size, img.bs, pos);
    assert LoadBlock(img, ino, pos) == LoadChunkBlock(img, ino, pos);
  }

  lemma LiesHere(img: Image, ino: Inode, entries: seq<Entry>, cs: nat, content: bytes, cn: nat)
    requires cs > 0 && ChunksLie(img, ino, entries, cs, content) && cn < |entries|
    ensures EntryLies(img, ino, cn, entries[cn]) && cn * cs <= |content| && ChunkLies(img, ino, entries[cn], Part(content, cs, cn))
  {
    hide EntryLies, ChunkLies, Part;
  }

  lemma ChunkOf(img: Image, ino: Inode, entries: seq<Entry>, content: bytes, pos: nat)
    requires BlockSize(img.bs) && ino.layout == CHUNK_BASED && ino.size == |content| && ino.data % 0x1_0000 < 64 && pos < |content|
    requires var cs := Pow2(ino.data % 32) * img.bs;
             cs > 0 && |entries| == CeilDiv(|content|, cs) && ChunksLie(img, ino, entries, cs, content)
    ensures LoadBlock(img, ino, pos) == Ok(content[pos..BlockStop(img.bs, |content|, pos)])
  {
    hide *;
    FormatLow(ino.data);
    BlockPositive(img.bs);
    ChunkSizeIs(img.bs, ino.data % 0x1_0000);
    var bs, bpc := img.bs, Pow2(ino.data % 32);
    var cs := bpc * bs;
    ChunkExists(pos, |content|, cs);
    InChunk(|content|, bs, bpc, pos);
    EndAfter(ino.size, bs, pos);
    var cn, bn := Quo(pos, cs), Quo(pos, bs);
    LiesHere(img, ino, entries, cs, content, cn);
    EntryLoads(img, ino, cn, entries[cn]);
    LoadsChunk(img, ino, pos, if entries[cn].lo == 0xFFFF_FFFF then None else Some((entries[cn].lo, DeviceOf(img, ino, entries[cn]))));
    PartIs(content, cs, cn, pos, BlockStop(bs, |content|, pos));
    ChunkLoads(img, ino, entries[cn], Part(content, cs, cn), bn * bs - cn * cs, Rem(pos, bs), BlockStop(bs, |content|, pos) - bn * bs);
  }

  lemma PartIs(content: bytes, cs: nat, cn: nat, pos: nat, stop: nat)
    requires cn * cs <= pos < stop <= Min(cn * cs + cs, |content|)
    ensures |Part(content, cs, cn)| == Min(cn * cs + cs, |content|) - cn * cs
    ensures Part(content, cs, cn)[pos - cn * cs..stop - cn * cs] == content[pos..stop]
  {
    SliceOfSlice(content, cn * cs, Min(cn * cs + cs, |content|), pos - cn * cs, stop - cn * cs);
  }

  /** Which inodes no block is loaded of: compressed ones and unknown layouts, and chunk formats beyond bit 5. */
  lemma LoadRefuses(img: Image, ino: Inode, pos: nat)
    requires BlockSize(img.bs)
    ensures ino.size > 0 && Quo(pos, img.bs) > Quo(ino.size - 1, img.bs) ==> LoadBlock(img, ino, pos) == Err(EOF)
    ensures pos < ino.size && (ino.layout == 1 || ino.layout == 3) ==> LoadBlock(img, ino, pos) == Err(NotImplemented)
    ensures pos < ino.size && ino.layout > 4 ==> LoadBlock(img, ino, pos) == Err(Invalid)
    ensures pos < ino.size && ino.layout == 4 && ino.data % 0x1_0000 >= 64 ==>
              LoadBlock(img, ino, pos) == Err(if ino.data / 64 % 2 == 1 then NotImplemented else Invalid)
  {
    hide PowerOfTwo, ReadBounded, LoadInlineTail, LoadChunkBlock, BlockCount, Quo, Rem, EndInBlock;
    if pos < ino.size {
      EndAfter(ino.size, img.bs, pos);
    }
    if ino.size > 0 {
      RoundTrip.LastBlock(ino.size, img.bs);
    }
    FormatRefused(img, ino, pos);
  }

  lemma FormatRefused(img: Image, ino: Inode, pos: nat)
    requires BlockSize(img.bs)
    ensures ino.data % 0x1_0000 >= 64 ==>
              LoadChunkBlock(img, ino, pos) == Err(if ino.data / 64 % 2 == 1 then NotImplemented else Invalid)
  {
    hide PowerOfTwo, Quo, Rem, EndInBlock, ChunkEntry, ChunkNumber, ReadChunk, ChunkSize, SkipInChunk;
    FormatLow(ino.data);
  }
}
