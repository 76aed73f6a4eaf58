/**
 The fast path (erofs.go, openDirect): one section of a byte string that stands for the whole file,
 against the block-at-a-time reader.
 */
module DirectReader {
  import opened Bytes
  import opened Format
  import opened Reader
  import opened Placement
  import opened ChunkReader
  import opened RoundTrip

  /** io.SectionReader */
  datatype Section = Section(source: bytes, off: nat, len: nat)

  /** Bytes lo..hi of a section; None when the source ends before. */
  function SectionBytes(s: Section, lo: nat, hi: nat): Option<bytes>
    requires lo <= hi <= s.len
  {
    if s.off + hi <= |s.source| then Some(s.source[s.off + lo..s.off + hi]) else None
  }

  /** The 48-bit address of index i, and its device. */
  function IndexPhys(b: bytes, i: nat): nat
    requires 8 * i + 8 <= |b|
  {
    Get16(b, 8 * i) * 0x1_0000_0000 + Get32(b, 8 * i + 4)
  }

  function IndexDev(b: bytes, i: nat, mask: nat): nat
    requires 8 * i + 8 <= |b|
  {
    Get16(b, 8 * i + 2) % (mask + 1)
  }

  /** n indexes without holes, bpc blocks apart on one device. */
  predicate RunIndexes(b: bytes, n: nat, bpc: nat, mask: nat)
    requires |b| == 8 * n && n > 0
  {
    forall i | 0 <= i < n :: RunIndex(b, i, bpc, mask)
  }

  predicate RunIndex(b: bytes, i: nat, bpc: nat, mask: nat)
    requires 8 * i + 8 <= |b|
  {
    && Get32(b, 8 * i + 4) != NULL_ADDR
    && IndexPhys(b, i) == IndexPhys(b, 0) + i * bpc
    && IndexDev(b, i, mask) == IndexDev(b, 0, mask)
  }

  /** Number of chunks of a file. */
  function ChunkCount(size: nat, cs: nat): (n: nat)
    requires cs > 0 && size > 0
    ensures n > 0
  {
    Quo(size - 1, cs) + 1
  }

  /** openDirect */
  function OpenDirectSpec(img: Image, ino: Inode): Option<Section>
    requires BlockSize(img.bs)
  {
    if ino.size <= 0 then None
    else if ino.layout == FLAT_PLAIN then Some(Section(img.meta, ino.data * img.bs, ino.size))
    else if ino.layout == FLAT_INLINE then
      if ino.size > img.bs then None
      else Some(Section(img.meta, InodeAddr(img, ino.nid) + ino.icsize + ino.xsize, ino.size))
    else if ino.layout == CHUNK_BASED then DirectChunks(img, ino)
    else None
  }

  function DirectChunks(img: Image, ino: Inode): Option<Section>
    requires BlockSize(img.bs) && ino.size > 0
  {
    var format := ino.data % 0x1_0000;
    if format / 32 % 2 == 0 then None
    else
      var n := ChunkCount(ino.size, ChunkSize(img.bs, format));
      match ReadAt(img.meta, IndexBase(img, ino), 8 * n)
      case Err(_) => None
      case Ok(b) =>
        if RunIndexes(b, n, Pow2(format % 32), img.deviceIDMask) then
          Some(Section(SourceOf(img, IndexDev(b, 0, img.deviceIDMask)), IndexPhys(b, 0) * img.bs, ino.size))
        else None
  }

  function SourceOf(img: Image, dev: nat): bytes {
    if 0 < dev <= |img.devices| then img.devices[dev - 1].data else img.meta
  }

  /** The contiguity loop of openDirect. */
  method ScanIndexes(b: bytes, n: nat, bpc: nat, mask: nat) returns (ok: bool)
    requires |b| == 8 * n && n > 0
    ensures ok == RunIndexes(b, n, bpc, mask)
  {
    hide Get16, Get32;
    var startBlock, deviceID: nat := 0, 0;
    var i := 0;
    while i < n
      invariant i <= n
      invariant i > 0 ==> startBlock == IndexPhys(b, 0) && deviceID == IndexDev(b, 0, mask)
      invariant forall k :: 0 <= k < i ==> RunIndex(b, k, bpc, mask)
    {
      if Get32(b, 8 * i + 4) == NULL_ADDR {
        assert !RunIndex(b, i, bpc, mask);
        return false;
      }
      var phys, did := IndexPhys(b, i), IndexDev(b, i, mask);
      if i == 0 {
        startBlock, deviceID := phys, did;
      } else if phys != startBlock + i * bpc || did != deviceID {
        assert !RunIndex(b, i, bpc, mask);
        return false;
      }
      i := i + 1;
    }
    return true;
  }

  method OpenDirect(img: Image, ino: Inode) returns (r: Option<Section>)
    requires BlockSize(img.bs)
    ensures r == OpenDirectSpec(img, ino)
  {
    hide RunIndexes, IndexPhys, IndexDev, InodeAddr, IndexBase, ReadAt, ChunkSize;
    if ino.size <= 0 {
      return None;
    }
    if ino.layout == FLAT_PLAIN {
      return Some(Section(img.meta, ino.data * img.bs, ino.size));
    } else if ino.layout == FLAT_INLINE {
      return if ino.size > img.bs then None else Some(Section(img.meta, InodeAddr(img, ino.nid) + ino.icsize + ino.xsize, ino.size));
    } else if ino.layout == CHUNK_BASED {
      var format := ino.data % 0x1_0000;
      if format / 32 % 2 == 0 {
        return None;
      }
      var n := ChunkCount(ino.size, ChunkSize(img.bs, format));
      var idx := ReadAt(img.meta, IndexBase(img, ino), 8 * n);
      if idx.Err? {
        return None;
      }
      ReadLength(img.meta, IndexBase(img, ino), 8 * n);
      var contiguous := ScanIndexes(idx.value, n, Pow2(format % 32), img.deviceIDMask);
      if !contiguous {
        return None;
      }
      var deviceID := IndexDev(idx.value, 0, img.deviceIDMask);
      return Some(Section(SourceOf(img, deviceID), IndexPhys(idx.value, 0) * img.bs, ino.size));
    }
    return None;
  }

  lemma ReadLength(b: bytes, addr: nat, n: nat)
    ensures ReadAt(b, addr, n).Ok? ==> addr + n <= |b| && ReadAt(b, addr, n).value == b[addr..addr + n]
  {
  }

  /** The chunk indexes in the image are one run: all there, no hole, each chunk right behind the one before, on one device. */
  ghost predicate SingleRun(img: Image, ino: Inode)
    requires BlockSize(img.bs) && ino.size > 0
  {
    var bpc, base := Pow2(ino.data % 32), IndexBase(img, ino);
    var n := Quo(ino.size - 1, ChunkSize(img.bs, ino.data % 0x1_0000)) + 1;
    && ino.data / 32 % 2 == 1 && base + 8 * n <= |img.meta|
    && forall i: nat :: i < n ==> RunEntry(img, base, i, bpc)
  }

  /** Entry i of the indexes at base is no hole, and i chunks behind the first, on the same device. */
  ghost predicate RunEntry(img: Image, base: nat, i: nat, bpc: nat)
    requires base + 8 * i + 8 <= |img.meta|
  {
    var a := base + 8 * i;
    && Get32(img.meta, a + 4) != 0xFFFF_FFFF
    && Get16(img.meta, a) * 0x1_0000_0000 + Get32(img.meta, a + 4)
       == Get16(img.meta, base) * 0x1_0000_0000 + Get32(img.meta, base + 4) + i * bpc
    && Get16(img.meta, a + 2) % (img.deviceIDMask + 1) == Get16(img.meta, base + 2) % (img.deviceIDMask + 1)
  }

  /** Which files are offered as one section. */
  lemma OffersExactly(img: Image, ino: Inode)
    requires BlockSize(img.bs)
    ensures OpenDirectSpec(img, ino).Some? <==>
              && ino.size > 0
              && (|| ino.layout == FLAT_PLAIN
                  || (ino.layout == FLAT_INLINE && ino.size <= img.bs)
                  || (ino.layout == CHUNK_BASED && SingleRun(img, ino)))
  {
    hide PowerOfTwo, IndexBase, DirectChunks, SingleRun, InodeAddr;
    if ino.size > 0 && ino.layout == CHUNK_BASED {
      RunOffered(img, ino);
    }
  }

  lemma RunOffered(img: Image, ino: Inode)
    requires BlockSize(img.bs) && ino.size > 0
    ensures DirectChunks(img, ino).Some? <==> SingleRun(img, ino)
  {
    hide PowerOfTwo, IndexBase, ChunkSize, Get16, Get32, Pow2, Quo, RunIndexes, RunEntry, IndexPhys, IndexDev, SourceOf;
    var base, n := IndexBase(img, ino), ChunkCount(ino.size, ChunkSize(img.bs, ino.data % 0x1_0000));
    assert n == Quo(ino.size - 1, ChunkSize(img.bs, ino.data % 0x1_0000)) + 1;
    FormatLow(ino.data);
    ReadLength(img.meta, base, 8 * n);
    if base + 8 * n <= |img.meta| {
      RunsAlike(img, base, n, Pow2(ino.data % 32));
    }
  }

  /** The format's bits are those of the whole word. */
  lemma FormatLow(data: u32)
    ensures data % 0x1_0000 % 32 == data % 32
    ensures data % 0x1_0000 / 32 % 2 == data / 32 % 2
    ensures data % 0x1_0000 / 64 % 2 == data / 64 % 2
  {
    var q, low := data / 0x1_0000, data % 0x1_0000;
    WholeDivides(q, 0x800, 32, low);
    WholeDivides(q, 0x400, 64, low);
    EvenMore(q * 0x400, low / 32);
    EvenMore(q * 0x200, low / 64);
  }

  lemma WholeDivides(q: nat, k: nat, m: nat, low: nat)
    requires m > 0
    ensures (q * (k * m) + low) / m == q * k + low / m && (q * (k * m) + low) % m == low % m
  {
    var a, b := Quo(low, m), Rem(low, m);
    Distribute(q * k, a, m);
    DivUnique(q * k * m + low, m, q * k + a, b);
    Associate(q, k, m);
  }

  lemma EvenMore(half: nat, n: nat)
    ensures (2 * half + n) % 2 == n % 2
  {
  }

  lemma RunsAlike(img: Image, base: nat, n: nat, bpc: nat)
    requires n > 0 && base + 8 * n <= |img.meta|
    ensures RunIndexes(img.meta[base..base + 8 * n], n, bpc, img.deviceIDMask)
            <==> forall i: nat :: i < n ==> RunEntry(img, base, i, bpc)
  {
    hide RunIndex, RunEntry;
    var b := img.meta[base..base + 8 * n];
    forall i: nat | i < n
      ensures RunIndex(b, i, bpc, img.deviceIDMask) <==> RunEntry(img, base, i, bpc)
    {
      EntryInWindow(img, base, n, i, bpc);
    }
    if forall i: nat :: i < n ==> RunEntry(img, base, i, bpc) {
      forall i | 0 <= i < n
        ensures RunIndex(b, i, bpc, img.deviceIDMask)
      {
        assert RunEntry(img, base, i, bpc);
      }
    }
  }

  lemma EntryInWindow(img: Image, base: nat, n: nat, i: nat, bpc: nat)
    requires i < n && base + 8 * n <= |img.meta|
    ensures var b := img.meta[base..base + 8 * n];
            RunIndex(b, i, bpc, img.deviceIDMask) <==> RunEntry(img, base, i, bpc)
  {
    hide Get16, Get32, IndexPhys, IndexDev;
    WordsAt(img, base, n, i);
    WordsAt(img, base, n, 0);
  }

  lemma WordsAt(img: Image, base: nat, n: nat, i: nat)
    requires i < n && base + 8 * n <= |img.meta|
    ensures var b := img.meta[base..base + 8 * n];
            && IndexPhys(b, i) == Get16(img.meta, base + 8 * i) * 0x1_0000_0000 + Get32(img.meta, base + 8 * i + 4)
            && IndexDev(b, i, img.deviceIDMask) == Get16(img.meta, base + 8 * i + 2) % (img.deviceIDMask + 1)
            && Get32(b, 8 * i + 4) == Get32(img.meta, base + 8 * i + 4)
  {
    hide Get16, Get32;
    Window(img.meta, base, 8 * n, 8 * i);
    Window(img.meta, base, 8 * n, 8 * i + 2);
    Window(img.meta, base, 8 * n, 8 * i + 4);
  }

  // ---- Refinement ----

  /** The section holds what the block reader loads at pos. */
  ghost predicate Agrees(img: Image, ino: Inode, s: Section, pos: nat)
    requires BlockSize(img.bs) && pos < ino.size == s.len
  {
    LoadBlock(img, ino, pos).Ok? ==> SectionBytes(s, pos, BlockStop(img.bs, ino.size, pos)) == Some(LoadBlock(img, ino, pos).value)
  }

  lemma PlainAgrees(img: Image, ino: Inode, pos: nat)
    requires BlockSize(img.bs) && ino.layout == FLAT_PLAIN && pos < ino.size
    ensures Agrees(img, ino, Section(img.meta, ino.data * img.bs, ino.size), pos)
  {
    hide PowerOfTwo, EndInBlock, BlockCount, BlockStop, Rem, Quo;
    EndAfter(ino.size, img.bs, pos);
    Distribute(ino.data, Quo(pos, img.bs), img.bs);
  }

  lemma InlineAgrees(img: Image, ino: Inode, pos: nat)
    requires BlockSize(img.bs) && ino.layout == FLAT_INLINE && pos < ino.size <= img.bs
    ensures Agrees(img, ino, Section(img.meta, InodeAddr(img, ino.nid) + ino.icsize + ino.xsize, ino.size), pos)
  {
    hide PowerOfTwo, EndInBlock, BlockCount, BlockStop, Rem, Quo, InodeAddr;
    var d := InodeAddr(img, ino.nid) + ino.icsize + ino.xsize;
    OneBlock(pos, ino.size, img.bs);
    assert LoadBlock(img, ino, pos) == LoadInlineTail(img, ino, pos);
    assert d == Quo(d, img.bs) * img.bs + Rem(d, img.bs);
  }

  /** An index entry as loadBlock reads it is the same entry in the whole index array. */
  lemma EntryInArray(img: Image, ino: Inode, format: u16, n: nat, cn: nat)
    requires cn < n && format / 32 % 2 == 1 && ReadAt(img.meta, IndexBase(img, ino), 8 * n).Ok?
    ensures |ReadAt(img.meta, IndexBase(img, ino), 8 * n).value| == 8 * n
    ensures var b := ReadAt(img.meta, IndexBase(img, ino), 8 * n).value;
            ChunkEntry(img, ino, format, cn)
            == Ok(if Get32(b, 8 * cn + 4) == NULL_ADDR then None else Some((Get32(b, 8 * cn + 4), IndexDev(b, cn, img.deviceIDMask))))
  {
    hide Get16, Get32, IndexBase;
    var base := IndexBase(img, ino);
    ReadLength(img.meta, base, 8 * n);
    var b := ReadAt(img.meta, base, 8 * n).value;
    Window(img.meta, base, 8 * n, 8 * cn + 4);
    Window(img.meta, base, 8 * n, 8 * cn + 2);
    Window(img.meta, base + cn * 8, 8, 4);
    Window(img.meta, base + cn * 8, 8, 2);
  }

  /** Addresses that fit the 32 bits which loadBlock looks at. */
  lemma LowWord(hi: nat, lo: nat)
    requires lo < 0x1_0000_0000
    ensures hi * 0x1_0000_0000 + lo == lo <==> hi * 0x1_0000_0000 + lo < 0x1_0000_0000
  {
  }

  /** First block of a run, and its device. */
  ghost function RunStart(img: Image, ino: Inode): nat
    requires BlockSize(img.bs) && ino.size > 0 && DirectChunks(img, ino).Some?
  {
    Quo(DirectChunks(img, ino).value.off, img.bs)
  }

  ghost function RunDevice(img: Image, ino: Inode): nat
    requires BlockSize(img.bs) && ino.size > 0 && DirectChunks(img, ino).Some?
  {
    var n := ChunkCount(ino.size, ChunkSize(img.bs, ino.data % 0x1_0000));
    IndexDev(ReadAt(img.meta, IndexBase(img, ino), 8 * n).value, 0, img.deviceIDMask)
  }

  /** No device claims the address for itself. */
  ghost predicate Unmapped(devices: seq<Device>, bs: nat, pa: int) {
    forall d <- devices :: d.mappedBlkAddr != 0 ==> !(d.mappedBlkAddr * bs <= pa < d.mappedBlkAddr * bs + d.blocks * bs)
  }

  /**
   What the block reader and the section reader treat alike: the address of the chunk at pos fits the
   32 bits that loadBlock looks at, and if it is on device 0 no mapped range covers the block at pos.
   */
  ghost predicate PlainAddress(devices: seq<Device>, start: nat, dev: nat, bpc: nat, cs: nat, bs: nat, pos: nat)
    requires bs > 0 && cs > 0
  {
    && start + Quo(pos, cs) * bpc < 0x1_0000_0000
    && (dev == 0 ==> Unmapped(devices, bs, (start + Quo(pos, bs)) * bs))
  }

  ghost predicate Plainly(img: Image, ino: Inode, pos: nat)
    requires BlockSize(img.bs) && ino.size > 0 && DirectChunks(img, ino).Some?
  {
    var format := ino.data % 0x1_0000;
    PlainAddress(img.devices, RunStart(img, ino), RunDevice(img, ino), Pow2(format % 32), ChunkSize(img.bs, format), img.bs, pos)
  }

  /** Chunk run: where addresses are plain, the block reader's bytes are the section's. */
  lemma ChunksAgree(img: Image, ino: Inode, pos: nat)
    requires BlockSize(img.bs) && ino.layout == CHUNK_BASED && pos < ino.size && DirectChunks(img, ino).Some?
    requires Plainly(img, ino, pos)
    ensures Agrees(img, ino, DirectChunks(img, ino).value, pos)
  {
    hide *;
    BlockPositive(img.bs);
    DirectLength(img, ino);
    if LoadBlock(img, ino, pos).Ok? {
      var format := ino.data % 0x1_0000;
      var bpc, cs := Pow2(format % 32), ChunkSize(img.bs, format);
      ChunkSizeIs(img.bs, format);
      DirectIs(img, ino);
      PlainlyMeans(img, ino, pos);
      var n := ChunkCount(ino.size, cs);
      var b := ReadAt(img.meta, IndexBase(img, ino), 8 * n).value;
      var cn := Quo(pos, cs);
      ChunkExists(pos, ino.size, cs);
      CountIs(ino.size, cs, cn);
      IndexIs(b, n, cn, bpc, img.deviceIDMask);
      EntryInArray(img, ino, format, n, cn);
      LowWord(Get16(b, 8 * cn), Get32(b, 8 * cn + 4));
      LoadsEntry(img, ino, pos, Some((Get32(b, 8 * cn + 4), IndexDev(b, cn, img.deviceIDMask))));
      RunRead(img, IndexPhys(b, 0), cn, bpc, IndexDev(b, 0, img.deviceIDMask), pos, ino.size);
    }
    AgreesIf(img, ino, DirectChunks(img, ino).value, pos);
  }

  lemma PlainlyMeans(img: Image, ino: Inode, pos: nat)
    requires BlockSize(img.bs) && ino.size > 0 && DirectChunks(img, ino).Some? && Plainly(img, ino, pos)
    ensures var format := ino.data % 0x1_0000;
            && PlainAddress(img.devices, RunStart(img, ino), RunDevice(img, ino), Pow2(format % 32), ChunkSize(img.bs, format), img.bs, pos)
            && RunStart(img, ino) + Quo(pos, ChunkSize(img.bs, format)) * Pow2(format % 32) < 0x1_0000_0000
  {
    hide RunStart, RunDevice, ChunkSize, Pow2, Unmapped, PowerOfTwo, Quo;
  }

  lemma ChunkSizeIs(bs: nat, format: u16)
    requires bs > 0
    ensures ChunkSize(bs, format) == Pow2(format % 32) * bs
  {
  }

  lemma CountIs(size: nat, cs: nat, cn: nat)
    requires cs > 0 && size > 0 && cn <= (size - 1) / cs
    ensures cn < ChunkCount(size, cs)
  {
  }

  lemma AgreesIf(img: Image, ino: Inode, s: Section, pos: nat)
    requires BlockSize(img.bs) && pos < ino.size == s.len
    requires LoadBlock(img, ino, pos).Ok? ==> SectionBytes(s, pos, BlockStop(img.bs, ino.size, pos)) == Some(LoadBlock(img, ino, pos).value)
    ensures Agrees(img, ino, s, pos)
  {
  }

  lemma IndexIs(b: bytes, n: nat, i: nat, bpc: nat, mask: nat)
    requires |b| == 8 * n && i < n && RunIndexes(b, n, bpc, mask)
    ensures 8 * i + 8 <= |b| && Get32(b, 8 * i + 4) != NULL_ADDR
    ensures Get16(b, 8 * i) * 0x1_0000_0000 + Get32(b, 8 * i + 4) == IndexPhys(b, 0) + i * bpc
    ensures IndexDev(b, i, mask) == IndexDev(b, 0, mask)
  {
    assert RunIndex(b, i, bpc, mask);
  }

  /** The section of a chunk run, in terms of its index array. */
  lemma DirectIs(img: Image, ino: Inode)
    requires BlockSize(img.bs) && ino.size > 0 && DirectChunks(img, ino).Some?
    ensures var format := ino.data % 0x1_0000;
            var n := ChunkCount(ino.size, ChunkSize(img.bs, format));
            var idx := ReadAt(img.meta, IndexBase(img, ino), 8 * n);
            && format / 32 % 2 == 1 && idx.Ok? && |idx.value| == 8 * n
            && RunIndexes(idx.value, n, Pow2(format % 32), img.deviceIDMask)
            && DirectChunks(img, ino).value
               == Section(SourceOf(img, IndexDev(idx.value, 0, img.deviceIDMask)), IndexPhys(idx.value, 0) * img.bs, ino.size)
            && RunStart(img, ino) == IndexPhys(idx.value, 0) && RunDevice(img, ino) == IndexDev(idx.value, 0, img.deviceIDMask)
  {
    hide RunIndexes, IndexPhys, IndexDev, IndexBase, ChunkSize, Pow2, SourceOf, PowerOfTwo;
    var n := ChunkCount(ino.size, ChunkSize(img.bs, ino.data % 0x1_0000));
    var idx := ReadAt(img.meta, IndexBase(img, ino), 8 * n);
    MulMod(IndexPhys(idx.value, 0), img.bs);
  }

  /** A successful chunk load went through the entry of its chunk. */
  lemma LoadsEntry(img: Image, ino: Inode, pos: nat, entry: Option<(u32, nat)>)
    requires BlockSize(img.bs) && ino.layout == CHUNK_BASED && pos < ino.size && LoadBlock(img, ino, pos).Ok?
    requires var format := ino.data % 0x1_0000;
             var cs := ChunkSize(img.bs, format);
             && ChunkNumber(ino.size, cs, pos) == Some(Quo(pos, cs))
             && ChunkEntry(img, ino, format, Quo(pos, cs)) == Ok(entry)
    ensures var cs := ChunkSize(img.bs, ino.data % 0x1_0000);
            var bn := Quo(pos, img.bs);
            LoadBlock(img, ino, pos)
              == ReadChunk(img, entry, SkipInChunk(img.bs, cs, bn, Quo(pos, cs)), Rem(pos, img.bs), EndInBlock(ino.size, img.bs, bn))
  {
    hide PowerOfTwo, EndInBlock, BlockCount, ChunkEntry, ReadChunk, ChunkNumber, Rem, Quo, Pow2, SkipInChunk;
    EndAfter(ino.size, img.bs, pos);
    assert LoadBlock(img, ino, pos) == LoadChunkBlock(img, ino, pos);
  }

  /** Skipping from chunk cn of a run to block bn ends at the run's start plus bn blocks. */
  lemma RunPlace(start: nat, cn: nat, bpc: nat, bn: nat, bs: nat)
    ensures (start + cn * bpc) * bs + SkipInChunk(bs, bpc * bs, bn, cn) == start * bs + bn * bs == (start + bn) * bs
  {
    Distribute(start, cn * bpc, bs);
    Associate(cn, bpc, bs);
    Distribute(start, bn, bs);
  }

  /** Bytes read at a block's place in a source are those of a section of that source. */
  lemma BoundedIsSection(source: bytes, off: nat, size: nat, bs: nat, pos: nat)
    requires bs > 0 && pos < size
    ensures var bn := Quo(pos, bs);
            var r := ReadBounded(source, bs, off + bn * bs, Rem(pos, bs), EndInBlock(size, bs, bn));
            r.Ok? ==> SectionBytes(Section(source, off, size), pos, BlockStop(bs, size, pos)) == Some(r.value)
  {
    hide EndInBlock, BlockCount, BlockStop, Rem, Quo;
    EndAfter(size, bs, pos);
  }

  lemma DeviceOf(img: Image, dev: nat, pa: nat, lo: u32, skip: int, from: int, to: int)
    requires pa == lo * img.bs + skip && (dev == 0 ==> Unmapped(img.devices, img.bs, pa))
    ensures var r := ReadChunk(img, Some((lo, dev)), skip, from, to);
            r.Ok? ==> r == ReadBounded(SourceOf(img, dev), img.bs, pa, from, to)
  {
    hide ReadBounded, Unmapped;
    if dev == 0 {
      PrimaryPlain(img, img.devices, pa);
    }
  }

  /** Reading block bn of the run through its chunk is reading it at the run's start plus bn. */
  lemma RunRead(img: Image, start: nat, cn: nat, bpc: nat, dev: nat, pos: nat, size: nat)
    requires BlockSize(img.bs) && pos < size && bpc > 0 && bpc * img.bs > 0 && cn == Quo(pos, bpc * img.bs)
    requires PlainAddress(img.devices, start, dev, bpc, bpc * img.bs, img.bs, pos)
    ensures var bn := Quo(pos, img.bs);
            var r := ReadChunk(img, Some((start + cn * bpc, dev)), SkipInChunk(img.bs, bpc * img.bs, bn, cn),
                               Rem(pos, img.bs), EndInBlock(size, img.bs, bn));
            r.Ok? ==> SectionBytes(Section(SourceOf(img, dev), start * img.bs, size), pos, BlockStop(img.bs, size, pos)) == Some(r.value)
  {
    hide EndInBlock, BlockStop, Rem, Quo, SkipInChunk, ReadBounded, ReadChunk, SourceOf, SectionBytes, Unmapped;
    var bn := Quo(pos, img.bs);
    RunPlace(start, cn, bpc, bn, img.bs);
    DeviceOf(img, dev, start * img.bs + bn * img.bs, start + cn * bpc, SkipInChunk(img.bs, bpc * img.bs, bn, cn),
             Rem(pos, img.bs), EndInBlock(size, img.bs, bn));
    BoundedIsSection(SourceOf(img, dev), start * img.bs, size, img.bs, pos);
  }

  /** An address in no mapped range of device 0 is an address of the image file. */
  lemma {:induction false} PrimaryPlain(img: Image, devices: seq<Device>, pa: nat)
    requires Unmapped(devices, img.bs, pa)
    ensures MapPrimary(img, devices, pa) == Ok((img.meta, pa))
  {
    if devices != [] {
      assert devices[0] in devices;
      assert forall d <- devices[1..] :: d in devices;
      PrimaryPlain(img, devices[1..], pa);
    }
  }

  /**
   The direct reader refines the block reader: wherever openDirect offers a section and loadBlock
   succeeds, the bytes are the same, for chunk runs at plain addresses.
   */
  lemma DirectRefines(img: Image, ino: Inode, pos: nat)
    requires BlockSize(img.bs) && OpenDirectSpec(img, ino).Some? && pos < ino.size
    requires ino.layout == CHUNK_BASED ==> Plainly(img, ino, pos)
    ensures OpenDirectSpec(img, ino).value.len == ino.size
    ensures Agrees(img, ino, OpenDirectSpec(img, ino).value, pos)
  {
    hide Agrees, DirectChunks, Plainly, InodeAddr, PowerOfTwo;
    if ino.layout == FLAT_PLAIN {
      PlainAgrees(img, ino, pos);
    } else if ino.layout == FLAT_INLINE {
      InlineAgrees(img, ino, pos);
    } else {
      DirectLength(img, ino);
      ChunksAgree(img, ino, pos);
    }
  }

  lemma DirectLength(img: Image, ino: Inode)
    requires BlockSize(img.bs) && ino.size > 0 && DirectChunks(img, ino).Some?
    ensures DirectChunks(img, ino).value.len == ino.size
  {
  }

  /**
   Whole reads: whatever a read of the file through its blocks delivers, from any offset and with any
   buffer length, is what the section holds there.
   */
  lemma {:induction false} DirectReads(img: Image, ino: Inode, pos: nat, want: nat, n: nat)
    requires BlockSize(img.bs) && OpenDirectSpec(img, ino).Some? && pos <= ino.size
    requires ino.layout == CHUNK_BASED ==> forall p: nat {:trigger Plainly(img, ino, p)} :: pos <= p < ino.size ==> Plainly(img, ino, p)
    ensures var s, data := OpenDirectSpec(img, ino).value, ReadFrom(img, ino, pos, want, n).data;
            pos + |data| <= ino.size == s.len && (data != [] ==> SectionBytes(s, pos, pos + |data|) == Some(data))
    decreases want
  {
    hide LoadBlock, OpenDirectSpec, Plainly, BlockStop, PowerOfTwo, ReadFrom, SectionBytes, Agrees;
    OffersSize(img, ino);
    if want == 0 || pos == ino.size {
      ReadStops(img, ino, pos, want, n);
    } else if LoadBlock(img, ino, pos).Err? {
      ReadFails(img, ino, pos, want, n);
    } else {
      var s, b := OpenDirectSpec(img, ino).value, LoadBlock(img, ino, pos).value;
      DirectRefines(img, ino, pos);
      AgreedBytes(img, ino, s, pos);
      LoadBlockProgress(img, ino, pos);
      var k := Min(want, |b|);
      DirectReads(img, ino, pos + k, want - k, n + k);
      OneBlockFurther(img, ino, pos, want, n, b);
      SectionTwo(s, pos, BlockStop(img.bs, ino.size, pos), b, k, ReadFrom(img, ino, pos + k, want - k, n + k).data);
    }
  }

  lemma ReadFails(img: Image, ino: Inode, pos: nat, want: nat, n: nat)
    requires BlockSize(img.bs) && LoadBlock(img, ino, pos).Err?
    ensures ReadFrom(img, ino, pos, want, n).data == []
  {
    hide LoadBlock, PowerOfTwo;
  }

  lemma AgreedBytes(img: Image, ino: Inode, s: Section, pos: nat)
    requires BlockSize(img.bs) && pos < ino.size == s.len && Agrees(img, ino, s, pos) && LoadBlock(img, ino, pos).Ok?
    ensures pos < BlockStop(img.bs, ino.size, pos) <= ino.size
    ensures SectionBytes(s, pos, BlockStop(img.bs, ino.size, pos)) == Some(LoadBlock(img, ino, pos).value)
    ensures |LoadBlock(img, ino, pos).value| == BlockStop(img.bs, ino.size, pos) - pos
  {
    hide LoadBlock, PowerOfTwo, BlockStop;
    StopInside(img.bs, ino.size, pos);
  }

  lemma OffersSize(img: Image, ino: Inode)
    requires BlockSize(img.bs) && OpenDirectSpec(img, ino).Some?
    ensures ino.size > 0 && OpenDirectSpec(img, ino).value.len == ino.size
    ensures ino.layout == CHUNK_BASED ==> DirectChunks(img, ino).Some?
  {
    hide InodeAddr, PowerOfTwo;
    if ino.layout == CHUNK_BASED {
      DirectLength(img, ino);
    }
  }

  lemma StopInside(bs: nat, size: nat, pos: nat)
    requires bs > 0 && pos < size
    ensures pos < BlockStop(bs, size, pos) <= size
  {
  }

  lemma SectionTwo(s: Section, pos: nat, stop: nat, b: bytes, k: nat, rest: bytes)
    requires pos <= stop <= s.len && SectionBytes(s, pos, stop) == Some(b) && k <= |b| && pos + k + |rest| <= s.len
    requires rest != [] ==> SectionBytes(s, pos + k, pos + k + |rest|) == Some(rest)
    ensures SectionBytes(s, pos, pos + |b[..k] + rest|) == Some(b[..k] + rest)
  {
    var x := s.off + pos;
    var y, z := x + k, x + k + |rest|;
    SliceOfSlice(s.source, x, s.off + stop, 0, k);
    assert s.source[x..y] == b[..k];
    assert rest != [] ==> s.source[y..z] == rest;
    assert s.source[x..z] == s.source[x..y] + s.source[y..z];
  }
}
