/**
 The block-at-a-time reader of erofs.go: inode decoding, address computation per layout, and the
 Read loop. An Image is what Open leaves behind; every block buffer is fresh.
 */
module Reader {
  import opened Bytes
  import opened Format

  datatype Device = Device(data: bytes, mappedBlkAddr: u32, blocks: u32)

  datatype Image = Image(
    meta: bytes,             // the image file
    bs: nat,
    metaBlkAddr: u32,
    rootNid: u16,
    buildTime: u64,
    buildTimeNs: u32,
    deviceIDMask: nat,       // a power of two minus one
    devices: seq<Device>)

  /** Decoded inode, as the struct inode of erofs.go. */
  datatype Inode = Inode(
    nid: nat,
    icsize: nat,
    xsize: nat,
    layout: nat,
    data: u32,
    size: int,
    mode: u16,
    uid: u32,
    gid: u32,
    nlink: u32,
    mtime: u64,
    mtimeNs: u32)

  /** io.ReaderAt over a byte string: a full read, or EOF. */
  function ReadAt(b: bytes, addr: int, n: nat): Result<bytes> {
    if addr < 0 then Err(Invalid) else if addr + n <= |b| then Ok(b[addr..addr + n]) else Err(EOF)
  }

  function MetaStart(img: Image): nat { img.metaBlkAddr * img.bs }

  function InodeAddr(img: Image, nid: nat): nat { MetaStart(img) + nid * SIZE_COMPACT }

  /** int64(uint64) */
  function Signed64(v: u64): int {
    if v < 0x8000_0000_0000_0000 then v else v - 0x1_0000_0000_0000_0000
  }

  function XattrAreaSize(xcount: u16): nat {
    if xcount == 0 then 0 else (xcount - 1) * SIZE_XATTR_ENTRY + SIZE_XATTR_HEADER
  }

  function DecodeCompact(img: Image, nid: nat, b: bytes): Inode
    requires |b| >= SIZE_COMPACT
  {
    Inode(nid, SIZE_COMPACT, XattrAreaSize(Get16(b, 2)), Get16(b, 0) / 2 % 8, Get32(b, 16),
          Get32(b, 8), Get16(b, 4), Get16(b, 24), Get16(b, 26), Get16(b, 6),
          img.buildTime, img.buildTimeNs)
  }

  function DecodeExtended(nid: nat, b: bytes): Inode
    requires |b| >= SIZE_EXTENDED
  {
    Inode(nid, SIZE_EXTENDED, XattrAreaSize(Get16(b, 2)), Get16(b, 0) / 2 % 8, Get32(b, 16),
          Signed64(Get64(b, 8)), Get16(b, 4), Get32(b, 24), Get32(b, 28), Get32(b, 44),
          Get64(b, 32), Get32(b, 40))
  }

  /** How many bytes readInfo asks for: to the end of the block, but never fewer than 64. */
  function InodeWindow(img: Image, addr: nat): (n: nat)
    requires BlockSize(img.bs)
    ensures n >= SIZE_EXTENDED
  {
    if img.bs - addr % img.bs < SIZE_EXTENDED then SIZE_EXTENDED else img.bs - addr % img.bs
  }

  /** readInfo */
  function ReadInfo(img: Image, nid: nat): Result<Inode>
    requires BlockSize(img.bs)
  {
    var addr := InodeAddr(img, nid);
    match ReadAt(img.meta, addr, InodeWindow(img, addr))
    case Err(e) => Err(e)
    case Ok(b) =>
      if Get16(b, 0) % 2 == 0 then Ok(DecodeCompact(img, nid, b)) else Ok(DecodeExtended(nid, b))
  }

  /** calculateBlocks */
  function BlockCount(size: int, bs: nat): int
    requires bs > 0
  {
    if size > size / bs * bs then size / bs + 1 else size / bs
  }

  /** mapDev: the byte string and offset that serve address pa of the given device. */
  function MapDev(img: Image, dev: nat, pa: int): Result<(bytes, int)> {
    if dev > 0 then
      if dev > |img.devices| then Err(Invalid) else Ok((img.devices[dev - 1].data, pa))
    else
      MapPrimary(img, img.devices, pa)
  }

  function MapPrimary(img: Image, devices: seq<Device>, pa: int): Result<(bytes, int)> {
    if devices == [] then Ok((img.meta, pa))
    else
      var d := devices[0];
      var start := d.mappedBlkAddr * img.bs;
      if d.mappedBlkAddr != 0 && start <= pa < start + d.blocks * img.bs then Ok((d.data, pa - start))
      else MapPrimary(img, devices[1..], pa)
  }

  /** The closing bounds check and read that all layouts share. */
  function ReadBounded(b: bytes, bs: nat, addr: int, blockOffset: int, blockEnd: int): Result<bytes> {
    if blockOffset < 0 || blockEnd > bs || blockOffset >= blockEnd then Err(Invalid)
    else ReadAt(b, addr + blockOffset, blockEnd - blockOffset)
  }

  /** End of file data within block bn. */
  function EndInBlock(size: int, bs: nat, bn: nat): int
    requires bs > 0
  {
    if bn == BlockCount(size, bs) - 1 then size - bn * bs else bs
  }

  /** loadBlock: the bytes from pos to the end of its block (or of the file). */
  function LoadBlock(img: Image, ino: Inode, pos: nat): Result<bytes>
    requires BlockSize(img.bs)
  {
    var bs := img.bs;
    var bn := Quo(pos, bs);
    var n := BlockCount(ino.size, bs);
    if bn >= n then Err(EOF)
    else if ino.layout == FLAT_PLAIN then
      ReadBounded(img.meta, bs, (ino.data + bn) * bs, Rem(pos, bs), EndInBlock(ino.size, bs, bn))
    else if ino.layout == FLAT_INLINE then
      if bn == n - 1 then LoadInlineTail(img, ino, pos)
      else ReadBounded(img.meta, bs, (ino.data + bn) * bs, Rem(pos, bs), bs)
    else if ino.layout == CHUNK_BASED then LoadChunkBlock(img, ino, pos)
    else if ino.layout == 1 || ino.layout == 3 then Err(NotImplemented)
    else Err(Invalid)
  }

  function LoadInlineTail(img: Image, ino: Inode, pos: nat): Result<bytes>
    requires BlockSize(img.bs)
  {
    var bs := img.bs;
    var data := InodeAddr(img, ino.nid) + ino.icsize + ino.xsize;
    var start := Rem(data, bs);
    ReadBounded(img.meta, bs, Quo(data, bs) * bs, start + Rem(pos, bs), ino.size - Quo(pos, bs) * bs + start)
  }

  /** Where chunk indexes start: after inode and xattrs, rounded up to 8. */
  function IndexBase(img: Image, ino: Inode): nat {
    RoundUp(InodeAddr(img, ino.nid) + ino.icsize + ino.xsize, 8)
  }

  function ChunkSize(bs: nat, format: u16): (cs: nat)
    requires bs > 0
    ensures cs > 0
  {
    MulMono(1, Pow2(format % 32), bs);
    Pow2(format % 32) * bs
  }

  /** Chunk number of pos, or None past the last chunk. */
  function ChunkNumber(size: int, cs: nat, pos: nat): Option<nat>
    requires cs > 0
  {
    if Quo(pos, cs) > (size - 1) / cs then None else Some(Quo(pos, cs))
  }

  /** Byte distance from the start of chunk cn to the start of block bn. */
  function SkipInChunk(bs: nat, cs: nat, bn: nat, cn: nat): int {
    bn * bs - cn * cs
  }

  function LoadChunkBlock(img: Image, ino: Inode, pos: nat): Result<bytes>
    requires BlockSize(img.bs)
  {
    var format := ino.data % 0x1_0000;
    if format / 64 % 2 == 1 then Err(NotImplemented)
    else if format >= 64 then Err(Invalid)
    else
      match ChunkNumber(ino.size, ChunkSize(img.bs, format), pos)
      case None => Err(Invalid)
      case Some(cn) =>
        match ChunkEntry(img, ino, format, cn)
        case Err(e) => Err(e)
        case Ok(entry) =>
          var bn := Quo(pos, img.bs);
          ReadChunk(img, entry, SkipInChunk(img.bs, ChunkSize(img.bs, format), bn, cn),
                    Rem(pos, img.bs), EndInBlock(ino.size, img.bs, bn))
  }

  /** Reads within a mapped chunk, `skip` bytes past its start; a hole reads as zeros. */
  function ReadChunk(img: Image, entry: Option<(u32, nat)>, skip: int, blockOffset: int, blockEnd: int): Result<bytes> {
    match entry
    case None => if blockOffset <= blockEnd then Ok(Zeros(blockEnd - blockOffset)) else Err(Invalid)
    case Some((lo, dev)) =>
      match MapDev(img, dev, lo * img.bs + skip)
      case Err(e) => Err(e)
      case Ok((device, addr)) => ReadBounded(device, img.bs, addr, blockOffset, blockEnd)
  }

  /** Low block address and device of chunk cn; None for a hole. */
  function ChunkEntry(img: Image, ino: Inode, format: u16, cn: nat): Result<Option<(u32, nat)>> {
    if format / 32 % 2 == 1 then
      match ReadAt(img.meta, IndexBase(img, ino) + cn * 8, 8)
      case Err(e) => Err(e)
      case Ok(b) =>
        if Get32(b, 4) == NULL_ADDR then Ok(None)
        else Ok(Some((Get32(b, 4), Get16(b, 2) % (img.deviceIDMask + 1))))
    else
      match ReadAt(img.meta, InodeAddr(img, ino.nid) + ino.icsize + ino.xsize + cn * 4, 4)
      case Err(e) => Err(e)
      case Ok(b) => if Get32(b, 0) == NULL_ADDR then Ok(None) else Ok(Some((Get32(b, 0), 0)))
  }

  /** End of the block that holds pos, or of the content. */
  function BlockStop(bs: nat, size: nat, pos: nat): (e: nat)
    requires bs > 0
    ensures pos < size ==> pos < e <= size
  {
    MulStep(Quo(pos, bs), bs);
    Min((Quo(pos, bs) + 1) * bs, size)
  }

  /** Every position of the file loads exactly the content's bytes up to its block's end. */
  ghost predicate Stored(img: Image, ino: Inode, content: bytes)
    requires BlockSize(img.bs)
  {
    && ino.size == |content|
    && forall pos: nat :: pos < |content| ==>
        LoadBlock(img, ino, pos) == Ok(content[pos..BlockStop(img.bs, |content|, pos)])
  }

  datatype ReadStatus = Fine | AtEOF | Failed(e: Error)

  /** An open file: image, inode number and a moving offset. */
  class File {
    const img: Image
    const nid: nat
    var offset: nat
    var info: Option<Inode>

    constructor (img: Image, nid: nat)
      ensures this.img == img && this.nid == nid && offset == 0 && info == None
    {
      this.img, this.nid, this.offset, this.info := img, nid, 0, None;
    }

    ghost predicate Valid()
      reads this
    {
      BlockSize(img.bs) && (info.Some? ==> ReadInfo(img, nid) == Ok(info.value))
    }

    /** readInfo, remembering the decoded inode. */
    method LoadInfo() returns (r: Result<Inode>)
      requires Valid()
      modifies this`info
      ensures Valid() && r == ReadInfo(img, nid)
    {
      if info.Some? {
        return Ok(info.value);
      }
      r := ReadInfo(img, nid);
      if r.Ok? {
        info := Some(r.value);
      }
    }

    /** Read: what one call delivers is given by ReadFrom; bytes beyond it stay as they were. */
    method Read(p: array<byte>) returns (n: nat, status: ReadStatus)
      requires Valid()
      modifies this, p
      ensures Valid()
      ensures ReadInfo(img, nid).Err? ==> n == 0 && status == Failed(ReadInfo(img, nid).error) && offset == old(offset)
      ensures ReadInfo(img, nid).Ok? ==>
                var r := ReadFrom(img, ReadInfo(img, nid).value, old(offset), p.Length, 0);
                n == |r.data| && status == r.status && offset == r.offset
      ensures n <= p.Length && p[n..] == old(p[n..])
      ensures ReadInfo(img, nid).Ok? ==> p[..n] == ReadFrom(img, ReadInfo(img, nid).value, old(offset), p.Length, 0).data
    {
      var r := LoadInfo();
      if r.Err? {
        return 0, Failed(r.error);
      }
      n, status := ReadBlocks(r.value, p);
    }

    /** The loop of Read: one block per round until p is full or the file ends. */
    method ReadBlocks(fi: Inode, p: array<byte>) returns (n: nat, status: ReadStatus)
      requires BlockSize(img.bs)
      modifies this`offset, p
      ensures n <= p.Length
      ensures Reading(p[..n], status, offset) == ReadFrom(img, fi, old(offset), p.Length, 0)
      ensures p[n..] == old(p[n..])
    {
      hide LoadBlock, PowerOfTwo, ReadFrom;
      n, status := 0, Fine;
      ghost var whole := ReadFrom(img, fi, offset, p.Length, 0);
      assert p[..0] == [] && [] + whole.data == whole.data;
      while n < p.Length
        invariant n <= p.Length && status == Fine
        invariant Continued(p[..n], ReadFrom(img, fi, offset, p.Length - n, n)) == whole
        invariant p[n..] == old(p[n..])
        decreases p.Length - n
      {
        ReadStep(img, fi, offset, p.Length - n, n, p[..n]);
        if offset >= fi.size {
          return n, AtEOF;
        }
        var b := LoadBlock(img, fi, offset);
        if b.Err? {
          if b.error == EOF {
            offset := offset + n;
            return n, AtEOF;
          }
          return n, Failed(b.error);
        }
        LoadBlockProgress(img, fi, offset);
        var copied := Min(p.Length - n, |b.value|);
        CopyInto(p, n, b.value[..copied]);
        assert old(p[n..])[copied..] == old(p[n + copied..]);
        n := n + copied;
        offset := offset + copied;
      }
      ReadNothing(img, fi, offset, n, p[..n]);
    }
  }

  /** One round of the read loop, in terms of what has been delivered. */
  lemma ReadStep(img: Image, ino: Inode, pos: nat, want: nat, n: nat, front: bytes)
    requires BlockSize(img.bs) && want > 0
    ensures var now, b := Continued(front, ReadFrom(img, ino, pos, want, n)), LoadBlock(img, ino, pos);
            if pos >= ino.size then now == Reading(front, AtEOF, pos)
            else
              match b
              case Err(e) => now == Reading(front, if e == EOF then AtEOF else Failed(e), if e == EOF then pos + n else pos)
              case Ok(b) => var k := Min(want, |b|);
                            now == Continued(front + b[..k], ReadFrom(img, ino, pos + k, want - k, n + k))
  {
    hide LoadBlock, PowerOfTwo;
    assert front + [] == front;
    if pos < ino.size && LoadBlock(img, ino, pos).Ok? {
      var b := LoadBlock(img, ino, pos).value;
      var k := Min(want, |b|);
      var rest := ReadFrom(img, ino, pos + k, want - k, n + k);
      assert front + (b[..k] + rest.data) == front + b[..k] + rest.data;
    }
  }

  lemma ReadNothing(img: Image, ino: Inode, pos: nat, n: nat, front: bytes)
    requires BlockSize(img.bs)
    ensures Continued(front, ReadFrom(img, ino, pos, 0, n)) == Reading(front, Fine, pos)
  {
    assert front + [] == front;
  }

  /** What one call of Read delivers: bytes, error, new offset. */
  datatype Reading = Reading(data: bytes, status: ReadStatus, offset: nat)

  /** A reading that starts with bytes already delivered. */
  function Continued(front: bytes, r: Reading): Reading {
    Reading(front + r.data, r.status, r.offset)
  }

  /**
   `want` bytes from position pos, n having been delivered before. An end of file inside a block load
   moves the offset once more by n, as the source does.
   */
  function ReadFrom(img: Image, ino: Inode, pos: nat, want: nat, n: nat): (r: Reading)
    requires BlockSize(img.bs)
    ensures |r.data| <= want
    decreases want
  {
    if want == 0 then Reading([], Fine, pos)
    else if pos >= ino.size then Reading([], AtEOF, pos)
    else
      match LoadBlock(img, ino, pos)
      case Err(e) => if e == EOF then Reading([], AtEOF, pos + n) else Reading([], Failed(e), pos)
      case Ok(b) =>
        LoadBlockProgress(img, ino, pos);
        var k := Min(want, |b|);
        Continued(b[..k], ReadFrom(img, ino, pos + k, want - k, n + k))
  }

  /**
   From any offset of a stored file, with any buffer length, a read delivers exactly the content from
   there, moves past it, and reports the end only with a short count.
   */
  lemma {:induction false} ReadStored(img: Image, ino: Inode, content: bytes, pos: nat, want: nat, n: nat)
    requires BlockSize(img.bs) && Stored(img, ino, content) && pos <= |content|
    ensures var k := Min(want, |content| - pos);
            ReadFrom(img, ino, pos, want, n) == Reading(content[pos..pos + k], if k < want then AtEOF else Fine, pos + k)
    decreases want
  {
    hide LoadBlock, BlockStop, PowerOfTwo, ReadFrom, Stored;
    StoredSize(img, ino, content);
    if want > 0 && pos < |content| {
      var stop := BlockStop(img.bs, |content|, pos);
      StoredAt(img, ino, content, pos);
      var k := Min(want, stop - pos);
      OneBlockFurther(img, ino, pos, want, n, content[pos..stop]);
      ReadStored(img, ino, content, pos + k, want - k, n + k);
      AppendSlice(content, pos, pos + k, want - k);
      assert content[pos..stop][..k] == content[pos..pos + k];
    } else {
      ReadStops(img, ino, pos, want, n);
    }
  }

  lemma StoredSize(img: Image, ino: Inode, content: bytes)
    requires BlockSize(img.bs) && Stored(img, ino, content)
    ensures ino.size == |content|
  {
    hide LoadBlock;
  }

  lemma StoredAt(img: Image, ino: Inode, content: bytes, pos: nat)
    requires BlockSize(img.bs) && Stored(img, ino, content) && pos < |content|
    ensures pos < BlockStop(img.bs, |content|, pos) <= |content|
    ensures LoadBlock(img, ino, pos) == Ok(content[pos..BlockStop(img.bs, |content|, pos)])
  {
    hide LoadBlock;
  }

  lemma ReadStops(img: Image, ino: Inode, pos: nat, want: nat, n: nat)
    requires BlockSize(img.bs) && (want == 0 || pos >= ino.size)
    ensures ReadFrom(img, ino, pos, want, n) == Reading([], if want > 0 then AtEOF else Fine, pos)
  {
  }

  lemma OneBlockFurther(img: Image, ino: Inode, pos: nat, want: nat, n: nat, b: bytes)
    requires BlockSize(img.bs) && want > 0 && pos < ino.size && LoadBlock(img, ino, pos) == Ok(b) && b != []
    ensures var k := Min(want, |b|);
            ReadFrom(img, ino, pos, want, n) == Continued(b[..k], ReadFrom(img, ino, pos + k, want - k, n + k))
  {
    hide LoadBlock;
  }

  lemma AppendSlice(content: bytes, lo: nat, mid: nat, want: nat)
    requires lo <= mid <= |content|
    ensures content[lo..mid] + content[mid..mid + Min(want, |content| - mid)] == content[lo..mid + Min(want, |content| - mid)]
  {
  }

  /** The whole of a file into a buffer of its size: an early end leaves zeros. */
  function ReadWhole(img: Image, ino: Inode): Result<bytes>
    requires BlockSize(img.bs) && ino.size >= 0
  {
    var r := ReadFrom(img, ino, 0, ino.size, 0);
    match r.status
    case Failed(e) => Err(e)
    case _ => Ok(r.data + Zeros(ino.size - |r.data|))
  }

  lemma WholeStored(img: Image, ino: Inode, content: bytes)
    requires BlockSize(img.bs) && Stored(img, ino, content)
    ensures ino.size == |content| && ReadWhole(img, ino) == Ok(content)
  {
    hide LoadBlock, PowerOfTwo;
    ReadStored(img, ino, content, 0, |content|, 0);
    assert content[0..|content|] + Zeros(0) == content;
  }

  /** The content is stored up to position cut; the load there fails. */
  ghost predicate StoredUpTo(img: Image, ino: Inode, content: bytes, cut: nat, e: Error)
    requires BlockSize(img.bs)
  {
    && cut < |content| == ino.size && LoadBlock(img, ino, cut) == Err(e)
    && forall pos: nat :: pos < cut ==>
        && BlockStop(img.bs, |content|, pos) <= cut
        && LoadBlock(img, ino, pos) == Ok(content[pos..BlockStop(img.bs, |content|, pos)])
  }

  /**
   A read across the failing block delivers what lies before it. The failure is reported, and the offset is at
   the block; but the end of the image counts as the end of the file, with the offset moved once too often.
   */
  lemma {:induction false} ReadCut(img: Image, ino: Inode, content: bytes, cut: nat, e: Error, pos: nat, want: nat, n: nat)
    requires BlockSize(img.bs) && StoredUpTo(img, ino, content, cut, e) && pos <= cut < pos + want
    ensures ReadFrom(img, ino, pos, want, n)
         == if e == EOF then Reading(content[pos..cut], AtEOF, cut + n + (cut - pos)) else Reading(content[pos..cut], Failed(e), cut)
    decreases want
  {
    hide LoadBlock, BlockStop, PowerOfTwo, ReadFrom;
    if pos < cut {
      var stop := BlockStop(img.bs, |content|, pos);
      StopAfter(img.bs, |content|, pos);
      OneBlockFurther(img, ino, pos, want, n, content[pos..stop]);
      ReadCut(img, ino, content, cut, e, stop, want - (stop - pos), n + (stop - pos));
      assert content[pos..stop][..stop - pos] == content[pos..stop];
      assert content[pos..stop] + content[stop..cut] == content[pos..cut];
    } else {
      BlockFails(img, ino, pos, want, n, e);
    }
  }

  lemma StopAfter(bs: nat, size: nat, pos: nat)
    requires BlockSize(bs) && pos < size
    ensures pos < BlockStop(bs, size, pos) <= size
  {
  }

  lemma BlockFails(img: Image, ino: Inode, pos: nat, want: nat, n: nat, e: Error)
    requires BlockSize(img.bs) && want > 0 && pos < ino.size && LoadBlock(img, ino, pos) == Err(e)
    ensures ReadFrom(img, ino, pos, want, n) == if e == EOF then Reading([], AtEOF, pos + n) else Reading([], Failed(e), pos)
  {
    hide LoadBlock;
  }

  /** Reading a file whole from an image that ends within it gives zeros for the missing blocks, and no error. */
  lemma WholeCut(img: Image, ino: Inode, content: bytes, cut: nat, e: Error)
    requires BlockSize(img.bs) && StoredUpTo(img, ino, content, cut, e)
    ensures ReadWhole(img, ino) == if e == EOF then Ok(content[..cut] + Zeros(|content| - cut)) else Err(e)
  {
    hide LoadBlock, PowerOfTwo;
    ReadCut(img, ino, content, cut, e, 0, |content|, 0);
    assert content[0..cut] == content[..cut];
  }

  /** A fresh open file read into a zeroed buffer of its size. */
  method ReadAll(img: Image, nid: nat, ino: Inode) returns (r: Result<bytes>)
    requires BlockSize(img.bs) && ReadInfo(img, nid) == Ok(ino) && ino.size >= 0
    ensures r == ReadWhole(img, ino)
  {
    hide LoadBlock, ReadInfo, PowerOfTwo, ReadFrom;
    var f := new File(img, nid);
    var buf := new byte[ino.size](_ => 0);
    ghost var whole := ReadFrom(img, ino, 0, ino.size, 0);
    if ino.size > 0 {
      var n, status := f.Read(buf);
      if status.Failed? {
        return Err(status.e);
      }
      assert buf[..] == buf[..n] + buf[n..];
      assert buf[n..] == Zeros(ino.size - n);
      assert buf[..] == whole.data + Zeros(ino.size - |whole.data|);
    } else {
      ReadNothing(img, ino, 0, 0, []);
      assert [] + whole.data == whole.data == [];
      assert buf[..] == whole.data + Zeros(0);
    }
    return Ok(buf[..]);
  }

  /** copy(p[n..], src) */
  method CopyInto(p: array<byte>, n: nat, src: bytes)
    requires n + |src| <= p.Length
    modifies p
    ensures p[..n + |src|] == old(p[..n]) + src
    ensures p[n + |src|..] == old(p[n + |src|..])
  {
    var i := 0;
    while i < |src|
      invariant 0 <= i <= |src|
      invariant p[..n] == old(p[..n])
      invariant p[n..n + i] == src[..i]
      invariant forall j :: n + i <= j < p.Length ==> p[j] == old(p[j])
    {
      p[n + i] := src[i];
      i := i + 1;
    }
    assert p[..n + |src|] == p[..n] + p[n..n + |src|];
  }

  /** A block that loads inside the file is never empty, so the Read loop always advances. */
  lemma LoadBlockProgress(img: Image, ino: Inode, pos: nat)
    requires BlockSize(img.bs) && pos < ino.size
    ensures LoadBlock(img, ino, pos).Ok? ==> |LoadBlock(img, ino, pos).value| > 0
  {
    EndAfter(ino.size, img.bs, pos);
    if ino.layout == CHUNK_BASED {
      assert LoadBlock(img, ino, pos) == LoadChunkBlock(img, ino, pos);
    } else if ino.layout == FLAT_INLINE {
      if Quo(pos, img.bs) == BlockCount(ino.size, img.bs) - 1 {
        assert LoadBlock(img, ino, pos) == LoadInlineTail(img, ino, pos);
      }
    }
  }

  lemma EndAfter(size: int, bs: nat, pos: nat)
    requires bs > 0 && pos < size
    ensures Quo(pos, bs) < BlockCount(size, bs)
    ensures EndInBlock(size, bs, Quo(pos, bs)) == BlockStop(bs, size, pos) - Quo(pos, bs) * bs
    ensures Rem(pos, bs) < EndInBlock(size, bs, Quo(pos, bs)) <= bs
  {
    var n: nat := size;
    var p, q := Quo(pos, bs), Quo(n, bs);
    MulStep(p, bs);
    MulStep(q, bs);
    MulMono(p + 1, q, bs);
    MulMono(q + 1, p, bs);
    MulMono(q + 1, p + 1, bs);
  }
}
