/** The two on-disk inode forms: writeInode's bytes and what readInfo makes of them. */
module Inodes {
  import opened Bytes
  import opened Format
  import opened Dirents
  import opened Layout
  import opened Reader

  /** The fields writeInode stores, before truncation to their widths. */
  datatype Fields = Fields(
    format: nat, xattrCount: nat, mode: u16, nlink: u32, size: nat, data: nat,
    uid: u32, gid: u32, mtime: u64, mtimeNs: u32)

  function CompactBytes(f: Fields): (b: bytes)
    ensures |b| == SIZE_COMPACT
  {
    U16(f.format) + U16(f.xattrCount) + U16(f.mode) + U16(f.nlink) + U32(f.size) + Zeros(4)
    + U32(f.data) + Zeros(4) + U16(f.uid) + U16(f.gid) + Zeros(4)
  }

  function ExtendedBytes(f: Fields): (b: bytes)
    ensures |b| == SIZE_EXTENDED
  {
    U16(f.format) + U16(f.xattrCount) + U16(f.mode) + Zeros(2) + U64(f.size) + U32(f.data) + Zeros(4)
    + U32(f.uid) + U32(f.gid) + U64(f.mtime) + U32(f.mtimeNs) + U32(f.nlink) + Zeros(16)
  }

  function InodeBytes(f: Fields, compact: bool): (b: bytes)
    ensures |b| == CoreSize(compact)
  {
    if compact then CompactBytes(f) else ExtendedBytes(f)
  }

  /** File size as stored: directories and symlinks use the size of their data. */
  function FileSize(n: Node, bs: nat): nat
    requires bs > 0
  {
    var t := TypeOf(n.info.mode);
    if t == S_DIR then DirDataSize(n, bs)
    else if t == S_LNK then |n.info.symTarget|
    else n.info.size
  }

  /** The i_u word: block address, chunk format or device number. */
  function InodeData(n: Node, p: Plan, dataAddr: nat, c: Config): nat {
    var t := TypeOf(n.info.mode);
    if t == S_REG then
      if p.layout == CHUNK_BASED then 32 + EntryChunkBits(p.chunkBits, c)
      else if p.layout == FLAT_PLAIN && n.info.size > 0 then dataAddr
      else 0
    else if t == S_DIR || t == S_LNK then (if p.layout == FLAT_PLAIN then dataAddr else 0)
    else if t == S_CHR || t == S_BLK || t == S_FIFO || t == S_SOCK then n.info.rdev
    else 0
  }

  function FieldsOf(n: Node, p: Plan, dataAddr: nat, c: Config): Fields
    requires c.bs > 0 && (p.xattrSize == 0 || p.xattrSize >= SIZE_XATTR_HEADER)
  {
    Fields(InodeFormat(p.layout, p.compact), XattrCount(p.xattrSize), n.info.mode, n.info.nlink,
           FileSize(n, c.bs), InodeData(n, p, dataAddr, c), n.info.uid, n.info.gid, n.info.mtime, n.info.mtimeNs)
  }

  /** The scratch buffer holds these bytes, then zeros. */
  ghost predicate Filled(b: array<byte>, p: bytes)
    reads b
  {
    |p| <= b.Length && b[..] == p + Zeros(b.Length - |p|)
  }

  /** PutUint16 at the end of what is filled so far. */
  method Put16(b: array<byte>, o: nat, v: nat, ghost p: bytes)
    requires Filled(b, p) && |p| == o && o + 2 <= b.Length
    modifies b
    ensures Filled(b, p + U16(v))
  {
    ghost var was := b[..];
    assert forall i :: o <= i < b.Length ==> was[i] == 0;
    b[o], b[o + 1] := v % 256, v / 256 % 256;
    assert b[..o] == was[..o] == p;
    assert b[o..o + 2] == U16(v);
    assert b[o + 2..] == Zeros(b.Length - o - 2);
    assert b[..] == b[..o] + b[o..o + 2] + b[o + 2..];
  }

  method Put32(b: array<byte>, o: nat, v: nat, ghost p: bytes)
    requires Filled(b, p) && |p| == o && o + 4 <= b.Length
    modifies b
    ensures Filled(b, p + U32(v))
  {
    Put16(b, o, v, p);
    Put16(b, o + 2, v / 0x1_0000, p + U16(v));
    assert p + U16(v) + U16(v / 0x1_0000) == p + U32(v);
  }

  method Put64(b: array<byte>, o: nat, v: nat, ghost p: bytes)
    requires Filled(b, p) && |p| == o && o + 8 <= b.Length
    modifies b
    ensures Filled(b, p + U64(v))
  {
    Put32(b, o, v, p);
    Put32(b, o + 4, v / 0x1_0000_0000, p + U32(v));
    assert p + U32(v) + U32(v / 0x1_0000_0000) == p + U64(v);
  }

  /** A reserved field is zero already. */
  lemma Reserved(b: array<byte>, p: bytes, n: nat)
    requires Filled(b, p) && |p| + n <= b.Length
    ensures Filled(b, p + Zeros(n))
  {
    assert p + Zeros(b.Length - |p|) == p + Zeros(n) + Zeros(b.Length - |p| - n);
  }

  lemma Emitted(b: array<byte>, p: bytes)
    requires Filled(b, p)
    ensures |p| <= b.Length && b[..|p|] == p
  {
  }

  /** writeInode: clears the scratch buffer, stores the fields at their offsets, emits 32 or 64 bytes. */
  method WriteInode(scratch: array<byte>, f: Fields, compact: bool) returns (out: bytes)
    requires scratch.Length == SIZE_EXTENDED
    modifies scratch
    ensures out == InodeBytes(f, compact)
  {
    hide CompactBytes, ExtendedBytes;
    var i := 0;
    while i < scratch.Length
      invariant 0 <= i <= scratch.Length
      invariant scratch[..i] == Zeros(i)
    {
      scratch[i] := 0;
      i := i + 1;
    }
    assert scratch[..] == Zeros(SIZE_EXTENDED) == [] + Zeros(SIZE_EXTENDED);
    if compact {
      out := StoreCompact(scratch, f);
    } else {
      out := StoreExtended(scratch, f);
    }
  }

  method StoreCompact(b: array<byte>, f: Fields) returns (out: bytes)
    requires b.Length == SIZE_EXTENDED && Filled(b, [])
    modifies b
    ensures out == CompactBytes(f)
  {
    hide U16, U32, U64, Filled;
    ghost var p := U16(f.format);
    Put16(b, 0, f.format, []);
    assert [] + p == p;
    Put16(b, 2, f.xattrCount, p);
    p := p + U16(f.xattrCount);
    Put16(b, 4, f.mode, p);
    p := p + U16(f.mode);
    Put16(b, 6, f.nlink, p);
    p := p + U16(f.nlink);
    Put32(b, 8, f.size, p);
    p := p + U32(f.size);
    Reserved(b, p, 4);
    p := p + Zeros(4);
    Put32(b, 16, f.data, p);
    p := p + U32(f.data);
    Reserved(b, p, 4);
    p := p + Zeros(4);
    Put16(b, 24, f.uid, p);
    p := p + U16(f.uid);
    Put16(b, 26, f.gid, p);
    p := p + U16(f.gid);
    Reserved(b, p, 4);
    p := p + Zeros(4);
    Emitted(b, p);
    out := b[..SIZE_COMPACT];
  }

  method StoreExtended(b: array<byte>, f: Fields) returns (out: bytes)
    requires b.Length == SIZE_EXTENDED && Filled(b, [])
    modifies b
    ensures out == ExtendedBytes(f)
  {
    hide U16, U32, U64, Filled;
    ghost var p := U16(f.format);
    Put16(b, 0, f.format, []);
    assert [] + p == p;
    Put16(b, 2, f.xattrCount, p);
    p := p + U16(f.xattrCount);
    Put16(b, 4, f.mode, p);
    p := p + U16(f.mode);
    Reserved(b, p, 2);
    p := p + Zeros(2);
    Put64(b, 8, f.size, p);
    p := p + U64(f.size);
    Put32(b, 16, f.data, p);
    p := p + U32(f.data);
    Reserved(b, p, 4);
    p := p + Zeros(4);
    Put32(b, 24, f.uid, p);
    p := p + U32(f.uid);
    Put32(b, 28, f.gid, p);
    p := p + U32(f.gid);
    Put64(b, 32, f.mtime, p);
    p := p + U64(f.mtime);
    Put32(b, 40, f.mtimeNs, p);
    p := p + U32(f.mtimeNs);
    Put32(b, 44, f.nlink, p);
    p := p + U32(f.nlink);
    Reserved(b, p, 16);
    p := p + Zeros(16);
    Emitted(b, p);
    out := b[..SIZE_EXTENDED];
  }

  /** What readInfo decodes from written fields. */
  function Decoded(img: Image, nid: nat, f: Fields, compact: bool): Inode {
    var xsize := XattrAreaSize(f.xattrCount % 0x1_0000);
    var layout := f.format % 0x1_0000 / 2 % 8;
    var data := f.data % 0x1_0000_0000;
    if compact then
      Inode(nid, SIZE_COMPACT, xsize, layout, data, f.size % 0x1_0000_0000, f.mode,
            f.uid % 0x1_0000, f.gid % 0x1_0000, f.nlink % 0x1_0000, img.buildTime, img.buildTimeNs)
    else
      Inode(nid, SIZE_EXTENDED, xsize, layout, data, Signed64(f.size % 0x1_0000_0000_0000_0000), f.mode,
            f.uid, f.gid, f.nlink, f.mtime, f.mtimeNs)
  }

  lemma CompactFields(b: bytes, o: nat, f: Fields)
    requires At(b, o, CompactBytes(f))
    ensures At(b, o, U16(f.format)) && At(b, o + 2, U16(f.xattrCount)) && At(b, o + 4, U16(f.mode)) && At(b, o + 6, U16(f.nlink))
    ensures At(b, o + 8, U32(f.size)) && At(b, o + 16, U32(f.data)) && At(b, o + 24, U16(f.uid)) && At(b, o + 26, U16(f.gid))
  {
    hide U16, U32, U64, At;
    var s1 := U16(f.format) + U16(f.xattrCount) + U16(f.mode);
    var s2 := s1 + U16(f.nlink) + U32(f.size);
    var s3 := s2 + Zeros(4) + U32(f.data);
    var s4 := s3 + Zeros(4) + U16(f.uid);
    AtParts(b, o, s4, U16(f.gid), Zeros(4));
    AtParts(b, o, s3, Zeros(4), U16(f.uid));
    AtParts(b, o, s2, Zeros(4), U32(f.data));
    AtParts(b, o, s1, U16(f.nlink), U32(f.size));
    AtParts(b, o, U16(f.format), U16(f.xattrCount), U16(f.mode));
  }

  lemma ExtendedFields(b: bytes, o: nat, f: Fields)
    requires At(b, o, ExtendedBytes(f))
    ensures At(b, o, U16(f.format)) && At(b, o + 2, U16(f.xattrCount)) && At(b, o + 4, U16(f.mode))
    ensures At(b, o + 8, U64(f.size)) && At(b, o + 16, U32(f.data)) && At(b, o + 24, U32(f.uid)) && At(b, o + 28, U32(f.gid))
    ensures At(b, o + 32, U64(f.mtime)) && At(b, o + 40, U32(f.mtimeNs)) && At(b, o + 44, U32(f.nlink))
  {
    hide U16, U32, U64, At;
    var s1 := U16(f.format) + U16(f.xattrCount) + U16(f.mode);
    var s2 := s1 + Zeros(2) + U64(f.size);
    var s3 := s2 + U32(f.data) + Zeros(4);
    var s4 := s3 + U32(f.uid) + U32(f.gid);
    var s5 := s4 + U64(f.mtime) + U32(f.mtimeNs);
    AtParts(b, o, s5, U32(f.nlink), Zeros(16));
    AtParts(b, o, s4, U64(f.mtime), U32(f.mtimeNs));
    AtParts(b, o, s3, U32(f.uid), U32(f.gid));
    AtParts(b, o, s2, U32(f.data), Zeros(4));
    AtParts(b, o, s1, Zeros(2), U64(f.size));
    AtParts(b, o, U16(f.format), U16(f.xattrCount), U16(f.mode));
  }

  /** Both decoders invert their encoder, up to the widths of the fields. */
  lemma CompactDecodes(img: Image, nid: nat, b: bytes, f: Fields)
    requires |b| >= SIZE_COMPACT && At(b, 0, CompactBytes(f))
    ensures DecodeCompact(img, nid, b) == Decoded(img, nid, f, true)
    ensures Get16(b, 0) == f.format % 0x1_0000
  {
    hide U16, U32, U64, At, Get16, Get32, Get64, XattrAreaSize, CompactBytes;
    CompactFields(b, 0, f);
    LoadStored16(b, 0, f.format);
    LoadStored16(b, 2, f.xattrCount);
    LoadStored16(b, 4, f.mode);
    LoadStored16(b, 6, f.nlink);
    LoadStored32(b, 8, f.size);
    LoadStored32(b, 16, f.data);
    LoadStored16(b, 24, f.uid);
    LoadStored16(b, 26, f.gid);
  }

  lemma ExtendedDecodes(img: Image, nid: nat, b: bytes, f: Fields)
    requires |b| >= SIZE_EXTENDED && At(b, 0, ExtendedBytes(f))
    ensures DecodeExtended(nid, b) == Decoded(img, nid, f, false)
    ensures Get16(b, 0) == f.format % 0x1_0000
  {
    hide U16, U32, U64, At, Get16, Get32, Get64, XattrAreaSize, Signed64, ExtendedBytes;
    ExtendedFields(b, 0, f);
    LoadStored16(b, 0, f.format);
    LoadStored16(b, 2, f.xattrCount);
    LoadStored16(b, 4, f.mode);
    LoadStored64(b, 8, f.size);
    LoadStored32(b, 16, f.data);
    LoadStored32(b, 24, f.uid);
    LoadStored32(b, 28, f.gid);
    LoadStored64(b, 32, f.mtime);
    LoadStored32(b, 40, f.mtimeNs);
    LoadStored32(b, 44, f.nlink);
  }

  /**
   readInfo asks for at least 64 bytes even for a 32-byte inode, so on a block-aligned image it
   succeeds exactly when 64 image bytes follow the inode's address.
   */
  lemma ReadInfoWindow(img: Image, nid: nat)
    requires BlockSize(img.bs) && |img.meta| % img.bs == 0
    ensures ReadInfo(img, nid).Ok? <==> InodeAddr(img, nid) + SIZE_EXTENDED <= |img.meta|
  {
    hide DecodeCompact, DecodeExtended, InodeAddr, PowerOfTwo;
    var a := InodeAddr(img, nid);
    WindowInBlock(a, |img.meta|, img.bs);
  }

  lemma WindowInBlock(a: nat, len: nat, bs: nat)
    requires bs >= SIZE_EXTENDED && len % bs == 0
    ensures bs - a % bs >= SIZE_EXTENDED ==> (a + (bs - a % bs) <= len <==> a + SIZE_EXTENDED <= len)
  {
    var q := Quo(a, bs);
    var r := Rem(a, bs);
    var m := Quo(len, bs);
    assert len == m * bs + Rem(len, bs);
    MulStep(q, bs);
    MulMono(q + 1, m, bs);
    MulMono(m, q, bs);
  }

  /** Reading back an inode gives its fields, up to widths. */
  lemma ReadInfoWritten(img: Image, nid: nat, f: Fields, compact: bool)
    requires BlockSize(img.bs) && |img.meta| % img.bs == 0
    requires At(img.meta, InodeAddr(img, nid), InodeBytes(f, compact))
    requires InodeAddr(img, nid) + SIZE_EXTENDED <= |img.meta|
    requires f.format % 2 == if compact then 0 else 1
    ensures ReadInfo(img, nid) == Ok(Decoded(img, nid, f, compact))
  {
    hide DecodeCompact, DecodeExtended, InodeAddr, Decoded, CompactBytes, ExtendedBytes, At, Get16, ReadInfo, InodeWindow, PowerOfTwo;
    var a := InodeAddr(img, nid);
    ReadInfoWindow(img, nid);
    ReadInfoIs(img, nid);
    var n := InodeWindow(img, a);
    var b := img.meta[a..a + n];
    AtPrefix(img.meta, a, n, InodeBytes(f, compact));
    LowBit(f.format);
    if compact {
      CompactDecodes(img, nid, b, f);
    } else {
      ExtendedDecodes(img, nid, b, f);
    }
  }

  /** A successful read, in terms of the window it decodes. */
  lemma ReadInfoIs(img: Image, nid: nat)
    requires BlockSize(img.bs) && ReadInfo(img, nid).Ok?
    ensures var a := InodeAddr(img, nid);
            var n := InodeWindow(img, a);
            && a + n <= |img.meta|
            && var b := img.meta[a..a + n];
               ReadInfo(img, nid) == Ok(if Get16(b, 0) % 2 == 0 then DecodeCompact(img, nid, b) else DecodeExtended(nid, b))
  {
    hide DecodeCompact, DecodeExtended, InodeAddr, InodeWindow, Get16, PowerOfTwo;
  }

  lemma LowBit(format: nat)
    ensures format % 0x1_0000 % 2 == format % 2
  {
  }

  lemma AtPrefix(b: bytes, o: nat, n: nat, p: bytes)
    requires At(b, o, p) && |p| <= n && o + n <= |b|
    ensures At(b[o..o + n], 0, p)
  {
  }

  /** The fields come back unchanged. */
  ghost predicate Preserved(ino: Inode, f: Fields) {
    && ino.size == f.size && ino.uid == f.uid && ino.gid == f.gid && ino.nlink == f.nlink
    && ino.mtime == f.mtime && ino.mtimeNs == f.mtimeNs && ino.mode == f.mode
  }

  /**
   Exactly when the chosen form loses nothing: sizes must fit it, and a compact inode, which has no
   timestamp, needs a build time without nanoseconds.
   */
  lemma InodeLossless(img: Image, n: Node, p: Plan, dataAddr: nat, c: Config)
    requires BlockSize(c.bs) && img.buildTime == c.buildTime && img.buildTimeNs == c.buildTimeNs
    requires p.compact == FitsCompact(n.info, c) && (p.xattrSize == 0 || p.xattrSize >= SIZE_XATTR_HEADER)
    ensures var f := FieldsOf(n, p, dataAddr, c);
            Preserved(Decoded(img, p.nid, f, p.compact), f) <==>
              if p.compact then f.size < 0x1_0000_0000 && c.buildTimeNs == 0
              else f.size < 0x8000_0000_0000_0000
  {
    hide FileSize, InodeData, XattrCount, InodeFormat, XattrAreaSize, PowerOfTwo;
    var f := FieldsOf(n, p, dataAddr, c);
    if f.size >= 0x1_0000_0000_0000_0000 {
      assert f.size % 0x1_0000_0000_0000_0000 < f.size;
    }
  }

  /** xattrCount survives exactly when the area is small enough not to wrap the 16-bit count. */
  lemma XattrCountRoundTrip(size: nat)
    requires size == 0 || (size > SIZE_XATTR_HEADER && size % 4 == 0)
    ensures XattrAreaSize(XattrCount(size)) == size <==> size <= SIZE_XATTR_HEADER + 4 * 65534
  {
  }
}
