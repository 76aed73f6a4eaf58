/** On-disk constants, the writer's entry record, and the small encodings of format.go. */
module Format {
  import opened Bytes

  const SUPER_OFFSET := 1024
  const SIZE_SUPER := 128
  const SIZE_COMPACT := 32
  const SIZE_EXTENDED := 64
  const SIZE_DIRENT := 12
  const SIZE_XATTR_HEADER := 12
  const SIZE_XATTR_ENTRY := 4
  const SIZE_DEVICE_SLOT := 128
  const SIZE_CHUNK_INDEX := 8

  const FLAT_PLAIN: nat := 0
  const FLAT_INLINE: nat := 2
  const CHUNK_BASED: nat := 4

  /** A chunk index whose low word is this marks a hole. */
  const NULL_ADDR := 0xFFFF_FFFF

  const S_FIFO := 0x1000
  const S_CHR := 0x2000
  const S_DIR := 0x4000
  const S_BLK := 0x6000
  const S_REG := 0x8000
  const S_LNK := 0xA000
  const S_SOCK := 0xC000

  /** mode & StatTypeMask */
  function TypeOf(mode: u16): nat {
    mode / 0x1000 * 0x1000
  }

  predicate IsDir(mode: u16) { TypeOf(mode) == S_DIR }

  /** The type bits of fs.FileMode. */
  datatype FileMode = ModeRegular | ModeDir | ModeCharDevice | ModeDevice | ModeNamedPipe | ModeSocket | ModeSymlink

  /** modeToFileType */
  function FileTypeByte(mode: u16): byte {
    var t := TypeOf(mode);
    if t == S_REG then 1 else if t == S_DIR then 2 else if t == S_CHR then 3
    else if t == S_BLK then 4 else if t == S_FIFO then 5 else if t == S_SOCK then 6
    else if t == S_LNK then 7 else 0
  }

  /** EroFSFtypeToFileMode */
  function FileModeOf(ftype: byte): FileMode {
    match ftype
    case 2 => ModeDir
    case 3 => ModeCharDevice
    case 4 => ModeDevice
    case 5 => ModeNamedPipe
    case 6 => ModeSocket
    case 7 => ModeSymlink
    case _ => ModeRegular
  }

  /** A run of blocks on one device; dev 0 is the image itself. */
  datatype Chunk = Chunk(phys: u64, count: u16, dev: u16)

  /** What the layout planner is told about one entry (the input half of erofsEntry). */
  datatype Info = Info(
    name: bytes,
    mode: u16,
    uid: u32,
    gid: u32,
    mtime: u64,
    mtimeNs: u32,
    nlink: u32,
    size: u64,
    rdev: u32,
    symTarget: bytes,
    chunks: seq<Chunk>,
    contiguous: bool,
    metadataOnly: bool,
    data: Option<bytes>,
    xattrs: map<bytes, bytes>)

  /** Settings of one erofsWriter. */
  datatype Config = Config(
    bs: nat,             // block size
    chunkBits: nat,      // log2 of the default chunk size in blocks
    buildTime: u64,
    buildTimeNs: u32,
    devices: seq<u64>)   // block count of each extra device

  function Pow2(n: nat): (p: nat)
    ensures p > 0
  {
    if n == 0 then 1 else 2 * Pow2(n - 1)
  }

  /** Block sizes that setBlockSize accepts: powers of two from 512 to 65536. */
  predicate BlockSize(bs: nat) {
    512 <= bs <= 65536 && PowerOfTwo(bs)
  }

  predicate PowerOfTwo(n: nat) {
    n == 1 || (n > 1 && n % 2 == 0 && PowerOfTwo(n / 2))
  }

  lemma BlockSizeAligned(bs: nat)
    requires BlockSize(bs)
    ensures bs % 64 == 0
  {
    assert PowerOfTwo(bs / 2) && PowerOfTwo(bs / 2 / 2) && PowerOfTwo(bs / 2 / 2 / 2);
    assert PowerOfTwo(bs / 2 / 2 / 2 / 2) && PowerOfTwo(bs / 2 / 2 / 2 / 2 / 2);
    assert PowerOfTwo(bs / 2 / 2 / 2 / 2 / 2 / 2);
  }

  /** Close derives the default chunk bits so that a chunk is at least 4096 bytes. */
  predicate ValidConfig(c: Config) {
    BlockSize(c.bs) && c.chunkBits <= 3
  }

  /** inodeFormat: bit 0 extended, bits 1-3 layout. */
  function InodeFormat(layout: nat, compact: bool): nat {
    layout * 2 + if compact then 0 else 1
  }
}
