/** Mode bits: the Unix mode of an inode, Go's fs.FileMode, and the type byte of a dirent (format.go, ftypes.go). */
module Modes {
  import opened Bytes
  import opened Format

  /** The type bits of fs.FileMode; a regular file has none. */
  datatype TypeBit = DirBit | SymlinkBit | DeviceBit | CharDeviceBit | NamedPipeBit | SocketBit | IrregularBit

  /** fs.FileMode, its nine permission bits as one number. */
  datatype GoMode = GoMode(perm: nat, setuid: bool, setgid: bool, sticky: bool, types: set<TypeBit>)

  const KNOWN_TYPES := {S_REG, S_DIR, S_LNK, S_CHR, S_BLK, S_FIFO, S_SOCK}

  /** The type bits that EroFSFtypeToFileMode answers with. */
  function BitsOf(m: FileMode): set<TypeBit> {
    match m
    case ModeRegular => {}
    case ModeDir => {DirBit}
    case ModeCharDevice => {DeviceBit, CharDeviceBit}
    case ModeDevice => {DeviceBit}
    case ModeNamedPipe => {NamedPipeBit}
    case ModeSocket => {SocketBit}
    case ModeSymlink => {SymlinkBit}
  }

  function TypeBits(mode: u16): set<TypeBit> {
    var t := TypeOf(mode);
    if t == S_REG then {}
    else if t == S_DIR then {DirBit}
    else if t == S_CHR then {DeviceBit, CharDeviceBit}
    else if t == S_BLK then {DeviceBit}
    else if t == S_FIFO then {NamedPipeBit}
    else if t == S_SOCK then {SocketBit}
    else if t == S_LNK then {SymlinkBit}
    else {IrregularBit}
  }

  /** EroFSModeToGoFileMode */
  function ToGo(mode: u16): GoMode {
    GoMode(mode % 0x200, mode / 0x800 % 2 == 1, mode / 0x400 % 2 == 1, mode / 0x200 % 2 == 1, TypeBits(mode))
  }

  function UnixType(types: set<TypeBit>): nat {
    if types == {} then S_REG
    else if types == {DirBit} then S_DIR
    else if types == {SymlinkBit} then S_LNK
    else if types == {DeviceBit, CharDeviceBit} then S_CHR
    else if types == {DeviceBit} then S_BLK
    else if types == {NamedPipeBit} then S_FIFO
    else if types == {SocketBit} then S_SOCK
    else 0
  }

  /** goModeToUnixMode; Perm drops all but nine bits. */
  function ToUnix(m: GoMode): u16 {
    m.perm % 0x200
    + (if m.setuid then 0x800 else 0) + (if m.setgid then 0x400 else 0) + (if m.sticky then 0x200 else 0)
    + UnixType(m.types)
  }

  // ---- Round trips ----

  lemma Parts(mode: u16)
    ensures mode == mode % 0x200 + mode / 0x200 % 2 * 0x200 + mode / 0x400 % 2 * 0x400 + mode / 0x800 % 2 * 0x800 + TypeOf(mode)
  {
    Halved(mode);
  }

  lemma Halved(mode: nat)
    ensures mode / 0x400 == mode / 0x200 / 2 && mode / 0x800 == mode / 0x400 / 2 && mode / 0x1000 == mode / 0x800 / 2
  {
  }

  lemma TypeBack(mode: u16)
    ensures UnixType(TypeBits(mode)) == if TypeOf(mode) in KNOWN_TYPES then TypeOf(mode) else 0
  {
    hide TypeOf;
    BitsDiffer();
  }

  lemma BitsDiffer()
    ensures forall a: TypeBit, b: TypeBit :: a != b ==> {a} != {b}
    ensures forall a: TypeBit :: {a} != {} && {a} != {DeviceBit, CharDeviceBit}
    ensures {DeviceBit, CharDeviceBit} != {}
  {
    forall a: TypeBit, b: TypeBit | a != b
      ensures {a} != {b}
    {
      assert a in {a} && a !in {b};
    }
    forall a: TypeBit
      ensures {a} != {} && {a} != {DeviceBit, CharDeviceBit}
    {
      assert a in {a};
      assert DeviceBit in {DeviceBit, CharDeviceBit} && CharDeviceBit in {DeviceBit, CharDeviceBit};
    }
    assert DeviceBit in {DeviceBit, CharDeviceBit};
  }

  /** A Unix mode survives the way through Go's exactly when its type is a known one, or it has none. */
  lemma UnixBack(mode: u16)
    ensures ToUnix(ToGo(mode)) == mode <==> TypeOf(mode) in KNOWN_TYPES + {0}
  {
    hide TypeBits, UnixType, TypeOf;
    Parts(mode);
    TypeBack(mode);
  }

  lemma Bit(n: nat, b: nat, rest: nat)
    requires b < 2 && n == b + 2 * rest
    ensures n % 2 == b && n / 2 == rest
  {
  }

  /** The twelve lower bits of a mode and its type. */
  lemma LowBits(mode: u16, perm: nat, sticky: nat, setgid: nat, setuid: nat, t: nat)
    requires perm < 0x200 && sticky < 2 && setgid < 2 && setuid < 2
    requires mode == perm + sticky * 0x200 + setgid * 0x400 + setuid * 0x800 + t * 0x1000
    ensures mode / 0x1000 == t && mode % 0x200 == perm
    ensures mode / 0x200 % 2 == sticky && mode / 0x400 % 2 == setgid && mode / 0x800 % 2 == setuid
  {
    var rest := setgid + 2 * (setuid + 2 * t);
    DivUnique(mode, 0x200, sticky + 2 * rest, perm);
    Bit(mode / 0x200, sticky, rest);
    Halved(mode);
    Bit(rest, setgid, setuid + 2 * t);
    Bit(setuid + 2 * t, setuid, t);
  }

  lemma BitsBack(types: set<TypeBit>, mode: u16)
    requires TypeOf(mode) == UnixType(types)
    ensures TypeBits(mode) == types <==> UnixType(types) != 0 || types == {IrregularBit}
  {
    hide TypeOf;
    BitsDiffer();
  }

  function One(b: bool): nat { if b then 1 else 0 }

  /** The way back, for any type bits. */
  lemma GoThere(m: GoMode)
    requires m.perm < 0x200
    ensures TypeOf(ToUnix(m)) == UnixType(m.types)
    ensures ToGo(ToUnix(m)) == m.(types := TypeBits(ToUnix(m)))
  {
    hide TypeBits, UnixType;
    WholeType(m.types);
    LowBits(ToUnix(m), m.perm, One(m.sticky), One(m.setgid), One(m.setuid), UnixType(m.types) / 0x1000);
  }

  lemma WholeType(types: set<TypeBit>)
    ensures UnixType(types) == UnixType(types) / 0x1000 * 0x1000
  {
  }

  /** Go's mode survives the way through Unix's exactly when its type bits are a known type's, or irregular. */
  lemma GoBack(m: GoMode)
    requires m.perm < 0x200
    ensures ToGo(ToUnix(m)) == m <==> m.types == {IrregularBit} || exists t: FileMode :: m.types == BitsOf(t)
  {
    hide TypeBits, UnixType, TypeOf, BitsOf, ToUnix, ToGo;
    GoThere(m);
    BitsBack(m.types, ToUnix(m));
    KnownBits(m.types);
  }

  lemma KnownBits(types: set<TypeBit>)
    ensures UnixType(types) != 0 <==> exists t: FileMode :: types == BitsOf(t)
  {
    if UnixType(types) != 0 {
      assert types in {BitsOf(ModeRegular), BitsOf(ModeDir), BitsOf(ModeSymlink), BitsOf(ModeCharDevice), BitsOf(ModeDevice),
                       BitsOf(ModeNamedPipe), BitsOf(ModeSocket)};
    }
  }

  /** The type a dirent shows, for each of the seven types; it is what a stat shows exactly for these. */
  lemma TypesShown(mode: u16)
    ensures TypeOf(mode) == S_REG ==> FileModeOf(FileTypeByte(mode)) == ModeRegular
    ensures TypeOf(mode) == S_DIR ==> FileModeOf(FileTypeByte(mode)) == ModeDir
    ensures TypeOf(mode) == S_LNK ==> FileModeOf(FileTypeByte(mode)) == ModeSymlink
    ensures TypeOf(mode) == S_CHR ==> FileModeOf(FileTypeByte(mode)) == ModeCharDevice
    ensures TypeOf(mode) == S_BLK ==> FileModeOf(FileTypeByte(mode)) == ModeDevice
    ensures TypeOf(mode) == S_FIFO ==> FileModeOf(FileTypeByte(mode)) == ModeNamedPipe
    ensures TypeOf(mode) == S_SOCK ==> FileModeOf(FileTypeByte(mode)) == ModeSocket
    ensures BitsOf(FileModeOf(FileTypeByte(mode))) == ToGo(mode).types <==> TypeOf(mode) in KNOWN_TYPES
  {
    hide TypeOf;
    BitsDiffer();
  }

  /** 0104755 is set-user-ID, 042755 a set-group-ID directory, 0101777 sticky, 020620 a terminal, 060660 a disk. */
  lemma Samples()
    ensures ToGo(0x89ED) == GoMode(0x1ED, true, false, false, {})
    ensures ToGo(0x45ED) == GoMode(0x1ED, false, true, false, {DirBit})
    ensures ToGo(0x83FF) == GoMode(0x1FF, false, false, true, {})
    ensures ToGo(0x2190) == GoMode(0x190, false, false, false, {DeviceBit, CharDeviceBit})
    ensures ToGo(0x61B0) == GoMode(0x1B0, false, false, false, {DeviceBit})
  {
  }
}
