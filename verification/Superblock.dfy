/** The superblock area: what writeBlock0 stores and what Open makes of it (writer.go, erofs.go). */
module Superblock {
  import opened Bytes
  import opened Format
  import opened Layout
  import opened Placement
  import opened Reader
  import opened RoundTrip

  const MAGIC: nat := 0xE0F5_E1E2
  const CHUNKED_FILE: nat := 4
  const DEVICE_TABLE: nat := 8

  /** The superblock fields that the writer sets; all others are zero. */
  datatype Super = Super(
    blkBits: byte,
    rootNid: nat,
    inos: nat,
    buildTime: u64,
    buildTimeNs: u32,
    blocks: nat,
    metaBlkAddr: nat,
    incompat: nat,
    extraDevices: nat,
    devtSlotOff: nat)

  function Identity(s: Super): (b: bytes)
    ensures |b| == 16
  {
    U32(MAGIC) + (Zeros(8) + [s.blkBits, 0]) + U16(s.rootNid)
  }

  function Counters(s: Super): (b: bytes)
    ensures |b| == 24
  {
    U64(s.inos) + U64(s.buildTime) + (U32(s.buildTimeNs) + U32(s.blocks))
  }

  function Areas(s: Super): (b: bytes)
    ensures |b| == 40
  {
    U32(s.metaBlkAddr) + Zeros(36) + []
  }

  function Features(s: Super): (b: bytes)
    ensures |b| == 48
  {
    (U32(s.incompat) + U16(0)) + (U16(s.extraDevices) + U16(s.devtSlotOff)) + Zeros(38)
  }

  function SuperBytes(s: Super): (b: bytes)
    ensures |b| == SIZE_SUPER
  {
    Identity(s) + (Counters(s) + Areas(s)) + Features(s)
  }

  lemma SuperParts(b: bytes, o: nat, s: Super)
    requires At(b, o, SuperBytes(s))
    ensures At(b, o, Identity(s)) && At(b, o + 16, Counters(s)) && At(b, o + 40, Areas(s)) && At(b, o + 80, Features(s))
  {
    hide Identity, Counters, Areas, Features, At;
    AtParts(b, o, Identity(s), Counters(s) + Areas(s), Features(s));
    assert Counters(s) + Areas(s) + [] == Counters(s) + Areas(s);
    AtParts(b, o + 16, Counters(s), Areas(s), []);
  }

  /** The stored fields load back, up to their widths. */
  lemma SuperFields(b: bytes, o: nat, s: Super)
    requires At(b, o, SuperBytes(s))
    ensures |b| >= o + SIZE_SUPER
    ensures Get32(b, o) == MAGIC && b[o + 12] == s.blkBits && Get16(b, o + 14) == s.rootNid % 0x1_0000
    ensures Get64(b, o + 16) == s.inos % 0x1_0000_0000_0000_0000
    ensures Get64(b, o + 24) == s.buildTime && Get32(b, o + 32) == s.buildTimeNs
    ensures Get32(b, o + 36) == s.blocks % 0x1_0000_0000 && Get32(b, o + 40) == s.metaBlkAddr % 0x1_0000_0000
    ensures Get32(b, o + 80) == s.incompat % 0x1_0000_0000 && Get16(b, o + 84) == 0
    ensures Get16(b, o + 86) == s.extraDevices % 0x1_0000 && Get16(b, o + 88) == s.devtSlotOff % 0x1_0000
  {
    hide SuperBytes, Identity, Counters, Areas, Features, At, Get16, Get32, Get64, U16, U32, U64;
    SuperParts(b, o, s);
    IdentityFields(b, o, s);
    CounterFields(b, o + 16, s);
    AreaFields(b, o + 40, s);
    FeatureFields(b, o + 80, s);
    AtLength(b, o + 80, Features(s));
  }

  /** All other bytes of the superblock are zero: checksum, features, volume name, compression and reserved fields. */
  lemma RestZero(b: bytes, o: nat, s: Super)
    requires At(b, o, SuperBytes(s))
    ensures |b| >= o + SIZE_SUPER
    ensures forall k :: o + 4 <= k < o + 12 || k == o + 13 || o + 44 <= k < o + 80 || o + 84 <= k < o + 86 || o + 90 <= k < o + 128 ==>
              b[k] == 0
  {
    hide SuperBytes, Identity, Counters, Areas, Features, At;
    SuperParts(b, o, s);
    AtLength(b, o + 80, Features(s));
    IdentityRest(b, o, s);
    AreasRest(b, o + 40, s);
    FeaturesRest(b, o + 80, s);
  }

  lemma IdentityRest(b: bytes, o: nat, s: Super)
    requires At(b, o, Identity(s)) && o + 16 <= |b|
    ensures forall k :: o + 4 <= k < o + 12 || k == o + 13 ==> b[k] == 0
  {
    hide U16, U32;
    var middle := Zeros(8) + [s.blkBits, 0];
    AtParts(b, o, U32(MAGIC), middle, U16(s.rootNid));
    forall k | o + 4 <= k < o + 12 || k == o + 13
      ensures b[k] == 0
    {
      AtIndex(b, o + 4, middle, k - o - 4);
    }
  }

  lemma AreasRest(b: bytes, o: nat, s: Super)
    requires At(b, o, Areas(s)) && o + 40 <= |b|
    ensures forall k :: o + 4 <= k < o + 40 ==> b[k] == 0
  {
    hide U32;
    AtParts(b, o, U32(s.metaBlkAddr), Zeros(36), []);
    forall k | o + 4 <= k < o + 40
      ensures b[k] == 0
    {
      AtIndex(b, o + 4, Zeros(36), k - o - 4);
    }
  }

  lemma FeaturesRest(b: bytes, o: nat, s: Super)
    requires At(b, o, Features(s)) && o + 48 <= |b|
    ensures forall k :: o + 4 <= k < o + 6 || o + 10 <= k < o + 48 ==> b[k] == 0
  {
    hide U32;
    AtParts(b, o, U32(s.incompat) + U16(0), U16(s.extraDevices) + U16(s.devtSlotOff), Zeros(38));
    forall k | o + 4 <= k < o + 6 || o + 10 <= k < o + 48
      ensures b[k] == 0
    {
      if k < o + 6 {
        AtIndex(b, o, U32(s.incompat) + U16(0), k - o);
      } else {
        AtIndex(b, o + 10, Zeros(38), k - o - 10);
      }
    }
  }

  lemma AtLength(b: bytes, o: nat, p: bytes)
    requires At(b, o, p)
    ensures o + |p| <= |b|
  {
  }

  lemma IdentityFields(b: bytes, o: nat, s: Super)
    requires At(b, o, Identity(s))
    ensures |b| >= o + 16 && Get32(b, o) == MAGIC && b[o + 12] == s.blkBits && Get16(b, o + 14) == s.rootNid % 0x1_0000
  {
    hide Get16, Get32, U16, U32;
    AtParts(b, o, U32(MAGIC), Zeros(8) + [s.blkBits, 0], U16(s.rootNid));
    LoadStored32(b, o, MAGIC);
    LoadStored16(b, o + 14, s.rootNid);
    AtIndex(b, o + 4, Zeros(8) + [s.blkBits, 0], 8);
  }

  lemma CounterFields(b: bytes, o: nat, s: Super)
    requires At(b, o, Counters(s))
    ensures |b| >= o + 24 && Get64(b, o) == s.inos % 0x1_0000_0000_0000_0000
    ensures Get64(b, o + 8) == s.buildTime && Get32(b, o + 16) == s.buildTimeNs && Get32(b, o + 20) == s.blocks % 0x1_0000_0000
  {
    hide Get32, Get64, U32, U64;
    AtParts(b, o, U64(s.inos), U64(s.buildTime), U32(s.buildTimeNs) + U32(s.blocks));
    LoadStored64(b, o, s.inos);
    LoadStored64(b, o + 8, s.buildTime);
    assert U32(s.buildTimeNs) + U32(s.blocks) + [] == U32(s.buildTimeNs) + U32(s.blocks);
    AtParts(b, o + 16, U32(s.buildTimeNs), U32(s.blocks), []);
    LoadStored32(b, o + 16, s.buildTimeNs);
    LoadStored32(b, o + 20, s.blocks);
  }

  lemma AreaFields(b: bytes, o: nat, s: Super)
    requires At(b, o, Areas(s))
    ensures |b| >= o + 40 && Get32(b, o) == s.metaBlkAddr % 0x1_0000_0000
  {
    hide Get32, U32;
    AtParts(b, o, U32(s.metaBlkAddr), Zeros(36), []);
    LoadStored32(b, o, s.metaBlkAddr);
  }

  lemma FeatureFields(b: bytes, o: nat, s: Super)
    requires At(b, o, Features(s))
    ensures |b| >= o + 48 && Get32(b, o) == s.incompat % 0x1_0000_0000 && Get16(b, o + 4) == 0
    ensures Get16(b, o + 6) == s.extraDevices % 0x1_0000 && Get16(b, o + 8) == s.devtSlotOff % 0x1_0000
  {
    hide Get16, Get32, U16, U32;
    AtParts(b, o, U32(s.incompat) + U16(0), U16(s.extraDevices) + U16(s.devtSlotOff), Zeros(38));
    assert U32(s.incompat) + U16(0) + [] == U32(s.incompat) + U16(0);
    assert U16(s.extraDevices) + U16(s.devtSlotOff) + [] == U16(s.extraDevices) + U16(s.devtSlotOff);
    AtParts(b, o, U32(s.incompat), U16(0), []);
    AtParts(b, o + 6, U16(s.extraDevices), U16(s.devtSlotOff), []);
    LoadStored32(b, o, s.incompat);
    LoadStored16(b, o + 4, 0);
    LoadStored16(b, o + 6, s.extraDevices);
    LoadStored16(b, o + 8, s.devtSlotOff);
  }

  // ---- Writing ----

  /** A device slot: 64 bytes of tag, block count, mapped address and reserve. */
  function SlotBytes(blocks: nat): (b: bytes)
    ensures |b| == SIZE_DEVICE_SLOT
  {
    Zeros(64) + U32(blocks) + Zeros(60)
  }

  function SlotsBytes(devices: seq<u64>): (b: bytes)
    ensures |b| == |devices| * SIZE_DEVICE_SLOT
  {
    if devices == [] then [] else SlotBytes(devices[0]) + SlotsBytes(devices[1..])
  }

  /** Trailing zeros of a power of two. */
  function Log2(n: nat): nat {
    if n <= 1 then 0 else 1 + Log2(n / 2)
  }

  lemma {:induction false} Log2OfPower(n: nat)
    requires PowerOfTwo(n)
    ensures Pow2(Log2(n)) == n
  {
    if n > 1 {
      Log2OfPower(n / 2);
    }
  }

  lemma {:induction false} Log2Mono(a: nat, b: nat)
    requires a <= b
    ensures Log2(a) <= Log2(b)
  {
    if a > 1 {
      Log2Mono(a / 2, b / 2);
    }
  }

  lemma BlkBits(bs: nat)
    requires BlockSize(bs)
    ensures 9 <= Log2(bs) <= 16 && Pow2(Log2(bs)) == bs
  {
    hide Log2;
    Log2OfPower(bs);
    Log2Mono(512, bs);
    Log2Mono(bs, 65536);
    SmallPowers();
    Log2OfPow2(9);
    Log2OfPow2(16);
  }

  lemma {:induction false} Log2OfPow2(k: nat)
    ensures Log2(Pow2(k)) == k
  {
    if k > 0 {
      Log2OfPow2(k - 1);
      assert Pow2(k) / 2 == Pow2(k - 1);
    }
  }

  lemma SmallPowers()
    ensures Pow2(9) == 512 && Pow2(16) == 65536
  {
  }

  predicate AnyChunks(items: seq<Item>) {
    exists it <- items :: it.node.info.chunks != []
  }

  /** The superblock for a planned list. */
  function SuperOf(items: seq<Item>, c: Config): Super
    requires ValidConfig(c)
  {
    BlkBits(c.bs);
    Super(Log2(c.bs), if items == [] then 0 else items[0].plan.nid, |items|, c.buildTime, c.buildTimeNs,
          TotalBlocks(items, c), MetaBlock(items, c),
          (if c.devices != [] then DEVICE_TABLE else 0) + (if AnyChunks(items) then CHUNKED_FILE else 0),
          |c.devices|, if c.devices != [] then SIZE_SUPER / 16 else 0)
  }

  /** The superblock area: padding, superblock, device slots, padding to whole blocks. */
  function SbArea(s: Super, c: Config): (b: bytes)
    requires c.bs > 0
    ensures |b| == SbBlocks(c) * c.bs
  {
    var n := SUPER_OFFSET + SIZE_SUPER + |c.devices| * SIZE_DEVICE_SLOT;
    RoundUpBlocks(n, c.bs);
    Zeros(SUPER_OFFSET) + SuperBytes(s) + SlotsBytes(c.devices) + Zeros(SbBlocks(c) * c.bs - n)
  }

  /** writeBlock0: fails exactly when a device's block count does not fit 32 bits. */
  method WriteBlock0(s: Super, c: Config) returns (r: Result<bytes>)
    requires c.bs > 0
    ensures r.Ok? <==> forall d <- c.devices :: d < 0x1_0000_0000
    ensures r.Ok? ==> r.value == SbArea(s, c)
  {
    hide SuperBytes, SlotsBytes, CeilDiv;
    ghost var n := SUPER_OFFSET + SIZE_SUPER + |c.devices| * SIZE_DEVICE_SLOT;
    RoundUpBlocks(n, c.bs);
    var size := SbBlocks(c) * c.bs;
    var sbArea := new byte[size](_ => 0);
    var sb := SuperBytes(s);
    assert sbArea[..SUPER_OFFSET] == Zeros(SUPER_OFFSET);
    CopyInto(sbArea, SUPER_OFFSET, sb);
    assert sbArea[SUPER_OFFSET + SIZE_SUPER..] == Zeros(size - SUPER_OFFSET - SIZE_SUPER);
    var ok := WriteSlots(sbArea, SUPER_OFFSET + SIZE_SUPER, c.devices);
    if !ok {
      return Err(Invalid);
    }
    assert sbArea[..] == sbArea[..n] + sbArea[n..];
    return Ok(sbArea[..]);
  }

  /** One slot, written over zeros. */
  method PutSlot(b: array<byte>, at: nat, device: u64)
    requires at + SIZE_DEVICE_SLOT <= b.Length && device < 0x1_0000_0000
    requires b[at..] == Zeros(b.Length - at)
    modifies b
    ensures b[..at + SIZE_DEVICE_SLOT] == old(b[..at]) + SlotBytes(device)
    ensures b[at + SIZE_DEVICE_SLOT..] == Zeros(b.Length - at - SIZE_DEVICE_SLOT)
  {
    hide SlotBytes, Zeros;
    ghost var rest := b[at..];
    CopyInto(b, at, SlotBytes(device));
    assert b[at + SIZE_DEVICE_SLOT..] == rest[SIZE_DEVICE_SLOT..];
    ZerosDrop(|rest|, SIZE_DEVICE_SLOT);
  }

  /** The device slots, one after the other from offset off of a zeroed rest. */
  method WriteSlots(b: array<byte>, off: nat, devices: seq<u64>) returns (ok: bool)
    requires off + |devices| * SIZE_DEVICE_SLOT <= b.Length
    requires b[off..] == Zeros(b.Length - off)
    modifies b
    ensures ok <==> forall d <- devices :: d < 0x1_0000_0000
    ensures ok ==> b[..off + |devices| * SIZE_DEVICE_SLOT] == old(b[..off]) + SlotsBytes(devices)
    ensures ok ==> b[off + |devices| * SIZE_DEVICE_SLOT..] == Zeros(b.Length - off - |devices| * SIZE_DEVICE_SLOT)
  {
    hide SlotBytes, Zeros, SlotsBytes;
    var i := 0;
    ghost var done: bytes := [];
    while i < |devices|
      invariant i <= |devices| && |done| == i * SIZE_DEVICE_SLOT
      invariant forall k :: 0 <= k < i ==> devices[k] < 0x1_0000_0000
      invariant done + SlotsBytes(devices[i..]) == SlotsBytes(devices)
      invariant b[..off + i * SIZE_DEVICE_SLOT] == old(b[..off]) + done
      invariant b[off + i * SIZE_DEVICE_SLOT..] == Zeros(b.Length - off - i * SIZE_DEVICE_SLOT)
    {
      if devices[i] >= 0x1_0000_0000 {
        assert devices[i] in devices;
        return false;
      }
      SlotsStep(devices, i);
      ghost var slot := SlotBytes(devices[i]);
      PutSlot(b, off + i * SIZE_DEVICE_SLOT, devices[i]);
      assert old(b[..off]) + done + slot == old(b[..off]) + (done + slot);
      assert done + (slot + SlotsBytes(devices[i + 1..])) == done + slot + SlotsBytes(devices[i + 1..]);
      done := done + slot;
      i := i + 1;
    }
    SlotsEnd(devices, i);
    assert done + [] == done;
    return true;
  }

  lemma SlotsStep(devices: seq<u64>, i: nat)
    requires i < |devices|
    ensures SlotsBytes(devices[i..]) == SlotBytes(devices[i]) + SlotsBytes(devices[i + 1..])
  {
    assert devices[i..][1..] == devices[i + 1..];
  }

  lemma SlotsEnd(devices: seq<u64>, i: nat)
    requires i == |devices|
    ensures SlotsBytes(devices[i..]) == []
  {
  }

  lemma ZerosDrop(n: nat, k: nat)
    requires k <= n
    ensures Zeros(n)[k..] == Zeros(n - k)
  {
  }

  // ---- Opening ----

  /** Least power of two that is at least v, found by doubling p. */
  function NextPow2(v: nat, p: nat): (r: nat)
    requires p > 0
    ensures r >= v && r >= p
    decreases v - p
  {
    if p >= v then p else NextPow2(v, 2 * p)
  }

  /** roundupPowerOfTwo: smear the top bit of v-1 downwards, add one. */
  function RoundupPowerOfTwo(v: bv32): bv32 {
    var a := v - 1;
    var b := a | (a >> 1);
    var c := b | (b >> 2);
    var d := c | (c >> 4);
    var e := d | (d >> 8);
    (e | (e >> 16)) + 1
  }

  /** Its result has a single bit, is at least v, and half of it is less than v. */
  lemma RoundupIsLeast(v: bv32)
    requires 1 < v <= 0x8000_0000
    ensures var r := RoundupPowerOfTwo(v);
            r & (r - 1) == 0 && v <= r && (r >> 1) < v
  {
  }

  /** The doubling from 2^j on stops at the least power of two that is at least v. */
  lemma {:induction false} NextPow2Is(v: nat, j: nat, k: nat)
    requires j <= k && v <= Pow2(k) && (j < k ==> Pow2(k - 1) < v)
    ensures NextPow2(v, Pow2(j)) == Pow2(k)
    decreases k - j
  {
    if j < k {
      Pow2Grows(j, k - 1);
      NextPow2Is(v, j + 1, k);
    }
  }

  lemma {:induction false} Pow2Grows(a: nat, b: nat)
    requires a <= b
    ensures Pow2(a) <= Pow2(b)
    decreases b - a
  {
    if a < b {
      Pow2Grows(a, b - 1);
    }
  }

  /** The number a machine word stands for. */
  function Word(v: bv32): nat { v as int }

  /** The single bit c stands for n, also in comparisons with v. */
  predicate Threshold(v: bv32, c: bv32, n: nat) {
    Word(c) == n && c != 0 && c & (c - 1) == 0 && (v <= c <==> Word(v) <= n)
  }

  lemma IsThreshold(v: bv32, c: bv32, n: nat)
    requires c as int == n && c != 0 && c & (c - 1) == 0 && (v <= c <==> v as int <= n)
    ensures Threshold(v, c, n)
  {
  }

  lemma SmallCompare(v: bv32)
    ensures v <= 1 <==> v as int <= 1
    ensures v <= 2 <==> v as int <= 2
    ensures v <= 4 <==> v as int <= 4
    ensures v <= 8 <==> v as int <= 8
    ensures v <= 0x10 <==> v as int <= 0x10
    ensures v <= 0x20 <==> v as int <= 0x20
    ensures v <= 0x40 <==> v as int <= 0x40
    ensures v <= 0x80 <==> v as int <= 0x80
    ensures v <= 0x100 <==> v as int <= 0x100
  {
  }

  lemma SmallWords(v: bv32)
    ensures Threshold(v, 1, 1)
    ensures Threshold(v, 2, 2)
    ensures Threshold(v, 4, 4)
    ensures Threshold(v, 8, 8)
    ensures Threshold(v, 0x10, 0x10)
    ensures Threshold(v, 0x20, 0x20)
    ensures Threshold(v, 0x40, 0x40)
    ensures Threshold(v, 0x80, 0x80)
    ensures Threshold(v, 0x100, 0x100)
  {
    hide Threshold, Word;
    SmallCompare(v);
    IsThreshold(v, 1, 1);
    IsThreshold(v, 2, 2);
    IsThreshold(v, 4, 4);
    IsThreshold(v, 8, 8);
    IsThreshold(v, 0x10, 0x10);
    IsThreshold(v, 0x20, 0x20);
    IsThreshold(v, 0x40, 0x40);
    IsThreshold(v, 0x80, 0x80);
    IsThreshold(v, 0x100, 0x100);
  }

  lemma LargeCompare(v: bv32)
    ensures v <= 0x200 <==> v as int <= 0x200
    ensures v <= 0x400 <==> v as int <= 0x400
    ensures v <= 0x800 <==> v as int <= 0x800
    ensures v <= 0x1000 <==> v as int <= 0x1000
    ensures v <= 0x2000 <==> v as int <= 0x2000
    ensures v <= 0x4000 <==> v as int <= 0x4000
    ensures v <= 0x8000 <==> v as int <= 0x8000
    ensures v <= 0x10000 <==> v as int <= 0x10000
  {
  }

  lemma LargeWords(v: bv32)
    ensures Threshold(v, 0x200, 0x200)
    ensures Threshold(v, 0x400, 0x400)
    ensures Threshold(v, 0x800, 0x800)
    ensures Threshold(v, 0x1000, 0x1000)
    ensures Threshold(v, 0x2000, 0x2000)
    ensures Threshold(v, 0x4000, 0x4000)
    ensures Threshold(v, 0x8000, 0x8000)
    ensures Threshold(v, 0x10000, 0x10000)
  {
    hide Threshold, Word;
    LargeCompare(v);
    IsThreshold(v, 0x200, 0x200);
    IsThreshold(v, 0x400, 0x400);
    IsThreshold(v, 0x800, 0x800);
    IsThreshold(v, 0x1000, 0x1000);
    IsThreshold(v, 0x2000, 0x2000);
    IsThreshold(v, 0x4000, 0x4000);
    IsThreshold(v, 0x8000, 0x8000);
    IsThreshold(v, 0x10000, 0x10000);
  }

  /** Two single bits that are both the least to reach v are the same. */
  lemma OneLeast(r: bv32, p: bv32, v: bv32)
    requires r & (r - 1) == 0 && p & (p - 1) == 0 && v <= r && v <= p && (r >> 1) < v && (p >> 1) < v
    ensures r == p
  {
  }

  lemma SmearedTo(v: bv32, half: bv32, p: bv32, k: nat)
    requires k > 0 && half == p >> 1 && Threshold(v, half, Pow2(k - 1)) && Threshold(v, p, Pow2(k))
    requires Pow2(k - 1) < Word(v) <= Pow2(k) && p <= 0x1_0000
    ensures Word(RoundupPowerOfTwo(v)) == NextPow2(Word(v), 1)
  {
    hide RoundupPowerOfTwo, NextPow2;
    assert 1 < v <= 0x8000_0000;
    RoundupIsLeast(v);
    OneLeast(RoundupPowerOfTwo(v), p, v);
    NextPow2Is(Word(v), 0, k);
  }

  lemma Powers()
    ensures Pow2(0) == 1
    ensures Pow2(1) == 2
    ensures Pow2(2) == 4
    ensures Pow2(3) == 8
    ensures Pow2(4) == 0x10
    ensures Pow2(5) == 0x20
    ensures Pow2(6) == 0x40
    ensures Pow2(7) == 0x80
    ensures Pow2(8) == 0x100
    ensures Pow2(9) == 0x200
    ensures Pow2(10) == 0x400
    ensures Pow2(11) == 0x800
    ensures Pow2(12) == 0x1000
    ensures Pow2(13) == 0x2000
    ensures Pow2(14) == 0x4000
    ensures Pow2(15) == 0x8000
    ensures Pow2(16) == 0x10000
  {
    hide Pow2;
    UnfoldPow2(0);
    UnfoldPow2(1);
    UnfoldPow2(2);
    UnfoldPow2(3);
    UnfoldPow2(4);
    UnfoldPow2(5);
    UnfoldPow2(6);
    UnfoldPow2(7);
    UnfoldPow2(8);
    UnfoldPow2(9);
    UnfoldPow2(10);
    UnfoldPow2(11);
    UnfoldPow2(12);
    UnfoldPow2(13);
    UnfoldPow2(14);
    UnfoldPow2(15);
    UnfoldPow2(16);
  }

  lemma UnfoldPow2(k: nat)
    ensures Pow2(k) == if k == 0 then 1 else 2 * Pow2(k - 1)
  {
  }

  /** The device id mask, computed by doubling, is what the bit smearing of the source gives. */
  lemma MaskIsSmeared(v: bv32, n: u16)
    requires Word(v) == n + 1
    ensures Word(RoundupPowerOfTwo(v)) == DeviceIDMask(n) + 1
  {
    hide RoundupPowerOfTwo, NextPow2, Pow2, Threshold, Word;
    SmallWords(v);
    LargeWords(v);
    Powers();
    if Word(v) <= 1 {
      OneSmeared(v);
    } else if Word(v) <= 2 {
      SmearedTo(v, 1, 2, 1);
    } else if Word(v) <= 4 {
      SmearedTo(v, 2, 4, 2);
    } else if Word(v) <= 8 {
      SmearedTo(v, 4, 8, 3);
    } else if Word(v) <= 0x10 {
      SmearedTo(v, 8, 0x10, 4);
    } else if Word(v) <= 0x20 {
      SmearedTo(v, 0x10, 0x20, 5);
    } else if Word(v) <= 0x40 {
      SmearedTo(v, 0x20, 0x40, 6);
    } else if Word(v) <= 0x80 {
      SmearedTo(v, 0x40, 0x80, 7);
    } else if Word(v) <= 0x100 {
      SmearedTo(v, 0x80, 0x100, 8);
    } else if Word(v) <= 0x200 {
      SmearedTo(v, 0x100, 0x200, 9);
    } else if Word(v) <= 0x400 {
      SmearedTo(v, 0x200, 0x400, 10);
    } else if Word(v) <= 0x800 {
      SmearedTo(v, 0x400, 0x800, 11);
    } else if Word(v) <= 0x1000 {
      SmearedTo(v, 0x800, 0x1000, 12);
    } else if Word(v) <= 0x2000 {
      SmearedTo(v, 0x1000, 0x2000, 13);
    } else if Word(v) <= 0x4000 {
      SmearedTo(v, 0x2000, 0x4000, 14);
    } else if Word(v) <= 0x8000 {
      SmearedTo(v, 0x4000, 0x8000, 15);
    } else if Word(v) <= 0x10000 {
      SmearedTo(v, 0x8000, 0x10000, 16);
    }
  }

  lemma OneSmeared(v: bv32)
    requires Threshold(v, 1, 1) && Word(v) == 1
    ensures Word(RoundupPowerOfTwo(v)) == 1 && NextPow2(1, 1) == 1
  {
    assert v == 0 || v == 1;
  }

  /** Features outside the supported set 0x6D. */
  predicate UnknownFeatures(f: u32) {
    f / 2 % 2 == 1 || f / 16 % 2 == 1 || f >= 128
  }

  function DeviceIDMask(n: u16): (m: nat)
    ensures n <= m
  {
    NextPow2(n + 1, 1) - 1
  }

  /** Device slots i, i+1, ... of the table at byte `table`. */
  function Slots(meta: bytes, table: nat, extra: seq<bytes>, i: nat): Result<seq<Device>>
    requires i <= |extra|
    decreases |extra| - i
  {
    if i == |extra| then Ok([])
    else
      match ReadAt(meta, table + i * SIZE_DEVICE_SLOT, SIZE_DEVICE_SLOT)
      case Err(e) => Err(e)
      case Ok(b) =>
        match Slots(meta, table, extra, i + 1)
        case Err(e) => Err(e)
        case Ok(rest) => Ok([Device(extra[i], Get32(b, 68), Get32(b, 64))] + rest)
  }

  /** Open: the image, or why it is refused. */
  function OpenSpec(meta: bytes, extra: seq<bytes>): Result<Image> {
    match ReadAt(meta, SUPER_OFFSET, SIZE_SUPER)
    case Err(e) => Err(e)
    case Ok(b) =>
      var features := Get32(b, 80);
      var table := features / 8 % 2 == 1;
      if Get32(b, 0) != MAGIC || b[12] < 9 || b[12] > 16 then Err(Invalid)
      else if UnknownFeatures(features) then Err(NotImplemented)
      else if (if table then Get16(b, 86) else 0) != |extra| then Err(Invalid)
      else
        match Slots(meta, Get16(b, 88) * SIZE_DEVICE_SLOT, extra, 0)
        case Err(e) => Err(e)
        case Ok(devices) =>
          if features % 2 == 1 || Get16(b, 84) != 0 then Err(NotImplemented)
          else
            Ok(Image(meta, Pow2(b[12]), Get32(b, 40), Get16(b, 14), Get64(b, 24), Get32(b, 32),
                     if table then DeviceIDMask(|extra|) else 0, devices))
  }

  /** The device table in the image: 128 bytes a slot, from the offset in the superblock in units of 128. */
  function TableAt(meta: bytes): nat
    requires |meta| >= 1152
  {
    Get16(meta, 1112) * 128
  }

  /**
   Which images open, from their bytes: the magic, a block size of 2^9 to 2^16, no feature but bits 2, 3, 5
   and 6, no compression, as many devices as the table has, and the table within the image.
   */
  predicate Opens(meta: bytes, extra: seq<bytes>) {
    && |meta| >= 1152
    && Get32(meta, 1024) == 0xE0F5_E1E2
    && 9 <= meta[1036] <= 16
    && Get32(meta, 1104) < 128
    && Get32(meta, 1104) % 2 == 0 && Get32(meta, 1104) / 2 % 2 == 0 && Get32(meta, 1104) / 16 % 2 == 0
    && Get16(meta, 1108) == 0
    && |extra| == (if Get32(meta, 1104) / 8 % 2 == 1 then Get16(meta, 1110) else 0)
    && (extra != [] ==> TableAt(meta) + |extra| * 128 <= |meta|)
  }

  /** Open succeeds on exactly these, with these settings and the devices of the table's slots. */
  lemma OpensExactly(meta: bytes, extra: seq<bytes>)
    ensures OpenSpec(meta, extra).Ok? <==> Opens(meta, extra)
    ensures Opens(meta, extra) ==>
              var i := OpenSpec(meta, extra).value;
              && i.meta == meta && i.bs == Pow2(meta[1036]) && i.metaBlkAddr == Get32(meta, 1064) && i.rootNid == Get16(meta, 1038)
              && i.buildTime == Get64(meta, 1048) && i.buildTimeNs == Get32(meta, 1056)
              && i.deviceIDMask == (if Get32(meta, 1104) / 8 % 2 == 1 then DeviceIDMask(|extra|) else 0)
              && |i.devices| == |extra|
              && forall k :: 0 <= k < |extra| ==>
                   i.devices[k] == Device(extra[k], Get32(meta, TableAt(meta) + k * 128 + 68), Get32(meta, TableAt(meta) + k * 128 + 64))
  {
    hide Get16, Get32, Get64, Slots, DeviceIDMask, Pow2;
    if |meta| >= 1152 {
      SuperWindow(meta);
      SlotsExactly(meta, TableAt(meta), extra, 0);
    }
  }

  lemma SuperWindow(meta: bytes)
    requires |meta| >= 1152
    ensures ReadAt(meta, 1024, 128).Ok? && |ReadAt(meta, 1024, 128).value| == 128
    ensures var b := ReadAt(meta, 1024, 128).value;
            && Get32(b, 0) == Get32(meta, 1024) && b[12] == meta[1036] && Get16(b, 14) == Get16(meta, 1038)
            && Get64(b, 24) == Get64(meta, 1048) && Get32(b, 32) == Get32(meta, 1056) && Get32(b, 40) == Get32(meta, 1064)
            && Get32(b, 80) == Get32(meta, 1104) && Get16(b, 84) == Get16(meta, 1108) && Get16(b, 86) == Get16(meta, 1110)
            && Get16(b, 88) == Get16(meta, 1112)
  {
    hide Get16, Get32, Get64;
    Window(meta, 1024, 128, 0);
    Window(meta, 1024, 128, 12);
    Window(meta, 1024, 128, 14);
    Window(meta, 1024, 128, 24);
    Window(meta, 1024, 128, 32);
    Window(meta, 1024, 128, 40);
    Window(meta, 1024, 128, 80);
    Window(meta, 1024, 128, 84);
    Window(meta, 1024, 128, 86);
    Window(meta, 1024, 128, 88);
  }

  /** The slots are there exactly when the last one ends within the image. */
  lemma {:induction false} SlotsExactly(meta: bytes, table: nat, extra: seq<bytes>, i: nat)
    requires i <= |extra|
    ensures Slots(meta, table, extra, i).Ok? <==> (i < |extra| ==> table + |extra| * 128 <= |meta|)
    ensures Slots(meta, table, extra, i).Ok? ==>
              var ds := Slots(meta, table, extra, i).value;
              && |ds| == |extra| - i
              && forall k :: i <= k < |extra| ==>
                   && table + k * 128 + 72 <= |meta|
                   && ds[k - i] == Device(extra[k], Get32(meta, table + k * 128 + 68), Get32(meta, table + k * 128 + 64))
    decreases |extra| - i
  {
    hide Get32;
    if i < |extra| {
      SlotsExactly(meta, table, extra, i + 1);
      if table + i * 128 + 128 <= |meta| {
        Window(meta, table + i * 128, 128, 64);
        Window(meta, table + i * 128, 128, 68);
      }
    }
  }

  method Open(meta: bytes, extra: seq<bytes>) returns (r: Result<Image>)
    ensures r == OpenSpec(meta, extra)
  {
    hide Get16, Get32, Get64, ReadAt, UnknownFeatures, DeviceIDMask, Slots;
    var block := ReadAt(meta, SUPER_OFFSET, SIZE_SUPER);
    if block.Err? {
      return Err(block.error);
    }
    SuperRead(meta);
    var b := block.value;
    if Get32(b, 0) != MAGIC || b[12] < 9 || b[12] > 16 {
      return Err(Invalid);
    }
    var features := Get32(b, 80);
    if UnknownFeatures(features) {
      return Err(NotImplemented);
    }
    var count, mask: nat := 0, 0;
    if features / 8 % 2 == 1 {
      count := Get16(b, 86);
      mask := DeviceIDMask(count);
    }
    if count != |extra| {
      return Err(Invalid);
    }
    var devices := ReadSlots(meta, Get16(b, 88) * SIZE_DEVICE_SLOT, extra);
    if devices.Err? {
      return Err(devices.error);
    }
    if features % 2 == 1 || Get16(b, 84) != 0 {
      return Err(NotImplemented);
    }
    return Ok(Image(meta, Pow2(b[12]), Get32(b, 40), Get16(b, 14), Get64(b, 24), Get32(b, 32), mask, devices.value));
  }

  lemma SuperRead(meta: bytes)
    ensures ReadAt(meta, SUPER_OFFSET, SIZE_SUPER).Ok? ==> |ReadAt(meta, SUPER_OFFSET, SIZE_SUPER).value| == SIZE_SUPER
  {
  }

  /** The device-table loop of Open. */
  method ReadSlots(meta: bytes, table: nat, extra: seq<bytes>) returns (r: Result<seq<Device>>)
    ensures r == Slots(meta, table, extra, 0)
  {
    hide Get32;
    var devices: seq<Device> := [];
    var i := 0;
    PrependNone(Slots(meta, table, extra, 0));
    while i < |extra|
      invariant i <= |extra|
      invariant Slots(meta, table, extra, 0) == Prepend(devices, Slots(meta, table, extra, i))
    {
      var b := ReadAt(meta, table + i * SIZE_DEVICE_SLOT, SIZE_DEVICE_SLOT);
      if b.Err? {
        return Err(b.error);
      }
      var d := Device(extra[i], Get32(b.value, 68), Get32(b.value, 64));
      PrependTwice(devices, d, Slots(meta, table, extra, i + 1));
      devices := devices + [d];
      i := i + 1;
    }
    assert devices + [] == devices;
    return Ok(devices);
  }

  function Prepend(ds: seq<Device>, r: Result<seq<Device>>): Result<seq<Device>> {
    match r
    case Err(e) => Err(e)
    case Ok(rest) => Ok(ds + rest)
  }

  lemma PrependNone(r: Result<seq<Device>>)
    ensures Prepend([], r) == r
  {
    if r.Ok? {
      assert [] + r.value == r.value;
    }
  }

  lemma PrependTwice(ds: seq<Device>, d: Device, r: Result<seq<Device>>)
    ensures Prepend(ds, Prepend([d], r)) == Prepend(ds + [d], r)
  {
    if r.Ok? {
      assert ds + ([d] + r.value) == ds + [d] + r.value;
    }
  }

  // ---- What Open makes of a written image ----

  /** Block count the reader attributes to device i: the slot before the device's own. */
  function ReadBackBlocks(devices: seq<u64>, i: nat): nat
    requires i < |devices|
  {
    if i == 0 then 0 else devices[i - 1] % 0x1_0000_0000
  }

  lemma {:induction false} SlotAt(devices: seq<u64>, i: nat)
    requires i < |devices|
    ensures At(SlotsBytes(devices), i * SIZE_DEVICE_SLOT, SlotBytes(devices[i]))
  {
    hide SlotBytes, At;
    var first, rest := SlotBytes(devices[0]), SlotsBytes(devices[1..]);
    AtThree([], first, rest);
    assert [] + first + rest == SlotsBytes(devices);
    if i > 0 {
      SlotAt(devices[1..], i - 1);
      AtShift(first, rest, (i - 1) * SIZE_DEVICE_SLOT, SlotBytes(devices[i]));
    }
  }

  lemma SlotFields(b: bytes, o: nat, blocks: nat)
    requires At(b, o, SlotBytes(blocks))
    ensures o + SIZE_DEVICE_SLOT <= |b|
    ensures Get32(b, o + 64) == blocks % 0x1_0000_0000 && Get32(b, o + 68) == 0
  {
    hide Get32, U32;
    AtParts(b, o, Zeros(64), U32(blocks), Zeros(60));
    LoadStored32(b, o + 64, blocks);
    ZeroWord(b, o + 68, 60, 0);
  }

  lemma ZeroWord(b: bytes, o: nat, n: nat, k: nat)
    requires At(b, o, Zeros(n)) && k + 4 <= n
    ensures Get32(b, o + k) == 0
  {
    AtIndex(b, o, Zeros(n), k);
    AtIndex(b, o, Zeros(n), k + 1);
    AtIndex(b, o, Zeros(n), k + 2);
    AtIndex(b, o, Zeros(n), k + 3);
  }

  /** The image that write leaves behind. */
  ghost function WrittenImage(items: seq<Item>, c: Config): bytes
    requires Planned(items, c)
  {
    ImageBytes(SbArea(SuperOf(items, c), c), items, c)
  }

  lemma SuperOnImage(items: seq<Item>, c: Config)
    requires Planned(items, c)
    ensures At(WrittenImage(items, c), SUPER_OFFSET, SuperBytes(SuperOf(items, c)))
    ensures At(WrittenImage(items, c), SUPER_OFFSET + SIZE_SUPER, SlotsBytes(c.devices))
  {
    hide At, SuperBytes, SlotsBytes, SuperOf, SbBlocks, DataArea, MetaArea, MetaFrom, Ready, SafeFrom;
    PlannedFacts(items, c);
    var s := SuperOf(items, c);
    SbParts(s, c);
    var sb := SbArea(s, c);
    AtExtend(sb, DataArea(items, c), SUPER_OFFSET, SuperBytes(s));
    AtExtend(sb + DataArea(items, c), MetaArea(items, c), SUPER_OFFSET, SuperBytes(s));
    AtExtend(sb, DataArea(items, c), SUPER_OFFSET + SIZE_SUPER, SlotsBytes(c.devices));
    AtExtend(sb + DataArea(items, c), MetaArea(items, c), SUPER_OFFSET + SIZE_SUPER, SlotsBytes(c.devices));
  }

  /**
   The superblock's fields in the bytes of an image: magic, block size, root, number of inodes, times, number of
   blocks, metadata area; the chunked-file bit exactly when some entry has chunks, the device table exactly when
   there are devices.
   */
  ghost predicate SuperHolds(b: bytes, items: seq<Item>, c: Config)
    requires c.bs > 0 && items != []
  {
    && |b| >= 1152
    && Get32(b, 1024) == 0xE0F5_E1E2 && Pow2(b[1036]) == c.bs && Get16(b, 1038) == items[0].plan.nid % 0x1_0000
    && Get64(b, 1040) == |items| % 0x1_0000_0000_0000_0000
    && Get64(b, 1048) == c.buildTime && Get32(b, 1056) == c.buildTimeNs
    && Get32(b, 1060) * c.bs == |b| && Get32(b, 1064) == MetaBlock(items, c)
    && (Get32(b, 1104) / 4 % 2 == 1 <==> exists it <- items :: it.node.info.chunks != [])
    && (Get32(b, 1104) / 8 % 2 == 1 <==> c.devices != [])
    && Get32(b, 1104) < 16 && Get32(b, 1104) % 4 == 0
    && Get16(b, 1110) == |c.devices| % 0x1_0000
    && Get16(b, 1112) == (if c.devices != [] then 8 else 0)
    && forall k :: 1028 <= k < 1036 || k == 1037 || 1068 <= k < 1104 || 1108 <= k < 1110 || 1114 <= k < 1152 ==> b[k] == 0
  }

  /** The superblock of a written image. */
  lemma SuperStored(items: seq<Item>, c: Config)
    requires Planned(items, c) && items != []
    ensures c.bs > 0 && SuperHolds(WrittenImage(items, c), items, c)
  {
    hide *;
    PlannedFacts(items, c);
    SuperOnImage(items, c);
    SuperOfFacts(items, c);
    WrittenLength(items, c);
    HoldsIf(WrittenImage(items, c), SuperOf(items, c), items, c);
  }

  lemma HoldsIf(b: bytes, s: Super, items: seq<Item>, c: Config)
    requires c.bs > 0 && items != [] && At(b, SUPER_OFFSET, SuperBytes(s)) && s.blocks * c.bs == |b| && s.blocks < 0x1_0000_0000
    requires Pow2(s.blkBits) == c.bs && s.rootNid == items[0].plan.nid && s.inos == |items|
    requires s.buildTime == c.buildTime && s.buildTimeNs == c.buildTimeNs && s.metaBlkAddr == MetaBlock(items, c) < 0x1_0000_0000
    requires s.incompat == (if c.devices != [] then 8 else 0) + (if AnyChunks(items) then 4 else 0)
    requires s.extraDevices == |c.devices| && s.devtSlotOff == (if c.devices != [] then 8 else 0)
    ensures SuperHolds(b, items, c)
  {
    hide At, SuperBytes, MetaBlock, Get16, Get32, Get64, Pow2;
    FieldsAt(b, s);
    ZerosAt(b, s);
    FeatureBits(c.devices != [], AnyChunks(items));
  }

  lemma ZerosAt(b: bytes, s: Super)
    requires At(b, SUPER_OFFSET, SuperBytes(s))
    ensures |b| >= 1152
    ensures forall k :: 1028 <= k < 1036 || k == 1037 || 1068 <= k < 1104 || 1108 <= k < 1110 || 1114 <= k < 1152 ==> b[k] == 0
  {
    hide SuperBytes, At;
    RestZero(b, SUPER_OFFSET, s);
  }

  lemma FieldsAt(b: bytes, s: Super)
    requires At(b, SUPER_OFFSET, SuperBytes(s))
    ensures |b| >= 1152 && Get32(b, 1024) == 0xE0F5_E1E2 && b[1036] == s.blkBits && Get16(b, 1038) == s.rootNid % 0x1_0000
    ensures Get64(b, 1040) == s.inos % 0x1_0000_0000_0000_0000 && Get64(b, 1048) == s.buildTime && Get32(b, 1056) == s.buildTimeNs
    ensures Get32(b, 1060) == s.blocks % 0x1_0000_0000 && Get32(b, 1064) == s.metaBlkAddr % 0x1_0000_0000
    ensures Get32(b, 1104) == s.incompat % 0x1_0000_0000 && Get16(b, 1110) == s.extraDevices % 0x1_0000
    ensures Get16(b, 1112) == s.devtSlotOff % 0x1_0000
  {
    hide SuperBytes, At, Get16, Get32, Get64;
    SuperFields(b, SUPER_OFFSET, s);
  }

  lemma WrittenLength(items: seq<Item>, c: Config)
    requires Planned(items, c)
    ensures |WrittenImage(items, c)| == TotalBlocks(items, c) * c.bs && TotalBlocks(items, c) < 0x1_0000_0000
  {
    hide ImageBytes, SuperOf, Planned, TotalBlocks, SbBlocks;
    PlannedFacts(items, c);
    ImageLength(SbArea(SuperOf(items, c), c), items, c);
  }

  lemma FeatureBits(devices: bool, chunks: bool)
    ensures var f := (if devices then 8 else 0) + (if chunks then 4 else 0);
            (f / 4 % 2 == 1 <==> chunks) && (f / 8 % 2 == 1 <==> devices) && f < 16 && f % 4 == 0
  {
  }

  lemma SbParts(s: Super, c: Config)
    requires c.bs > 0
    ensures At(SbArea(s, c), SUPER_OFFSET, SuperBytes(s))
    ensures At(SbArea(s, c), SUPER_OFFSET + SIZE_SUPER, SlotsBytes(c.devices))
  {
    hide At, SuperBytes, SlotsBytes, CeilDiv;
    var n := SUPER_OFFSET + SIZE_SUPER + |c.devices| * SIZE_DEVICE_SLOT;
    RoundUpBlocks(n, c.bs);
    assert SbBlocks(c) == CeilDiv(n, c.bs);
    var pad := Zeros(SbBlocks(c) * c.bs - n);
    var head := Zeros(SUPER_OFFSET) + SuperBytes(s);
    AtThree(head, SlotsBytes(c.devices), pad);
    AtThree(Zeros(SUPER_OFFSET), SuperBytes(s), []);
    assert head + [] == head;
    AtExtend(head, SlotsBytes(c.devices), SUPER_OFFSET, SuperBytes(s));
    AtExtend(head + SlotsBytes(c.devices), pad, SUPER_OFFSET, SuperBytes(s));
  }

  /** Slot i of the table, where the reader looks for it. */
  lemma SlotRead(items: seq<Item>, c: Config, i: nat)
    requires Planned(items, c) && i < |c.devices|
    ensures var r := ReadAt(WrittenImage(items, c), SUPER_OFFSET + i * SIZE_DEVICE_SLOT, SIZE_DEVICE_SLOT);
            && r.Ok? && |r.value| == SIZE_DEVICE_SLOT
            && Get32(r.value, 64) == ReadBackBlocks(c.devices, i) && Get32(r.value, 68) == 0
  {
    hide At, SuperBytes, SlotsBytes, SuperOf, WrittenImage, Get32, SlotBytes, Areas, Planned;
    PlannedFacts(items, c);
    SuperOnImage(items, c);
    var b, a := WrittenImage(items, c), SUPER_OFFSET + i * SIZE_DEVICE_SLOT;
    if i == 0 {
      SuperParts(b, a, SuperOf(items, c));
      SuperFields(b, a, SuperOf(items, c));
      ReservedZero(b, a + 40, SuperOf(items, c));
    } else {
      SlotAt(c.devices, i - 1);
      AtSub(b, SUPER_OFFSET + SIZE_SUPER, SlotsBytes(c.devices), (i - 1) * SIZE_DEVICE_SLOT, SlotBytes(c.devices[i - 1]));
      SlotFields(b, a, c.devices[i - 1]);
    }
    Window(b, a, SIZE_DEVICE_SLOT, 64);
    Window(b, a, SIZE_DEVICE_SLOT, 68);
  }

  /** Bytes 64 to 71 of the superblock belong to the volume name, which is empty. */
  lemma ReservedZero(b: bytes, o: nat, s: Super)
    requires At(b, o, Areas(s))
    ensures o + 32 <= |b| && Get32(b, o + 24) == 0 && Get32(b, o + 28) == 0
  {
    hide Get32, U32;
    AtParts(b, o, U32(s.metaBlkAddr), Zeros(36), []);
    ZeroWord(b, o + 4, 36, 20);
    ZeroWord(b, o + 4, 36, 24);
  }

  /** The devices as Open decodes them from a written image. */
  function DevicesOf(devices: seq<u64>, extra: seq<bytes>, i: nat): (r: seq<Device>)
    requires |extra| == |devices| && i <= |extra|
    ensures |r| == |extra| - i
    ensures forall k :: 0 <= k < |r| ==> r[k] == Device(extra[i + k], 0, ReadBackBlocks(devices, i + k))
    decreases |extra| - i
  {
    if i == |extra| then [] else [Device(extra[i], 0, ReadBackBlocks(devices, i))] + DevicesOf(devices, extra, i + 1)
  }

  lemma {:induction false} SlotsRead(items: seq<Item>, c: Config, extra: seq<bytes>, i: nat)
    requires Planned(items, c) && |extra| == |c.devices| && i <= |extra|
    ensures Slots(WrittenImage(items, c), SUPER_OFFSET, extra, i) == Ok(DevicesOf(c.devices, extra, i))
    decreases |extra| - i
  {
    hide WrittenImage, Planned, Get32, ReadBackBlocks, ReadAt;
    if i < |extra| {
      SlotRead(items, c, i);
      SlotsRead(items, c, extra, i + 1);
    }
  }

  /** The image record that Open builds from a written image. */
  ghost function OpenedImage(items: seq<Item>, c: Config, extra: seq<bytes>): Image
    requires Planned(items, c) && |extra| == |c.devices| <= 65535
  {
    PlannedFacts(items, c);
    Image(WrittenImage(items, c), c.bs, MetaBlock(items, c), SuperOf(items, c).rootNid % 0x1_0000, c.buildTime, c.buildTimeNs,
          if c.devices != [] then DeviceIDMask(|extra|) else 0, DevicesOf(c.devices, extra, 0))
  }

  lemma SuperOfFacts(items: seq<Item>, c: Config)
    requires Planned(items, c)
    ensures ValidConfig(c) && BlockSize(c.bs) && 9 <= Log2(c.bs) <= 16 && Pow2(Log2(c.bs)) == c.bs
    ensures var s := SuperOf(items, c);
            && s.blkBits == Log2(c.bs) && s.buildTime == c.buildTime && s.buildTimeNs == c.buildTimeNs
            && s.metaBlkAddr == MetaBlock(items, c) < 0x1_0000_0000
            && s.extraDevices == |c.devices| && s.devtSlotOff == (if c.devices != [] then 8 else 0)
            && s.incompat == (if c.devices != [] then 8 else 0) + (if AnyChunks(items) then 4 else 0)
            && s.inos == |items| && s.blocks == TotalBlocks(items, c) && (items != [] ==> s.rootNid == items[0].plan.nid)
  {
    hide AllReady, SafeFrom, MetaBlock, TotalBlocks, PowerOfTwo, Log2, AnyChunks;
    PlannedFacts(items, c);
    BlkBits(c.bs);
    BlocksOrder(items, c);
  }

  lemma BlocksOrder(items: seq<Item>, c: Config)
    requires c.bs > 0
    ensures MetaBlock(items, c) <= TotalBlocks(items, c)
  {
  }

  /**
   A written image opens, with the settings it was written with; the result is what the round-trip
   theorems ask for.
   */
  lemma OpenWritten(items: seq<Item>, c: Config, extra: seq<bytes>)
    requires Planned(items, c) && |extra| == |c.devices| <= 65535
    ensures OpenSpec(WrittenImage(items, c), extra) == Ok(OpenedImage(items, c, extra))
    ensures c.bs > 0 && Opened(OpenedImage(items, c, extra), SbArea(SuperOf(items, c), c), items, c)
  {
    hide Planned, SuperOf, SuperBytes, SlotsBytes, At, WrittenImage, OpenedImage, DevicesOf, Slots, OpenSpec, Opened, SbArea, MetaBlock, Log2, Pow2, DeviceIDMask, AnyChunks;
    PlannedFacts(items, c);
    SuperOfFacts(items, c);
    SuperOnImage(items, c);
    var meta, s := WrittenImage(items, c), SuperOf(items, c);
    SuperFields(meta, SUPER_OFFSET, s);
    SlotsRead(items, c, extra, 0);
    NoSlots(meta, 0);
    OpensAs(meta, extra, s, DevicesOf(c.devices, extra, 0));
    OpenedImageIs(items, c, extra);
  }

  lemma NoSlots(meta: bytes, table: nat)
    ensures Slots(meta, table, [], 0) == Ok([])
  {
  }

  lemma OpensAs(meta: bytes, extra: seq<bytes>, s: Super, devices: seq<Device>)
    requires At(meta, SUPER_OFFSET, SuperBytes(s)) && 9 <= s.blkBits <= 16 && s.metaBlkAddr < 0x1_0000_0000
    requires |extra| <= 65535 && s.extraDevices == |extra| && s.devtSlotOff == (if extra != [] then 8 else 0)
    requires s.incompat == (if extra != [] then 8 else 0) || s.incompat == (if extra != [] then 8 else 0) + 4
    requires Slots(meta, s.devtSlotOff * SIZE_DEVICE_SLOT, extra, 0) == Ok(devices)
    ensures OpenSpec(meta, extra)
         == Ok(Image(meta, Pow2(s.blkBits), s.metaBlkAddr, s.rootNid % 0x1_0000, s.buildTime, s.buildTimeNs,
                     if extra != [] then DeviceIDMask(|extra|) else 0, devices))
  {
    hide SuperBytes, Slots, DeviceIDMask, Pow2, Get16, Get32, Get64, At, UnknownFeatures, ReadAt;
    SuperReads(meta, s);
    KnownFeatures(s.incompat);
  }

  lemma KnownFeatures(features: nat)
    requires features in {0, 4, 8, 12}
    ensures !UnknownFeatures(features) && features % 2 == 0 && (features / 8 % 2 == 1 <==> features >= 8)
  {
  }

  /** The fields of the superblock, in the bytes that Open reads. */
  lemma SuperReads(meta: bytes, s: Super)
    requires At(meta, SUPER_OFFSET, SuperBytes(s))
    ensures var r := ReadAt(meta, SUPER_OFFSET, SIZE_SUPER);
            && r.Ok? && |r.value| == SIZE_SUPER && Get32(r.value, 0) == MAGIC && r.value[12] == s.blkBits
            && Get16(r.value, 14) == s.rootNid % 0x1_0000 && Get64(r.value, 24) == s.buildTime && Get32(r.value, 32) == s.buildTimeNs
            && Get32(r.value, 40) == s.metaBlkAddr % 0x1_0000_0000 && Get32(r.value, 80) == s.incompat % 0x1_0000_0000
            && Get16(r.value, 84) == 0 && Get16(r.value, 86) == s.extraDevices % 0x1_0000
            && Get16(r.value, 88) == s.devtSlotOff % 0x1_0000
  {
    hide SuperBytes, Get16, Get32, Get64, At;
    SuperFields(meta, SUPER_OFFSET, s);
    Window(meta, SUPER_OFFSET, SIZE_SUPER, 0);
    Window(meta, SUPER_OFFSET, SIZE_SUPER, 12);
    Window(meta, SUPER_OFFSET, SIZE_SUPER, 14);
    Window(meta, SUPER_OFFSET, SIZE_SUPER, 24);
    Window(meta, SUPER_OFFSET, SIZE_SUPER, 32);
    Window(meta, SUPER_OFFSET, SIZE_SUPER, 40);
    Window(meta, SUPER_OFFSET, SIZE_SUPER, 80);
    Window(meta, SUPER_OFFSET, SIZE_SUPER, 84);
    Window(meta, SUPER_OFFSET, SIZE_SUPER, 86);
    Window(meta, SUPER_OFFSET, SIZE_SUPER, 88);
  }

  lemma OpenedImageIs(items: seq<Item>, c: Config, extra: seq<bytes>)
    requires Planned(items, c) && |extra| == |c.devices| <= 65535
    ensures c.bs > 0 && MetaBlock(items, c) < 0x1_0000_0000 && ValidConfig(c)
    ensures OpenedImage(items, c, extra)
         == Image(WrittenImage(items, c), c.bs, MetaBlock(items, c), SuperOf(items, c).rootNid % 0x1_0000, c.buildTime, c.buildTimeNs,
                  if c.devices != [] then DeviceIDMask(|extra|) else 0, DevicesOf(c.devices, extra, 0))
    ensures Opened(OpenedImage(items, c, extra), SbArea(SuperOf(items, c), c), items, c)
  {
    hide Planned, SuperOf, SbArea, ImageBytes, DeviceIDMask, DevicesOf, TotalBlocks, MetaBlock;
    PlannedFacts(items, c);
    SuperOfFacts(items, c);
  }

  /**
   The device table does not survive: the reader scales the table offset by the slot size, the
   writer stores it in units of 16 bytes, so every slot is read one place early. The opened image
   has the block counts it was written with exactly when they are all zero.
   */
  lemma DeviceBlocksSurvive(items: seq<Item>, c: Config, extra: seq<bytes>)
    requires Planned(items, c) && |extra| == |c.devices| <= 65535 && forall d <- c.devices :: d < 0x1_0000_0000
    ensures OpenSpec(WrittenImage(items, c), extra).Ok?
    ensures var found := OpenSpec(WrittenImage(items, c), extra).value.devices;
            && |found| == |c.devices|
            && ((forall i :: 0 <= i < |found| ==> found[i].blocks == c.devices[i]) <==> forall d <- c.devices :: d == 0)
  {
    hide Planned, WrittenImage, OpenSpec, SuperOf, SbArea, ReadBackBlocks, DevicesOf;
    OpenWritten(items, c, extra);
    OpenedImageIs(items, c, extra);
    ReadBackAll(c.devices);
    var found := DevicesOf(c.devices, extra, 0);
    assert forall i :: 0 <= i < |found| ==> found[i].blocks == ReadBackBlocks(c.devices, 0 + i);
  }

  lemma ReadBackAll(devices: seq<u64>)
    requires forall d <- devices :: d < 0x1_0000_0000
    ensures (forall i :: 0 <= i < |devices| ==> ReadBackBlocks(devices, i) == devices[i]) <==> forall d <- devices :: d == 0
  {
    if forall i :: 0 <= i < |devices| ==> ReadBackBlocks(devices, i) == devices[i] {
      forall d <- devices
        ensures d == 0
      {
        var i :| 0 <= i < |devices| && devices[i] == d;
        AllZero(devices, i);
      }
    } else {
      var i :| 0 <= i < |devices| && ReadBackBlocks(devices, i) != devices[i];
      if i > 0 {
        assert devices[i - 1] in devices;
      }
      assert devices[i] in devices;
    }
  }

  lemma {:induction false} AllZero(devices: seq<u64>, i: nat)
    requires forall k :: 0 <= k < |devices| ==> ReadBackBlocks(devices, k) == devices[k]
    requires i < |devices|
    ensures devices[i] == 0
  {
    assert ReadBackBlocks(devices, i) == devices[i];
    if i > 0 {
      AllZero(devices, i - 1);
    }
  }
}
