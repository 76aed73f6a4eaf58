/** The layout planner: node numbers, inode form and data layout of every entry (layout.go). */
module Layout {
  import opened Bytes
  import opened Order
  import opened Format
  import opened Dirents
  import opened Chunks
  import opened Xattrs

  /** An entry tree, as buildErofsTree leaves it: kids in name order. */
  datatype Node = Node(info: Info, kids: seq<Node>)

  function KidName(n: Node): bytes { n.info.name }

  function KidNames(n: Node): seq<bytes> { Map(KidName, n.kids) }

  /** Depth-first, parents before children. */
  function Preorder(t: Node): (r: seq<Node>)
    ensures |r| > 0 && r[0] == t
    decreases t, 1
  {
    [t] + if IsDir(t.info.mode) then PreorderAll(t.kids) else []
  }

  function PreorderAll(ts: seq<Node>): seq<Node>
    decreases ts, 0
  {
    if ts == [] then [] else Preorder(ts[0]) + PreorderAll(ts[1..])
  }

  /** What planLayout decides for one entry. */
  datatype Plan = Plan(nid: nat, layout: nat, compact: bool, xattrSize: nat, trailing: nat, chunkBits: nat)

  function CoreSize(compact: bool): nat { if compact then SIZE_COMPACT else SIZE_EXTENDED }

  /** The 32-byte inode form holds this entry's fields. */
  predicate FitsCompact(i: Info, c: Config) {
    && i.uid <= 0xFFFF && i.gid <= 0xFFFF && i.nlink <= 0xFFFF && i.size <= 0xFFFF_FFFF
    && i.mtime == c.buildTime && i.mtimeNs == 0
  }

  /** Size of directory data. */
  function DirDataSize(n: Node, bs: nat): nat
    requires bs > 0
  {
    DirSize(NameList(KidNames(n)), bs)
  }

  /** Layout for an inode at offset `off`, before alignment. */
  function FirstLayout(n: Node, off: nat, header: nat, c: Config): nat
    requires c.bs > 0
  {
    var t := TypeOf(n.info.mode);
    if t == S_REG then
      if n.info.size == 0 && n.info.chunks == [] && n.info.data == None && !n.info.metadataOnly then FLAT_PLAIN
      else if n.info.chunks != [] || n.info.metadataOnly then CHUNK_BASED
      else if n.info.size <= c.bs - header && Rem(off + header, c.bs) + n.info.size <= c.bs then FLAT_INLINE
      else FLAT_PLAIN
    else if t == S_DIR then
      var d := DirDataSize(n, c.bs);
      if d > 0 && Rem(off + header, c.bs) + d <= c.bs then FLAT_INLINE else FLAT_PLAIN
    else if t == S_LNK then
      var l := |n.info.symTarget|;
      if l > 0 && Rem(off + header, c.bs) + l <= c.bs then FLAT_INLINE else FLAT_PLAIN
    else FLAT_PLAIN
  }

  /** chunkBits as planned: only contiguous chunk-based files get their own. */
  function PlannedChunkBits(n: Node, layout: nat, c: Config): nat
    requires ValidConfig(c)
  {
    if layout == CHUNK_BASED && n.info.contiguous then ChunkBitsFor(c.bs, c.chunkBits, n.info.size) else 0
  }

  /** entryChunkBits: 0 means the writer's default. */
  function EntryChunkBits(planned: nat, c: Config): nat {
    if planned > 0 then planned else c.chunkBits
  }

  function EntryChunkSize(planned: nat, c: Config): (cs: nat)
    requires ValidConfig(c)
    ensures cs > 0
  {
    MulMono(1, Pow2(EntryChunkBits(planned, c)), c.bs);
    Pow2(EntryChunkBits(planned, c)) * c.bs
  }

  /** calcTrailingSize: bytes that follow inode and xattrs. */
  function Trailing(n: Node, layout: nat, chunkBits: nat, c: Config): nat
    requires ValidConfig(c)
  {
    var t := TypeOf(n.info.mode);
    if t == S_REG then
      if layout == CHUNK_BASED then
        if n.info.size == 0 && n.info.chunks == [] then 0
        else CeilDiv(n.info.size, EntryChunkSize(chunkBits, c)) * SIZE_CHUNK_INDEX
      else if layout == FLAT_INLINE then n.info.size
      else 0
    else if t == S_DIR then (if layout == FLAT_INLINE then DirDataSize(n, c.bs) else 0)
    else if t == S_LNK then (if layout == FLAT_INLINE then |n.info.symTarget| else 0)
    else 0
  }

  /** Where the inode starts: the next block if its core would cross a boundary. */
  function AlignCore(off: nat, core: nat, bs: nat): nat
    requires bs > 0
  {
    if Rem(off, bs) + core > bs then RoundUp(off, bs) else off
  }

  ghost function XattrSize(i: Info): nat { |XattrArea(i.xattrs)| }

  /** The plan for an entry when the running offset is `off`. */
  ghost function PlanOne(n: Node, off: nat, c: Config): Plan
    requires ValidConfig(c)
  {
    var compact := FitsCompact(n.info, c);
    var header := CoreSize(compact) + XattrSize(n.info);
    var first := FirstLayout(n, off, header, c);
    var bits := PlannedChunkBits(n, first, c);
    var start := AlignCore(off, CoreSize(compact), c.bs);
    var layout := SettledLayout(first, start, header + Trailing(n, first, bits, c), c.bs);
    Plan(start / 32, layout, compact, XattrSize(n.info), Trailing(n, layout, bits, c), bits)
  }

  /** Inline data that would cross a block boundary after alignment falls back to plain. */
  function SettledLayout(first: nat, start: nat, size: nat, bs: nat): nat
    requires bs > 0
  {
    if first == FLAT_INLINE && Rem(start, bs) + size > bs then FLAT_PLAIN else first
  }

  /** Bytes of the inode region before padding, and with it. */
  function RawSize(p: Plan): nat { CoreSize(p.compact) + p.xattrSize + p.trailing }

  function RegionSize(p: Plan): nat { RoundUp(RawSize(p), 32) }

  function Begin(p: Plan): nat { p.nid * 32 }

  function End(p: Plan): nat { Begin(p) + RegionSize(p) }

  /** Plans of a whole entry list, the running offset threaded through. */
  ghost function PlanFrom(es: seq<Node>, off: nat, c: Config): (ps: seq<Plan>)
    requires ValidConfig(c)
    ensures |ps| == |es|
  {
    if es == [] then []
    else
      var p := PlanOne(es[0], off, c);
      [p] + PlanFrom(es[1..], End(p), c)
  }

  ghost function PlanAll(es: seq<Node>, c: Config): (ps: seq<Plan>)
    requires ValidConfig(c)
    ensures |ps| == |es|
  {
    PlanFrom(es, 0, c)
  }

  /** One planned region against the offset it was planned from. */
  ghost predicate PlacedAfter(p: Plan, off: nat, bs: nat)
    requires bs > 0
  {
    && (Begin(p) == off || Begin(p) == off + 32)
    && Rem(Begin(p), bs) + CoreSize(p.compact) <= bs
    && (p.layout == FLAT_INLINE ==> Rem(Begin(p), bs) + RawSize(p) <= bs)
  }

  lemma AlignedRem(off: nat, bs: nat)
    requires BlockSize(bs) && off % 32 == 0
    ensures Rem(off, bs) % 32 == 0
  {
    hide PowerOfTwo, Quo, Rem;
    BlockSizeAligned(bs);
    MultipleOf32(Quo(off, bs), bs);
    RemIs(off, bs);
    Difference32(off, Quo(off, bs) * bs, Rem(off, bs));
  }

  lemma RemIs(off: nat, bs: nat)
    requires bs > 0
    ensures off == Quo(off, bs) * bs + Rem(off, bs)
  {
  }

  lemma Difference32(a: nat, b: nat, r: nat)
    requires a % 32 == 0 && b % 32 == 0 && a == b + r
    ensures r % 32 == 0
  {
  }

  lemma MultipleOf32(q: nat, bs: nat)
    requires bs % 64 == 0
    ensures q * bs % 32 == 0
  {
    var k := bs / 64;
    assert bs == 64 * k;
    MulAssoc(q, 64, k);
    assert q * bs == 64 * (q * k);
  }

  lemma MulAssoc(a: nat, b: nat, c: nat)
    ensures a * (b * c) == b * (a * c)
  {
  }

  lemma AlignCoreFacts(off: nat, compact: bool, bs: nat)
    requires BlockSize(bs) && off % 32 == 0
    ensures var s := AlignCore(off, CoreSize(compact), bs);
            && (s == off || s == off + 32)
            && (s == off <==> Rem(off, bs) + CoreSize(compact) <= bs)
            && s % 32 == 0
            && Rem(s, bs) + CoreSize(compact) <= bs
  {
    hide BlockSize, Rem, Quo, RoundUp;
    BlockSizeAligned(bs);
    AlignedRem(off, bs);
    if Rem(off, bs) + CoreSize(compact) > bs {
      Crossing(off, CoreSize(compact), bs);
    }
  }

  /** A core that would cross is in the block's last slot, so the next block is 32 bytes on. */
  lemma Crossing(off: nat, core: nat, bs: nat)
    requires bs > 0 && bs % 64 == 0 && off % 32 == 0 && core in {32, 64}
    requires Rem(off, bs) % 32 == 0 && Rem(off, bs) + core > bs
    ensures RoundUp(off, bs) == off + 32 && Rem(off + 32, bs) == 0 && (off + 32) % 32 == 0 && bs >= 64
  {
    hide RoundUp;
    OnlyLastSlot(Rem(off, bs), core, bs);
    MulStep(Quo(off, bs), bs);
    NextMultiple(off, Quo(off, bs), bs);
  }

  lemma OnlyLastSlot(r: nat, core: nat, bs: nat)
    requires r % 32 == 0 && bs % 64 == 0 && bs > 0 && core in {32, 64} && r < bs && r + core > bs
    ensures r == bs - 32 && bs >= 64
  {
  }

  lemma NextMultiple(off: nat, q: nat, bs: nat)
    requires bs >= 64 && off + 32 == (q + 1) * bs
    ensures RoundUp(off, bs) == off + 32
    ensures Rem(off + 32, bs) == 0
  {
    DivUnique(off + bs - 1, bs, q + 1, bs - 33);
    DivUnique(off + 32, bs, q + 1, 0);
  }

  /** The planner's decision for one entry is safe, and leaves the offset 32-aligned. */
  lemma PlanOneSafe(n: Node, off: nat, c: Config)
    requires ValidConfig(c) && off % 32 == 0
    ensures PlacedAfter(PlanOne(n, off, c), off, c.bs)
    ensures End(PlanOne(n, off, c)) % 32 == 0
  {
    hide FirstLayout, Trailing, PlannedChunkBits, XattrSize, BlockSize, RoundUp, Rem, AlignCore;
    var p := PlanOne(n, off, c);
    ConfigBlock(c);
    AlignCoreFacts(off, p.compact, c.bs);
    SumAligned32(Begin(p), RegionSize(p));
  }

  lemma SumAligned32(a: nat, b: nat)
    requires a % 32 == 0 && b % 32 == 0
    ensures (a + b) % 32 == 0
  {
  }

  lemma ConfigBlock(c: Config)
    requires ValidConfig(c)
    ensures BlockSize(c.bs)
  {
  }

  /** Regions in list order: disjoint, growing, 32-aligned, at most one 32-byte gap before each. */
  ghost predicate SafeFrom(ps: seq<Plan>, off: nat, bs: nat)
    requires bs > 0
  {
    ps == [] || (PlacedAfter(ps[0], off, bs) && SafeFrom(ps[1..], End(ps[0]), bs))
  }

  lemma {:induction false} PlanFromSafe(es: seq<Node>, off: nat, c: Config)
    requires ValidConfig(c) && off % 32 == 0
    ensures SafeFrom(PlanFrom(es, off, c), off, c.bs)
  {
    hide PlanOne, PlacedAfter;
    if es != [] {
      PlanOneSafe(es[0], off, c);
      PlanFromSafe(es[1..], End(PlanOne(es[0], off, c)), c);
    }
  }

  /** Layout safety of a whole plan. */
  lemma LayoutSafe(es: seq<Node>, c: Config)
    requires ValidConfig(c)
    ensures var ps := PlanAll(es, c);
            && (forall i :: 0 <= i < |ps| ==> Rem(Begin(ps[i]), c.bs) + CoreSize(ps[i].compact) <= c.bs)
            && (forall i :: 0 <= i < |ps| && ps[i].layout == FLAT_INLINE ==> Rem(Begin(ps[i]), c.bs) + RawSize(ps[i]) <= c.bs)
            && (forall i, j :: 0 <= i < j < |ps| ==> End(ps[i]) <= Begin(ps[j]) && ps[i].nid < ps[j].nid)
            && (forall i :: 0 < i < |ps| ==> Begin(ps[i]) - End(ps[i - 1]) in {0, 32})
            && (ps != [] ==> ps[0].nid == 0)
  {
    hide PlanFrom, PlanOne;
    var ps := PlanAll(es, c);
    PlanFromSafe(es, 0, c);
    forall i | 0 <= i < |ps|
      ensures Rem(Begin(ps[i]), c.bs) + CoreSize(ps[i].compact) <= c.bs
      ensures ps[i].layout == FLAT_INLINE ==> Rem(Begin(ps[i]), c.bs) + RawSize(ps[i]) <= c.bs
      ensures i > 0 ==> Begin(ps[i]) - End(ps[i - 1]) in {0, 32}
    {
      SafeAt(ps, 0, c.bs, i);
    }
    forall i, j | 0 <= i < j < |ps|
      ensures End(ps[i]) <= Begin(ps[j]) && ps[i].nid < ps[j].nid
    {
      SafePair(ps, 0, c.bs, i, j);
    }
    if ps != [] {
      RootFirst(es, c);
    }
  }

  lemma {:induction false} SafeAt(ps: seq<Plan>, off: nat, bs: nat, i: nat)
    requires bs > 0 && SafeFrom(ps, off, bs) && i < |ps|
    ensures PlacedAfter(ps[i], if i == 0 then off else End(ps[i - 1]), bs)
    decreases i
  {
    if i > 0 {
      SafeAt(ps[1..], End(ps[0]), bs, i - 1);
    }
  }

  lemma {:induction false} SafePair(ps: seq<Plan>, off: nat, bs: nat, i: nat, j: nat)
    requires bs > 0 && SafeFrom(ps, off, bs) && i < j < |ps|
    ensures End(ps[i]) <= Begin(ps[j]) && ps[i].nid < ps[j].nid
    decreases j
  {
    SafeAt(ps, off, bs, j);
    assert RegionSize(ps[j - 1]) >= 32;
    if i < j - 1 {
      SafePair(ps, off, bs, i, j - 1);
    }
  }

  lemma RootFirst(es: seq<Node>, c: Config)
    requires ValidConfig(c) && es != []
    ensures PlanAll(es, c)[0].nid == 0
  {
    ConfigBlock(c);
    AlignCoreFacts(0, FitsCompact(es[0].info, c), c.bs);
    DivUnique(0, c.bs, 0, 0);
  }

  /** Where the region before entry i ends: the offset entry i is planned from. */
  function Before(ps: seq<Plan>, i: nat): nat
    requires i < |ps|
  {
    if i == 0 then 0 else End(ps[i - 1])
  }

  lemma {:induction false} PlannedFrom(es: seq<Node>, off: nat, c: Config, i: nat)
    requires ValidConfig(c) && i < |es|
    ensures var ps := PlanFrom(es, off, c);
            ps[i] == PlanOne(es[i], if i == 0 then off else End(ps[i - 1]), c)
    decreases i
  {
    hide PlanOne, End;
    if i > 0 {
      PlannedFrom(es[1..], End(PlanOne(es[0], off, c)), c, i - 1);
    }
  }

  lemma {:induction false} BeforeAligned(es: seq<Node>, off: nat, c: Config, i: nat)
    requires ValidConfig(c) && i < |es| && off % 32 == 0
    ensures (if i == 0 then off else End(PlanFrom(es, off, c)[i - 1])) % 32 == 0
    decreases i
  {
    hide PlanOne, End;
    if i > 0 {
      PlanOneSafe(es[0], off, c);
      BeforeAligned(es[1..], End(PlanOne(es[0], off, c)), c, i - 1);
    }
  }

  /** Entries whose data may follow the inode: names, a link target, or a source's bytes. */
  predicate HasInlineData(n: Node, bs: nat)
    requires bs > 0
  {
    var i := n.info;
    || (TypeOf(i.mode) == S_DIR && DirSize(NameList(KidNames(n)), bs) > 0)
    || (TypeOf(i.mode) == S_LNK && i.symTarget != [])
    || (TypeOf(i.mode) == S_REG && i.chunks == [] && !i.metadataOnly && (i.size > 0 || i.data != None))
  }

  predicate HasChunkMap(i: Info) {
    TypeOf(i.mode) == S_REG && (i.chunks != [] || i.metadataOnly)
  }

  /** How long that data is. */
  function InlineLength(n: Node, bs: nat): nat
    requires bs > 0
  {
    if TypeOf(n.info.mode) == S_DIR then DirSize(NameList(KidNames(n)), bs)
    else if TypeOf(n.info.mode) == S_LNK then |n.info.symTarget|
    else n.info.size
  }

  function ChunkMapBits(i: Info, c: Config): nat
    requires ValidConfig(c)
  {
    if i.contiguous then ChunkBitsFor(c.bs, c.chunkBits, i.size) else c.chunkBits
  }

  /**
   One round, from the offset `off`: the data goes into the inode's block exactly when it fits
   there both from the offset as it was and from where the inode is put.
   */
  ghost predicate ChosenAt(n: Node, p: Plan, off: nat, c: Config)
    requires ValidConfig(c)
  {
    var core := if p.compact then 32 else 64;
    var header := core + |XattrArea(n.info.xattrs)|;
    var size := InlineLength(n, c.bs);
    && p.xattrSize == |XattrArea(n.info.xattrs)|
    && (Begin(p) == off <==> Rem(off, c.bs) + core <= c.bs)
    && (p.layout == CHUNK_BASED <==> HasChunkMap(n.info))
    && (p.layout == FLAT_INLINE <==>
          && HasInlineData(n, c.bs)
          && Rem(off + header, c.bs) + size <= c.bs
          && Rem(Begin(p), c.bs) + header + size <= c.bs)
    && p.layout in {FLAT_PLAIN, FLAT_INLINE, CHUNK_BASED}
    && (p.layout == FLAT_PLAIN ==> p.trailing == 0)
    && (p.layout == FLAT_INLINE ==> p.trailing == size)
    && (p.layout == CHUNK_BASED ==>
          && EntryChunkBits(p.chunkBits, c) == ChunkMapBits(n.info, c)
          && p.trailing == 8 * CeilDiv(n.info.size, Pow2(ChunkMapBits(n.info, c)) * c.bs))
    && (p.layout != CHUNK_BASED ==> p.chunkBits == 0)
  }

  /** The bits the planner keeps lead the writer and the reader to the chunk size of the file. */
  lemma ChunkBitsKept(n: Node, c: Config)
    requires ValidConfig(c)
    ensures EntryChunkBits(PlannedChunkBits(n, CHUNK_BASED, c), c) == ChunkMapBits(n.info, c)
  {
  }

  /** The first choice; a file longer than the block's room is left to the check after alignment. */
  lemma FirstChosen(n: Node, off: nat, header: nat, start: nat, c: Config)
    requires ValidConfig(c)
    ensures var first := FirstLayout(n, off, header, c);
            var settled := SettledLayout(first, start, header + InlineLength(n, c.bs), c.bs);
            && (first == CHUNK_BASED <==> HasChunkMap(n.info))
            && (settled == CHUNK_BASED <==> first == CHUNK_BASED)
            && first in {FLAT_PLAIN, FLAT_INLINE, CHUNK_BASED}
            && (first == FLAT_INLINE ==> HasInlineData(n, c.bs))
            && (settled == FLAT_INLINE <==>
                  && HasInlineData(n, c.bs)
                  && Rem(off + header, c.bs) + InlineLength(n, c.bs) <= c.bs
                  && Rem(start, c.bs) + header + InlineLength(n, c.bs) <= c.bs)
  {
    hide PowerOfTwo, Rem, DirSize, NameList, KidNames;
  }

  lemma TrailingChosen(n: Node, layout: nat, bits: nat, c: Config)
    requires ValidConfig(c)
    requires layout == FLAT_INLINE ==> HasInlineData(n, c.bs)
    requires layout == CHUNK_BASED ==> HasChunkMap(n.info)
    ensures Trailing(n, FLAT_PLAIN, bits, c) == 0
    ensures layout == FLAT_INLINE ==> Trailing(n, layout, bits, c) == InlineLength(n, c.bs)
    ensures layout == CHUNK_BASED ==>
              Trailing(n, layout, bits, c) == 8 * CeilDiv(n.info.size, Pow2(EntryChunkBits(bits, c)) * c.bs)
  {
    hide PowerOfTwo, DirSize, NameList, KidNames, EntryChunkBits, Pow2;
    assert CeilDiv(0, EntryChunkSize(bits, c)) == 0;
  }

  /** An inode position that is a multiple of 32 is where its node number says. */
  lemma BeginIs(n: Node, off: nat, c: Config)
    requires ValidConfig(c) && off % 32 == 0
    ensures var p := PlanOne(n, off, c);
            Begin(p) == AlignCore(off, CoreSize(p.compact), c.bs)
  {
    hide PowerOfTwo, Rem, RoundUp, AlignCore, FirstLayout, Trailing, PlannedChunkBits, SettledLayout, XattrSize, FitsCompact;
    ConfigBlock(c);
    AlignCoreFacts(off, FitsCompact(n.info, c), c.bs);
  }

  lemma ChosenOne(n: Node, off: nat, c: Config)
    requires ValidConfig(c) && off % 32 == 0
    ensures ChosenAt(n, PlanOne(n, off, c), off, c)
  {
    hide PowerOfTwo, Rem, RoundUp, AlignCore, FirstLayout, Trailing, PlannedChunkBits, XattrArea, FitsCompact,
         ChunkMapBits, EntryChunkBits, HasInlineData, HasChunkMap, InlineLength, CeilDiv, Pow2, ChunkBitsFor, Begin;
    var p := PlanOne(n, off, c);
    var header := CoreSize(p.compact) + XattrSize(n.info);
    var first := FirstLayout(n, off, header, c);
    var bits := PlannedChunkBits(n, first, c);
    ConfigBlock(c);
    AlignCoreFacts(off, p.compact, c.bs);
    BeginIs(n, off, c);
    FirstChosen(n, off, header, Begin(p), c);
    ChunkBitsKept(n, c);
    TrailingChosen(n, first, bits, c);
    if first != CHUNK_BASED {
      BitsElsewhere(n, first, c);
    }
  }

  lemma BitsElsewhere(n: Node, layout: nat, c: Config)
    requires ValidConfig(c) && layout != CHUNK_BASED
    ensures PlannedChunkBits(n, layout, c) == 0
  {
  }

  /** Every entry's layout, from the positions and sizes alone. */
  lemma LayoutChosen(es: seq<Node>, c: Config, i: nat)
    requires ValidConfig(c) && i < |es|
    ensures var ps := PlanAll(es, c);
            ChosenAt(es[i], ps[i], Before(ps, i), c)
  {
    hide PlanFrom, PlanOne, ChosenAt, End;
    PlannedFrom(es, 0, c, i);
    BeforeAligned(es, 0, c, i);
    ChosenOne(es[i], Before(PlanAll(es, c), i), c);
  }

  /** xattrCount: the area size in the inode, in units of 4 after the 12-byte header, plus one. */
  function XattrCount(size: nat): u16
    requires size == 0 || size >= SIZE_XATTR_HEADER
  {
    if size == 0 then 0 else ((size - SIZE_XATTR_HEADER) / SIZE_XATTR_ENTRY % 0x1_0000 + 1) % 0x1_0000
  }
}
