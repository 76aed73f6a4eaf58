/**
 What the metadata pass keeps: the bytes written so far, zeros still owed after a short inline
 source, and the regions still to come make up the planned metadata.
 */
module MetaSteps {
  import opened Bytes
  import opened Format
  import opened Xattrs
  import opened Layout
  import opened Inodes
  import opened Placement

  /** Where the region of the previous entry was planned to end. */
  function EndBefore(items: seq<Item>, i: nat): nat
    requires i <= |items|
  {
    if i == 0 then 0 else End(items[i - 1].plan)
  }

  /** At m bytes written of `end` planned: nothing owed, or less than the rest of one block. */
  ghost predicate Owed(m: nat, end: nat, bs: nat)
    requires bs > 0
  {
    m == end || (m < end && end - m + 32 <= bs && RoundUp(m, bs) == RoundUp(end, bs))
  }

  ghost predicate MetaSoFar(w: bytes, items: seq<Item>, addrs: seq<nat>, i: nat, c: Config)
    requires AllReady(items, c) && SafeFrom(PlansOf(items), 0, c.bs) && |addrs| == |items| && i <= |items|
  {
    var end := EndBefore(items, i);
    && Owed(|w|, end, c.bs) && |w| <= end
    && AllReady(items[i..], c) && SafeFrom(PlansOf(items[i..]), end, c.bs)
    && w + (Zeros(end - |w|) + MetaFrom(items[i..], addrs[i..], end, c)) == MetaFrom(items, addrs, 0, c)
  }

  lemma MetaStarts(items: seq<Item>, addrs: seq<nat>, c: Config)
    requires AllReady(items, c) && SafeFrom(PlansOf(items), 0, c.bs) && |addrs| == |items|
    ensures MetaSoFar([], items, addrs, 0, c)
  {
    hide MetaFrom, Ready, SafeFrom, RoundUp;
    assert items[0..] == items && addrs[0..] == addrs;
  }

  /** The trailing bytes an entry really writes: all of them, or a prefix when its inline source is short. */
  ghost predicate WritesTrailing(t: bytes, it: Item, c: Config) {
    && Ready(it, c) && |t| <= it.plan.trailing
    && t + Zeros(it.plan.trailing - |t|) == TrailingBytes(it, c)
    && (|t| < it.plan.trailing ==> it.plan.layout == FLAT_INLINE)
  }

  /** Inode, attributes and the trailing bytes that were written. */
  ghost function EntryBody(it: Item, addr: nat, t: bytes, c: Config): (r: bytes)
    requires c.bs > 0 && (it.plan.xattrSize == 0 || it.plan.xattrSize >= SIZE_XATTR_HEADER)
  {
    InodeBytes(FieldsOf(it.node, it.plan, addr, c), it.plan.compact) + XattrArea(it.node.info.xattrs) + t
  }

  /** What the pass appends for one entry when m bytes are written. */
  ghost function EntryOutput(m: nat, it: Item, addr: nat, t: bytes, c: Config): (r: bytes)
    requires Ready(it, c) && m <= Begin(it.plan)
    requires it.plan.xattrSize == 0 || it.plan.xattrSize >= SIZE_XATTR_HEADER
  {
    var p := it.plan;
    Zeros(Begin(p) - m) + EntryBody(it, addr, t, c) + Zeros(RegionSize(p) - RawSize(p))
  }

  lemma UnfoldMeta(items: seq<Item>, addrs: seq<nat>, i: nat, pos: nat, c: Config)
    requires i < |items| == |addrs| && AllReady(items[i..], c) && SafeFrom(PlansOf(items[i..]), pos, c.bs)
    ensures Ready(items[i], c) && PlacedAfter(items[i].plan, pos, c.bs)
    ensures AllReady(items[i + 1..], c) && SafeFrom(PlansOf(items[i + 1..]), End(items[i].plan), c.bs)
    ensures MetaFrom(items[i..], addrs[i..], pos, c)
         == Zeros(Begin(items[i].plan) - pos) + (Region(items[i], addrs[i], c) + MetaFrom(items[i + 1..], addrs[i + 1..], End(items[i].plan), c))
  {
    hide Region, Ready, PlacedAfter;
    var rest := items[i..];
    assert rest[0] == items[i] && rest[1..] == items[i + 1..];
    assert addrs[i..][0] == addrs[i] && addrs[i..][1..] == addrs[i + 1..];
    SafeTail(rest, pos, c.bs);
    assert rest[0] in rest;
    assert forall it <- items[i + 1..] :: it in rest;
    assert PlansOf(rest)[0] == items[i].plan;
  }

  /** Zeros owed, the gap, the region: the same bytes as what is written plus what is then owed. */
  lemma SameBytes(m: nat, pos: nat, it: Item, addr: nat, t: bytes, c: Config)
    requires WritesTrailing(t, it, c) && m <= pos <= Begin(it.plan)
    ensures Ready(it, c) && (it.plan.xattrSize == 0 || it.plan.xattrSize >= SIZE_XATTR_HEADER)
    ensures |EntryOutput(m, it, addr, t, c)| == End(it.plan) - m - (it.plan.trailing - |t|)
    ensures Zeros(pos - m) + (Zeros(Begin(it.plan) - pos) + Region(it, addr, c))
         == EntryOutput(m, it, addr, t, c) + Zeros(it.plan.trailing - |t|)
  {
    hide Ready, TrailingBytes, FieldsOf, XattrArea, InodeBytes, Zeros;
    ReadyFacts(it, c);
    RawRegionSize(it, addr, c);
    TrailingSize(it, c);
    var p := it.plan;
    var head := InodeBytes(FieldsOf(it.node, p, addr, c), p.compact) + XattrArea(it.node.info.xattrs);
    var short, pad := p.trailing - |t|, RegionSize(p) - RawSize(p);
    assert Region(it, addr, c) == head + (t + Zeros(short)) + Zeros(pad);
    ZerosMove(Zeros(Begin(p) - pos), head, t, short, pad);
    ZerosAdd(pos - m, Begin(p) - pos);
    Regroup(Zeros(pos - m), Zeros(Begin(p) - pos), Region(it, addr, c));
    Regroup(Zeros(Begin(p) - m), head + t + Zeros(pad), Zeros(short));
    HeadSize(it, addr, c);
  }

  lemma HeadSize(it: Item, addr: nat, c: Config)
    requires Ready(it, c) && c.bs > 0 && (it.plan.xattrSize == 0 || it.plan.xattrSize >= SIZE_XATTR_HEADER)
    ensures |InodeBytes(FieldsOf(it.node, it.plan, addr, c), it.plan.compact) + XattrArea(it.node.info.xattrs)|
         == CoreSize(it.plan.compact) + it.plan.xattrSize
  {
    hide Ready, FieldsOf, XattrArea;
    ReadyFacts(it, c);
  }

  lemma ZerosAdd(a: nat, b: nat)
    ensures Zeros(a) + Zeros(b) == Zeros(a + b)
  {
  }

  lemma Regroup(a: bytes, b: bytes, c: bytes)
    ensures a + (b + c) == a + b + c
  {
  }

  lemma ZerosMove(gap: bytes, head: bytes, t: bytes, short: nat, pad: nat)
    ensures head + (t + Zeros(short)) + Zeros(pad) == head + t + Zeros(pad) + Zeros(short)
  {
    ZerosAdd(short, pad);
    ZerosAdd(pad, short);
    assert head + (t + Zeros(short)) + Zeros(pad) == head + t + (Zeros(short) + Zeros(pad));
    assert head + t + Zeros(pad) + Zeros(short) == head + t + (Zeros(pad) + Zeros(short));
  }

  /** One entry of the pass. */
  lemma MetaStep(w: bytes, items: seq<Item>, addrs: seq<nat>, i: nat, t: bytes, c: Config)
    requires AllReady(items, c) && SafeFrom(PlansOf(items), 0, c.bs) && |addrs| == |items| && i < |items|
    requires MetaSoFar(w, items, addrs, i, c) && WritesTrailing(t, items[i], c)
    ensures items[i].plan.xattrSize == 0 || items[i].plan.xattrSize >= SIZE_XATTR_HEADER
    ensures |w| <= Begin(items[i].plan) <= |w| + c.bs
    ensures MetaSoFar(w + EntryOutput(|w|, items[i], addrs[i], t, c), items, addrs, i + 1, c)
  {
    hide MetaFrom, Region, SafeFrom, AllReady, EntryOutput, WritesTrailing, Owed, Ready, Zeros;
    var end, it := EndBefore(items, i), items[i];
    UnfoldMeta(items, addrs, i, end, c);
    GapInBlock(|w|, end, it.plan, c.bs);
    SameBytes(|w|, end, it, addrs[i], t, c);
    var out := EntryOutput(|w|, it, addrs[i], t, c);
    var rest := MetaFrom(items[i + 1..], addrs[i + 1..], End(it.plan), c);
    var short := it.plan.trailing - |t|;
    ReadyBlock(it, c);
    PlacedIn(it.plan, end, c.bs);
    OwedAfter(it, t, c);
    Reassemble(w, Zeros(end - |w|), Zeros(Begin(it.plan) - end), Region(it, addrs[i], c), rest, out, Zeros(short));
  }

  lemma ReadyBlock(it: Item, c: Config)
    requires Ready(it, c)
    ensures BlockSize(c.bs)
  {
  }

  lemma Reassemble(w: bytes, owed: bytes, gap: bytes, region: bytes, rest: bytes, out: bytes, short: bytes)
    requires owed + (gap + region) == out + short
    ensures w + (owed + (gap + (region + rest))) == w + out + (short + rest)
  {
    assert owed + (gap + (region + rest)) == owed + (gap + region) + rest;
    assert out + short + rest == out + (short + rest);
    assert w + (out + (short + rest)) == w + out + (short + rest);
  }

  lemma GapInBlock(m: nat, end: nat, p: Plan, bs: nat)
    requires bs >= 32 && m <= end && Owed(m, end, bs) && PlacedAfter(p, end, bs)
    ensures m <= end <= Begin(p) <= m + bs
  {
    hide RoundUp;
  }

  /** A short inline source stays within the block that its inode is in. */
  lemma OwedAfter(it: Item, t: bytes, c: Config)
    requires WritesTrailing(t, it, c) && BlockSize(c.bs) && PlacedInBlock(it.plan, c.bs)
    ensures Owed(End(it.plan) - (it.plan.trailing - |t|), End(it.plan), c.bs)
  {
    hide Ready, TrailingBytes, RoundUp, PowerOfTwo;
    var p := it.plan;
    if |t| < p.trailing {
      BlockSizeAligned(c.bs);
      PaddedInBlock(p, c.bs);
      SameRoundUp(Begin(p), End(p) - (p.trailing - |t|), End(p), c.bs);
    }
  }

  ghost predicate PlacedInBlock(p: Plan, bs: nat)
    requires bs > 0
  {
    p.layout == FLAT_INLINE ==> Rem(Begin(p), bs) + RawSize(p) <= bs
  }

  lemma PlacedIn(p: Plan, off: nat, bs: nat)
    requires bs > 0 && PlacedAfter(p, off, bs)
    ensures PlacedInBlock(p, bs)
  {
  }

  /** Padding a region to 32 keeps it in its block. */
  lemma PaddedInBlock(p: Plan, bs: nat)
    requires BlockSize(bs) && bs % 64 == 0 && Rem(Begin(p), bs) + RawSize(p) <= bs
    ensures Rem(Begin(p), bs) + RegionSize(p) <= bs
    ensures RawSize(p) >= 32 + p.trailing
  {
    hide PowerOfTwo, Rem, Quo;
    AlignedRem(Begin(p), bs);
    RoundsWithin(Rem(Begin(p), bs), RawSize(p), bs);
  }

  lemma RoundsWithin(r: nat, raw: nat, bs: nat)
    requires r % 32 == 0 && bs % 64 == 0 && r + raw <= bs
    ensures r + RoundUp(raw, 32) <= bs
  {
  }

  /** Two ends in the block of `begin` round up to the same block end. */
  lemma SameRoundUp(begin: nat, m: nat, end: nat, bs: nat)
    requires bs > 0 && begin < m <= end && Rem(begin, bs) + (end - begin) <= bs
    ensures RoundUp(m, bs) == RoundUp(end, bs)
  {
    var q := Quo(begin, bs);
    NextBlock(m, q, bs);
    NextBlock(end, q, bs);
  }

  lemma NextBlock(m: nat, q: nat, bs: nat)
    requires bs > 0 && q * bs < m <= q * bs + bs
    ensures RoundUp(m, bs) == q * bs + bs
  {
    MulStep(q, bs);
    DivUnique(m + bs - 1, bs, q + 1, m - q * bs - 1);
  }

  /** After the last entry, padding to a block gives the planned metadata area. */
  lemma MetaEnds(w: bytes, items: seq<Item>, c: Config)
    requires Planned(items, c) && |items| == |DataAddrs(items, SbBlocks(c), c)|
    requires MetaSoFar(w, items, DataAddrs(items, SbBlocks(c), c), |items|, c)
    ensures w + Zeros(RoundUp(|w|, c.bs) - |w|) == MetaArea(items, c)
  {
    hide Ready, SafeFrom, RoundUp, DataAddrs, AllReady, SbBlocks, Zeros, MetaSoFar, MetaFrom, Owed, CeilDiv, DataBlocks, MetaEnd;
    PlannedFacts(items, c);
    var addrs := DataAddrs(items, SbBlocks(c), c);
    var end := EndBefore(items, |items|);
    AllWritten(w, items, addrs, c);
    OwedPadding(w, end, c.bs);
  }

  lemma AllWritten(w: bytes, items: seq<Item>, addrs: seq<nat>, c: Config)
    requires AllReady(items, c) && SafeFrom(PlansOf(items), 0, c.bs) && |addrs| == |items|
    requires MetaSoFar(w, items, addrs, |items|, c)
    ensures |w| <= EndBefore(items, |items|) && Owed(|w|, EndBefore(items, |items|), c.bs)
    ensures MetaFrom(items, addrs, 0, c) == w + Zeros(EndBefore(items, |items|) - |w|)
  {
    hide Ready, RoundUp, Zeros, Owed;
    var end := EndBefore(items, |items|);
    assert items[|items|..] == [] && addrs[|items|..] == [];
    assert Zeros(end - |w|) + [] == Zeros(end - |w|);
  }

  lemma OwedPadding(w: bytes, end: nat, bs: nat)
    requires bs > 0 && |w| <= end && Owed(|w|, end, bs)
    ensures w + Zeros(end - |w|) + Zeros(RoundUp(end, bs) - end) == w + Zeros(RoundUp(|w|, bs) - |w|)
  {
    hide RoundUp, Zeros;
    ZerosAdd(end - |w|, RoundUp(end, bs) - end);
    Regroup(w, Zeros(end - |w|), Zeros(RoundUp(end, bs) - end));
    if |w| == end {
      NoZeros(w);
    }
  }

  lemma NoZeros(w: bytes)
    ensures w + Zeros(0) == w
  {
  }
}
