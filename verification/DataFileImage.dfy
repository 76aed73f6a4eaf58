/** A file stored in the external data file reads back through its chunk list. */
module DataFileImage {
  import opened Bytes
  import opened Format
  import opened Chunks
  import opened Layout
  import opened Inodes
  import opened Placement
  import opened Reader
  import opened RoundTrip
  import opened ChunkReader
  import opened DataFile

  /** Entry i carries the chunk list that closeDataFile made for `content` at byte `off` of the data file. */
  ghost predicate InDataFile(img: Image, items: seq<Item>, i: nat, c: Config, content: bytes, off: nat)
    requires c.bs > 0 && i < |items|
  {
    && items[i].plan.layout == CHUNK_BASED && items[i].node.info.size == |content|
    && off % c.bs == 0 && StartBlock(off, c.bs) + CeilDiv(|content|, c.bs) < NULL_ADDR
    && items[i].node.info.chunks == RunsFor(StartBlock(off, c.bs), CeilDiv(|content|, c.bs))
    && |img.devices| > 0 && img.deviceIDMask > 0 && At(img.devices[0].data, off, content)
  }

  lemma RunsResolve(start: nat, size: nat, bs: nat, bpc: nat, pos: nat, mask: nat)
    requires bs > 0 && bpc > 0 && mask > 0 && pos < size && start + CeilDiv(size, bs) < NULL_ADDR
    ensures var r := RunsFor(start, CeilDiv(size, bs));
            && ResolvesAll(r, bpc, Quo(pos, bs) + 1)
            && AllExpressible(r, mask)
            && Locate(r, Quo(pos, bs)) == Some(Loc(start + Quo(pos, bs), 1))
            && Quo(pos, bs) < CeilDiv(size, bs)
  {
    hide RunsFor, Locate, CeilDiv, Contiguous, Total, Resolve;
    var r := RunsFor(start, CeilDiv(size, bs));
    RunsCover(start, CeilDiv(size, bs));
    ContiguousResolves(r, bpc);
    ChunkExists(pos, size, bs);
  }

  lemma BlockOfDataFile(img: Image, sb: bytes, items: seq<Item>, c: Config, i: nat, content: bytes, off: nat, pos: nat)
    requires Planned(items, c) && i < |items| && c.bs > 0 && Opened(img, sb, items, c)
    requires InDataFile(img, items, i, c, content, off) && FieldsFit(items[i], c)
    requires !(i == |items| - 1 && CutOff(items, c)) && items[i].plan.xattrSize % 8 == 0 && pos < |content|
    ensures BlockSize(img.bs)
    ensures LoadBlock(img, ExpectedInode(img, items, i, c), pos) == Ok(content[pos..BlockStop(img.bs, |content|, pos)])
  {
    hide *;
    OpenedFacts(img, sb, items, c);
    InFacts(img, items, i, c, content, off);
    var start := StartBlock(off, c.bs);
    RunsResolve(start, |content|, c.bs, BlocksPerChunk(items[i], c), pos, img.deviceIDMask);
    ChunkRoundTrip(img, sb, items, c, i, pos);
    DeviceBlock(img, start, 1, pos, |content|);
    DeviceSlice(img.devices[0].data, off, content, pos, BlockStop(img.bs, |content|, pos));
    EntryOf(start + Quo(pos, c.bs));
  }

  lemma EntryOf(phys: nat)
    requires phys < NULL_ADDR
    ensures EntryFor(Some(Loc(phys, 1))) == Some((phys, 1))
  {
  }

  lemma InFacts(img: Image, items: seq<Item>, i: nat, c: Config, content: bytes, off: nat)
    requires c.bs > 0 && i < |items| && InDataFile(img, items, i, c, content, off)
    ensures items[i].plan.layout == CHUNK_BASED && items[i].node.info.size == |content|
    ensures StartBlock(off, c.bs) * c.bs == off && StartBlock(off, c.bs) + CeilDiv(|content|, c.bs) < NULL_ADDR
    ensures items[i].node.info.chunks == RunsFor(StartBlock(off, c.bs), CeilDiv(|content|, c.bs))
    ensures |img.devices| > 0 && img.deviceIDMask > 0 && At(img.devices[0].data, off, content)
    ensures off + |content| <= |img.devices[0].data| && NULL_ADDR == 0xFFFF_FFFF
    ensures StartBlock(off, c.bs) < NULL_ADDR
  {
    hide CeilDiv, RunsFor;
    StartsAtChunk(off, c.bs);
  }

  lemma DeviceSlice(data: bytes, off: nat, content: bytes, lo: nat, hi: nat)
    requires At(data, off, content) && lo <= hi <= |content|
    ensures data[off + lo..off + hi] == content[lo..hi]
  {
    SliceOfSlice(data, off, off + |content|, lo, hi);
  }

  /** On the written image, opened with the data file as device 1, the file is stored in full. */
  lemma DataFileStored(img: Image, sb: bytes, items: seq<Item>, c: Config, i: nat, content: bytes, off: nat)
    requires Planned(items, c) && i < |items| && c.bs > 0 && Opened(img, sb, items, c)
    requires InDataFile(img, items, i, c, content, off) && FieldsFit(items[i], c)
    requires !(i == |items| - 1 && CutOff(items, c)) && items[i].plan.xattrSize % 8 == 0
    ensures BlockSize(img.bs)
    ensures ReadInfo(img, items[i].plan.nid) == Ok(ExpectedInode(img, items, i, c))
    ensures Stored(img, ExpectedInode(img, items, i, c), content)
  {
    hide LoadBlock, ReadInfo, ExpectedInode, InDataFile, Opened, CutOff, FieldsFit, PowerOfTwo, Planned;
    OpenedFacts(img, sb, items, c);
    InFacts(img, items, i, c, content, off);
    RoomForInode(img, sb, items, c, i);
    InodeOnImage(img, sb, items, c, i);
    ExpectedFields(img, items, i, c);
    ChunkFileSize(items, c, i);
    forall pos: nat | pos < |content|
      ensures LoadBlock(img, ExpectedInode(img, items, i, c), pos) == Ok(content[pos..BlockStop(img.bs, |content|, pos)])
    {
      BlockOfDataFile(img, sb, items, c, i, content, off, pos);
    }
  }

  lemma ChunkFileSize(items: seq<Item>, c: Config, i: nat)
    requires Planned(items, c) && i < |items| && c.bs > 0 && items[i].plan.layout == CHUNK_BASED
    ensures FileSize(items[i].node, c.bs) == items[i].node.info.size
  {
    hide Ready;
    PlannedFacts(items, c);
    assert ItemOK(items[i], c);
  }
}
