/**
 The writer's passes over its entry objects (layout.go, writer.go): plan, assign data blocks, write
 data, write metadata, write block 0. Each is proved against the image described by values.
 */
module ErofsWriter {
  import opened Bytes
  import opened Order
  import opened Format
  import opened Dirents
  import opened Chunks
  import opened Xattrs
  import opened Layout
  import opened Inodes
  import opened Placement
  import opened TreeImage
  import opened MetaSteps
  import opened Superblock
  import opened EntryObjects
  import opened Tree

  class Writer {
    const c: Config
    const zeroBuf: bytes
    var entries: seq<Entry>
    var rootNid: nat
    var totalInodes: nat
    var metaBlkAddr: nat

    constructor (c: Config)
      requires ValidConfig(c)
      ensures this.c == c && Valid() && entries == []
    {
      this.c, zeroBuf, entries := c, Zeros(c.bs), [];
      rootNid, totalInodes, metaBlkAddr := 0, 0, 0xFFFF_FFFF;
    }

    ghost predicate Valid() {
      ValidConfig(c) && zeroBuf == Zeros(c.bs)
    }

    // ---- planLayout ----

    /** The walk of planLayout: depth first, parents before children. */
    method Walk(e: Entry)
      requires e.Shaped()
      modifies this`entries
      ensures entries == old(entries) + Objects(e)
      decreases e.node
    {
      hide Objects, ObjectsAll, Preorder, PreorderAll;
      ghost var before := entries;
      entries := entries + [e];
      UnfoldObjects(e);
      if IsDir(e.info.mode) {
        var k := 0;
        assert e.children[0..] == e.children && e.node.kids[0..] == e.node.kids;
        while k < |e.children|
          invariant k <= |e.children| && Match(e.children[k..], e.node.kids[k..])
          invariant entries + ObjectsAll(e.children[k..], e.node.kids[k..]) == before + Objects(e)
        {
          UnfoldAll(e.children, e.node.kids, k);
          ghost var mid, now := Objects(e.children[k]), entries;
          ghost var rest := ObjectsAll(e.children[k + 1..], e.node.kids[k + 1..]);
          Walk(e.children[k]);
          assert now + (mid + rest) == now + mid + rest;
          k := k + 1;
        }
        NoObjects(e.children[k..], e.node.kids[k..]);
        assert entries + [] == entries;
      }
    }

    /** calcTrailingSize */
    method CalcTrailingSize(e: Entry) returns (n: nat)
      requires Valid() && e.Shaped()
      ensures n == Trailing(e.node, e.layout, e.chunkBits, c)
    {
      hide PowerOfTwo, NameList, CeilDiv;
      var t := TypeOf(e.info.mode);
      if t == S_REG {
        if e.layout == CHUNK_BASED {
          if e.info.size == 0 && |e.info.chunks| == 0 {
            return 0;
          }
          var cs := EntryChunkSize(e.chunkBits, c);
          var nchunks := CeilDiv(e.info.size, cs);
          return nchunks * SIZE_CHUNK_INDEX;
        }
        if e.layout == FLAT_INLINE {
          return e.info.size;
        }
        return 0;
      } else if t == S_DIR {
        if e.layout == FLAT_INLINE {
          n := MeasureDir(e);
          return;
        }
        return 0;
      } else if t == S_LNK {
        return if e.layout == FLAT_INLINE then |e.info.symTarget| else 0;
      }
      return 0;
    }

    /** direntDataSize of an entry's children. */
    method MeasureDir(e: Entry) returns (n: nat)
      requires Valid() && e.Shaped()
      ensures n == DirDataSize(e.node, c.bs)
    {
      hide NameList, PowerOfTwo;
      var names := ChildNames(e);
      n := DirentDataSize(names, c.bs);
    }

    method ChildNames(e: Entry) returns (names: seq<bytes>)
      requires e.Shaped()
      ensures names == KidNames(e.node)
    {
      hide KidNames;
      names := [];
      KidNamesAre(e.node);
      for k := 0 to |e.children|
        invariant names == KidNames(e.node)[..k]
      {
        assert e.children[k].node == e.node.kids[k] && e.children[k].Shaped();
        assert KidNames(e.node)[k] == e.children[k].info.name;
        names := names + [e.children[k].info.name];
      }
    }

    /** One round of planLayout: decides form, layout and nid of e, and returns the next offset. */
    method PlanEntry(e: Entry, offset: nat) returns (next: nat)
      requires Valid() && e.Shaped() && e.chunkBits == 0 && offset % 32 == 0
      modifies e`nid, e`layout, e`compact, e`xattrSize, e`trailingSize, e`chunkBits
      ensures PlanOf(e) == PlanOne(e.node, offset, c)
      ensures next == End(PlanOf(e))
    {
      hide Trailing, PowerOfTwo, RoundUp, AlignCore, XattrArea, FitsCompact, DirDataSize, ChunkBitsFor, Rem, FirstLayout, PlannedChunkBits, SettledLayout, PlanOne;
      e.nid := offset / 32;
      e.xattrSize := CalcXattrSize(e.info.xattrs);
      e.compact := FitsCompact(e.info, c);
      var inodeSize := CoreSize(e.compact);
      var headerSize := inodeSize + e.xattrSize;
      DecideLayout(e, offset, headerSize);
      BlockIs(c);
      ghost var first, bits := e.layout, e.chunkBits;
      var currentOff := AlignInode(e, offset, inodeSize);
      var totalInodeSize := SettleTrailing(e, currentOff, headerSize);
      PlanParts(e.node, offset, c, first, bits);
      AlignCoreFacts(offset, e.compact, c.bs);
      next := currentOff + totalInodeSize;
    }

    /** An inode core never crosses a block: it moves to the next one. */
    method AlignInode(e: Entry, offset: nat, inodeSize: nat) returns (currentOff: nat)
      requires Valid() && c.bs > 0 && e.nid == offset / 32
      modifies e`nid
      ensures currentOff == AlignCore(offset, inodeSize, c.bs) && e.nid == currentOff / 32
    {
      hide PowerOfTwo, RoundUp, Rem;
      currentOff := offset;
      if Rem(currentOff, c.bs) + inodeSize > c.bs {
        currentOff := RoundUp(currentOff, c.bs);
        e.nid := currentOff / 32;
      }
    }

    /** The trailing size, inline data that would cross a block falling back to plain; returns the padded region size. */
    method SettleTrailing(e: Entry, currentOff: nat, headerSize: nat) returns (totalInodeSize: nat)
      requires Valid() && e.Shaped() && c.bs > 0
      modifies e`layout, e`trailingSize
      ensures e.layout == SettledLayout(old(e.layout), currentOff, headerSize + Trailing(e.node, old(e.layout), e.chunkBits, c), c.bs)
      ensures e.trailingSize == Trailing(e.node, e.layout, e.chunkBits, c)
      ensures totalInodeSize == RoundUp(headerSize + e.trailingSize, 32)
    {
      hide Trailing, PowerOfTwo, RoundUp, Rem;
      e.trailingSize := CalcTrailingSize(e);
      totalInodeSize := RoundUp(headerSize + e.trailingSize, 32);
      if e.layout == FLAT_INLINE {
        if Rem(currentOff, c.bs) + headerSize + e.trailingSize > c.bs {
          e.layout := FLAT_PLAIN;
          e.trailingSize := CalcTrailingSize(e);
          totalInodeSize := RoundUp(headerSize + e.trailingSize, 32);
        }
      }
    }

    /** The layout switch of planLayout. */
    method DecideLayout(e: Entry, currentOff: nat, headerSize: nat)
      requires Valid() && e.Shaped() && e.chunkBits == 0
      modifies e`layout, e`chunkBits
      ensures c.bs > 0 && e.layout == FirstLayout(e.node, currentOff, headerSize, c)
      ensures e.chunkBits == PlannedChunkBits(e.node, e.layout, c)
    {
      hide PowerOfTwo, DirDataSize, ChunkBitsFor, Rem;
      var i := e.info;
      var t := TypeOf(i.mode);
      var inBlockOff := Rem(currentOff + headerSize, c.bs);
      if t == S_REG {
        if i.size == 0 && |i.chunks| == 0 && i.data == None && !i.metadataOnly {
          e.layout := FLAT_PLAIN;
        } else if |i.chunks| > 0 || i.metadataOnly {
          e.layout := CHUNK_BASED;
          if i.contiguous {
            e.chunkBits := MinChunkBits(c.bs, c.chunkBits, i.size);
          }
        } else if i.size <= c.bs - headerSize && inBlockOff + i.size <= c.bs {
          e.layout := FLAT_INLINE;
        } else {
          e.layout := FLAT_PLAIN;
        }
      } else if t == S_DIR {
        var size := MeasureDir(e);
        e.layout := if size > 0 && inBlockOff + size <= c.bs then FLAT_INLINE else FLAT_PLAIN;
      } else if t == S_LNK {
        e.layout := if |i.symTarget| > 0 && inBlockOff + |i.symTarget| <= c.bs then FLAT_INLINE else FLAT_PLAIN;
      } else {
        e.layout := FLAT_PLAIN;
      }
    }

    /** The loop of planLayout over the collected list. */
    method PlanEntries(ghost nodes: seq<Node>)
      requires Valid() && Nodes(entries, nodes) && Distinct(entries)
      requires forall j :: 0 <= j < |entries| ==> entries[j].chunkBits == 0
      modifies entries`nid, entries`layout, entries`compact, entries`xattrSize, entries`trailingSize, entries`chunkBits
      ensures ValidConfig(c) && forall j :: 0 <= j < |entries| ==> PlanOf(entries[j]) == PlanAll(nodes, c)[j]
    {
      hide PlanOne, PlanFrom;
      var currentOff, i := 0, 0;
      ghost var plans := PlanAll(nodes, c);
      assert nodes[0..] == nodes && plans[0..] == plans;
      while i < |entries|
        invariant i <= |entries| && currentOff % 32 == 0
        invariant forall j :: 0 <= j < i ==> PlanOf(entries[j]) == plans[j]
        invariant forall j :: i <= j < |entries| ==> entries[j].chunkBits == 0
        invariant PlanFrom(nodes[i..], currentOff, c) == plans[i..]
      {
        var e := entries[i];
        PlanStep(nodes, plans, i, currentOff, c);
        PlanOneSafe(nodes[i], currentOff, c);
        currentOff := PlanEntry(e, currentOff);
        i := i + 1;
      }
    }

    /** planLayout: the list is the tree's pre-order, every object carries its planned values. */
    method PlanLayout(root: Entry, ghost objs: seq<Entry>)
      requires Valid() && root.Shaped() && objs == Objects(root) && Distinct(objs)
      requires forall j :: 0 <= j < |objs| ==> objs[j].chunkBits == 0
      modifies this`entries, this`rootNid, this`totalInodes
      modifies objs`nid, objs`layout, objs`compact, objs`xattrSize, objs`trailingSize, objs`chunkBits
      ensures entries == objs && rootNid == root.nid && totalInodes == |entries|
      ensures ValidConfig(c) && forall j :: 0 <= j < |objs| ==> PlanOf(objs[j]) == PlanAll(Preorder(root.node), c)[j]
    {
      hide Objects, Preorder, PlanFrom;
      entries := [];
      Walk(root);
      assert entries == objs;
      totalInodes := |entries|;
      ObjectsList(root);
      PlanEntries(Preorder(root.node));
      rootNid := root.nid;
    }

    // ---- assignDataBlocks ----

    /** flatPlainDataSize */
    method FlatPlainDataSize(e: Entry) returns (n: nat)
      requires Valid() && e.Shaped()
      ensures c.bs > 0 && n == PlainSize(ItemAt(e), c)
    {
      hide PowerOfTwo, EntryList, DirDataSize, KidDirents;
      var t := TypeOf(e.info.mode);
      if e.layout != FLAT_PLAIN {
        return 0;
      } else if t == S_REG {
        return if e.info.size > 0 && e.info.data.Some? then e.info.size else 0;
      } else if t == S_DIR {
        n := MeasureDir(e);
        return;
      } else if t == S_LNK {
        return |e.info.symTarget|;
      }
      return 0;
    }

    /** assignDataBlocks, data first: plain entries get consecutive block runs after the superblock area. */
    method AssignDataBlocks(ghost items: seq<Item>)
      requires Valid() && Represents(entries, items) && Distinct(entries)
      requires forall j :: 0 <= j < |entries| ==> entries[j].dataBlkAddr == 0
      modifies this`metaBlkAddr, entries`dataBlkAddr
      ensures c.bs > 0 && forall j :: 0 <= j < |entries| ==> entries[j].dataBlkAddr == DataAddrs(items, SbBlocks(c), c)[j]
      ensures metaBlkAddr == MetaBlock(items, c) % 0x1_0000_0000
      ensures Represents(entries, items)
    {
      hide PowerOfTwo, PlainSize, CeilDiv, ItemAt, Represents, DataAddrs, DataBlocks, SbBlocks, MetaBlock, Entry.Shaped;
      BlockIs(c);
      ghost var start := SbBlocks(c);
      var addr: nat, i := SbBlocks(c), 0;
      ghost var all := DataAddrs(items, start, c);
      assert items[0..] == items && all[0..] == all;
      SameLength(entries, items);
      while i < |entries|
        invariant i <= |entries| && Represents(entries, items)
        invariant forall j :: 0 <= j < i ==> entries[j].dataBlkAddr == all[j]
        invariant forall j :: i <= j < |entries| ==> entries[j].dataBlkAddr == 0
        invariant DataAddrs(items[i..], addr, c) == all[i..]
        invariant addr + DataBlocks(items[i..], c) == start + DataBlocks(items, c)
      {
        AddrStep(items, all, i, addr, c);
        RepresentsAt(entries, items, i);
        addr := AssignRun(entries[i], addr);
        i := i + 1;
      }
      NoBlocks(items[i..], c);
      MetaBlockIs(items, c);
      metaBlkAddr := addr % 0x1_0000_0000;
    }

    /** The block run of one entry, if it has plain data. */
    method AssignRun(e: Entry, addr: nat) returns (next: nat)
      requires Valid() && e.Shaped() && e.dataBlkAddr == 0
      modifies e`dataBlkAddr
      ensures c.bs > 0 && next == addr + CeilDiv(PlainSize(ItemAt(e), c), c.bs)
      ensures e.dataBlkAddr == if PlainSize(ItemAt(e), c) > 0 then addr % 0x1_0000_0000 else 0
    {
      hide PowerOfTwo, PlainSize, ItemAt;
      next := addr;
      var ds := FlatPlainDataSize(e);
      if ds > 0 {
        e.dataBlkAddr := addr % 0x1_0000_0000;
        next := next + CeilDiv(ds, c.bs);
      }
    }

    // ---- writeDirents ----

    /** Zero padding comes from the writer's one-block zero buffer. */
    method WriteZeros(out: Sink, n: nat)
      requires Valid() && n <= c.bs
      modifies out
      ensures out.contents == old(out.contents) + Zeros(n)
    {
      assert zeroBuf[..n] == Zeros(n);
      out.Write(zeroBuf[..n]);
    }

    method PadToBlock(out: Sink, n: nat)
      requires Valid()
      modifies out
      ensures c.bs > 0 && out.contents == old(out.contents) + Zeros(RoundUp(n, c.bs) - n)
    {
      hide PowerOfTwo, RoundUp;
      PadSize(n, c.bs);
      if n % c.bs != 0 {
        WriteZeros(out, c.bs - n % c.bs);
      } else {
        assert out.contents + Zeros(0) == out.contents;
      }
    }

    /** Headers and names of one block. */
    method WriteDirentBlock(out: Sink, ents: seq<Dirent>)
      modifies out
      ensures out.contents == old(out.contents) + BlockBytes(ents)
    {
      hide Headers, Concat, Names;
      WriteHeaders(out, ents);
      WriteNames(out, ents);
      assert old(out.contents) + Headers(ents, |ents|) + Concat(Names(ents)) == old(out.contents) + (Headers(ents, |ents|) + Concat(Names(ents)));
    }

    method WriteHeaders(out: Sink, ents: seq<Dirent>)
      modifies out
      ensures out.contents == old(out.contents) + Headers(ents, |ents|)
    {
      hide U64, U16, Names, NameOffset;
      var nameOff := |ents| * SIZE_DIRENT % 0x1_0000;
      ghost var before := out.contents;
      NoNames(Names(ents));
      var j := 0;
      while j < |ents|
        invariant j <= |ents|
        invariant out.contents == before + Headers(ents, j)
        invariant nameOff == NameOffset(Names(ents), if j == 0 then 0 else j - 1) % 0x1_0000
      {
        if j > 0 {
          OffsetGrows(ents, j - 1);
          AddWraps(NameOffset(Names(ents), j - 1), |ents[j - 1].name|);
          nameOff := (nameOff + |ents[j - 1].name|) % 0x1_0000;
        }
        U16Wraps(NameOffset(Names(ents), j));
        out.Write(U64(ents[j].nid) + U16(nameOff) + [ents[j].ftype, 0]);
        assert before + Headers(ents, j) + Header(ents, j) == before + (Headers(ents, j) + Header(ents, j));
        j := j + 1;
      }
    }

    method WriteNames(out: Sink, ents: seq<Dirent>)
      modifies out
      ensures out.contents == old(out.contents) + Concat(Names(ents))
    {
      hide Concat;
      var j := 0;
      ghost var before, names := out.contents, Names(ents);
      assert names[0..] == names;
      while j < |ents|
        invariant j <= |ents|
        invariant out.contents + Concat(names[j..]) == before + Concat(names)
      {
        ConcatStep(names, j);
        ghost var rest := Concat(names[j + 1..]);
        assert out.contents + (names[j] + rest) == out.contents + names[j] + rest;
        out.Write(ents[j].name);
        j := j + 1;
      }
      ConcatNone(names[j..]);
      assert out.contents + [] == out.contents;
    }

    /** The packing loop of writeDirents. */
    method WritePacked(out: Sink, allEnts: seq<Dirent>) returns (totalWritten: nat)
      requires Valid()
      modifies out
      ensures c.bs > 0 && out.contents == old(out.contents) + DirBytes(allEnts, c.bs)
      ensures totalWritten == |DirBytes(allEnts, c.bs)|
    {
      hide PowerOfTwo, NameLen, RoundUp, PaddedBlock, DirBytes, Names;
      totalWritten := 0;
      var names := Names(allEnts);
      var i := 0;
      ghost var before := out.contents;
      assert allEnts[0..] == allEnts;
      while i < |allEnts|
        invariant i <= |allEnts|
        invariant out.contents + DirBytes(allEnts[i..], c.bs) == before + DirBytes(allEnts, c.bs)
        invariant |out.contents| == |before| + totalWritten
      {
        var start := i;
        ghost var now := out.contents;
        var used;
        i, used := MeasureBlock(names, start, c.bs);
        BlockStep(allEnts, start, i, c.bs);
        var n := WritePaddedBlock(out, allEnts[start..i], used, i < |allEnts|);
        totalWritten := totalWritten + n;
        ghost var block, rest := PaddedBlock(allEnts[start..i], i < |allEnts|, c.bs), DirBytes(allEnts[i..], c.bs);
        assert now + (block + rest) == now + block + rest;
      }
      assert allEnts[i..] == [];
      NoDirBytes(c.bs);
      assert out.contents + [] == out.contents;
    }

    /** One block, padded unless it is the last. */
    method WritePaddedBlock(out: Sink, blockEnts: seq<Dirent>, used: nat, more: bool) returns (n: nat)
      requires Valid() && used == Need(Names(blockEnts))
      modifies out
      ensures c.bs > 0 && out.contents == old(out.contents) + PaddedBlock(blockEnts, more, c.bs) && n == |PaddedBlock(blockEnts, more, c.bs)|
    {
      hide PowerOfTwo, BlockBytes, NameLen, RoundUp, Names;
      BlockIs(c);
      ghost var before := out.contents;
      WriteDirentBlock(out, blockEnts);
      n := used;
      assert BlockBytes(blockEnts) + [] == BlockBytes(blockEnts);
      BlockLength(blockEnts);
      if more {
        PadToBlock(out, used);
        n := n + (RoundUp(used, c.bs) - used);
        ghost var pad := Zeros(RoundUp(used, c.bs) - used);
        assert before + BlockBytes(blockEnts) + pad == before + (BlockBytes(blockEnts) + pad);
      }
    }

    /** writeDirents */
    method WriteDirents(out: Sink, e: Entry) returns (totalWritten: nat)
      requires Valid() && e.Shaped() && IsDir(e.info.mode)
      modifies out
      ensures c.bs > 0 && out.contents == old(out.contents) + Content(ItemAt(e), c)
      ensures totalWritten == |Content(ItemAt(e), c)|
    {
      hide EntryList, DirBytes, KidDirents, PowerOfTwo;
      var allEnts := EntryList(Nid64(e.nid), Nid64(e.parentNid), KidDirents(e.children));
      totalWritten := WritePacked(out, allEnts);
    }

    // ---- writeDataBlocks ----

    /** io.Copy of a limited source. */
    method CopyLimited(out: Sink, source: bytes, limit: nat) returns (n: nat)
      modifies out
      ensures n == Min(|source|, limit)
      ensures out.contents == old(out.contents) + source[..n]
      ensures out.contents + Zeros(limit - n) == old(out.contents) + Fit(source, limit)
    {
      n := Min(|source|, limit);
      out.Write(source[..n]);
      assert Fit(source, limit) == source[..n] + Zeros(limit - n);
    }

    /** One entry of writeDataBlocks: its content, padded to whole blocks. */
    method WriteEntryData(out: Sink, e: Entry) returns (ok: bool)
      requires Valid() && e.Shaped()
      modifies out
      ensures c.bs > 0 && ok == !ShortSource(e)
      ensures ok ==> out.contents == old(out.contents) + PlainBytes(ItemAt(e), c)
    {
      hide PowerOfTwo, EntryList, KidDirents, RoundUp, DirBytes, DirDataSize;
      var ds := FlatPlainDataSize(e);
      if ds == 0 {
        assert out.contents + [] == out.contents;
        return true;
      }
      ghost var before := out.contents;
      var n: nat := 0;
      var t := TypeOf(e.info.mode);
      if t == S_REG {
        n := CopyLimited(out, e.info.data.value, ds);
        if n != ds {
          return false;
        }
        assert out.contents + Zeros(0) == out.contents;
      } else if t == S_DIR {
        n := WriteDirents(out, e);
      } else {
        out.Write(e.info.symTarget);
        n := |e.info.symTarget|;
      }
      ghost var content := Content(ItemAt(e), c);
      assert out.contents == before + content && n == |content|;
      PadToBlock(out, n);
      assert before + content + Zeros(RoundUp(n, c.bs) - n) == before + (content + Zeros(RoundUp(n, c.bs) - n));
      return true;
    }

    /** writeDataBlocks: succeeds exactly when no plain file's source is short, with the planned bytes. */
    method WriteDataBlocks(out: Sink, ghost items: seq<Item>) returns (ok: bool)
      requires Valid() && Represents(entries, items)
      modifies out
      ensures ok <==> forall e <- entries :: !ShortSource(e)
      ensures c.bs > 0 && (ok ==> out.contents == old(out.contents) + DataArea(items, c))
    {
      hide PowerOfTwo, PlainBytes, ItemAt, ShortSource;
      var i := 0;
      ghost var before := out.contents;
      assert items[0..] == items;
      while i < |entries|
        invariant i <= |entries|
        invariant forall j :: 0 <= j < i ==> !ShortSource(entries[j])
        invariant out.contents + DataArea(items[i..], c) == before + DataArea(items, c)
      {
        ghost var now := out.contents;
        assert items[i..][0] == items[i] && items[i..][1..] == items[i + 1..];
        ok := WriteEntryData(out, entries[i]);
        if !ok {
          assert entries[i] in entries;
          return;
        }
        ghost var rest := DataArea(items[i + 1..], c);
        assert now + (PlainBytes(items[i], c) + rest) == now + PlainBytes(items[i], c) + rest;
        i := i + 1;
      }
      assert items[i..] == [];
      assert out.contents + [] == out.contents;
      return true;
    }

    // ---- writeMetadataInodes ----

    /** writeInode: the entry's word and size, then the 32- or 64-byte form. */
    method WriteEntryInode(out: Sink, e: Entry, scratch: array<byte>)
      requires Valid() && e.Shaped() && scratch.Length == SIZE_EXTENDED
      requires e.xattrSize == 0 || e.xattrSize >= SIZE_XATTR_HEADER
      modifies out, scratch
      ensures c.bs > 0 && out.contents == old(out.contents) + InodeBytes(FieldsOf(e.node, PlanOf(e), e.dataBlkAddr, c), e.compact)
    {
      hide PowerOfTwo, InodeBytes, DirDataSize, XattrCount;
      var t := TypeOf(e.info.mode);
      var inodeData: nat := 0;
      if t == S_REG {
        if e.layout == CHUNK_BASED {
          inodeData := 32 + EntryChunkBits(e.chunkBits, c);
        } else if e.layout == FLAT_PLAIN && e.info.size > 0 {
          inodeData := e.dataBlkAddr;
        }
      } else if t == S_DIR || t == S_LNK {
        if e.layout == FLAT_PLAIN {
          inodeData := e.dataBlkAddr;
        }
      } else if t == S_CHR || t == S_BLK || t == S_FIFO || t == S_SOCK {
        inodeData := e.info.rdev;
      }
      var fileSize: nat := e.info.size;
      if t == S_DIR {
        fileSize := MeasureDir(e);
      } else if t == S_LNK {
        fileSize := |e.info.symTarget|;
      }
      var f := Fields(InodeFormat(e.layout, e.compact), XattrCount(e.xattrSize), e.info.mode, e.info.nlink, fileSize, inodeData,
                      e.info.uid, e.info.gid, e.info.mtime, e.info.mtimeNs);
      var b := WriteInode(scratch, f, e.compact);
      out.Write(b);
    }

    /** The trailing-data switch: chunk indexes, inline file data, dirents or link target. */
    method WriteTrailing(out: Sink, e: Entry, ghost it: Item) returns (n: nat, ghost t: bytes)
      requires Valid() && e.Shaped() && ItemAt(e) == it && Ready(it, c) && FirstRunFull(it)
      modifies out
      ensures WritesTrailing(t, it, c) && n == |t| && out.contents == old(out.contents) + t
    {
      hide PowerOfTwo, ItemAt, Ready, TrailingBytes, Content;
      ItemFields(e, it);
      TrailingSize(it, c);
      TrailingCases(it, c);
      var kind := TypeOf(e.info.mode);
      n, t := 0, [];
      assert out.contents + [] == out.contents;
      if kind == S_REG {
        if e.layout == CHUNK_BASED && (e.info.size > 0 || |e.info.chunks| > 0) {
          var b := IndexesOf(e);
          out.Write(b);
          n, t := |b|, b;
        } else if e.layout == FLAT_INLINE && e.info.size > 0 && e.info.data.Some? {
          ghost var before := out.contents;
          n := CopyLimited(out, e.info.data.value, e.info.size);
          t := e.info.data.value[..n];
          assert t + Zeros(e.info.size - n) == Fit(e.info.data.value, e.info.size);
          return;
        }
      } else if kind == S_DIR {
        if e.layout == FLAT_INLINE {
          n := WriteDirents(out, e);
          t := Content(it, c);
        }
      } else if kind == S_LNK {
        if e.layout == FLAT_INLINE {
          out.Write(e.info.symTarget);
          n, t := |e.info.symTarget|, e.info.symTarget;
        }
      }
      assert t == TrailingBytes(it, c);
      assert t + Zeros(0) == t;
    }

    /** writeChunkIndexes with the entry's chunk size. */
    method IndexesOf(e: Entry) returns (b: bytes)
      requires Valid()
      ensures e.info.chunks == [] || e.info.chunks[0].count > 0 ==>
                b == ChunkIndexes(e.info.chunks, Pow2(EntryChunkBits(e.chunkBits, c)), CeilDiv(e.info.size, EntryChunkSize(e.chunkBits, c)))
    {
      hide PowerOfTwo, ChunkIndexes, CeilDiv, Pow2;
      var cs := EntryChunkSize(e.chunkBits, c);
      MulMod(Pow2(EntryChunkBits(e.chunkBits, c)), c.bs);
      var blocksPerChunk := cs / c.bs;
      CeilDivIsDivision(e.info.size, cs);
      var nchunks := (e.info.size + cs - 1) / cs;
      b := WriteChunkIndexes(e.info.chunks, blocksPerChunk, nchunks);
    }

    /** Inode and, if there are attributes, the xattr area. */
    method WriteHeader(out: Sink, e: Entry, scratch: array<byte>, ghost it: Item) returns (n: nat)
      requires Valid() && e.Shaped() && ItemAt(e) == it && Ready(it, c) && scratch.Length == SIZE_EXTENDED
      requires e.xattrSize == 0 || e.xattrSize >= SIZE_XATTR_HEADER
      modifies out, scratch
      ensures c.bs > 0
      ensures out.contents == old(out.contents)
                              + (InodeBytes(FieldsOf(e.node, PlanOf(e), e.dataBlkAddr, c), e.compact) + XattrArea(it.node.info.xattrs))
      ensures n == CoreSize(e.compact) + e.xattrSize
    {
      hide PowerOfTwo, ItemAt, Ready, InodeBytes, FieldsOf, XattrArea;
      ItemFields(e, it);
      ReadyFacts(it, c);
      ghost var before := out.contents;
      WriteEntryInode(out, e, scratch);
      n := CoreSize(e.compact);
      ghost var inode, area := InodeBytes(FieldsOf(e.node, PlanOf(e), e.dataBlkAddr, c), e.compact), XattrArea(it.node.info.xattrs);
      AreaOrNone(it.node.info);
      if e.xattrSize > 0 {
        var x := WriteXattrs(e.info.xattrs);
        out.Write(x);
        n := n + e.xattrSize;
      } else {
        assert out.contents + [] == out.contents;
      }
      assert before + inode + area == before + (inode + area);
    }

    /** Padding of an inode region to 32 bytes. */
    method PadEntry(out: Sink, totalWritten: nat) returns (n: nat)
      requires Valid()
      modifies out
      ensures n == RoundUp(totalWritten, 32) - totalWritten && out.contents == old(out.contents) + Zeros(n)
    {
      hide PowerOfTwo, RoundUp;
      PadSize(totalWritten, 32);
      BlockIs(c);
      n := 0;
      if totalWritten % 32 != 0 {
        n := 32 - totalWritten % 32;
        WriteZeros(out, n);
      } else {
        assert out.contents + Zeros(0) == out.contents;
      }
    }

    /** The gap before an inode that was moved by alignment, or that a short source has left. */
    method WriteGap(out: Sink, metaStart: nat, expectedOff: nat) returns (next: nat)
      requires Valid() && metaStart <= expectedOff <= metaStart + c.bs
      modifies out
      ensures next == expectedOff && out.contents == old(out.contents) + Zeros(expectedOff - metaStart)
    {
      hide PowerOfTwo, Zeros;
      NoZeros(out.contents);
      next := metaStart;
      if expectedOff > next {
        WriteZeros(out, expectedOff - next);
        next := expectedOff;
      }
    }

    /** Inode, attributes and trailing data. */
    method WriteBody(out: Sink, e: Entry, scratch: array<byte>, ghost it: Item) returns (n: nat, ghost t: bytes)
      requires Valid() && e.Shaped() && ItemAt(e) == it && Ready(it, c) && FirstRunFull(it) && scratch.Length == SIZE_EXTENDED
      modifies out, scratch
      ensures WritesTrailing(t, it, c) && c.bs > 0 && (it.plan.xattrSize == 0 || it.plan.xattrSize >= SIZE_XATTR_HEADER)
      ensures out.contents == old(out.contents) + EntryBody(it, e.dataBlkAddr, t, c) && n == |EntryBody(it, e.dataBlkAddr, t, c)|
    {
      hide PowerOfTwo, ItemAt, Ready, WritesTrailing, InodeBytes, FieldsOf, XattrArea, FirstRunFull;
      ItemFields(e, it);
      ReadyFacts(it, c);
      ghost var before := out.contents;
      ghost var head := InodeBytes(FieldsOf(e.node, PlanOf(e), e.dataBlkAddr, c), e.compact) + XattrArea(it.node.info.xattrs);
      n := WriteHeader(out, e, scratch, it);
      var m;
      m, t := WriteTrailing(out, e, it);
      n := n + m;
      assert before + head + t == before + (head + t);
    }

    /** One round of writeMetadataInodes: gap, inode, xattrs, trailing data, padding to 32. */
    method WriteMetaEntry(out: Sink, e: Entry, metaStart: nat, scratch: array<byte>, ghost it: Item)
      returns (next: nat, ghost t: bytes)
      requires Valid() && e.Shaped() && ItemAt(e) == it && Ready(it, c) && FirstRunFull(it) && scratch.Length == SIZE_EXTENDED
      requires metaStart <= Begin(it.plan) <= metaStart + c.bs
      modifies out, scratch
      ensures WritesTrailing(t, it, c) && (it.plan.xattrSize == 0 || it.plan.xattrSize >= SIZE_XATTR_HEADER)
      ensures out.contents == old(out.contents) + EntryOutput(metaStart, it, e.dataBlkAddr, t, c)
      ensures next == metaStart + |EntryOutput(metaStart, it, e.dataBlkAddr, t, c)|
    {
      hide PowerOfTwo, ItemAt, Ready, WritesTrailing, EntryBody, RoundUp, FirstRunFull;
      ItemFields(e, it);
      ghost var before := out.contents;
      next := WriteGap(out, metaStart, e.nid * 32);
      var n, padSize;
      n, t := WriteBody(out, e, scratch, it);
      padSize := PadEntry(out, CoreSize(e.compact) + e.xattrSize + e.trailingSize);
      next := next + n + padSize;
      ghost var gap, body, pad := Zeros(e.nid * 32 - metaStart), EntryBody(it, e.dataBlkAddr, t, c), Zeros(padSize);
      assert before + gap + body + pad == before + (gap + body + pad);
    }

    /**
     writeMetadataInodes. The running offset is always the number of bytes written, every slice of
     the zero buffer is in bounds, and the result is the planned metadata area: each inode at byte
     nid * 32. A short inline source is not noticed; zeros take the place of what is missing.
     */
    method WriteMetadataInodes(out: Sink, ghost items: seq<Item>)
      requires Valid() && Represents(entries, items) && Planned(items, c) && forall it <- items :: FirstRunFull(it)
      requires forall j :: 0 <= j < |entries| ==> c.bs > 0 && entries[j].dataBlkAddr == DataAddrs(items, SbBlocks(c), c)[j]
      modifies out
      ensures out.contents == old(out.contents) + MetaArea(items, c)
    {
      hide PowerOfTwo, ItemAt, Ready, WritesTrailing, MetaSoFar, EntryOutput, Planned, DataAddrs, SafeFrom, MetaArea, FirstRunFull, Represents, PlansOf, RoundUp;
      PlannedFacts(items, c);
      var scratch := new byte[SIZE_EXTENDED](_ => 0);
      var metaStart, i := 0, 0;
      ghost var before, w: bytes, addrs := out.contents, [], DataAddrs(items, SbBlocks(c), c);
      MetaStarts(items, addrs, c);
      SameLength(entries, items);
      assert before + w == before;
      while i < |entries|
        invariant i <= |entries|
        invariant out.contents == before + w && metaStart == |w|
        invariant MetaSoFar(w, items, addrs, i, c)
      {
        RepresentsAt(entries, items, i);
        NextGap(w, items, addrs, i, c);
        ghost var t;
        ghost var start := metaStart;
        metaStart, t := WriteMetaEntry(out, entries[i], metaStart, scratch, items[i]);
        MetaStep(w, items, addrs, i, t, c);
        ghost var output := EntryOutput(start, items[i], addrs[i], t, c);
        assert before + w + output == before + (w + output);
        w := w + output;
        i := i + 1;
      }
      MetaEnds(w, items, c);
      PadToBlock(out, metaStart);
      assert before + w + Zeros(RoundUp(metaStart, c.bs) - metaStart) == before + (w + Zeros(RoundUp(metaStart, c.bs) - metaStart));
    }

    // ---- writeBlock0 and write ----

    /** metadataBytes: the planner's total, gaps included. */
    method MetadataBytes(ghost items: seq<Item>) returns (curOff: nat)
      requires Valid() && c.bs > 0 && Represents(entries, items) && SafeFrom(PlansOf(items), 0, c.bs)
      ensures curOff == MetaEnd(items, 0)
    {
      hide PowerOfTwo, ItemAt, RoundUp, SafeFrom, Represents, MetaEnd, PlansOf;
      curOff := 0;
      var i := 0;
      assert items[0..] == items;
      SameLength(entries, items);
      while i < |entries|
        invariant i <= |entries|
        invariant SafeFrom(PlansOf(items[i..]), curOff, c.bs)
        invariant MetaEnd(items[i..], curOff) == MetaEnd(items, 0)
      {
        RepresentsAt(entries, items, i);
        EndStep(items, i, curOff, c.bs);
        curOff := EntryEnd(entries[i], curOff);
        i := i + 1;
      }
      assert items[i..] == [];
      NoMeta(curOff);
    }

    /** Where an entry's padded region ends. */
    method EntryEnd(e: Entry, pos: nat) returns (curOff: nat)
      requires pos <= Begin(PlanOf(e))
      ensures curOff == End(PlanOf(e))
    {
      hide RoundUp;
      curOff := pos;
      var expectedOff := e.nid * 32;
      if curOff < expectedOff {
        curOff := expectedOff;
      }
      var sz := CoreSize(e.compact) + e.xattrSize + e.trailingSize;
      PadSize(sz, 32);
      if sz % 32 != 0 {
        sz := sz + (32 - sz % 32);
      }
      curOff := curOff + sz;
    }

    /** Blocks taken by plain data. */
    method CountDataBlocks(ghost items: seq<Item>) returns (dataBlocks: nat)
      requires Valid() && c.bs > 0 && Represents(entries, items)
      ensures dataBlocks == DataBlocks(items, c)
    {
      hide PowerOfTwo, ItemAt, CeilDiv, PlainSize, Represents;
      dataBlocks := 0;
      var i := 0;
      assert items[0..] == items;
      SameLength(entries, items);
      while i < |entries|
        invariant i <= |entries|
        invariant dataBlocks + DataBlocks(items[i..], c) == DataBlocks(items, c)
      {
        RepresentsAt(entries, items, i);
        assert items[i..][0] == items[i] && items[i..][1..] == items[i + 1..];
        var ds := FlatPlainDataSize(entries[i]);
        ZeroBlocks(c.bs);
        if ds > 0 {
          dataBlocks := dataBlocks + CeilDiv(ds, c.bs);
        }
        i := i + 1;
      }
      assert items[i..] == [];
    }

    /** Whether any entry has a chunk list. */
    method FindChunks(ghost items: seq<Item>) returns (found: bool)
      requires Represents(entries, items)
      ensures found == AnyChunks(items)
    {
      hide ItemAt, Represents;
      SameLength(entries, items);
      AnyChunksIs(items);
      var i := 0;
      while i < |entries|
        invariant i <= |entries|
        invariant forall j :: 0 <= j < i ==> items[j].node.info.chunks == []
      {
        RepresentsAt(entries, items, i);
        if |entries[i].info.chunks| > 0 {
          return true;
        }
        i := i + 1;
      }
      return false;
    }

    /** The counts and flags of writeBlock0. */
    method MakeSuper(ghost items: seq<Item>) returns (s: Super)
      requires Valid() && Represents(entries, items) && items != [] && Planned(items, c)
      requires rootNid == items[0].plan.nid && totalInodes == |entries| && metaBlkAddr == MetaBlock(items, c)
      ensures s == SuperOf(items, c)
    {
      hide PowerOfTwo, Represents, AllReady, SafeFrom, MetaEnd, CeilDiv, DataBlocks, Log2, AnyChunks, SbBlocks;
      PlannedFacts(items, c);
      BlkBits(c.bs);
      SameLength(entries, items);
      var totalMetaBytes := MetadataBytes(items);
      var dataBlocks := CountDataBlocks(items);
      var anyChunks := FindChunks(items);
      s := Super(Log2(c.bs), rootNid, totalInodes, c.buildTime, c.buildTimeNs,
                 SbBlocks(c) + CeilDiv(totalMetaBytes, c.bs) + dataBlocks, metaBlkAddr,
                 (if |c.devices| > 0 then DEVICE_TABLE else 0) + (if anyChunks then CHUNKED_FILE else 0),
                 |c.devices|, if |c.devices| > 0 then SIZE_SUPER / 16 else 0);
    }

    /**
     write, data first: placeholder, data blocks, metadata, then block 0 over the placeholder. It
     succeeds exactly when no plain source is short and every device count fits; then the output is
     the image of the planned list.
     */
    method Write(out: Sink, ghost items: seq<Item>) returns (ok: bool)
      requires Valid() && Represents(entries, items) && Distinct(entries) && items != [] && Planned(items, c)
      requires forall it <- items :: FirstRunFull(it)
      requires forall j :: 0 <= j < |entries| ==> entries[j].dataBlkAddr == 0
      requires rootNid == items[0].plan.nid && totalInodes == |entries| && out.contents == []
      modifies this`metaBlkAddr, entries`dataBlkAddr, out
      ensures ok <==> (forall e <- entries :: !ShortSource(e)) && forall d <- c.devices :: d < 0x1_0000_0000
      ensures ok ==> out.contents == WrittenImage(items, c)
    {
      hide PowerOfTwo, Represents, Planned, Ready, SafeFrom, DataArea, MetaArea, SbArea, SuperOf, SbBlocks, MetaBlock, ItemAt, ShortSource, DataAddrs,
           FirstRunFull, TotalBlocks, WrittenImage, AllReady, PlansOf, Distinct;
      PlannedFacts(items, c);
      metaBlkAddr := 0xFFFF_FFFF;
      AssignDataBlocks(items);
      MetaBlockFits(items, c);
      var placeholder := Zeros(SbBlocks(c) * c.bs);
      out.Write(placeholder);
      assert out.contents == placeholder;
      ok := WriteDataBlocks(out, items);
      if !ok {
        return;
      }
      WriteMetadataInodes(out, items);
      ok := PutBlock0(out, items, placeholder);
    }

    /** The superblock area takes the place of the zeros written for it. */
    method PutBlock0(out: Sink, ghost items: seq<Item>, ghost placeholder: bytes) returns (ok: bool)
      requires Valid() && Represents(entries, items) && items != [] && Planned(items, c)
      requires rootNid == items[0].plan.nid && totalInodes == |entries| && metaBlkAddr == MetaBlock(items, c)
      requires c.bs > 0 && |placeholder| == SbBlocks(c) * c.bs
      requires out.contents == placeholder + DataArea(items, c) + MetaArea(items, c)
      modifies out
      ensures ok <==> forall d <- c.devices :: d < 0x1_0000_0000
      ensures ok ==> out.contents == WrittenImage(items, c)
    {
      hide PowerOfTwo, Represents, Planned, DataArea, MetaArea, SbArea, SuperOf, SbBlocks, MetaBlock;
      PlannedFacts(items, c);
      var s := MakeSuper(items);
      var block0 := WriteBlock0(s, c);
      if block0.Err? {
        return false;
      }
      ok := true;
      out.Rewrite(block0.value);
      FrontReplaced(placeholder, DataArea(items, c), MetaArea(items, c), block0.value);
      ImageIs(block0.value, items, c);
    }
  }

  lemma FrontReplaced(a: bytes, b: bytes, c: bytes, x: bytes)
    requires |x| == |a|
    ensures x + (a + b + c)[|x|..] == x + b + c
  {
    assert (a + b + c)[|x|..] == b + c;
  }

  lemma ImageIs(sb: bytes, items: seq<Item>, c: Config)
    requires Planned(items, c) && ValidConfig(c) && c.bs > 0 && sb == SbArea(SuperOf(items, c), c)
    ensures WrittenImage(items, c) == sb + DataArea(items, c) + MetaArea(items, c)
  {
    hide Planned, DataArea, MetaArea, SbArea, SuperOf;
  }

  lemma MetaBlockFits(items: seq<Item>, c: Config)
    requires c.bs > 0 && TotalBlocks(items, c) < 0x1_0000_0000
    ensures MetaBlock(items, c) % 0x1_0000_0000 == MetaBlock(items, c)
  {
    hide DataBlocks, SbBlocks, MetaEnd;
  }

  lemma ZeroBlocks(bs: nat)
    requires bs > 0
    ensures CeilDiv(0, bs) == 0
  {
  }

  lemma AnyChunksIs(items: seq<Item>)
    ensures AnyChunks(items) <==> exists j :: 0 <= j < |items| && items[j].node.info.chunks != []
  {
    if AnyChunks(items) {
      var it :| it in items && it.node.info.chunks != [];
      var j :| 0 <= j < |items| && items[j] == it;
    } else {
      forall j | 0 <= j < |items|
        ensures items[j].node.info.chunks == []
      {
        assert items[j] in items;
      }
    }
  }

  lemma NoMeta(pos: nat)
    ensures MetaEnd([], pos) == pos
  {
  }

  lemma EndStep(items: seq<Item>, i: nat, pos: nat, bs: nat)
    requires bs > 0 && i < |items| && SafeFrom(PlansOf(items[i..]), pos, bs)
    ensures pos <= Begin(items[i].plan) && SafeFrom(PlansOf(items[i + 1..]), End(items[i].plan), bs)
    ensures MetaEnd(items[i..], pos) == MetaEnd(items[i + 1..], End(items[i].plan))
  {
    assert items[i..][0] == items[i] && items[i..][1..] == items[i + 1..];
    SafeTail(items[i..], pos, bs);
  }

  /** The first run of a chunk list is not empty (an empty one would be emitted as if it held a block). */
  predicate FirstRunFull(it: Item) {
    it.node.info.chunks == [] || it.node.info.chunks[0].count > 0
  }

  lemma ItemFields(e: Entry, it: Item)
    requires e.Shaped() && ItemAt(e) == it
    ensures it.node == e.node && it.node.info == e.info && it.plan == PlanOf(e)
  {
    hide EntryList, KidDirents;
  }

  /** An xattr area is there exactly when there are attributes. */
  lemma AreaOrNone(i: Info)
    ensures XattrSize(i) == |XattrArea(i.xattrs)|
    ensures XattrSize(i) > 0 <==> i.xattrs != map[]
    ensures XattrSize(i) == 0 ==> XattrArea(i.xattrs) == []
  {
  }

  /** What follows the xattrs, case by case. */
  lemma TrailingCases(it: Item, c: Config)
    requires Ready(it, c)
    ensures ValidConfig(c) && c.bs > 0
    ensures var i, p := it.node.info, it.plan;
            var t := TypeOf(i.mode);
            && (p.layout == CHUNK_BASED ==> t == S_REG)
            && (p.layout == CHUNK_BASED && (i.size > 0 || i.chunks != []) ==>
                  TrailingBytes(it, c) == ChunkIndexes(i.chunks, Pow2(EntryChunkBits(p.chunkBits, c)), CeilDiv(i.size, EntryChunkSize(p.chunkBits, c))))
            && (p.layout == CHUNK_BASED && i.size == 0 && i.chunks == [] ==> TrailingBytes(it, c) == [])
            && (p.layout == FLAT_INLINE ==> TrailingBytes(it, c) == Content(it, c) && t in {S_REG, S_DIR, S_LNK})
            && (p.layout == FLAT_INLINE && t == S_REG && i.data.Some? ==> Content(it, c) == Fit(i.data.value, i.size) && p.trailing == i.size)
            && (p.layout == FLAT_INLINE && t == S_REG && (i.size == 0 || i.data == None) ==> TrailingBytes(it, c) == [])
            && (p.layout == FLAT_INLINE && t == S_LNK ==> TrailingBytes(it, c) == i.symTarget)
            && (p.layout == FLAT_PLAIN ==> TrailingBytes(it, c) == [])
            && p.layout in {FLAT_PLAIN, FLAT_INLINE, CHUNK_BASED}
  {
    hide PowerOfTwo, ChunkIndexes, CeilDiv, Pow2, DirBytes, NameList;
    ReadyFacts(it, c);
    TrailingSize(it, c);
  }

  lemma NextGap(w: bytes, items: seq<Item>, addrs: seq<nat>, i: nat, c: Config)
    requires AllReady(items, c) && SafeFrom(PlansOf(items), 0, c.bs) && |addrs| == |items| && i < |items|
    requires MetaSoFar(w, items, addrs, i, c)
    ensures Ready(items[i], c) && |w| <= Begin(items[i].plan) <= |w| + c.bs
  {
    hide MetaFrom, Region, SafeFrom, AllReady, Owed, Ready, PlacedAfter;
    UnfoldMeta(items, addrs, i, EndBefore(items, i), c);
    ReadyBlock(items[i], c);
    GapInBlock(|w|, EndBefore(items, i), items[i].plan, c.bs);
  }

  /** A flat plain file whose source ends before its size. */
  ghost predicate ShortSource(e: Entry)
    reads e`layout
  {
    && e.layout == FLAT_PLAIN && TypeOf(e.info.mode) == S_REG && e.info.data.Some?
    && |e.info.data.value| < e.info.size
  }

  lemma AddrStep(items: seq<Item>, all: seq<nat>, i: nat, addr: nat, c: Config)
    requires c.bs > 0 && i < |items| == |all| && DataAddrs(items[i..], addr, c) == all[i..]
    ensures var ds := PlainSize(items[i], c);
            && all[i] == (if ds > 0 then addr % 0x1_0000_0000 else 0)
            && DataAddrs(items[i + 1..], addr + CeilDiv(ds, c.bs), c) == all[i + 1..]
            && DataBlocks(items[i..], c) == CeilDiv(ds, c.bs) + DataBlocks(items[i + 1..], c)
            && (ds == 0 ==> CeilDiv(ds, c.bs) == 0)
  {
    hide PlainSize;
    assert items[i..][0] == items[i] && items[i..][1..] == items[i + 1..];
    assert all[i..][0] == all[i] && all[i..][1..] == all[i + 1..];
  }

  lemma SameLength(es: seq<Entry>, items: seq<Item>)
    requires Represents(es, items)
    ensures |es| == |items|
  {
  }

  lemma NoBlocks(items: seq<Item>, c: Config)
    requires c.bs > 0 && items == []
    ensures DataBlocks(items, c) == 0
  {
  }

  lemma PadSize(n: nat, bs: nat)
    requires bs > 0
    ensures RoundUp(n, bs) - n == if n % bs == 0 then 0 else bs - n % bs
  {
    var q, r := Quo(n, bs), Rem(n, bs);
    if r > 0 {
      MulStep(q, bs);
      DivUnique(n + bs - 1, bs, q + 1, r - 1);
    }
  }

  lemma NoNames(names: seq<bytes>)
    ensures NameOffset(names, 0) == SIZE_DIRENT * |names|
  {
    assert names[..0] == [];
  }

  lemma U16Wraps(v: nat)
    ensures U16(v % 0x1_0000) == U16(v)
  {
    LowBytes(v / 0x1_0000, v % 0x1_0000);
  }

  lemma LowBytes(q: nat, r: nat)
    ensures (0x1_0000 * q + r) % 256 == r % 256 && (0x1_0000 * q + r) / 256 % 256 == r / 256 % 256
  {
    var k := r / 256;
    assert r == 256 * k + r % 256;
    assert (0x1_0000 * q + r) / 256 == 256 * q + k;
  }

  lemma AddWraps(a: nat, b: nat)
    ensures (a % 0x1_0000 + b) % 0x1_0000 == (a + b) % 0x1_0000
  {
  }

  lemma OffsetGrows(ents: seq<Dirent>, j: nat)
    requires j < |ents|
    ensures NameOffset(Names(ents), j + 1) == NameOffset(Names(ents), j) + |ents[j].name|
  {
    NameLenStep(Names(ents), j);
  }

  lemma ConcatStep(names: seq<bytes>, j: nat)
    requires j < |names|
    ensures Concat(names[j..]) == names[j] + Concat(names[j + 1..])
  {
    assert names[j..][1..] == names[j + 1..];
  }

  lemma ConcatNone(names: seq<bytes>)
    requires names == []
    ensures Concat(names) == []
  {
  }

  lemma NoDirBytes(bs: nat)
    requires bs > 0
    ensures DirBytes([], bs) == []
  {
  }

  lemma BlockLength(ds: seq<Dirent>)
    ensures |BlockBytes(ds)| == Need(Names(ds))
  {
  }

  lemma BlockStep(ds: seq<Dirent>, start: nat, i: nat, bs: nat)
    requires bs > 0 && start < |ds| && i == start + FitCount(Names(ds)[start..], bs)
    ensures i <= |ds| && Need(Names(ds)[start..i]) == Need(Names(ds[start..i]))
    ensures DirBytes(ds[start..], bs) == PaddedBlock(ds[start..i], i < |ds|, bs) + DirBytes(ds[i..], bs)
  {
    hide PaddedBlock, NameLen;
    var rest := ds[start..];
    assert Names(ds)[start..] == Names(rest);
    assert rest[..i - start] == ds[start..i] && rest[i - start..] == ds[i..];
    assert Names(ds)[start..i] == Names(ds[start..i]);
  }

  lemma KidNamesAre(n: Node)
    ensures |KidNames(n)| == |n.kids| && forall k :: 0 <= k < |n.kids| ==> KidNames(n)[k] == n.kids[k].info.name
  {
  }

  lemma BlockIs(c: Config)
    requires ValidConfig(c)
    ensures BlockSize(c.bs) && c.bs > 0
  {
  }

  /** The steps of PlanOne, named. */
  lemma PlanParts(n: Node, off: nat, c: Config, first: nat, bits: nat)
    requires ValidConfig(c) && c.bs > 0
    requires var compact := FitsCompact(n.info, c);
             var header := CoreSize(compact) + XattrSize(n.info);
             first == FirstLayout(n, off, header, c) && bits == PlannedChunkBits(n, first, c)
    ensures var compact := FitsCompact(n.info, c);
            var header := CoreSize(compact) + XattrSize(n.info);
            var start := AlignCore(off, CoreSize(compact), c.bs);
            var layout := SettledLayout(first, start, header + Trailing(n, first, bits, c), c.bs);
            PlanOne(n, off, c) == Plan(start / 32, layout, compact, XattrSize(n.info), Trailing(n, layout, bits, c), bits)
  {
  }
}
