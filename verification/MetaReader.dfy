/**
 The in-memory fast path of image copying (mkfs_image.go): the metadata accessor with its block
 cache, and the whole-buffer directory parser.
 */
module MetaReader {
  import opened Bytes
  import opened Format
  import opened Dirents
  import opened Reader
  import opened DirReader
  import opened DirList

  /** What the accessor stands for: the image from `off` on, to the end of its area or block. */
  function View(image: bytes, metaStart: int, total: int, bs: nat, off: int): Option<bytes>
    requires bs > 0 && 0 <= total <= |image|
  {
    if off < 0 || off >= total then None
    else if off >= metaStart then Some(image[off..total])
    else Some(image[off..Min(Quo(off, bs) * bs + bs, total)])
  }

  /** newMetaReader's closure: a metadata buffer read once, and a cache of blocks before it. */
  class Accessor {
    const image: bytes
    const metaStart: nat
    const total: nat
    const bs: nat
    var metaBuf: Option<bytes>
    var cache: map<nat, bytes>

    constructor (image: bytes, metaStart: nat, total: nat, bs: nat)
      requires BlockSize(bs)
      ensures this.image == image && this.metaStart == metaStart && this.total == total && this.bs == bs
      ensures Valid() && (Alive() <==> metaStart < total <= |image|)
    {
      this.image, this.metaStart, this.total, this.bs := image, metaStart, total, bs;
      cache := map[];
      metaBuf := if total <= metaStart then None else
        match ReadAt(image, metaStart, total - metaStart)
        case Ok(b) => Some(b)
        case Err(_) => None;
    }

    /** The metadata area could be read. */
    predicate Alive()
      reads this
    {
      metaBuf.Some?
    }

    /** Everything held is a true slice of the image. */
    ghost predicate Valid()
      reads this
    {
      && BlockSize(bs)
      && (metaBuf.Some? ==> metaStart < total <= |image| && metaBuf.value == image[metaStart..total])
      && (forall k <- cache :: total <= |image| && Quo(k, bs) * bs == k < total && cache[k] == image[k..Min(k + bs, total)])
    }

    /**
     The accessor. Whatever has been asked before, so whether the block is cached or not, the answer
     is the image's bytes from off on, and nil exactly outside the image.
     */
    method At(off: int) returns (r: Option<bytes>)
      requires Valid()
      modifies this`cache
      ensures Valid()
      ensures !Alive() ==> r == None
      ensures Alive() ==> total <= |image| && r == View(image, metaStart, total, bs, off)
    {
      hide PowerOfTwo, Quo;
      if metaBuf == None {
        return None;
      }
      if off >= metaStart {
        var o := off - metaStart;
        if o >= |metaBuf.value| {
          return None;
        }
        SliceOfSlice(image, metaStart, total, o, total - metaStart);
        return Some(metaBuf.value[o..]);
      }
      if off < 0 || off >= total {
        return None;
      }
      var blkAddr := off - Rem(off, bs);
      assert blkAddr == Quo(off, bs) * bs;
      BlockStart(off, bs);
      var buf := BlockOnDemand(blkAddr);
      if buf == None {
        return None;
      }
      SliceOfSlice(image, blkAddr, Min(blkAddr + bs, total), off - blkAddr, Min(blkAddr + bs, total) - blkAddr);
      return Some(buf.value[off - blkAddr..]);
    }

    /** A block before the metadata area, from the cache or read and remembered. */
    method BlockOnDemand(blkAddr: nat) returns (r: Option<bytes>)
      requires Valid() && Alive() && Quo(blkAddr, bs) * bs == blkAddr < total
      modifies this`cache
      ensures Valid() && Alive() && r == Some(image[blkAddr..Min(blkAddr + bs, total)])
    {
      hide PowerOfTwo, Quo;
      if blkAddr in cache {
        return Some(cache[blkAddr]);
      }
      var sz := bs;
      if blkAddr + sz > total {
        sz := total - blkAddr;
      }
      var buf := ReadAt(image, blkAddr, sz);
      if buf.Err? {
        return None;
      }
      cache := cache[blkAddr := buf.value];
      return Some(buf.value);
    }
  }

  lemma BlockStart(off: nat, bs: nat)
    requires bs > 0
    ensures Quo(Quo(off, bs) * bs, bs) == Quo(off, bs)
  {
    MulMod(Quo(off, bs), bs);
  }

  // ---- parseDirBlock ----

  const SEP: byte := 47

  datatype Queued = Queued(nid: u64, path: bytes)

  function ChildPath(parent: bytes, name: bytes): bytes {
    if parent == [SEP] then [SEP] + name else parent + [SEP] + name
  }

  /** Queue entries for listed children. */
  function QueueOf(ds: seq<Dirent>, parent: bytes): seq<Queued> {
    if ds == [] then [] else [Queued(ds[0].nid, ChildPath(parent, ds[0].name))] + QueueOf(ds[1..], parent)
  }

  lemma {:induction false} QueueOfConcat(a: seq<Dirent>, b: seq<Dirent>, parent: bytes)
    ensures QueueOf(a + b, parent) == QueueOf(a, parent) + QueueOf(b, parent)
  {
    if a == [] {
      assert a + b == b;
    } else {
      assert (a + b)[0] == a[0] && (a + b)[1..] == a[1..] + b;
      QueueOfConcat(a[1..], b, parent);
    }
  }

  /** The trailing-NUL loop of parseDirBlock. */
  function TrimTrailing(b: bytes): (r: bytes)
    ensures |r| <= |b| && r == b[..|r|]
  {
    if b == [] || b[|b| - 1] != 0 then b else TrimTrailing(b[..|b| - 1])
  }

  lemma {:induction false} TrimZeros(name: bytes, z: nat)
    requires name != [] && 0 !in name
    ensures TrimTrailing(name + Zeros(z)) == name
  {
    var b := name + Zeros(z);
    if z == 0 {
      assert b == name && name[|name| - 1] in name;
    } else {
      assert b[..|b| - 1] == name + Zeros(z - 1);
      TrimZeros(name, z - 1);
    }
  }

  /** Entry i of a block, with both ways of ending its name, as the parser sees it. */
  lemma RawName(buf: bytes, b: seq<Dirent>, i: nat)
    requires IsBlock(buf, b) && i < |b|
    ensures SIZE_DIRENT * i + SIZE_DIRENT <= |buf|
    ensures var raw := DecodeRaw(buf, SIZE_DIRENT * i);
            && raw.nid == b[i].nid
            && (i < |b| - 1 ==> SIZE_DIRENT * (i + 1) + SIZE_DIRENT <= |buf|)
            && var end := if i < |b| - 1 then DecodeRaw(buf, SIZE_DIRENT * (i + 1)).nameOff else |buf|;
            && raw.nameOff < end <= |buf| && TrimTrailing(buf[raw.nameOff..end]) == b[i].name
  {
    hide IsBlock, NameOffset, DecodeRaw, Names, Need, TrimNul, ValidNames;
    RawOfBlock(buf, b, i);
    NameFacts(buf, b, i);
    TrimZeros(b[i].name, 0);
    assert b[i].name + Zeros(0) == b[i].name;
    if i < |b| - 1 {
      RawOfBlock(buf, b, i + 1);
    } else {
      LastNamePadded(buf, b);
      TrimZeros(b[i].name, |buf| - Need(Names(b)));
      assert buf[NameOffset(Names(b), i)..|buf|] == buf[NameOffset(Names(b), i)..];
    }
  }

  lemma NameFacts(buf: bytes, b: seq<Dirent>, i: nat)
    requires IsBlock(buf, b) && i < |b|
    ensures b[i].name != [] && 0 !in b[i].name
  {
    assert Names(b)[i] in Names(b);
  }

  /** The inner loop of parseDirBlock: the children listed in one block. */
  method ParseBlock(blk: bytes, parent: bytes, ghost b: seq<Dirent>) returns (found: seq<Queued>, ok: bool)
    ensures IsBlock(blk, b) ==> ok && found == QueueOf(Visible(b), parent)
  {
    hide IsBlock, Visible, DecodeRaw, QueueOf, ChildPath;
    ghost var good := IsBlock(blk, b);
    found := [];
    if good {
      FirstRaw(blk, b);
    }
    if |blk| < SIZE_DIRENT {
      return found, false;
    }
    var nEntries := DecodeRaw(blk, 0).nameOff / SIZE_DIRENT;
    if nEntries == 0 || nEntries * SIZE_DIRENT > |blk| {
      return found, false;
    }
    var i := 0;
    StartQueue(b, parent);
    while i < nEntries
      invariant i <= nEntries
      invariant good ==> found == QueueOf(Visible(b[..i]), parent)
    {
      if good {
        RawName(blk, b, i);
        NextInQueue(b, i, parent);
      }
      var raw := DecodeRaw(blk, i * SIZE_DIRENT);
      var nameEnd := if i < nEntries - 1 then DecodeRaw(blk, (i + 1) * SIZE_DIRENT).nameOff else |blk|;
      if !(raw.nameOff >= |blk| || nameEnd > |blk| || raw.nameOff >= nameEnd) {
        var name := TrimTrailing(blk[raw.nameOff..nameEnd]);
        if name != DOT && name != DOTDOT && name != [] {
          found := found + [Queued(raw.nid, ChildPath(parent, name))];
        }
      }
      if good {
        NameFacts(blk, b, i);
      }
      i := i + 1;
    }
    assert b[..|b|] == b;
    return found, true;
  }

  lemma StartQueue(b: seq<Dirent>, parent: bytes)
    ensures QueueOf(Visible(b[..0]), parent) == []
  {
  }

  lemma NextInQueue(b: seq<Dirent>, i: nat, parent: bytes)
    requires i < |b|
    ensures QueueOf(Visible(b[..i + 1]), parent)
         == QueueOf(Visible(b[..i]), parent)
            + if IsDot(b[i].name) then [] else [Queued(b[i].nid, ChildPath(parent, b[i].name))]
  {
    hide ChildPath;
    VisibleStep(b, 0, i);
    var one: seq<Dirent> := if IsDot(b[i].name) then [] else [b[i]];
    QueueOfConcat(Visible(b[..i]), one, parent);
  }

  /**
   parseDirBlock on directory data the writer packed: exactly the children that ReadDir lists, in the
   same order, with their nids.
   */
  method ParseDirBlock(data: bytes, dirSize: nat, bs: nat, parent: bytes, ghost ds: seq<Dirent>) returns (queue: seq<Queued>)
    requires BlockSize(bs) && dirSize <= |data|
    ensures ValidNames(Names(ds)) && data[..dirSize] == DirBytes(ds, bs) ==> queue == QueueOf(Visible(ds), parent)
  {
    hide DirBytes, Visible, QueueOf, Blocks, ValidNames, PowerOfTwo, IsBlock, PaddedBlock;
    ghost var good := ValidNames(Names(ds)) && data[..dirSize] == DirBytes(ds, bs);
    ghost var rest := ds;
    queue := [];
    var pos := 0;
    assert data[0..dirSize] == data[..dirSize];
    while pos < dirSize
      invariant pos <= dirSize
      invariant good ==> ValidNames(Names(rest)) && data[pos..dirSize] == DirBytes(rest, bs)
      invariant good ==> queue + QueueOf(Visible(rest), parent) == QueueOf(Visible(ds), parent)
    {
      var blockEnd := pos + bs;
      if blockEnd > dirSize {
        blockEnd := dirSize;
      }
      var blk := data[pos..blockEnd];
      ghost var head: seq<Dirent> := [];
      if good {
        NonEmptyDir(rest, bs);
        head := NextBlock(data[pos..dirSize], rest, bs, parent);
        SliceOfSlice(data, pos, dirSize, 0, blockEnd - pos);
        SliceOfSlice(data, pos, dirSize, blockEnd - pos, dirSize - pos);
      }
      var found, ok := ParseBlock(blk, parent, head);
      if !ok {
        break;
      }
      if good {
        ghost var more := QueueOf(Visible(Rest(rest, bs)), parent);
        assert queue + (found + more) == queue + found + more;
        rest := Rest(rest, bs);
      }
      queue := queue + found;
      pos := blockEnd;
    }
    if good {
      NothingListed(rest, bs, parent);
      assert queue + [] == queue;
    }
  }

  lemma NothingListed(rest: seq<Dirent>, bs: nat, parent: bytes)
    requires bs > 0
    ensures DirBytes(rest, bs) == [] ==> QueueOf(Visible(rest), parent) == []
  {
    NonEmptyDir(rest, bs);
  }

  /** The next block of remaining directory data, and what its entries contribute. */
  lemma NextBlock(data: bytes, rest: seq<Dirent>, bs: nat, parent: bytes) returns (head: seq<Dirent>)
    requires BlockSize(bs) && ValidNames(Names(rest)) && rest != [] && data == DirBytes(rest, bs)
    ensures ValidNames(Names(Rest(rest, bs)))
    ensures IsBlock(data[..Min(bs, |data|)], head) && data[Min(bs, |data|)..] == DirBytes(Rest(rest, bs), bs)
    ensures QueueOf(Visible(rest), parent) == QueueOf(Visible(head), parent) + QueueOf(Visible(Rest(rest, bs)), parent)
  {
    hide DirBytes, Visible, QueueOf, Blocks, ValidNames, PowerOfTwo, IsBlock, PaddedBlock;
    Unroll(rest, bs);
    head := Head(rest, bs);
    var first := PaddedBlock(head, Rest(rest, bs) != [], bs);
    PaddedIsBlock(rest, bs, 0);
    assert Blocks(rest, bs)[0] == head;
    assert 1 < |Blocks(rest, bs)| <==> Rest(rest, bs) != [];
    assert data == first + DirBytes(Rest(rest, bs), bs);
    assert |first| == Min(bs, |data|);
    assert rest == head + Rest(rest, bs);
    VisibleConcat(head, Rest(rest, bs));
    QueueOfConcat(Visible(head), Visible(Rest(rest, bs)), parent);
  }
}
