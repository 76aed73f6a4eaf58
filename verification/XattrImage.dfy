/** Attributes on the written image: what the windowed parser returns for an entry is its own map. */
module XattrImage {
  import opened Bytes
  import opened Format
  import opened Xattrs
  import opened XattrReader
  import opened Layout
  import opened Inodes
  import opened Placement
  import opened Reader
  import opened RoundTrip

  /** Every attribute fits its entry's fields. */
  ghost predicate AttrsFit(m: map<bytes, bytes>) {
    AllFit(SortedAttrs(m))
  }

  lemma AreaStored(img: Image, sb: bytes, items: seq<Item>, c: Config, i: nat)
    requires Opened(img, sb, items, c) && i < |items| && c.bs > 0
    requires FieldsFit(items[i], c) && !(i == |items| - 1 && CutOff(items, c))
    requires items[i].node.info.xattrs != map[]
    ensures BlockSize(img.bs) && ReadInfo(img, items[i].plan.nid) == Ok(ExpectedInode(img, items, i, c))
    ensures var ino, es := ExpectedInode(img, items, i, c), SortedAttrs(items[i].node.info.xattrs);
            Holds(img, InodeAddr(img, ino.nid) + ino.icsize, AreaBytes(es)) && ino.xsize == |AreaBytes(es)|
  {
    hide *;
    OpenedFacts(img, sb, items, c);
    PlannedFacts(items, c);
    ReadyFacts(items[i], c);
    RoomForInode(img, sb, items, c, i);
    InodeOnImage(img, sb, items, c, i);
    ExpectedFields(img, items, i, c);
    AreaOf(items[i].node.info);
    HoldsIf(img, InodeAddr(img, items[i].plan.nid) + CoreSize(items[i].plan.compact), AreaBytes(SortedAttrs(items[i].node.info.xattrs)));
  }

  lemma AreaOf(i: Info)
    requires i.xattrs != map[]
    ensures XattrArea(i.xattrs) == AreaBytes(SortedAttrs(i.xattrs)) && XattrSize(i) == |AreaBytes(SortedAttrs(i.xattrs))|
  {
    hide AreaBytes, SortedAttrs;
  }

  lemma HoldsIf(img: Image, addr: nat, area: bytes)
    requires BlockSize(img.bs) && At(img.meta, addr, area)
    ensures Holds(img, addr, area)
  {
  }

  /**
   Attribute round trip. For an entry whose attributes fit their fields and whose area fits the
   count, loadXattrs on its inode returns exactly the map it was given, through any block size.
   */
  method ReadAttributes(img: Image, ghost sb: bytes, ghost items: seq<Item>, ghost c: Config, ghost i: nat, nid: nat)
    returns (r: Result<map<bytes, bytes>>)
    requires BlockSize(img.bs)
    ensures Opened(img, sb, items, c) && i < |items| && c.bs > 0 && nid == items[i].plan.nid
            && FieldsFit(items[i], c) && !(i == |items| - 1 && CutOff(items, c))
            && items[i].node.info.xattrs != map[] && AttrsFit(items[i].node.info.xattrs) ==>
              r == Ok(items[i].node.info.xattrs)
  {
    hide Opened, FieldsFit, CutOff, ReadInfo, ExpectedInode, AllFit, MapOf, SortedAttrs, AreaBytes, InodeAddr, PowerOfTwo, Holds;
    ghost var good := Opened(img, sb, items, c) && i < |items| && c.bs > 0 && nid == items[i].plan.nid
                      && FieldsFit(items[i], c) && !(i == |items| - 1 && CutOff(items, c))
                      && items[i].node.info.xattrs != map[] && AttrsFit(items[i].node.info.xattrs);
    ghost var es: seq<Attr> := [];
    if good {
      AreaStored(img, sb, items, c, i);
      es := SortedAttrs(items[i].node.info.xattrs);
      MapOfSorted(items[i].node.info.xattrs);
    }
    var info := ReadInfo(img, nid);
    if info.Err? {
      return Err(info.error);
    }
    r := LoadXattrs(img, info.value, es);
  }
}
