/**
 Stat (erofs.go): an inode's values and attributes. What it gives of an entry on a written image, and of a
 live path after Close, in terms of what the entry was given.
 */
module StatImage {
  import opened Bytes
  import opened Format
  import opened Modes
  import Xattrs
  import XattrReader
  import XattrImage
  import opened Layout
  import opened Tree
  import opened Placement
  import opened Reader
  import opened RoundTrip
  import opened TreeImage
  import opened Resolve
  import opened TreeResolve
  import opened Overlay
  import opened BuildTree
  import opened OverlayImage

  datatype Stat = Stat(
    ino: nat, layout: nat, mode: GoMode, size: int, rdev: u32, uid: u32, gid: u32, nlink: u32, mtime: u64, mtimeNs: u32,
    xattrs: map<bytes, bytes>)

  /** RdevFromMode */
  function RdevFromMode(mode: u16, data: u32): u32 {
    var t := TypeOf(mode);
    if t == S_CHR || t == S_BLK || t == S_FIFO || t == S_SOCK then data else 0
  }

  function StatOf(ino: Inode, xattrs: map<bytes, bytes>): Stat {
    Stat(ino.nid, ino.layout, ToGo(ino.mode), ino.size, RdevFromMode(ino.mode, ino.data), ino.uid, ino.gid, ino.nlink, ino.mtime, ino.mtimeNs,
         xattrs)
  }

  /** The attribute area right behind an inode core. */
  ghost predicate AttrsBehind(img: Image, ino: Inode, es: seq<Xattrs.Attr>) {
    && Xattrs.AllFit(es) && ino.xsize == |Xattrs.AreaBytes(es)|
    && XattrReader.Holds(img, InodeAddr(img, ino.nid) + ino.icsize, Xattrs.AreaBytes(es))
  }

  /** statInfo: the inode, and its attributes if it has any. */
  method StatInfo(img: Image, nid: nat, ghost es: seq<Xattrs.Attr>) returns (r: Result<Stat>)
    requires BlockSize(img.bs)
    ensures ReadInfo(img, nid).Err? ==> r == Err(ReadInfo(img, nid).error)
    ensures ReadInfo(img, nid).Ok? && ReadInfo(img, nid).value.xsize == 0 ==> r == Ok(StatOf(ReadInfo(img, nid).value, map[]))
    ensures ReadInfo(img, nid).Ok? && ReadInfo(img, nid).value.xsize > 0 && AttrsBehind(img, ReadInfo(img, nid).value, es) ==>
              r == Ok(StatOf(ReadInfo(img, nid).value, Xattrs.MapOf(es)))
  {
    hide ReadInfo, Xattrs.AllFit, XattrReader.Holds, Xattrs.AreaBytes, Xattrs.MapOf, StatOf;
    var info := ReadInfo(img, nid);
    if info.Err? {
      return Err(info.error);
    }
    var ino := info.value;
    if ino.xsize > 0 {
      var attrs := XattrReader.LoadXattrs(img, ino, es);
      return if attrs.Err? then Err(attrs.error) else Ok(StatOf(ino, attrs.value));
    }
    return Ok(StatOf(ino, map[]));
  }

  // ---- On the written image ----

  /** A stat shows an entry: every value it was given, but for the nanoseconds of one that got a compact inode. */
  ghost predicate Shows(s: Stat, i: Info, c: Config) {
    && s.mode == ToGo(i.mode) && s.uid == i.uid && s.gid == i.gid && s.nlink == i.nlink && s.mtime == i.mtime
    && s.mtimeNs == (if InCompact(i, c) then c.buildTimeNs else i.mtimeNs)
    && s.rdev == (if TypeOf(i.mode) in {S_CHR, S_BLK, S_FIFO, S_SOCK} then i.rdev else 0)
    && (TypeOf(i.mode) == S_LNK ==> s.size == |i.symTarget|)
    && (TypeOf(i.mode) !in {S_DIR, S_LNK} ==> s.size == i.size)
    && s.xattrs == i.xattrs
  }

  /** Everything fits 16 and 32 bits and the time is the build time's second. */
  predicate InCompact(i: Info, c: Config) {
    && i.uid <= 0xFFFF && i.gid <= 0xFFFF && i.nlink <= 0xFFFF && i.size <= 0xFFFF_FFFF
    && i.mtime == c.buildTime && i.mtimeNs == 0
  }

  /** The values of an entry's inode, from the tree. */
  lemma EntryInode(img: Image, sb: bytes, root: Node, c: Config, i: nat)
    requires Mounted(img, sb, root, c) && i < |Preorder(root)|
    ensures BlockSize(img.bs) && ValidConfig(c) && c.bs > 0 && ReadInfo(img, NidOf(root, c)(i)).Ok?
    ensures var ino, info := ReadInfo(img, NidOf(root, c)(i)).value, Preorder(root)[i].info;
            && ino.mode == info.mode && ino.uid == info.uid && ino.gid == info.gid && ino.nlink == info.nlink && ino.mtime == info.mtime
            && ino.mtimeNs == (if InCompact(info, c) then c.buildTimeNs else info.mtimeNs)
            && (TypeOf(info.mode) in {S_CHR, S_BLK, S_FIFO, S_SOCK} ==> ino.data == info.rdev)
            && (TypeOf(info.mode) == S_LNK ==> ino.size == |info.symTarget|)
            && (TypeOf(info.mode) !in {S_DIR, S_LNK} ==> ino.size == info.size)
            && ino.nid == NidOf(root, c)(i)
  {
    hide *;
    MountedFacts(img, sb, root, c);
    NidIs(root, c, i);
    TreeItem(root, c, i);
    InodeFields(img, sb, ItemsOf(root, c), c, i);
    CompactChosen(root, c, i);
    Halves(Preorder(root)[i].info, c);
  }

  lemma TreeItem(root: Node, c: Config, i: nat)
    requires ValidConfig(c) && i < |Preorder(root)|
    ensures |ItemsOf(root, c)| == |Preorder(root)| && ItemsOf(root, c)[i].node == Preorder(root)[i]
    ensures ItemsOf(root, c)[i].plan == PlanAll(Preorder(root), c)[i]
  {
    hide Preorder, PlanAll, EntriesAt;
  }

  lemma Halves(i: Info, c: Config)
    ensures InCompact(i, c) <==>
              && i.uid <= 0xFFFF && i.gid <= 0xFFFF && i.nlink <= 0xFFFF && i.size <= 0xFFFF_FFFF
              && i.mtime == c.buildTime && i.mtimeNs == 0
    ensures InCompact(i, c) ==> i.uid % 0x1_0000 == i.uid && i.gid % 0x1_0000 == i.gid && i.nlink % 0x1_0000 == i.nlink
  {
  }

  /** The attributes of an entry, as they lie on the image. */
  lemma EntryAttrs(img: Image, sb: bytes, root: Node, c: Config, i: nat)
    requires Mounted(img, sb, root, c) && i < |Preorder(root)| && XattrImage.AttrsFit(Preorder(root)[i].info.xattrs)
    ensures BlockSize(img.bs) && ValidConfig(c) && ReadInfo(img, NidOf(root, c)(i)).Ok?
    ensures var ino, xs := ReadInfo(img, NidOf(root, c)(i)).value, Preorder(root)[i].info.xattrs;
            && (xs == map[] <==> ino.xsize == 0)
            && (xs != map[] ==> AttrsBehind(img, ino, Xattrs.SortedAttrs(xs)) && Xattrs.MapOf(Xattrs.SortedAttrs(xs)) == xs)
  {
    hide *;
    MountedFacts(img, sb, root, c);
    NidIs(root, c, i);
    TreeItem(root, c, i);
    var items := ItemsOf(root, c);
    var xs := Preorder(root)[i].info.xattrs;
    InodeReads(img, sb, root, c, i);
    AttrSize(img, sb, items, c, i);
    if xs != map[] {
      XattrImage.AreaStored(img, sb, items, c, i);
      Xattrs.MapOfSorted(xs);
      BehindIf(img, ReadInfo(img, items[i].plan.nid).value, xs);
    }
  }

  lemma AttrSize(img: Image, sb: bytes, items: seq<Item>, c: Config, i: nat)
    requires Opened(img, sb, items, c) && i < |items| && c.bs > 0
    requires FieldsFit(items[i], c) && !(i == |items| - 1 && CutOff(items, c))
    ensures BlockSize(img.bs) && ReadInfo(img, items[i].plan.nid).Ok?
    ensures ReadInfo(img, items[i].plan.nid).value.xsize == 0 <==> items[i].node.info.xattrs == map[]
  {
    hide *;
    OpenedFacts(img, sb, items, c);
    PlannedFacts(items, c);
    ReadyFacts(items[i], c);
    RoomForInode(img, sb, items, c, i);
    InodeOnImage(img, sb, items, c, i);
    ExpectedFields(img, items, i, c);
    NoAttrs(items[i].node.info);
  }

  lemma NoAttrs(i: Info)
    ensures XattrSize(i) == 0 <==> i.xattrs == map[]
  {
    hide Xattrs.SortedAttrs;
  }

  lemma BehindIf(img: Image, ino: Inode, xs: map<bytes, bytes>)
    requires XattrImage.AttrsFit(xs) && ino.xsize == |Xattrs.AreaBytes(Xattrs.SortedAttrs(xs))|
    requires XattrReader.Holds(img, InodeAddr(img, ino.nid) + ino.icsize, Xattrs.AreaBytes(Xattrs.SortedAttrs(xs)))
    ensures AttrsBehind(img, ino, Xattrs.SortedAttrs(xs))
  {
    hide Xattrs.AllFit, XattrReader.Holds, Xattrs.AreaBytes, Xattrs.SortedAttrs;
  }

  /** Stat on a written image shows the entry of the tree. */
  method StatEntry(img: Image, nid: nat, ghost sb: bytes, ghost root: Node, ghost c: Config, ghost i: nat) returns (r: Result<Stat>)
    requires BlockSize(img.bs)
    ensures Mounted(img, sb, root, c) && ValidConfig(c) && i < |Preorder(root)| && nid == NidOf(root, c)(i)
            && XattrImage.AttrsFit(Preorder(root)[i].info.xattrs) ==>
              r.Ok? && r.value.ino == nid && Shows(r.value, Preorder(root)[i].info, c)
  {
    hide Mounted, Preorder, NidOf, ReadInfo, XattrImage.AttrsFit, AttrsBehind, InCompact, Xattrs.MapOf, Xattrs.SortedAttrs;
    ghost var good := Mounted(img, sb, root, c) && ValidConfig(c) && i < |Preorder(root)| && nid == NidOf(root, c)(i)
                      && XattrImage.AttrsFit(Preorder(root)[i].info.xattrs);
    ghost var es: seq<Xattrs.Attr> := [];
    if good {
      EntryInode(img, sb, root, c, i);
      EntryAttrs(img, sb, root, c, i);
      es := Xattrs.SortedAttrs(Preorder(root)[i].info.xattrs);
    }
    r := StatInfo(img, nid, es);
  }

  // ---- At a live path ----

  /** A live path's entry as the writer completes it: its own values, with the link count of its place. */
  ghost function Completed(m: View, p: Path): Info
    requires p in m
  {
    m[p].info.(nlink := LinksAt(m, p))
  }

  /** The position of a live path's entry, with the nid that resolving the path gives. */
  lemma LivePlace(img: Image, sb: bytes, m: View, c: Config, p: Path) returns (i: nat)
    requires [] in m && Shaped(m) && GoodNames(m) && p in m && Mounted(img, sb, Root(m), c)
    ensures BlockSize(img.bs) && ValidConfig(c) && i < |Preorder(Root(m))| && ResolveSpec(img, Join(p), false).Ok?
    ensures ResolveSpec(img, Join(p), false).value.nid == NidOf(Root(m), c)(i)
    ensures Preorder(Root(m))[i].info == InfoAt(m, p)
  {
    hide Shaped, GoodNames, Mounted, Preorder, Root, NidOf, ResolveSpec, Join, InfoAt, HasContent, Stored, Content;
    MountedFacts(img, sb, Root(m), c);
    if p == [] {
      RootThere(m);
      i := OnePlace(m, p);
      AtRoot(img, sb, m, c, i);
    } else {
      i := LivePathResolves(img, sb, m, c, p);
    }
  }

  lemma AtRoot(img: Image, sb: bytes, m: View, c: Config, i: nat)
    requires [] in m && Mounted(img, sb, Root(m), c) && i < |Preorder(Root(m))| && PathOf(Root(m), i) == []
    ensures BlockSize(img.bs) && ValidConfig(c)
    ensures ResolveSpec(img, Join([]), false).Ok? && ResolveSpec(img, Join([]), false).value.nid == NidOf(Root(m), c)(i)
  {
    hide Mounted, Preorder, Root, NidOf, Clean;
    MountedFacts(img, sb, Root(m), c);
    RootMirrors(img, sb, Root(m), c);
    EmptyName();
  }

  lemma EmptyName()
    ensures StartName(Join([])) == []
  {
    assert Split([]) == [[]];
    assert Normalize([[]], false, []) == [];
  }

  /** A live path on the opened image of its map, its attributes within their entries' fields. */
  ghost predicate LiveOn(img: Image, sb: bytes, m: View, c: Config, p: Path) {
    [] in m && Shaped(m) && GoodNames(m) && p in m && Mounted(img, sb, Root(m), c) && XattrImage.AttrsFit(m[p].info.xattrs)
  }

  /** A stat that shows the converted entry shows the path's own values. */
  lemma ShowsCompleted(s: Stat, m: View, p: Path, c: Config)
    requires p in m
    ensures InfoAt(m, p).xattrs == m[p].info.xattrs
    ensures Shows(s, InfoAt(m, p), c) ==> Shows(s, Completed(m, p), c)
  {
    hide InfoAt, LinksAt, TypeOf;
    BuildTree.OwnFields(m, p);
    ModeAt(m, p);
  }

  lemma LiveThere(img: Image, sb: bytes, m: View, c: Config, p: Path) returns (i: nat)
    requires LiveOn(img, sb, m, c, p)
    ensures [] in m && p in m && BlockSize(img.bs) && ValidConfig(c) && Mounted(img, sb, Root(m), c) && i < |Preorder(Root(m))|
    ensures ResolveSpec(img, Join(p), false).Ok? && ResolveSpec(img, Join(p), false).value.nid == NidOf(Root(m), c)(i)
    ensures Preorder(Root(m))[i].info == InfoAt(m, p) && XattrImage.AttrsFit(InfoAt(m, p).xattrs)
  {
    hide Shaped, GoodNames, Mounted, Preorder, Root, NidOf, ResolveSpec, Join, InfoAt, XattrImage.AttrsFit;
    i := LivePlace(img, sb, m, c, p);
    BuildTree.OwnFields(m, p);
    ModeAt(m, p);
  }

  /**
   Lstat of a live path after Close: the values, attributes included, that its entry was given, with the
   link count that was given, or 2 and one per live directory in it, or 1.
   */
  method Lstat(img: Image, name: bytes, ghost sb: bytes, ghost m: View, ghost c: Config, ghost p: Path) returns (r: Result<Stat>)
    requires BlockSize(img.bs)
    ensures ResolveSpec(img, name, false).Err? ==> r == Err(ResolveSpec(img, name, false).error)
    ensures LiveOn(img, sb, m, c, p) && name == Join(p) ==> p in m && r.Ok? && Shows(r.value, Completed(m, p), c)
  {
    hide LiveOn, Mounted, Preorder, NidOf, Root, XattrImage.AttrsFit, ResolveSpec, Join, Shows, InfoAt, Completed;
    ghost var good := LiveOn(img, sb, m, c, p) && name == Join(p);
    ghost var i := 0;
    ghost var root: Node := *;
    if good {
      i := LiveThere(img, sb, m, c, p);
      root := Root(m);
    }
    var found := Resolve.Resolve(img, name, false);
    if found.Err? {
      return Err(found.error);
    }
    r := StatEntry(img, found.value.nid, sb, root, c, i);
    if good {
      ShowsCompleted(r.value, m, p, c);
    }
  }

  /**
   ReadFile of a live regular file with a source: the source's bytes, cut off or continued with zeros to the
   file's size, or a refusal above 128 MiB.
   */
  lemma LiveFile(img: Image, sb: bytes, m: View, c: Config, p: Path)
    requires Shaped(m) && GoodNames(m) && p in m && p != [] && Mounted(img, sb, Root(m), c)
    requires var a := m[p].info;
             TypeOf(a.mode) == S_REG && a.size > 0 && a.data.Some? && a.chunks == [] && !a.metadataOnly
    ensures BlockSize(img.bs)
    ensures FileBytes(img, Join(p))
         == if m[p].info.size > 128 * 1024 * 1024 then Err(Invalid) else Ok(Fit(m[p].info.data.value, m[p].info.size))
  {
    hide Shaped, GoodNames, Mounted, Preorder, Root, FileBytes, Join, InfoAt, PathOf, Named, LinksAt, TypeOf, Fit;
    RootThere(m);
    var i := OnePlace(m, p);
    GoodPath(m, p);
    NotRoot(m, i, p);
    ModeAt(m, p);
    BuildTree.OwnFields(m, p);
    FileByPath(img, sb, Root(m), c, i);
  }

  /** ReadFile of a live directory is refused. */
  lemma LiveDir(img: Image, sb: bytes, m: View, c: Config, p: Path)
    requires Shaped(m) && GoodNames(m) && p in m && p != [] && Mounted(img, sb, Root(m), c) && DirAttr(m[p])
    ensures BlockSize(img.bs) && FileBytes(img, Join(p)) == Err(IsDirectory)
  {
    hide Shaped, GoodNames, Mounted, Preorder, Root, ResolveSpec, Join, InfoAt, PathOf, Named, NidOf, HasContent, Content, Stored, ReadInfo, ReadWhole;
    RootThere(m);
    var i := OnePlace(m, p);
    GoodPath(m, p);
    NotRoot(m, i, p);
    ModeAt(m, p);
    EntryByPath(img, sb, Root(m), c, i, true);
  }
}
