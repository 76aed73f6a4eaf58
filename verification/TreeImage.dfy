/** From an entry tree to its planned list, and name lookup in the directories of its image. */
module TreeImage {
  import opened Bytes
  import opened Order
  import opened Format
  import opened Dirents
  import opened DirReader
  import opened DirList
  import opened Chunks
  import opened Xattrs
  import opened Layout
  import opened Tree
  import opened Inodes
  import opened Placement
  import opened Reader
  import opened RoundTrip

  /** uint64(offset / 32) */
  function Nid64(n: nat): u64 { n % 0x1_0000_0000_0000_0000 }

  /** Child dirents of the entry at position i: names, planned nids, types. */
  function ChildDirents(es: seq<Node>, ps: seq<Plan>, i: nat): (r: seq<Dirent>)
    requires |es| == |ps| && i < |es|
    requires forall k :: 0 <= k < |es[i].kids| ==> i + KidIndex(es[i], k) < |es|
    ensures |r| == |es[i].kids|
    ensures forall k :: 0 <= k < |r| ==> r[k].name == es[i].kids[k].info.name
  {
    seq(|es[i].kids|, k requires 0 <= k < |es[i].kids| =>
      Dirent(es[i].kids[k].info.name, Nid64(ps[i + KidIndex(es[i], k)].nid), FileTypeByte(es[i].kids[k].info.mode)))
  }

  lemma KidsInRange(root: Node, i: nat)
    requires i < |Preorder(root)| && IsDir(Preorder(root)[i].info.mode)
    ensures forall k :: 0 <= k < |Preorder(root)[i].kids| ==>
              && i + KidIndex(Preorder(root)[i], k) < |Preorder(root)|
              && Preorder(root)[i + KidIndex(Preorder(root)[i], k)] == Preorder(root)[i].kids[k]
  {
    hide Preorder, KidIndex;
    var e := Preorder(root)[i];
    SubtreeSlice(root, i);
    forall k | 0 <= k < |e.kids|
      ensures i + KidIndex(e, k) < |Preorder(root)| && Preorder(root)[i + KidIndex(e, k)] == e.kids[k]
    {
      KidAt(e, k);
      assert |Preorder(e.kids[k])| > 0;
      var n := |Preorder(e)|;
      assert Preorder(root)[i..i + n][KidIndex(e, k)] == Preorder(e)[KidIndex(e, k)];
    }
  }

  /** The dirents writeDirents builds for the entry at position i; none for other entries. */
  ghost function EntriesAt(root: Node, c: Config, i: nat): seq<Dirent>
    requires ValidConfig(c) && i < |Preorder(root)|
  {
    var es := Preorder(root);
    var ps := PlanAll(es, c);
    if IsDir(es[i].info.mode) then
      KidsInRange(root, i);
      ParentInRange(root, i);
      EntryList(Nid64(ps[i].nid), Nid64(ps[Parents(root, 0, 0)[i]].nid), ChildDirents(es, ps, i))
    else []
  }

  lemma ParentInRange(root: Node, i: nat)
    requires i < |Preorder(root)|
    ensures Parents(root, 0, 0)[i] < |Preorder(root)|
  {
    if i > 0 {
      var k := ParentHasKid(root, 0, 0, i);
    }
  }

  /** The writer's list for a tree. */
  ghost function ItemsOf(root: Node, c: Config): (r: seq<Item>)
    requires ValidConfig(c)
    ensures |r| == |Preorder(root)|
    ensures forall i :: 0 <= i < |r| ==>
              r[i] == Item(Preorder(root)[i], PlanAll(Preorder(root), c)[i], EntriesAt(root, c, i))
  {
    seq(|Preorder(root)|, i requires 0 <= i < |Preorder(root)| =>
      Item(Preorder(root)[i], PlanAll(Preorder(root), c)[i], EntriesAt(root, c, i)))
  }

  /** What buildErofsTree guarantees of an entry. */
  ghost predicate NodeOK(n: Node) {
    var i := n.info;
    && (TypeOf(i.mode) == S_REG && i.size > 0 && i.data == None ==> i.chunks != [] || i.metadataOnly)
    && (!IsDir(i.mode) ==> n.kids == [])
    && ValidNames(KidNames(n))
    && (forall k :: 0 <= k < |n.kids| ==> !IsDot(n.kids[k].info.name))
  }

  ghost predicate TreeOK(root: Node) {
    IsDir(root.info.mode) && forall n <- Preorder(root) :: NodeOK(n)
  }

  lemma {:induction false} PlanAt(es: seq<Node>, off: nat, c: Config, i: nat) returns (o: nat)
    requires ValidConfig(c) && i < |es| && off % 32 == 0
    ensures o % 32 == 0 && PlanFrom(es, off, c)[i] == PlanOne(es[i], o, c)
    decreases i
  {
    hide PlanOne;
    if i == 0 {
      o := off;
    } else {
      PlanOneSafe(es[0], off, c);
      o := PlanAt(es[1..], End(PlanOne(es[0], off, c)), c, i - 1);
    }
  }

  /** Which entries get a compact inode. */
  lemma CompactChosen(root: Node, c: Config, i: nat)
    requires ValidConfig(c) && i < |Preorder(root)|
    ensures var info := Preorder(root)[i].info;
            PlanAll(Preorder(root), c)[i].compact <==>
              && info.uid <= 0xFFFF && info.gid <= 0xFFFF && info.nlink <= 0xFFFF && info.size <= 0xFFFF_FFFF
              && info.mtime == c.buildTime && info.mtimeNs == 0
  {
    hide Preorder, FirstLayout, Trailing, PlannedChunkBits, XattrSize, AlignCore, SettledLayout, PowerOfTwo;
    var o := PlanAt(Preorder(root), 0, c, i);
  }

  /** A planned node with matching dirents is ready to be written. */
  lemma PlanReady(n: Node, off: nat, c: Config, entries: seq<Dirent>)
    requires ValidConfig(c) && NodeOK(n)
    requires IsDir(n.info.mode) ==> Names(entries) == NameList(KidNames(n))
    ensures Ready(Item(n, PlanOne(n, off, c), entries), c)
  {
    hide Trailing, XattrSize, DirDataSize, NameList, Rem, AlignCore, ValidNames, PowerOfTwo, ChunkBitsFor;
  }

  lemma EntriesNamed(root: Node, c: Config, i: nat)
    requires ValidConfig(c) && i < |Preorder(root)| && IsDir(Preorder(root)[i].info.mode)
    ensures Names(EntriesAt(root, c, i)) == NameList(KidNames(Preorder(root)[i]))
  {
    hide Preorder, PlanAll, KidIndex, NameList, EntryList, Parents;
    var es := Preorder(root);
    var ps := PlanAll(es, c);
    KidsInRange(root, i);
    ParentInRange(root, i);
    var kids := ChildDirents(es, ps, i);
    EntryListNames(Nid64(ps[i].nid), Nid64(ps[Parents(root, 0, 0)[i]].nid), kids);
    assert Names(kids) == KidNames(es[i]);
  }

  /** Block budget of an image: everything fits 32-bit block addresses. */
  ghost predicate FitsBlocks(root: Node, c: Config) {
    ValidConfig(c) && c.bs > 0 && TotalBlocks(ItemsOf(root, c), c) < 0x1_0000_0000
  }

  /** Planning a well-formed tree gives a list the write passes can land. */
  lemma TreePlanned(root: Node, c: Config)
    requires TreeOK(root) && FitsBlocks(root, c)
    ensures ValidConfig(c) && Planned(ItemsOf(root, c), c)
  {
    hide Preorder, PlanAll, Ready, EntriesAt, NodeOK, TotalBlocks;
    var items := ItemsOf(root, c);
    forall it <- items
      ensures Ready(it, c)
    {
      var i :| 0 <= i < |items| && items[i] == it;
      ItemReady(root, c, i);
    }
    SafeList(root, c);
    Budget(items, c);
  }

  lemma ItemReady(root: Node, c: Config, i: nat)
    requires TreeOK(root) && ValidConfig(c) && i < |Preorder(root)|
    ensures Ready(ItemsOf(root, c)[i], c)
  {
    hide Preorder, Ready, EntriesAt, NodeOK, PlanOne, NameList, PlanFrom;
    var es := Preorder(root);
    assert es[i] in es;
    var o := PlanAt(es, 0, c, i);
    if IsDir(es[i].info.mode) {
      EntriesNamed(root, c, i);
    }
    PlanReady(es[i], o, c, EntriesAt(root, c, i));
  }

  lemma SafeList(root: Node, c: Config)
    requires ValidConfig(c)
    ensures c.bs > 0 && SafeFrom(PlansOf(ItemsOf(root, c)), 0, c.bs)
  {
    hide Preorder, EntriesAt, PlanFrom, SafeFrom, PowerOfTwo;
    PlanFromSafe(Preorder(root), 0, c);
    assert PlansOf(ItemsOf(root, c)) == PlanAll(Preorder(root), c);
  }

  lemma Budget(items: seq<Item>, c: Config)
    requires AllReady(items, c) && c.bs > 0 && SafeFrom(PlansOf(items), 0, c.bs) && TotalBlocks(items, c) < 0x1_0000_0000
    ensures Planned(items, c)
  {
  }

  /** Planned node numbers are far below 2^64. */
  lemma NidFits(items: seq<Item>, c: Config, i: nat)
    requires Planned(items, c) && i < |items|
    ensures Nid64(items[i].plan.nid) == items[i].plan.nid
  {
    hide AllReady, SafeFrom, MetaEnd, CeilDiv, DataBlocks, SbBlocks, Ready, ItemOK, Planned, PlansOf;
    PlannedFacts(items, c);
    MetaEndIs(items, 0, c.bs, i);
    RoundUpBlocks(MetaEnd(items, 0), c.bs);
    SmallNid(items[i].plan.nid, MetaEnd(items, 0), CeilDiv(MetaEnd(items, 0), c.bs), c.bs);
  }

  lemma SmallNid(nid: nat, end: nat, blocks: nat, bs: nat)
    requires nid * 32 <= end <= blocks * bs && blocks < 0x1_0000_0000 && bs <= 0x1_0000
    ensures Nid64(nid) == nid
  {
    MulMono(blocks, 0x1_0000_0000, bs);
  }

  /** Lookup in the tree: position of the entry a name in directory i refers to. */
  ghost function TreeLookup(root: Node, i: nat, name: bytes): (r: Option<nat>)
    requires i < |Preorder(root)| && IsDir(Preorder(root)[i].info.mode)
    ensures r.Some? ==> r.value < |Preorder(root)|
  {
    ParentInRange(root, i);
    KidsInRange(root, i);
    if name == DOT then Some(i)
    else if name == DOTDOT then Some(Parents(root, 0, 0)[i])
    else
      match KidNamed(Preorder(root)[i].kids, name)
      case None => None
      case Some(k) => Some(i + KidIndex(Preorder(root)[i], k))
  }

  /** Index of the kid of that name. */
  function KidNamed(kids: seq<Node>, name: bytes): (r: Option<nat>)
    ensures r.Some? ==> r.value < |kids| && kids[r.value].info.name == name
    ensures r == None ==> forall k :: 0 <= k < |kids| ==> kids[k].info.name != name
  {
    if kids == [] then None
    else if kids[0].info.name == name then Some(0)
    else
      match KidNamed(kids[1..], name)
      case None => None
      case Some(k) =>
        assert kids[1..][k] == kids[k + 1];
        Some(k + 1)
  }

  /** What a lookup on the image should answer for a tree position: its nid and type. */
  ghost function Answer(root: Node, c: Config, r: Option<nat>): Result<(u64, FileMode)>
    requires ValidConfig(c) && (r.Some? ==> r.value < |Preorder(root)|)
  {
    match r
    case None => Err(NotExist)
    case Some(j) => Ok((Nid64(PlanAll(Preorder(root), c)[j].nid), FileModeOf(FileTypeByte(Preorder(root)[j].info.mode))))
  }

  /** Finding a name in the sorted list is finding it among ".", ".." and the children. */
  lemma FindMember(self: u64, parent: u64, children: seq<Dirent>, d: Dirent)
    requires ValidChildren(children) && d in Unsorted(self, parent, children)
    ensures Find(EntryList(self, parent, children), d.name) == Ok((d.nid, FileModeOf(d.ftype)))
  {
    hide Find, ValidNames;
    var ds := EntryList(self, parent, children);
    VisibleIsChildren(self, parent, children);
    SortElements(NameOf, Unsorted(self, parent, children));
    assert d in multiset(ds);
    var j :| 0 <= j < |ds| && ds[j] == d;
    AscendingOf(ds);
    FindAt(ds, j);
  }

  lemma FindAbsent(self: u64, parent: u64, children: seq<Dirent>, name: bytes)
    requires ValidChildren(children) && forall d <- Unsorted(self, parent, children) :: d.name != name
    ensures Find(EntryList(self, parent, children), name) == Err(NotExist)
  {
    hide Find, ValidNames;
    var ds := EntryList(self, parent, children);
    SortElements(NameOf, Unsorted(self, parent, children));
    forall d <- ds
      ensures d.name != name
    {
      assert d in multiset(ds);
    }
    FindNone(ds, name);
  }

  lemma ChildrenValid(root: Node, c: Config, i: nat)
    requires TreeOK(root) && ValidConfig(c) && i < |Preorder(root)| && IsDir(Preorder(root)[i].info.mode)
    ensures forall k :: 0 <= k < |Preorder(root)[i].kids| ==> i + KidIndex(Preorder(root)[i], k) < |Preorder(root)|
    ensures ValidChildren(ChildDirents(Preorder(root), PlanAll(Preorder(root), c), i))
  {
    hide Preorder, PlanAll, KidIndex, ValidNames;
    KidsInRange(root, i);
    var es := Preorder(root);
    var kids := ChildDirents(es, PlanAll(es, c), i);
    assert es[i] in es;
    assert Names(kids) == KidNames(es[i]);
  }

  /** The dirents of a directory answer every name as the tree does. */
  lemma FindIsTreeLookup(root: Node, c: Config, i: nat, name: bytes)
    requires TreeOK(root) && ValidConfig(c) && i < |Preorder(root)| && IsDir(Preorder(root)[i].info.mode)
    ensures Find(EntriesAt(root, c, i), name) == Answer(root, c, TreeLookup(root, i, name))
  {
    hide Preorder, PlanAll, KidIndex, Find, EntryList, Parents, ValidChildren, Unsorted;
    var es := Preorder(root);
    var ps := PlanAll(es, c);
    ChildrenValid(root, c, i);
    ParentInRange(root, i);
    KidsInRange(root, i);
    var kids := ChildDirents(es, ps, i);
    var self, parent := Nid64(ps[i].nid), Nid64(ps[Parents(root, 0, 0)[i]].nid);
    assert EntriesAt(root, c, i) == EntryList(self, parent, kids);
    if name == DOT || name == DOTDOT {
      ParentIsDir(root, i);
      DotsFound(self, parent, kids);
    } else {
      match KidNamed(es[i].kids, name)
      case Some(k) => KidFound(self, parent, kids, k);
      case None =>
        assert forall k :: 0 <= k < |kids| ==> kids[k].name != name;
        NoneFound(self, parent, kids, name);
    }
  }

  lemma DotsFound(self: u64, parent: u64, kids: seq<Dirent>)
    requires ValidChildren(kids)
    ensures Find(EntryList(self, parent, kids), DOT) == Ok((self, FileModeOf(FileTypeByte(S_DIR))))
    ensures Find(EntryList(self, parent, kids), DOTDOT) == Ok((parent, FileModeOf(FileTypeByte(S_DIR))))
  {
    hide Find, EntryList, ValidChildren;
    FindMember(self, parent, kids, Unsorted(self, parent, kids)[0]);
    FindMember(self, parent, kids, Unsorted(self, parent, kids)[1]);
  }

  lemma KidFound(self: u64, parent: u64, kids: seq<Dirent>, k: nat)
    requires ValidChildren(kids) && k < |kids|
    ensures Find(EntryList(self, parent, kids), kids[k].name) == Ok((kids[k].nid, FileModeOf(kids[k].ftype)))
  {
    hide Find, EntryList, ValidChildren;
    assert Unsorted(self, parent, kids)[k + 2] == kids[k];
    FindMember(self, parent, kids, kids[k]);
  }

  lemma NoneFound(self: u64, parent: u64, kids: seq<Dirent>, name: bytes)
    requires ValidChildren(kids) && name != DOT && name != DOTDOT && forall k :: 0 <= k < |kids| ==> kids[k].name != name
    ensures Find(EntryList(self, parent, kids), name) == Err(NotExist)
  {
    hide Find, EntryList, ValidChildren;
    forall d <- Unsorted(self, parent, kids)
      ensures d.name != name
    {
      if d in kids {
        var k :| 0 <= k < |kids| && kids[k] == d;
      }
    }
    FindAbsent(self, parent, kids, name);
  }

  lemma ParentIsDir(root: Node, i: nat)
    requires IsDir(root.info.mode) && i < |Preorder(root)|
    ensures Parents(root, 0, 0)[i] < |Preorder(root)|
    ensures IsDir(Preorder(root)[Parents(root, 0, 0)[i]].info.mode)
  {
    hide Preorder, Parents, KidIndex;
    if i > 0 {
      var k := ParentHasKid(root, 0, 0, i);
    }
  }

  /** Directory blocks short enough for the reader's 16-bit name end. */
  ghost predicate DirReadable(it: Item, c: Config)
    requires c.bs > 0
  {
    c.bs <= 32768 || FileSize(it.node, c.bs) < 0x1_0000
  }

  /**
   Lookup in the image of a tree: in every directory, for every name, the reader's two-level search
   gives the nid and type of the entry that the tree has under that name, or not-exist; a format
   error only when it comes to the last entry of a full 64 KiB block.
   */
  lemma LookupOnImage(img: Image, sb: bytes, root: Node, c: Config, i: nat, name: bytes)
    requires TreeOK(root) && FitsBlocks(root, c) && i < |Preorder(root)| && IsDir(Preorder(root)[i].info.mode)
    requires Opened(img, sb, ItemsOf(root, c), c)
    requires FieldsFit(ItemsOf(root, c)[i], c)
    requires !(i == |Preorder(root)| - 1 && CutOff(ItemsOf(root, c), c))
    ensures BlockSize(img.bs)
    ensures LookupSpec(img, PlanAll(Preorder(root), c)[i].nid, name)
         == if Missed(EntriesAt(root, c, i), c.bs, name) then Err(Invalid) else Answer(root, c, TreeLookup(root, i, name))
    ensures DirReadable(ItemsOf(root, c)[i], c) ==> !Missed(EntriesAt(root, c, i), c.bs, name)
  {
    hide *;
    TreeParts(root, c, i);
    var items := ItemsOf(root, c);
    TreePlanned(root, c);
    DirHasContent(root, c, i);
    ContentRoundTrip(img, sb, items, c, i);
    OpenedFacts(img, sb, items, c);
    ContentLength(items, i, c);
    DirContent(root, c, i);
    LookupExact(img, items[i].plan.nid, EntriesAt(root, c, i), name);
    FindIsTreeLookup(root, c, i, name);
    AnswerIs(EntriesAt(root, c, i), c.bs, name);
    if DirReadable(items[i], c) {
      DirSmallEnough(items[i], c);
      SmallNeverMissed(EntriesAt(root, c, i), c.bs, name);
    }
  }

  lemma AnswerIs(ds: seq<Dirent>, bs: nat, name: bytes)
    ensures DirAnswer(ds, bs, name) == if Missed(ds, bs, name) then Err(Invalid) else Find(ds, name)
  {
    hide Missed, Find;
  }

  lemma TreeParts(root: Node, c: Config, i: nat)
    requires TreeOK(root) && FitsBlocks(root, c) && i < |Preorder(root)|
    ensures ValidConfig(c) && c.bs > 0
    ensures ItemsOf(root, c)[i] == Item(Preorder(root)[i], PlanAll(Preorder(root), c)[i], EntriesAt(root, c, i))
    ensures IsDir(Preorder(root)[i].info.mode) ==> TypeOf(Preorder(root)[i].info.mode) == S_DIR
  {
  }

  lemma DirHasContent(root: Node, c: Config, i: nat)
    requires TreeOK(root) && FitsBlocks(root, c) && i < |Preorder(root)| && IsDir(Preorder(root)[i].info.mode)
    ensures ValidConfig(c) && HasContent(ItemsOf(root, c)[i])
  {
    hide Preorder, EntriesAt, NodeOK, PlanFrom, TotalBlocks, Trailing, XattrSize, DirDataSize, Rem, AlignCore, TreeOK;
    var o := PlanAt(Preorder(root), 0, c, i);
  }

  lemma DirContent(root: Node, c: Config, i: nat)
    requires TreeOK(root) && FitsBlocks(root, c) && i < |Preorder(root)| && IsDir(Preorder(root)[i].info.mode)
    ensures ValidConfig(c) && c.bs > 0 && Content(ItemsOf(root, c)[i], c) == DirBytes(EntriesAt(root, c, i), c.bs)
    ensures ValidNames(Names(EntriesAt(root, c, i)))
  {
    hide Preorder, PlanAll, KidIndex, DirBytes, ValidChildren, EntryList, ValidNames, TreeOK;
    ChildrenValid(root, c, i);
    KidsInRange(root, i);
    ParentInRange(root, i);
    var es := Preorder(root);
    var ps := PlanAll(es, c);
    VisibleIsChildren(Nid64(ps[i].nid), Nid64(ps[Parents(root, 0, 0)[i]].nid), ChildDirents(es, ps, i));
  }

  lemma DirSmallEnough(it: Item, c: Config)
    requires c.bs > 0 && DirReadable(it, c)
    ensures c.bs <= 32768 || FileSize(it.node, c.bs) < 0x1_0000
  {
  }
}
