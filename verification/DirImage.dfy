/** Listing a directory of the written image: its tree children, with their planned nids and types. */
module DirImage {
  import opened Bytes
  import opened Order
  import opened Format
  import opened Dirents
  import opened DirReader
  import opened DirList
  import opened MetaReader
  import opened Layout
  import opened Tree
  import opened Placement
  import opened Reader
  import opened RoundTrip
  import opened TreeImage
  import opened TreeResolve

  /** Names, planned nids and types of the tree children of the directory at list position i. */
  ghost predicate IsListing(root: Node, c: Config, i: nat, ds: seq<Dirent>)
    requires ValidConfig(c) && i < |Preorder(root)|
  {
    var e := Preorder(root)[i];
    && |ds| == |e.kids|
    && forall k :: 0 <= k < |e.kids| ==>
         && i + KidIndex(e, k) < |Preorder(root)|
         && ds[k] == Dirent(e.kids[k].info.name, NidOf(root, c)(i + KidIndex(e, k)), FileTypeByte(e.kids[k].info.mode))
  }

  /** The visible entries of a written directory are its children in the tree. */
  lemma ListingIs(root: Node, c: Config, i: nat)
    requires TreeOK(root) && ValidConfig(c) && i < |Preorder(root)| && IsDir(Preorder(root)[i].info.mode)
    ensures ValidNames(Names(EntriesAt(root, c, i))) && IsListing(root, c, i, Visible(EntriesAt(root, c, i)))
  {
    hide Preorder, PlanFrom, KidIndex, ValidNames, Visible, EntryList, Parents, ValidChildren, TreeOK;
    ChildrenValid(root, c, i);
    ParentInRange(root, i);
    KidsInRange(root, i);
    var es := Preorder(root);
    var ps := PlanAll(es, c);
    VisibleIsChildren(Nid64(ps[i].nid), Nid64(ps[Parents(root, 0, 0)[i]].nid), ChildDirents(es, ps, i));
  }

  /** What a listing of the directory at list position i should show. */
  ghost function Listing(root: Node, c: Config, i: nat): (r: seq<Dirent>)
    requires TreeOK(root) && ValidConfig(c) && i < |Preorder(root)| && IsDir(Preorder(root)[i].info.mode)
    ensures IsListing(root, c, i, r)
  {
    ListingIs(root, c, i);
    Visible(EntriesAt(root, c, i))
  }

  /** A written directory is stored as packed entries, so that every listing theorem applies to it. */
  lemma DirOnImage(img: Image, sb: bytes, root: Node, c: Config, i: nat)
    requires Mounted(img, sb, root, c) && i < |Preorder(root)| && IsDir(Preorder(root)[i].info.mode)
    ensures ValidConfig(c) && BlockSize(img.bs) && img.bs == c.bs && ReadInfo(img, NidOf(root, c)(i)).Ok?
    ensures Stored(img, ReadInfo(img, NidOf(root, c)(i)).value, DirBytes(EntriesAt(root, c, i), img.bs))
    ensures TreeOK(root) && ValidNames(Names(EntriesAt(root, c, i))) && Visible(EntriesAt(root, c, i)) == Listing(root, c, i)
  {
    hide *;
    MountedFacts(img, sb, root, c);
    TreeParts(root, c, i);
    NidIs(root, c, i);
    InodeReads(img, sb, root, c, i);
    DirHasContent(root, c, i);
    ContentRoundTrip(img, sb, ItemsOf(root, c), c, i);
    OpenedFacts(img, sb, ItemsOf(root, c), c);
    DirContent(root, c, i);
    ListingShows(root, c, i);
  }

  lemma ListingShows(root: Node, c: Config, i: nat)
    requires TreeOK(root) && ValidConfig(c) && i < |Preorder(root)| && IsDir(Preorder(root)[i].info.mode)
    ensures Visible(EntriesAt(root, c, i)) == Listing(root, c, i)
  {
    hide EntriesAt, Visible, Preorder, IsListing;
  }

  lemma NewInRange(d: Dir, ds: seq<Dirent>)
    requires d.bn == 0 && d.consumed == 0
    ensures d.InRange(ds) && d.Rest(ds) == Visible(ds)
  {
    hide Visible, Blocks;
    assert ds[0..] == ds;
  }

  /**
   Opening a directory of the image and listing it with any positive counts returns its tree children
   in name order, each once, until the counts are used up or the children are; then nothing and EOF.
   */
  method ListWritten(img: Image, nid: nat, ns: seq<nat>, ghost sb: bytes, ghost root: Node, ghost c: Config, ghost i: nat)
    returns (calls: seq<seq<Dirent>>, stats: seq<ReadStatus>)
    requires Mounted(img, sb, root, c) && i < |Preorder(root)| && IsDir(Preorder(root)[i].info.mode) && ValidConfig(c)
    requires BlockSize(img.bs) && nid == NidOf(root, c)(i) && forall n <- ns :: n > 0
    ensures TreeOK(root) && |calls| == |stats| == |ns| && Joined(calls) == Take(Listing(root, c, i), Sum(ns))
    ensures forall k :: 0 <= k < |ns| ==> OneCall(Listing(root, c, i), ns, k, calls[k], stats[k])
  {
    hide Mounted, Preorder, PlanFrom, IsListing, Listing, TreeOK, Dir.InRange, Dir.Rest, Stored, ReadInfo, DirBytes, Take, OneCall, NidOf, Visible;
    DirOnImage(img, sb, root, c, i);
    var d := new Dir(img, nid);
    ghost var ds := EntriesAt(root, c, i);
    NewInRange(d, ds);
    PackedIs(d, ds);
    calls, stats := ListInBatches(d, ns, ds);
  }

  lemma PackedIs(d: Dir, ds: seq<Dirent>)
    requires BlockSize(d.img.bs) && ValidNames(Names(ds)) && ReadInfo(d.img, d.nid).Ok?
    requires Stored(d.img, ReadInfo(d.img, d.nid).value, DirBytes(ds, d.img.bs))
    ensures d.Packed(ds)
  {
    hide *;
    PackedMeans(d, ds);
  }

  lemma PackedMeans(d: Dir, ds: seq<Dirent>)
    ensures d.Packed(ds) <==> BlockSize(d.img.bs) && ValidNames(Names(ds)) && ReadInfo(d.img, d.nid).Ok?
                              && Stored(d.img, ReadInfo(d.img, d.nid).value, DirBytes(ds, d.img.bs))
  {
    hide BlockSize, ValidNames, ReadInfo, Stored, DirBytes;
  }

  /** Reading a written directory whole and parsing it in one buffer queues the same children. */
  method ParseWritten(img: Image, nid: nat, parent: bytes, ghost sb: bytes, ghost root: Node, ghost c: Config, ghost i: nat)
    returns (queue: seq<Queued>)
    requires Mounted(img, sb, root, c) && i < |Preorder(root)| && IsDir(Preorder(root)[i].info.mode) && ValidConfig(c)
    requires BlockSize(img.bs) && nid == NidOf(root, c)(i)
    ensures TreeOK(root) && queue == QueueOf(Listing(root, c, i), parent)
  {
    hide Mounted, Preorder, PlanFrom, IsListing, Listing, TreeOK, Stored, ReadInfo, DirBytes, NidOf, Visible, ReadWhole, QueueOf, PowerOfTwo;
    DirOnImage(img, sb, root, c, i);
    var info := ReadInfo(img, nid);
    ghost var ds := EntriesAt(root, c, i);
    StoredSize(img, info.value, DirBytes(ds, img.bs));
    WholeStored(img, info.value, DirBytes(ds, img.bs));
    var data := ReadAll(img, nid, info.value);
    assert data.value[..|data.value|] == data.value;
    queue := ParseDirBlock(data.value, |data.value|, img.bs, parent, ds);
  }
}
