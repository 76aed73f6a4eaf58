/**
 Paths on the written image: resolving any path gives what resolving it in the entry tree gives,
 and the path of an entry leads to the entry and to its content.
 */
module TreeResolve {
  import opened Bytes
  import opened Order
  import opened Format
  import opened Dirents
  import opened DirReader
  import opened Layout
  import opened Tree
  import opened Inodes
  import opened Placement
  import opened Reader
  import opened RoundTrip
  import opened TreeImage
  import opened DirList
  import opened Resolve
  import opened PathWalk

  /** An opened image of a tree whose entries all fit their inodes and can all be read. */
  ghost predicate Mounted(img: Image, sb: bytes, root: Node, c: Config) {
    && TreeOK(root) && FitsBlocks(root, c) && Opened(img, sb, ItemsOf(root, c), c) && img.rootNid == 0
    && !CutOff(ItemsOf(root, c), c)
    && forall i :: 0 <= i < |Preorder(root)| ==> FieldsFit(ItemsOf(root, c)[i], c) && DirReadable(ItemsOf(root, c)[i], c)
  }

  function TypeMode(mode: u16): FileMode { FileModeOf(FileTypeByte(mode)) }

  /** Lookup and link reading in the tree itself, entries named by their position in the list. */
  ghost function TreeLook(root: Node): Look<nat> {
    (i: nat, name: bytes) => LookAt(root, i, name)
  }

  ghost function LookAt(root: Node, i: nat, name: bytes): Result<(nat, FileMode)> {
    if i >= |Preorder(root)| || !IsDir(Preorder(root)[i].info.mode) then Err(NotDirectory)
    else
      match TreeLookup(root, i, name)
      case None => Err(NotExist)
      case Some(j) => Ok((j, TypeMode(Preorder(root)[j].info.mode)))
  }

  ghost function TreeLink(root: Node): Link<nat> {
    (i: nat) => LinkAt(root, i)
  }

  ghost function LinkAt(root: Node, i: nat): Result<bytes> {
    if i >= |Preorder(root)| || |Preorder(root)[i].info.symTarget| > 4096 then Err(Invalid)
    else Ok(Preorder(root)[i].info.symTarget)
  }

  /** Path resolution in the tree. */
  ghost function TreeResolved(root: Node, name: bytes, follow: bool): Result<Found<nat>> {
    match Walk<nat>(TreeLook(root), TreeLink(root), 0, StartState<nat>(0, name), follow)
    case Err(e) => Err(e)
    case Ok(f) => Ok(f.(basename := if f.basename == [] then name else f.basename))
  }

  /** The planned nid of a list position. */
  ghost function NidOf(root: Node, c: Config): nat -> u64
    requires ValidConfig(c)
  {
    (i: nat) => if i < |Preorder(root)| then Nid64(PlanAll(Preorder(root), c)[i].nid) else 0
  }

  ghost function DirsOf(root: Node): iset<nat> {
    iset i: nat | i < |Preorder(root)| && IsDir(Preorder(root)[i].info.mode)
  }

  lemma MountedFacts(img: Image, sb: bytes, root: Node, c: Config)
    requires Mounted(img, sb, root, c)
    ensures TreeOK(root) && FitsBlocks(root, c) && ValidConfig(c) && c.bs > 0
    ensures Opened(img, sb, ItemsOf(root, c), c) && img.rootNid == 0 && !CutOff(ItemsOf(root, c), c)
    ensures forall i :: 0 <= i < |Preorder(root)| ==> FieldsFit(ItemsOf(root, c)[i], c) && DirReadable(ItemsOf(root, c)[i], c)
    ensures Planned(ItemsOf(root, c), c)
    ensures BlockSize(img.bs)
  {
    hide TreeOK, FitsBlocks, Opened, CutOff, FieldsFit, DirReadable, Preorder, Planned;
    FitsConfig(root, c);
    OpenedFacts(img, sb, ItemsOf(root, c), c);
  }

  lemma FitsConfig(root: Node, c: Config)
    requires FitsBlocks(root, c)
    ensures ValidConfig(c) && c.bs > 0
  {
  }

  lemma NidIs(root: Node, c: Config, i: nat)
    requires ValidConfig(c) && Planned(ItemsOf(root, c), c) && i < |Preorder(root)|
    ensures NidOf(root, c)(i) == PlanAll(Preorder(root), c)[i].nid == ItemsOf(root, c)[i].plan.nid
  {
    hide Preorder, PlanFrom, Planned, EntriesAt;
    NidFits(ItemsOf(root, c), c, i);
  }

  /** One lookup on the image is the lookup in the tree. */
  lemma LookMirrors(img: Image, sb: bytes, root: Node, c: Config, i: nat, name: bytes)
    requires Mounted(img, sb, root, c) && i in DirsOf(root) && BlockSize(img.bs) && ValidConfig(c)
    ensures ImageLook(img)(NidOf(root, c)(i), name) == Through(TreeLook(root)(i, name), NidOf(root, c))
  {
    hide Mounted, TreeOK, FitsBlocks, Opened, CutOff, FieldsFit, DirReadable, Preorder, Planned, PlanFrom, LookupSpec, TreeLookup, EntriesAt;
    MountedFacts(img, sb, root, c);
    NidIs(root, c, i);
    LookupOnImage(img, sb, root, c, i, name);
  }

  /** Directories and links are never chunk-based. */
  lemma FlatKinds(items: seq<Item>, c: Config, i: nat)
    requires Planned(items, c) && i < |items| && TypeOf(items[i].node.info.mode) in {S_DIR, S_LNK}
    ensures HasContent(items[i])
  {
    hide Ready, FileSize;
    PlannedFacts(items, c);
    assert ItemOK(items[i], c);
  }

  /** A symlink's target read from the image. */
  lemma LinkMirrors(img: Image, sb: bytes, root: Node, c: Config, i: nat)
    requires Mounted(img, sb, root, c) && i < |Preorder(root)| && BlockSize(img.bs) && ValidConfig(c)
    requires TypeOf(Preorder(root)[i].info.mode) == S_LNK
    ensures ImageLink(img)(NidOf(root, c)(i)) == TreeLink(root)(i)
  {
    hide *;
    MountedFacts(img, sb, root, c);
    NidIs(root, c, i);
    var items := ItemsOf(root, c);
    FlatKinds(items, c, i);
    ContentRoundTrip(img, sb, items, c, i);
    LinkContent(items[i], c);
    LinkRead(img, NidOf(root, c)(i), ExpectedInode(img, items, i, c), Preorder(root)[i].info.symTarget);
    LinkFunctions(img, root, NidOf(root, c)(i), i);
  }

  lemma LinkContent(it: Item, c: Config)
    requires c.bs > 0 && TypeOf(it.node.info.mode) == S_LNK
    ensures Content(it, c) == it.node.info.symTarget
  {
  }

  lemma LinkFunctions(img: Image, root: Node, nid: u64, i: nat)
    requires BlockSize(img.bs)
    ensures ImageLink(img)(nid) == LinkTarget(img, nid)
    ensures TreeLink(root)(i) == if i >= |Preorder(root)| || |Preorder(root)[i].info.symTarget| > 4096 then Err(Invalid)
                                 else Ok(Preorder(root)[i].info.symTarget)
  {
    hide LinkTarget, Preorder;
  }

  lemma LinkRead(img: Image, nid: u64, ino: Inode, target: bytes)
    requires BlockSize(img.bs) && ReadInfo(img, nid) == Ok(ino) && Stored(img, ino, target)
    ensures LinkTarget(img, nid) == if |target| > 4096 then Err(Invalid) else Ok(target)
  {
    hide ReadInfo, LoadBlock, ReadWhole;
    WholeStored(img, ino, target);
  }

  lemma TreeLooksInside(root: Node, i: nat, name: bytes)
    requires i in DirsOf(root) && TreeLook(root)(i, name).Ok?
    ensures var (j, t) := TreeLook(root)(i, name).value;
            && j < |Preorder(root)|
            && (t == ModeDir ==> j in DirsOf(root))
            && (t == ModeSymlink ==> TypeOf(Preorder(root)[j].info.mode) == S_LNK)
  {
    hide Preorder, TreeLookup;
  }

  lemma ImageMirrors(img: Image, sb: bytes, root: Node, c: Config)
    requires Mounted(img, sb, root, c) && BlockSize(img.bs) && ValidConfig(c)
    ensures Mirrors(ImageLook(img), ImageLink(img), TreeLook(root), TreeLink(root), NidOf(root, c), DirsOf(root))
  {
    hide Mounted, Preorder, TreeLook, TreeLink, ImageLook, ImageLink, NidOf, DirsOf, Through;
    var dirs := DirsOf(root);
    forall d, name: bytes | d in dirs
      ensures ImageLook(img)(NidOf(root, c)(d), name) == Through(TreeLook(root)(d, name), NidOf(root, c))
    {
      LookMirrors(img, sb, root, c, d, name);
    }
    forall d, name: bytes | d in dirs && TreeLook(root)(d, name).Ok?
      ensures TreeLook(root)(d, name).value.1 == ModeDir ==> TreeLook(root)(d, name).value.0 in dirs
      ensures TreeLook(root)(d, name).value.1 == ModeSymlink ==>
                ImageLink(img)(NidOf(root, c)(TreeLook(root)(d, name).value.0)) == TreeLink(root)(TreeLook(root)(d, name).value.0)
    {
      TreeLooksInside(root, d, name);
      if TreeLook(root)(d, name).value.1 == ModeSymlink {
        LinkMirrors(img, sb, root, c, TreeLook(root)(d, name).value.0);
      }
    }
  }

  lemma RootMirrors(img: Image, sb: bytes, root: Node, c: Config)
    requires Mounted(img, sb, root, c) && ValidConfig(c)
    ensures 0 in DirsOf(root) && NidOf(root, c)(0) == 0 == img.rootNid
  {
    hide PlanFrom, FitsBlocks, Opened;
    RootFirst(Preorder(root), c);
  }

  /**
   Path resolution on the image is path resolution in the tree: for every path, with or without
   following a final link, the same entry or the same error, through any chain of symlinks.
   */
  lemma ResolveOnImage(img: Image, sb: bytes, root: Node, c: Config, name: bytes, follow: bool)
    requires Mounted(img, sb, root, c)
    ensures BlockSize(img.bs) && ValidConfig(c)
    ensures ResolveSpec(img, name, follow) == FoundThrough(TreeResolved(root, name, follow), NidOf(root, c))
  {
    hide Mounted, Mirrors, Walk, TreeLook, TreeLink, ImageLook, ImageLink, NidOf, DirsOf, StartName, PowerOfTwo, Preorder,
         FitsBlocks, TreeOK, Opened, FieldsFit, DirReadable, CutOff, Planned;
    MountedFacts(img, sb, root, c);
    ImageMirrors(img, sb, root, c);
    RootMirrors(img, sb, root, c);
    WalkMirrors(ImageLook(img), ImageLink(img), TreeLook(root), TreeLink(root), NidOf(root, c), DirsOf(root),
                0, StartState<nat>(0, name), follow);
  }

  // ---- What a path means ----

  /** An answer on the image for an answer in the tree; the last name is the same, if the tree's answer has one. */
  ghost predicate Answers(img: Result<Found<u64>>, tree: Result<Found<nat>>, f: nat -> u64) {
    match tree
    case Err(e) => img == Err(e)
    case Ok(t) => img.Ok? && img.value.nid == f(t.nid) && img.value.ftype == t.ftype && (t.basename != [] ==> img.value.basename == t.basename)
  }

  /**
   What any path leads to on the image: the entry of the tree that its names lead to from the root, ".."
   taking one name off and staying at the root, the names of each link's target counted from the link's
   directory or from the root; or the error that this walk over names meets.
   */
  lemma PathMeans(img: Image, sb: bytes, root: Node, c: Config, name: bytes, follow: bool)
    requires Mounted(img, sb, root, c) && !TwoSlashes(name)
    ensures BlockSize(img.bs) && ValidConfig(c)
    ensures Answers(ResolveSpec(img, name, follow),
                    Travel<nat>(TreeLook(root), TreeLink(root), 0, [], 0, ModeDir, Stay([], Parts(name)), 0, follow, true), NidOf(root, c))
  {
    hide Mounted, Walk, Travel, TreeLook, TreeLink, ImageLook, ImageLink, NidOf, StartName, PowerOfTwo, Stay, Parts;
    ResolveOnImage(img, sb, root, c, name, follow);
    MountedFacts(img, sb, root, c);
    RootMirrors(img, sb, root, c);
    RootIsOwnParent(root);
    ResolveMeans<nat>(TreeLook(root), TreeLink(root), 0, name, follow);
  }

  lemma RootIsOwnParent(root: Node)
    requires TreeOK(root)
    ensures TreeLook(root)(0, DOTDOT) == Ok((0, ModeDir))
  {
    assert Preorder(root)[0] == root;
  }

  /** A path with two leading slashes is not found. */
  lemma TwoSlashesMissing(img: Image, sb: bytes, root: Node, c: Config, name: bytes, follow: bool)
    requires Mounted(img, sb, root, c) && TwoSlashes(name)
    ensures BlockSize(img.bs) && ValidConfig(c) && ResolveSpec(img, name, follow) == Err(NotExist)
  {
    hide Mounted, Walk, TreeLook, TreeLink, NidOf, StartName, PowerOfTwo, Preorder, ResolveSpec, TreeOK, DirsOf;
    MountedFacts(img, sb, root, c);
    RootMirrors(img, sb, root, c);
    ResolveOnImage(img, sb, root, c, name, follow);
    NoEmptyName(root, 0);
    TwoSlashesFail<nat>(TreeLook(root), TreeLink(root), 0, name, follow);
  }

  // ---- Answers are entries ----

  lemma {:induction false} FoldInside(root: Node, d: nat, cs: seq<bytes>)
    requires d in DirsOf(root) && Fold<nat>(TreeLook(root), d, cs).Ok?
    ensures var (i, t) := Fold<nat>(TreeLook(root), d, cs).value;
            i < |Preorder(root)| && t == TypeMode(Preorder(root)[i].info.mode)
    decreases |cs|
  {
    hide Preorder, TreeLook, DirsOf;
    if cs == [] {
      DirsAre(root, d);
    } else {
      TreeLooksInside(root, d, cs[0]);
      LookType(root, d, cs[0]);
      if |cs| > 1 {
        FoldInside(root, TreeLook(root)(d, cs[0]).value.0, cs[1..]);
      }
    }
  }

  lemma DirsAre(root: Node, d: nat)
    requires d in DirsOf(root)
    ensures d < |Preorder(root)| && TypeMode(Preorder(root)[d].info.mode) == ModeDir
  {
    hide Preorder;
  }

  lemma LookType(root: Node, d: nat, name: bytes)
    requires TreeLook(root)(d, name).Ok?
    ensures var (i, t) := TreeLook(root)(d, name).value;
            i < |Preorder(root)| && t == TypeMode(Preorder(root)[i].info.mode)
  {
    hide Preorder, TreeLookup;
  }

  /** No directory of a well-formed tree has an entry without a name. */
  lemma NoEmptyName(root: Node, d: nat)
    requires TreeOK(root) && d in DirsOf(root)
    ensures TreeLook(root)(d, []) == Err(NotExist)
  {
    hide Preorder;
    var e := Preorder(root)[d];
    assert NodeOK(e);
    forall k | 0 <= k < |e.kids|
      ensures e.kids[k].info.name != []
    {
      assert KidNames(e)[k] in KidNames(e);
    }
  }

  /**
   Whatever name is asked for, an answer of the reader is the nid and the type of an entry of the
   tree, one that plain names lead to from the root.
   */
  lemma AnswerIsEntry(img: Image, sb: bytes, root: Node, c: Config, name: bytes, follow: bool) returns (i: nat, cs: seq<bytes>)
    requires Mounted(img, sb, root, c)
    ensures BlockSize(img.bs) && ValidConfig(c) && Plain(cs)
    ensures ResolveSpec(img, name, follow).Ok? ==>
              && i < |Preorder(root)| && Fold<nat>(TreeLook(root), 0, cs) == Ok((i, TypeMode(Preorder(root)[i].info.mode)))
              && ResolveSpec(img, name, follow).value.nid == NidOf(root, c)(i)
              && ResolveSpec(img, name, follow).value.ftype == TypeMode(Preorder(root)[i].info.mode)
  {
    hide Mounted, Walk, TreeLook, TreeLink, NidOf, DirsOf, StartName, PowerOfTwo, Preorder, ResolveSpec, Fold, TreeOK;
    MountedFacts(img, sb, root, c);
    RootMirrors(img, sb, root, c);
    ResolveOnImage(img, sb, root, c, name, follow);
    NoEmptyName(root, 0);
    cs := ResolveReaches<nat>(TreeLook(root), TreeLink(root), 0, name, follow);
    i := 0;
    if ResolveSpec(img, name, follow).Ok? {
      FoldInside(root, 0, cs);
      i := Fold<nat>(TreeLook(root), 0, cs).value.0;
    }
  }

  // ---- Every entry by its own path ----

  /** Names from the root to the entry at position i. */
  ghost function PathOf(root: Node, i: nat): (r: seq<bytes>)
    requires i < |Preorder(root)|
    ensures i == 0 <==> r == []
    ensures i > 0 ==> r[|r| - 1] == Preorder(root)[i].info.name
    decreases i
  {
    if i == 0 then []
    else
      ParentEarlier(root, i);
      PathOf(root, Parents(root, 0, 0)[i]) + [Preorder(root)[i].info.name]
  }

  lemma ParentEarlier(root: Node, i: nat)
    requires 0 < i < |Preorder(root)|
    ensures Parents(root, 0, 0)[i] < i
  {
    var k := ParentHasKid(root, 0, 0, i);
  }

  lemma {:induction false} KidNamedFirst(kids: seq<Node>, k: nat)
    requires k < |kids| && forall j :: 0 <= j < k ==> kids[j].info.name != kids[k].info.name
    ensures KidNamed(kids, kids[k].info.name) == Some(k)
  {
    if k > 0 {
      assert kids[0].info.name != kids[k].info.name;
      KidNamedFirst(kids[1..], k - 1);
    }
  }

  lemma KidNamedExact(kids: seq<Node>, k: nat)
    requires k < |kids| && Ascending(Map(KidName, kids))
    ensures KidNamed(kids, kids[k].info.name) == Some(k)
  {
    hide KidNamed, Ascending, Map;
    var names := Map(KidName, kids);
    forall j | 0 <= j < k
      ensures kids[j].info.name != kids[k].info.name
    {
      NoRepeat(names, j, k);
      assert names[j] == KidName(kids[j]) && names[k] == KidName(kids[k]);
    }
    KidNamedFirst(kids, k);
  }

  lemma NoRepeat(names: seq<bytes>, i: nat, j: nat)
    requires Ascending(names) && i < j < |names|
    ensures names[i] != names[j]
  {
    hide Compare;
  }

  /** Looking an entry's name up in its parent finds it. */
  lemma ParentFinds(root: Node, i: nat)
    requires TreeOK(root) && 0 < i < |Preorder(root)|
    ensures var p := Parents(root, 0, 0)[i];
            && p < i && IsDir(Preorder(root)[p].info.mode)
            && TreeLook(root)(p, Preorder(root)[i].info.name) == Ok((i, TypeMode(Preorder(root)[i].info.mode)))
  {
    hide Preorder, Parents, KidIndex;
    var k := ParentHasKid(root, 0, 0, i);
    var p := Parents(root, 0, 0)[i];
    var e := Preorder(root)[p];
    assert e in Preorder(root);
    KidsInRange(root, p);
    assert Preorder(root)[i] == e.kids[k];
    KidNamedExact(e.kids, k);
  }

  lemma {:induction false} TreeFold(root: Node, i: nat)
    requires TreeOK(root) && i < |Preorder(root)|
    ensures Fold<nat>(TreeLook(root), 0, PathOf(root, i)) == Ok((i, TypeMode(Preorder(root)[i].info.mode)))
  {
    hide Preorder, Parents, TreeLook;
    if i > 0 {
      ParentFinds(root, i);
      var p := Parents(root, 0, 0)[i];
      TreeFold(root, p);
      FoldAppend<nat>(TreeLook(root), 0, PathOf(root, p), Preorder(root)[i].info.name);
    } else {
      assert Preorder(root)[0] == root;
    }
  }

  /** A path that folds to something other than a link to follow meets no link on its way. */
  lemma {:induction false} FoldNoLinks<N>(look: Look<N>, nid: N, cs: seq<bytes>, follow: bool)
    requires Fold(look, nid, cs).Ok? && (follow ==> Fold(look, nid, cs).value.1 != ModeSymlink)
    ensures NoLinks(look, nid, cs, follow)
    decreases |cs|
  {
    if |cs| > 1 {
      FoldNoLinks(look, look(nid, cs[0]).value.0, cs[1..], follow);
    } else if |cs| == 1 {
      assert cs[1..] == [];
    }
  }

  /** The path of an entry resolves, in the tree, to that entry. */
  lemma TreePath(root: Node, i: nat, follow: bool)
    requires TreeOK(root) && 0 < i < |Preorder(root)| && Named(PathOf(root, i))
    requires follow ==> TypeMode(Preorder(root)[i].info.mode) != ModeSymlink
    ensures TreeResolved(root, Join(PathOf(root, i)), follow)
         == Ok(Found(i, TypeMode(Preorder(root)[i].info.mode), Preorder(root)[i].info.name))
  {
    hide Preorder, TreeLook, TreeLink, PathOf, Fold, NoLinks, Walk, StartName, Join, Normalize, Split;
    var cs := PathOf(root, i);
    TreeFold(root, i);
    FoldNoLinks<nat>(TreeLook(root), 0, cs, follow);
    NamedStart(cs);
    WalkIsFold<nat>(TreeLook(root), TreeLink(root), 0, StartState<nat>(0, Join(cs)), cs, follow);
    assert cs[|cs| - 1] in cs;
  }

  /**
   The headline: every entry of the tree is found on the image under its path, with its nid and
   type, and if it is a flat file, directory or link, its content is what its blocks hold.
   */
  lemma EntryByPath(img: Image, sb: bytes, root: Node, c: Config, i: nat, follow: bool)
    requires Mounted(img, sb, root, c) && 0 < i < |Preorder(root)| && Named(PathOf(root, i))
    requires follow ==> TypeMode(Preorder(root)[i].info.mode) != ModeSymlink
    ensures BlockSize(img.bs) && ValidConfig(c)
    ensures ResolveSpec(img, Join(PathOf(root, i)), follow)
         == Ok(Found(NidOf(root, c)(i), TypeMode(Preorder(root)[i].info.mode), Preorder(root)[i].info.name))
    ensures ReadInfo(img, NidOf(root, c)(i)).Ok?
    ensures HasContent(ItemsOf(root, c)[i]) ==> c.bs > 0 && Stored(img, ReadInfo(img, NidOf(root, c)(i)).value, Content(ItemsOf(root, c)[i], c))
  {
    hide *;
    MountedFacts(img, sb, root, c);
    ResolveOnImage(img, sb, root, c, Join(PathOf(root, i)), follow);
    TreePath(root, i, follow);
    ThroughOk(Found(i, TypeMode(Preorder(root)[i].info.mode), Preorder(root)[i].info.name), NidOf(root, c));
    NidIs(root, c, i);
    InodeReads(img, sb, root, c, i);
    if HasContent(ItemsOf(root, c)[i]) {
      ContentRoundTrip(img, sb, ItemsOf(root, c), c, i);
    }
  }

  lemma ThroughOk<N, M>(f: Found<M>, g: M -> N)
    ensures FoundThrough(Ok(f), g) == Ok(Found(g(f.nid), f.ftype, f.basename))
  {
  }

  lemma InodeReads(img: Image, sb: bytes, root: Node, c: Config, i: nat)
    requires Mounted(img, sb, root, c) && ValidConfig(c) && i < |Preorder(root)| && BlockSize(img.bs)
    ensures ReadInfo(img, ItemsOf(root, c)[i].plan.nid).Ok?
  {
    hide Mounted, Opened, FitsBlocks, TreeOK, CutOff, Preorder, ReadInfo, Planned;
    MountedFacts(img, sb, root, c);
    EveryInodeReads(img, sb, ItemsOf(root, c), c);
  }

  /** ReadFile under a regular file's path returns its source's bytes when it is flat and within the limit. */
  lemma FileByPath(img: Image, sb: bytes, root: Node, c: Config, i: nat)
    requires Mounted(img, sb, root, c) && 0 < i < |Preorder(root)| && Named(PathOf(root, i))
    requires TypeOf(Preorder(root)[i].info.mode) == S_REG && Preorder(root)[i].info.data.Some?
    requires Preorder(root)[i].info.chunks == [] && !Preorder(root)[i].info.metadataOnly
    ensures BlockSize(img.bs)
    ensures FileBytes(img, Join(PathOf(root, i)))
         == if Preorder(root)[i].info.size > 128 * 1024 * 1024 then Err(Invalid)
            else Ok(Fit(Preorder(root)[i].info.data.value, Preorder(root)[i].info.size))
  {
    hide *;
    MountedFacts(img, sb, root, c);
    RegularMode(Preorder(root)[i].info.mode);
    EntryByPath(img, sb, root, c, i, true);
    FlatFile(root, c, i);
    ReadFileIs(img, Join(PathOf(root, i)), ReadInfo(img, NidOf(root, c)(i)).value,
               Fit(Preorder(root)[i].info.data.value, Preorder(root)[i].info.size));
  }

  lemma RegularMode(mode: u16)
    ensures TypeOf(mode) == S_REG ==> TypeMode(mode) == ModeRegular
  {
  }

  lemma FlatFile(root: Node, c: Config, i: nat)
    requires ValidConfig(c) && Planned(ItemsOf(root, c), c) && i < |Preorder(root)| && c.bs > 0
    requires TypeOf(Preorder(root)[i].info.mode) == S_REG && Preorder(root)[i].info.data.Some?
    requires Preorder(root)[i].info.chunks == [] && !Preorder(root)[i].info.metadataOnly
    ensures HasContent(ItemsOf(root, c)[i]) && Content(ItemsOf(root, c)[i], c) == Fit(Preorder(root)[i].info.data.value, Preorder(root)[i].info.size)
  {
    hide Preorder, PlanFrom, Ready, FileSize, EntriesAt;
    PlannedFacts(ItemsOf(root, c), c);
    assert ItemOK(ItemsOf(root, c)[i], c);
  }

  lemma ReadFileIs(img: Image, name: bytes, ino: Inode, content: bytes)
    requires BlockSize(img.bs)
    requires ResolveSpec(img, name, true).Ok? && ResolveSpec(img, name, true).value.ftype == ModeRegular
    requires ReadInfo(img, ResolveSpec(img, name, true).value.nid) == Ok(ino) && Stored(img, ino, content)
    ensures FileBytes(img, name) == if |content| > 128 * 1024 * 1024 then Err(Invalid) else Ok(content)
  {
    hide ReadInfo, LoadBlock, ResolveSpec, ReadWhole;
    WholeStored(img, ino, content);
  }
}
