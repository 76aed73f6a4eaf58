/**
 From overlay operations to the mounted image: every path that is live in the writer's tree is found
 on the image under its own name, with its own type and content, and nothing else is.
 */
module OverlayImage {
  import opened Bytes
  import opened Order
  import opened Format
  import opened Dirents
  import opened DirList
  import opened Layout
  import opened Tree
  import opened Placement
  import opened Reader
  import opened RoundTrip
  import opened TreeImage
  import opened Resolve
  import opened PathWalk
  import opened TreeResolve
  import opened Overlay
  import opened BuildTree

  /** Components that a directory entry and a path string can carry. */
  ghost predicate GoodName(n: bytes) {
    1 <= |n| <= 255 && 0 !in n && SLASH !in n && n != DOT && n != DOTDOT
  }

  ghost predicate GoodNames(m: View) {
    forall p <- m, n <- p :: GoodName(n)
  }

  /** A regular file with content has a source or chunks. */
  ghost predicate Sourced(m: View) {
    forall p <- m :: SourceOK(m[p].info)
  }

  ghost predicate SourceOK(i: Info) {
    TypeOf(i.mode) == S_REG && i.size > 0 ==> i.chunks != [] || i.metadataOnly || i.data.Some?
  }

  /** The planner's tree of the whole map. */
  ghost function Root(m: View): Node
    requires [] in m
  {
    TreeOf(m, [])
  }

  lemma RootThere(m: View)
    requires Shaped(m)
    ensures [] in m
  {
  }

  lemma {:induction false} KidNamesAre(m: View, p: Path, names: seq<bytes>)
    requires p in m && forall n <- names :: n in NamesUnder(m, p)
    ensures Map(KidName, Trees(m, p, names)) == names
  {
    hide NamesUnder, TreeOf, Trees;
    TreesLength(m, p, names);
    forall k | 0 <= k < |names|
      ensures Map(KidName, Trees(m, p, names))[k] == names[k]
    {
      TreesAt(m, p, names, k);
      ModeAt(m, p + [names[k]]);
    }
  }

  lemma TreesLength(m: View, p: Path, names: seq<bytes>)
    requires p in m && forall n <- names :: n in NamesUnder(m, p)
    ensures |Trees(m, p, names)| == |names|
  {
  }

  lemma NodeIsOK(m: View, p: Path)
    requires Shaped(m) && GoodNames(m) && Sourced(m) && p in m
    ensures NodeOK(TreeOf(m, p))
  {
    hide NamesUnder, TreeOf, Trees, Shaped, KidList, Convert, Ascending;
    ModeAt(m, p);
    var n := TreeOf(m, p);
    KidNamesAre(m, p, KidList(m, p));
    assert KidNames(n) == KidList(m, p);
    forall x <- KidList(m, p)
      ensures GoodName(x)
    {
      NameUnder(m, p, x);
      assert x in p + [x];
    }
    forall k | 0 <= k < |n.kids|
      ensures !IsDot(n.kids[k].info.name)
    {
      assert KidNames(n)[k] in KidList(m, p);
    }
    assert SourceOK(m[p].info);
    SourceKept(m, p);
    if !DirAttr(m[p]) {
      BareIsDone(m, p);
      RowKids(m, p);
      TreesLength(m, p, KidList(m, p));
    }
  }

  lemma RowKids(m: View, p: Path)
    requires p in m
    ensures RowAt(m, p).kids == KidList(m, p)
  {
  }

  lemma SourceKept(m: View, p: Path)
    requires p in m && SourceOK(m[p].info)
    ensures var i := InfoAt(m, p);
            && i.mode == m[p].info.mode
            && (TypeOf(i.mode) == S_REG && i.size > 0 && i.data == None ==> i.chunks != [] || i.metadataOnly)
  {
  }

  /** A well-shaped map gives a tree that the writer and the reader agree on. */
  lemma RootIsOK(m: View)
    requires Shaped(m) && GoodNames(m) && Sourced(m) && DirAttr(m[[]])
    ensures TreeOK(Root(m))
  {
    hide TreeOf, NodeOK, Preorder, Paths;
    RootThere(m);
    PathsMatch(m, []);
    ModeAt(m, []);
    forall n <- Preorder(Root(m))
      ensures NodeOK(n)
    {
      var i :| 0 <= i < |Preorder(Root(m))| && Preorder(Root(m))[i] == n;
      NodeIsOK(m, Paths(m, [])[i]);
    }
  }

  /** The names that lead to list position i spell path i. */
  lemma {:induction false} PathOfIsPath(m: View, i: nat)
    requires Shaped(m) && i < |Preorder(Root(m))|
    ensures |Paths(m, [])| == |Preorder(Root(m))| && PathOf(Root(m), i) == Paths(m, [])[i]
    decreases i
  {
    hide TreeOf, Preorder, Paths, Parents, KidIndex, Shaped, KidList, Trees;
    RootThere(m);
    PathsMatch(m, []);
    if i > 0 {
      var k := ParentHasKid(Root(m), 0, 0, i);
      var j := Parents(Root(m), 0, 0)[i];
      PathOfIsPath(m, j);
      var q := Paths(m, [])[j];
      ModeAt(m, q);
      TreesLength(m, q, KidList(m, q));
      PathsKid(m, [], j, k);
      ModeAt(m, Paths(m, [])[i]);
      BaseLast(q, KidList(m, q)[k]);
    }
  }

  lemma BaseLast(q: Path, n: bytes)
    ensures Base(q + [n]) == n
  {
  }

  /** Every live path has exactly one place in the writer's list. */
  lemma OnePlace(m: View, p: Path) returns (i: nat)
    requires Shaped(m) && p in m
    ensures i < |Preorder(Root(m))| && PathOf(Root(m), i) == p
    ensures Preorder(Root(m))[i].info == InfoAt(m, p)
    ensures forall j :: 0 <= j < |Preorder(Root(m))| && PathOf(Root(m), j) == p ==> j == i
  {
    hide TreeOf, Preorder, Paths, PathOf, Shaped;
    RootThere(m);
    PathsMatch(m, []);
    i := PathsComplete(m, [], p);
    PathOfIsPath(m, i);
    ModeAt(m, p);
    forall j | 0 <= j < |Preorder(Root(m))| && PathOf(Root(m), j) == p
      ensures j == i
    {
      PathOfIsPath(m, j);
      if j < i {
        PathsDistinct(m, [], j, i);
      } else if i < j {
        PathsDistinct(m, [], i, j);
      }
    }
  }

  /** And the list has no other entries: its length is the number of live paths. */
  lemma NoOthers(m: View, i: nat)
    requires Shaped(m) && i < |Preorder(Root(m))|
    ensures PathOf(Root(m), i) in m
  {
    hide TreeOf, Preorder, Paths, PathOf, Shaped;
    RootThere(m);
    PathsMatch(m, []);
    PathOfIsPath(m, i);
  }

  lemma GoodPath(m: View, p: Path)
    requires GoodNames(m) && p in m
    ensures Named(p)
  {
    forall n <- p
      ensures GoodName(n)
    {
    }
  }

  /**
   The whole chain: a path that is live when the writer is closed resolves on the mounted image,
   with the type it was given, to an inode whose blocks hold the entry's content if it is flat.
   */
  lemma LivePathResolves(img: Image, sb: bytes, m: View, c: Config, p: Path) returns (i: nat)
    requires Shaped(m) && GoodNames(m) && p in m && p != [] && Mounted(img, sb, Root(m), c)
    ensures BlockSize(img.bs) && ValidConfig(c) && c.bs > 0
    ensures i < |Preorder(Root(m))| && Preorder(Root(m))[i].info == InfoAt(m, p)
    ensures ResolveSpec(img, Join(p), false) == Ok(Found(NidOf(Root(m), c)(i), TypeMode(m[p].info.mode), Base(p)))
    ensures ReadInfo(img, NidOf(Root(m), c)(i)).Ok?
    ensures HasContent(ItemsOf(Root(m), c)[i]) ==>
              Stored(img, ReadInfo(img, NidOf(Root(m), c)(i)).value, Content(ItemsOf(Root(m), c)[i], c))
  {
    hide TreeOf, Preorder, Paths, PathOf, Shaped, Mounted, ResolveSpec, Join, NidOf, HasContent, Stored, Content, GoodNames, Named, InfoAt;
    RootThere(m);
    i := OnePlace(m, p);
    GoodPath(m, p);
    MountedFacts(img, sb, Root(m), c);
    NotRoot(m, i, p);
    EntryByPath(img, sb, Root(m), c, i, false);
    ModeAt(m, p);
  }

  lemma NotRoot(m: View, i: nat, p: Path)
    requires [] in m && i < |Preorder(Root(m))| && PathOf(Root(m), i) == p && p != []
    ensures i > 0
  {
  }

  // ---- Paths that are not live ----

  /** The longest live path on the way to q. */
  function LivePrefix(m: View, q: Path): (p: Path)
    requires [] in m
    ensures p in m && p <= q
    ensures q !in m ==> p < q && q[..|p| + 1] !in m
    decreases |q|
  {
    if q in m then q
    else
      var p := LivePrefix(m, Overlay.Dir(q));
      assert p < q && q[..|p| + 1] == if p == Overlay.Dir(q) then q else Overlay.Dir(q)[..|p| + 1];
      p
  }

  /** Where a walk of q goes on after the link at its longest live prefix p. */
  function AfterLink(m: View, p: Path, q: Path): seq<bytes>
    requires p in m && p <= q
  {
    Onward(Overlay.Dir(p), m[p].info.symTarget, q[|p|..], false)
  }

  /** The walk of a path that is not live, by what its longest live prefix is. */
  ghost function DeadWalk(m: View, q: Path, follow: bool): Result<Found<nat>>
    requires [] in m
  {
    var p := LivePrefix(m, q);
    match TypeMode(m[p].info.mode)
    case ModeDir => Err(NotExist)
    case ModeSymlink =>
      if |m[p].info.symTarget| > 4096 then Err(Invalid)
      else
        Travel<nat>(TreeLook(Root(m)), TreeLink(Root(m)), 0, [], 0, ModeDir, AfterLink(m, p, q), 1, follow, false)
    case _ => Err(NotDirectory)
  }

  /**
   A path that was whited out, or never added, is not found: not-exist if the walk is stopped in a
   directory, not-a-directory if it is stopped at a file. Only past a link can it go on, as if the
   link's target had been asked for.
   */
  lemma DeadPathFails(img: Image, sb: bytes, m: View, c: Config, q: Path, follow: bool)
    requires Shaped(m) && GoodNames(m) && q !in m && Named(q) && Mounted(img, sb, Root(m), c)
    ensures BlockSize(img.bs) && ValidConfig(c)
    ensures var t := TypeMode(m[LivePrefix(m, q)].info.mode);
            && (t == ModeDir ==> ResolveSpec(img, Join(q), follow) == Err(NotExist))
            && (t != ModeDir && t != ModeSymlink ==> ResolveSpec(img, Join(q), follow) == Err(NotDirectory))
            && (t == ModeSymlink ==>
                  ResolveSpec(img, Join(q), follow) == FoundThrough(NamedAs(DeadWalk(m, q, follow), Join(q)), NidOf(Root(m), c)))
  {
    hide Root, Shaped, Mounted, ResolveSpec, Join, NidOf, GoodNames, Named, TreeResolved, LivePrefix, AfterLink;
    RootThere(m);
    MountedFacts(img, sb, Root(m), c);
    ResolveOnImage(img, sb, Root(m), c, Join(q), follow);
    DeadInTree(m, q, follow);
  }

  /** An answer at the root carries the name asked for. */
  function NamedAs(r: Result<Found<nat>>, name: bytes): Result<Found<nat>> {
    match r
    case Err(e) => Err(e)
    case Ok(f) => Ok(f.(basename := if f.basename == [] then name else f.basename))
  }

  lemma DeadInTree(m: View, q: Path, follow: bool)
    requires Shaped(m) && [] in m && q !in m && Named(q) && TreeOK(Root(m))
    ensures TreeResolved(Root(m), Join(q), follow) == NamedAs(DeadWalk(m, q, follow), Join(q))
  {
    hide Root, Shaped, Join, Walk, TreeLook, TreeLink, StartName, Fold, NoLinks, Named, LivePrefix, AfterLink, TypeMode;
    var p := LivePrefix(m, q);
    NamedStart(q);
    assert Plain(q) by {
      NamedPlain(q);
    }
    if TypeMode(m[p].info.mode) == ModeDir {
      StoppedInDir(m, p, q, follow);
    } else {
      StoppedAtEntry(m, p, q, follow);
    }
  }

  lemma NamedPlain(q: Path)
    requires Named(q)
    ensures Plain(q) && forall n <- q :: n != DOT && n != DOTDOT
  {
  }

  lemma StoppedInDir(m: View, p: Path, q: Path, follow: bool)
    requires Shaped(m) && [] in m && Named(q) && TreeOK(Root(m)) && p in m && p < q && q[..|p| + 1] !in m
    requires TypeMode(m[p].info.mode) == ModeDir && StartName(Join(q)) == Join(q)
    ensures Walk<nat>(TreeLook(Root(m)), TreeLink(Root(m)), 0, StartState<nat>(0, Join(q)), follow) == Err(NotExist)
  {
    hide Root, Preorder, PathOf, Shaped, Join, Walk, TreeLook, TreeLink, StartName, Fold, NoLinks, Named, TypeMode;
    var i := OnePlace(m, p);
    var look, ds := TreeLook(Root(m)), q[|p|..];
    NamedPlain(q);
    DirOfMode(m[p].info.mode);
    assert q[..|p| + 1] == p + [ds[0]] && ds[0] in q && q == p + ds;
    MissingName(m, i, p, ds[0]);
    TreeFoldAt(m, i, p);
    MissFold(look, i, ds, follow);
    FoldBeyond<nat>(look, 0, p, ds, follow);
    WalkIsFold<nat>(look, TreeLink(Root(m)), 0, StartState<nat>(0, Join(q)), q, follow);
  }

  lemma DirOfMode(mode: u16)
    ensures TypeMode(mode) == ModeDir <==> IsDir(mode)
  {
  }

  lemma MissFold<N>(look: Look<N>, nid: N, ds: seq<bytes>, follow: bool)
    requires ds != [] && look(nid, ds[0]) == Err(NotExist)
    ensures Fold(look, nid, ds) == Err(NotExist) && NoLinks(look, nid, ds, follow)
  {
  }

  /** The walk reaches the entry at p and cannot look anything up in it. */
  lemma StoppedAtEntry(m: View, p: Path, q: Path, follow: bool)
    requires Shaped(m) && [] in m && Named(q) && TreeOK(Root(m)) && p in m && p < q && p == LivePrefix(m, q)
    requires TypeMode(m[p].info.mode) != ModeDir && StartName(Join(q)) == Join(q)
    ensures Walk<nat>(TreeLook(Root(m)), TreeLink(Root(m)), 0, StartState<nat>(0, Join(q)), follow) == DeadWalk(m, q, follow)
  {
    hide Root, Preorder, PathOf, Shaped, Join, Walk, Travel, Onward, Restart, TreeLook, TreeLink, StartName, Fold, NoLinks, Named, TypeMode, LivePrefix, InfoAt;
    RootIsDirAttr(m);
    var d, rest := Overlay.Dir(p), q[|p|..];
    var x := p[|p| - 1];
    var ds := [x] + rest;
    assert q == d + ds && p == d + [x] && d < p;
    PrefixThere(m, p, d);
    var i := OnePlace(m, d);
    var j := OnePlace(m, p);
    TreeFoldAt(m, i, d);
    EntryLook(m, i, j, p);
    NamedPlain(q);
    NoneBefore();
    WalkBeyond<nat>(TreeLook(Root(m)), TreeLink(Root(m)), 0, 0, [], d, ds, StartName(Join(q)), Join(q), 0, follow);
    assert [] + d == d;
    PlainSuffix(q, |d|);
    PlainSuffix(q, |p|);
    NamedPrefix(q, |d|);
    LinkText(m, j, p);
    OneMoreStep<nat>(TreeLook(Root(m)), TreeLink(Root(m)), 0, i, j, TypeMode(m[p].info.mode), x, rest, Join(d), Join(q), follow);
    PastLink(Root(m), d, m[p].info.symTarget, rest, follow);
  }

  /** Going on after a link, on names. */
  lemma PastLink(root: Node, d: Path, target: bytes, rest: Path, follow: bool)
    requires Named(d) && Plain(rest)
    ensures Walk<nat>(TreeLook(root), TreeLink(root), 0, Jump<nat>(0, Restart(target, Join(rest), Join(d)), 1), follow)
         == Travel<nat>(TreeLook(root), TreeLink(root), 0, [], 0, ModeDir, Onward(d, target, rest, false), 1, follow, false)
  {
    hide TreeLook, TreeLink, Walk, Travel, Restart, Onward, Join, Tidy;
    NamedTidy(d);
    RestartIs(d, target, rest);
    NoneBefore();
    var next := Onward(d, target, rest, false);
    assert [] + next == next;
    WalkIsTravel<nat>(TreeLook(root), TreeLink(root), 0, [], 0, ModeDir, next, Join(next), 1, follow);
  }

  lemma NamedTidy(d: Path)
    requires Named(d)
    ensures Tidy(d)
  {
  }

  lemma NamedPrefix(q: Path, k: nat)
    requires Named(q) && k <= |q|
    ensures Named(q[..k])
  {
    assert forall n <- q[..k] :: n in q;
  }

  lemma NoneBefore()
    ensures Join([]) == [] && Plain([])
  {
  }

  lemma PlainSuffix(q: Path, k: nat)
    requires Plain(q) && k <= |q|
    ensures Plain(q[k..])
  {
    assert forall n <- q[k..] :: n in q;
  }

  lemma RootIsDirAttr(m: View)
    requires [] in m && TreeOK(Root(m))
    ensures TypeMode(m[[]].info.mode) == ModeDir
  {
    hide TreeOK, Root;
    ModeAt(m, []);
    DirOfMode(m[[]].info.mode);
    TreeOKRoot(Root(m));
    assert Root(m) == TreeOf(m, []) by {
      RootOf(m);
    }
  }

  lemma RootOf(m: View)
    requires [] in m
    ensures Root(m) == TreeOf(m, [])
  {
  }

  lemma TreeOKRoot(root: Node)
    requires TreeOK(root)
    ensures IsDir(root.info.mode)
  {
  }

  /** Looking the last name of a live path up in its directory finds it. */
  lemma EntryLook(m: View, i: nat, j: nat, p: Path)
    requires Shaped(m) && [] in m && TreeOK(Root(m)) && p in m && p != [] && Overlay.Dir(p) in m && DirAttr(m[Overlay.Dir(p)])
    requires i < |Preorder(Root(m))| && PathOf(Root(m), i) == Overlay.Dir(p)
    requires j < |Preorder(Root(m))| && PathOf(Root(m), j) == p && Preorder(Root(m))[j].info == InfoAt(m, p)
    ensures TreeLook(Root(m))(i, p[|p| - 1]) == Ok((j, TypeMode(m[p].info.mode)))
  {
    hide Root, Preorder, PathOf, Shaped, Fold, TreeLook, InfoAt, TreeOK, TypeMode, Parents;
    TreeFold(Root(m), j);
    ModeAt(m, p);
    ModeAt(m, Overlay.Dir(p));
    var k := OnePlace(m, Overlay.Dir(p));
    TreeFoldAt(m, i, Overlay.Dir(p));
    assert p == Overlay.Dir(p) + [p[|p| - 1]];
    FoldAppend<nat>(TreeLook(Root(m)), 0, Overlay.Dir(p), p[|p| - 1]);
  }

  lemma LinkText(m: View, j: nat, p: Path)
    requires [] in m && p in m && j < |Preorder(Root(m))| && Preorder(Root(m))[j].info == InfoAt(m, p)
    ensures TreeLink(Root(m))(j) == if |m[p].info.symTarget| > 4096 then Err(Invalid) else Ok(m[p].info.symTarget)
  {
    hide Root, Preorder;
  }

  lemma TreeFoldAt(m: View, i: nat, p: Path)
    requires Shaped(m) && p in m && [] in m && DirAttr(m[p])
    requires i < |Preorder(Root(m))| && PathOf(Root(m), i) == p
    requires TreeOK(Root(m))
    ensures Fold<nat>(TreeLook(Root(m)), 0, p) == Ok((i, ModeDir))
  {
    hide Root, Preorder, PathOf, Shaped, Fold, TreeLook, InfoAt, TreeOK;
    TreeFold(Root(m), i);
    var j := OnePlace(m, p);
    ModeAt(m, p);
  }

  lemma MissingName(m: View, i: nat, p: Path, n: bytes)
    requires Shaped(m) && p in m && p + [n] !in m && n != DOT && n != DOTDOT && DirAttr(m[p])
    requires i < |Preorder(Root(m))| && PathOf(Root(m), i) == p
    ensures TreeLook(Root(m))(i, n) == Err(NotExist)
  {
    hide TreeOf, Preorder, Paths, PathOf, Shaped, KidList, NamesUnder, Trees, Parents, KidIndex;
    RootThere(m);
    PathsMatch(m, []);
    PathOfIsPath(m, i);
    ModeAt(m, p);
    KidNamesAre(m, p, KidList(m, p));
    NameUnder(m, p, n);
    var e := Preorder(Root(m))[i];
    forall k | 0 <= k < |e.kids|
      ensures e.kids[k].info.name != n
    {
      assert Map(KidName, e.kids)[k] in KidList(m, p);
    }
  }
}
