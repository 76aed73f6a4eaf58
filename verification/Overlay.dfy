/**
 The writer's mutable tree (mkfs.go): entries linked to parents and children, an index by path, and
 the operations of layered building. Paths are component lists; the root's is empty.
 */
module Overlay {
  import opened Bytes
  import opened Format

  type Path = seq<bytes>

  /** path.Dir */
  function Dir(p: Path): Path { if p == [] then [] else p[..|p| - 1] }

  /** An entry's own fields; the name in `info` is not used, its path names it. */
  datatype Attr = Attr(info: Info, nlinkSet: bool)

  predicate DirAttr(a: Attr) { IsDir(a.info.mode) }

  /** The directory that ensureParent makes up: mode 0755, all else zero. */
  const IMPLICIT: Attr :=
    Attr(Info([], 0x41ED, 0, 0, 0, 0, 0, 0, 0, [], [], false, false, None, map[]), false)

  /** What add changes of the root. */
  function RootAttr(was: Attr, a: Attr): Attr {
    var i := was.info.(mode := a.info.mode, uid := a.info.uid, gid := a.info.gid,
                       mtime := a.info.mtime, mtimeNs := a.info.mtimeNs, xattrs := a.info.xattrs);
    if a.info.nlink > 0 then Attr(i.(nlink := a.info.nlink), true) else was.(info := i)
  }

  /** What copyFromImage changes of the root. */
  function RegisterRoot(was: Attr, a: Attr): Attr {
    Attr(was.info.(mode := a.info.mode, uid := a.info.uid, gid := a.info.gid, mtime := a.info.mtime,
                   mtimeNs := a.info.mtimeNs, nlink := a.info.nlink, xattrs := a.info.xattrs), a.nlinkSet)
  }

  // ---- The map that the tree stands for ----

  type View = map<Path, Attr>

  /** m with the missing directories above and at d. */
  function WithParents(m: View, d: Path): View
    decreases |d|
  {
    if d == [] || d in m then m else WithParents(m, Dir(d))[d := IMPLICIT]
  }

  /** add: a new entry, or the entry at p overwritten. */
  function PutSpec(m: View, p: Path, a: Attr): (r: View)
    requires [] in m
    ensures [] in r
  {
    ParentsAdded(m, Dir(p));
    if p == [] then m[[] := RootAttr(m[[]], a)] else WithParents(m, Dir(p))[p := a]
  }

  /** The end of a round of copyFromImage: the entry at p alone. */
  function RegisterSpec(m: View, p: Path, a: Attr): View
    requires [] in m
  {
    m[p := if p == [] then RegisterRoot(m[[]], a) else a]
  }

  /** What remove is for: p and everything below it are gone. The root itself cannot go. */
  function RemoveSpec(m: View, p: Path): View {
    map q | q in m && (q == [] || !(p <= q)) :: m[q]
  }

  /** What removeChildren is for: everything below p is gone. */
  function ClearSpec(m: View, p: Path): View {
    map q | q in m && !(p < q) :: m[q]
  }

  /** Every path's directory is there. */
  ghost predicate Closed(m: View) {
    [] in m && forall p <- m :: p != [] ==> Dir(p) in m
  }

  /** Every path's directory is there and is a directory. */
  ghost predicate Shaped(m: View) {
    [] in m && forall p <- m :: p != [] ==> Dir(p) in m && DirAttr(m[Dir(p)])
  }

  /** The nearest existing ancestor of d, or d itself, is a directory. */
  predicate NearestIsDir(m: View, d: Path)
    decreases |d|
  {
    if d in m then DirAttr(m[d]) else d != [] && NearestIsDir(m, Dir(d))
  }

  ghost predicate HasChild(m: View, p: Path) {
    exists q <- m :: q != [] && Dir(q) == p
  }

  /** What a caller must check before add. */
  ghost predicate PutGuard(m: View, p: Path, a: Attr) {
    (p != [] ==> NearestIsDir(m, Dir(p))) && (HasChild(m, p) ==> DirAttr(a))
  }

  /** What WithParents adds: only missing directories on the way, all of them directories. */
  lemma {:induction false} ParentsAdded(m: View, d: Path)
    requires [] in m
    ensures d in WithParents(m, d) && [] in WithParents(m, d)
    ensures d !in m ==> WithParents(m, d)[d] == IMPLICIT
    ensures forall q <- WithParents(m, d) :: q in m || |q| <= |d|
    ensures forall q <- m :: q in WithParents(m, d) && WithParents(m, d)[q] == m[q]
    decreases |d|
  {
    if d != [] && d !in m {
      ParentsAdded(m, Dir(d));
    }
  }

  /** A missing ancestor comes up as a directory 0755 of user and group 0, without times, attributes or anything else. */
  lemma ImplicitDirectory(m: View, d: Path, q: Path)
    requires [] in m && q <= d && q !in m && forall r <- m :: !(q < r <= d)
    ensures q in WithParents(m, d)
    ensures var i := WithParents(m, d)[q].info;
            && TypeOf(i.mode) == S_DIR && i.mode % 0x1000 == 7 * 64 + 5 * 8 + 5 && i.uid == 0 && i.gid == 0
            && i.mtime == 0 && i.mtimeNs == 0 && i.nlink == 0 && i.size == 0 && i.rdev == 0 && i.xattrs == map[]
            && i.data == None && i.chunks == [] && !i.metadataOnly && !WithParents(m, d)[q].nlinkSet
    decreases |d|
  {
    if q != d {
      assert q <= Dir(d) && q < d;
      assert Dir(d) < d;
      ImplicitDirectory(m, Dir(d), q);
    }
  }

  /** An entry added for the root gives it its mode, owner, times, attributes, and its link count if it has one; the rest stays. */
  lemma RootTaken(m: View, a: Attr)
    requires [] in m
    ensures [] in PutSpec(m, [], a)
    ensures var r, was := PutSpec(m, [], a)[[]], m[[]];
            && r.info.mode == a.info.mode && r.info.uid == a.info.uid && r.info.gid == a.info.gid
            && r.info.mtime == a.info.mtime && r.info.mtimeNs == a.info.mtimeNs && r.info.xattrs == a.info.xattrs
            && r.info.nlink == (if a.info.nlink > 0 then a.info.nlink else was.info.nlink)
            && r.nlinkSet == (a.info.nlink > 0 || was.nlinkSet)
            && r.info.size == was.info.size && r.info.rdev == was.info.rdev && r.info.symTarget == was.info.symTarget
            && r.info.chunks == was.info.chunks && r.info.data == was.info.data
  {
  }

  /** Registering an image's root gives the root the same, and always its link count. */
  lemma RootRegistered(m: View, a: Attr)
    requires [] in m
    ensures var r, was := RegisterSpec(m, [], a)[[]], m[[]];
            && r.info.mode == a.info.mode && r.info.uid == a.info.uid && r.info.gid == a.info.gid
            && r.info.mtime == a.info.mtime && r.info.mtimeNs == a.info.mtimeNs && r.info.xattrs == a.info.xattrs
            && r.info.nlink == a.info.nlink && r.nlinkSet == a.nlinkSet
            && r.info.size == was.info.size && r.info.rdev == was.info.rdev && r.info.symTarget == was.info.symTarget
            && r.info.chunks == was.info.chunks && r.info.data == was.info.data
  {
  }

  lemma ImplicitIsDir()
    ensures DirAttr(IMPLICIT)
  {
  }

  /** Adding an entry for d to m, which has nothing below d. */
  lemma InsertShaped(m: View, d: Path, a: Attr)
    requires Shaped(m) && d != [] && Dir(d) in m
    requires HasChild(m, d) ==> DirAttr(a)
    ensures Shaped(m[d := a]) <==> DirAttr(m[Dir(d)])
  {
    var r := m[d := a];
    assert Dir(d) != d;
    if Shaped(r) {
      assert d in r;
    }
    if DirAttr(m[Dir(d)]) {
      forall p <- r | p != []
        ensures Dir(p) in r && DirAttr(r[Dir(p)])
      {
        if Dir(p) == d {
          assert p in m;
          assert HasChild(m, d);
        }
      }
    }
  }

  lemma {:induction false} ParentsShaped(m: View, d: Path)
    requires Shaped(m)
    ensures d !in m ==> (Shaped(WithParents(m, d)) <==> NearestIsDir(m, d))
    decreases |d|
  {
    if d !in m {
      var w := WithParents(m, Dir(d));
      ParentsAdded(m, Dir(d));
      ParentsShaped(m, Dir(d));
      ImplicitIsDir();
      if Shaped(w) {
        InsertShaped(w, d, IMPLICIT);
      } else {
        assert Dir(d) !in m;
        assert !Shaped(w[d := IMPLICIT]) by {
          var q :| q in w && q != [] && !(Dir(q) in w && DirAttr(w[Dir(q)]));
          assert q in w[d := IMPLICIT];
          assert Dir(q) == d ==> q in m;
        }
      }
    }
  }

  /** add keeps the tree well shaped exactly when its guard holds. */
  lemma PutShaped(m: View, p: Path, a: Attr)
    requires Shaped(m)
    ensures Shaped(PutSpec(m, p, a)) <==> PutGuard(m, p, a)
  {
    if p == [] {
      RootShaped(m, a);
    } else {
      var w := WithParents(m, Dir(p));
      ParentsAdded(m, Dir(p));
      ParentsShaped(m, Dir(p));
      ImplicitIsDir();
      SameChildren(m, w, p);
      if HasChild(m, p) && !DirAttr(a) {
        var q :| q in m && q != [] && Dir(q) == p;
        assert q in w[p := a];
      } else if Shaped(w) {
        InsertShaped(w, p, a);
      } else {
        assert Dir(p) !in m;
        var q :| q in w && q != [] && !(Dir(q) in w && DirAttr(w[Dir(q)]));
        assert q in w[p := a];
        assert Dir(q) == p ==> q in m;
      }
    }
  }

  lemma SameChildren(m: View, w: View, p: Path)
    requires p != [] && w == WithParents(m, Dir(p)) && [] in m
    ensures HasChild(m, p) <==> HasChild(w, p)
  {
    ParentsAdded(m, Dir(p));
    if HasChild(w, p) {
      var q :| q in w && q != [] && Dir(q) == p;
      assert q in m;
    }
    if HasChild(m, p) {
      var q :| q in m && q != [] && Dir(q) == p;
      assert q in w;
    }
  }

  lemma RootShaped(m: View, a: Attr)
    requires Shaped(m)
    ensures Shaped(PutSpec(m, [], a)) <==> (HasChild(m, []) ==> DirAttr(a))
  {
    var r := PutSpec(m, [], a);
    assert DirAttr(r[[]]) <==> DirAttr(a);
    if Shaped(r) && HasChild(m, []) {
      var q :| q in m && q != [] && Dir(q) == [];
      assert q in r;
    }
    if HasChild(m, []) ==> DirAttr(a) {
      forall p <- r | p != []
        ensures Dir(p) in r && DirAttr(r[Dir(p)])
      {
        assert p in m;
      }
    }
  }

  /** In a well-shaped tree every prefix of a path is there too. */
  lemma {:induction false} PrefixThere(m: View, q: Path, p: Path)
    requires Shaped(m) && q in m && p <= q
    ensures p in m && (p < q ==> DirAttr(m[p]))
    decreases |q|
  {
    if p != q {
      assert p <= Dir(q);
      PrefixThere(m, Dir(q), p);
      assert p < Dir(q) || p == Dir(q);
    }
  }

  /** Removals keep the tree well shaped. */
  lemma RemoveShaped(m: View, p: Path)
    requires Shaped(m)
    ensures Shaped(RemoveSpec(m, p)) && Shaped(ClearSpec(m, p))
    ensures p !in m ==> RemoveSpec(m, p) == m == ClearSpec(m, p)
  {
    forall q <- m
      ensures p <= Dir(q) && q != [] ==> p <= q
      ensures p < Dir(q) && q != [] ==> p < q
      ensures p <= q ==> p in m
    {
      if p <= q {
        PrefixThere(m, q, p);
      }
    }
  }

  // ---- What the removals really take: only directories are searched ----

  /** q is reached from p downwards through directories. */
  ghost predicate Taken(m: View, p: Path, q: Path)
    decreases |q|
  {
    q in m && p < q && (Dir(q) == p || (Dir(q) in m && DirAttr(m[Dir(q)]) && Taken(m, p, Dir(q))))
  }

  /** removeSubtree of the entry at p. */
  ghost function TakeDown(m: View, p: Path): View {
    map q | q in m && !Taken(m, p, q) :: m[q]
  }

  /** remove of the entry at p. */
  ghost function TakeOut(m: View, p: Path): View
    requires p in m
  {
    map q | q in m && (q == [] || (q != p && !(DirAttr(m[p]) && Taken(m, p, q)))) :: m[q]
  }

  /** No file at or below p has children. */
  ghost predicate Solid(m: View, p: Path)
    requires Closed(m)
  {
    forall q <- m :: p < q ==> DirAttr(m[Dir(q)])
  }

  /** No file below p has children. */
  ghost predicate SolidBelow(m: View, p: Path)
    requires Closed(m)
  {
    forall q <- m :: p < q && Dir(q) != p ==> DirAttr(m[Dir(q)])
  }

  lemma {:induction false} TakenAll(m: View, p: Path, q: Path)
    requires Closed(m) && SolidBelow(m, p) && q in m && p < q
    ensures Taken(m, p, q)
    decreases |q|
  {
    if Dir(q) != p {
      assert p < Dir(q);
      TakenAll(m, p, Dir(q));
    }
  }

  /** What is left over after taking down p has lost its directory somewhere. */
  lemma {:induction false} LeftBehind(m: View, p: Path, q: Path)
    requires Closed(m) && Closed(TakeDown(m, p)) && q in m && p < q
    ensures Taken(m, p, q)
    decreases |q|
  {
    if Dir(q) != p {
      assert p < Dir(q);
      LeftBehind(m, p, Dir(q));
      assert q in TakeDown(m, p) ==> Dir(q) in TakeDown(m, p);
    }
  }

  /**
   Taking down p clears what is below it, and leaves every live entry with a live directory, exactly
   when no file below p has children.
   */
  lemma ClearExact(m: View, p: Path)
    requires Closed(m)
    ensures TakeDown(m, p) == ClearSpec(m, p) <==> SolidBelow(m, p)
    ensures Closed(TakeDown(m, p)) <==> SolidBelow(m, p)
  {
    hide Closed, SolidBelow;
    if SolidBelow(m, p) {
      forall q <- m | p < q
        ensures Taken(m, p, q)
      {
        TakenAll(m, p, q);
      }
      ClearedClosed(m, p);
    }
    if Closed(TakeDown(m, p)) {
      forall q <- m | p < q
        ensures Taken(m, p, q)
      {
        LeftBehind(m, p, q);
      }
    }
    if TakeDown(m, p) == ClearSpec(m, p) {
      forall q <- m | p < q
        ensures Taken(m, p, q)
      {
        assert q !in ClearSpec(m, p);
      }
    }
    AllTaken(m, p);
  }

  lemma AllTaken(m: View, p: Path)
    requires Closed(m)
    ensures (forall q <- m :: p < q ==> Taken(m, p, q)) ==> SolidBelow(m, p) && TakeDown(m, p) == ClearSpec(m, p)
  {
  }

  lemma ClearedClosed(m: View, p: Path)
    requires Closed(m)
    ensures Closed(ClearSpec(m, p)) && Closed(RemoveSpec(m, p))
  {
    forall q <- m | q != []
      ensures p < Dir(q) ==> p < q
      ensures p <= Dir(q) ==> p <= q
    {
    }
  }

  /** What lies below p hangs from a child of p. */
  lemma {:induction false} ChildAbove(m: View, p: Path, q: Path) returns (c: Path)
    requires Closed(m) && q in m && p < q
    ensures c in m && c != [] && Dir(c) == p && p < c && p in m
    decreases |q|
  {
    if Dir(q) == p {
      c := q;
    } else {
      c := ChildAbove(m, p, Dir(q));
    }
  }

  lemma FileExact(m: View, p: Path)
    requires Closed(m) && p in m && !DirAttr(m[p])
    ensures Solid(m, p) <==> forall q <- m :: !(p < q)
    ensures TakeOut(m, p) == RemoveSpec(m, p) <==> forall q <- m :: !(p < q)
    ensures p != [] && Closed(TakeOut(m, p)) ==> forall q <- m :: !(p < q)
  {
    hide Taken, SolidBelow;
    forall q <- m | p < q
      ensures !Solid(m, p) && q in TakeOut(m, p) && (p != [] ==> !Closed(TakeOut(m, p)))
    {
      var c := ChildAbove(m, p, q);
      assert c in TakeOut(m, p);
      assert p != [] ==> p !in TakeOut(m, p);
    }
  }

  lemma DirExact(m: View, p: Path)
    requires Closed(m) && p in m && DirAttr(m[p])
    ensures Solid(m, p) <==> SolidBelow(m, p)
    ensures TakeOut(m, p) == RemoveSpec(m, p) <==> TakeDown(m, p) == ClearSpec(m, p)
    ensures p != [] && Closed(TakeOut(m, p)) ==> Closed(TakeDown(m, p))
  {
    hide Taken;
    forall q <- m | p < q
      ensures q in TakeOut(m, p) <==> q in TakeDown(m, p)
      ensures q !in RemoveSpec(m, p) && q !in ClearSpec(m, p)
    {
    }
    forall q <- m | !(p < q)
      ensures q in TakeDown(m, p) && q in ClearSpec(m, p)
      ensures q in TakeOut(m, p) <==> q in RemoveSpec(m, p)
    {
      assert !Taken(m, p, q) by {
        NotTaken(m, p, q);
      }
    }
    if p != [] && Closed(TakeOut(m, p)) {
      forall q <- TakeDown(m, p) | q != []
        ensures Dir(q) in TakeDown(m, p)
      {
        NotTaken(m, p, Dir(q));
        assert q != p ==> q in TakeOut(m, p);
      }
    }
  }

  lemma NotTaken(m: View, p: Path, q: Path)
    ensures Taken(m, p, q) ==> p < q
  {
  }

  /**
   Removing p removes what is below it too, and keeps every live entry in a live directory, exactly
   when no file at or below p has children.
   */
  lemma RemoveExact(m: View, p: Path)
    requires Closed(m) && p in m
    ensures TakeOut(m, p) == RemoveSpec(m, p) <==> Solid(m, p)
    ensures Solid(m, p) ==> Closed(TakeOut(m, p))
    ensures p != [] && Closed(TakeOut(m, p)) ==> Solid(m, p)
  {
    hide Closed, Solid, SolidBelow, TakeOut, TakeDown;
    ClearedClosed(m, p);
    if DirAttr(m[p]) {
      DirExact(m, p);
      ClearExact(m, p);
    } else {
      FileExact(m, p);
    }
  }

  // ---- The tree of objects ----

  class FsEntry {
    const path: Path
    var attr: Attr
    var parent: FsEntry?
    var children: seq<FsEntry>
    var removed: bool

    constructor (path: Path, attr: Attr)
      ensures this.path == path && this.attr == attr && parent == null && children == [] && !removed
    {
      this.path, this.attr, this.parent, this.children, this.removed := path, attr, null, [], false;
    }
  }

  /** The tree part of the writer. `all` holds every entry ever linked, removed or not. */
  class FsTree {
    const root: FsEntry
    var byPath: map<Path, FsEntry>
    ghost var all: set<FsEntry>

    constructor ()
      ensures Sound() && InPlace() && fresh(root) && all == {root} && [] in byPath
      ensures View() == map[[] := IMPLICIT]
    {
      var r := new FsEntry([], IMPLICIT);
      root, byPath, all := r, map[[] := r], {r};
    }

    /** Index and links agree; removed entries stay linked but are not indexed. */
    ghost predicate Sound()
      reads this, all
    {
      Indexed() && Linked()
    }

    /** The index holds exactly the live entries, each under its path. */
    ghost predicate Indexed()
      reads this`byPath, this`all, all`removed
    {
      && root in all && root.path == []
      && (forall p <- byPath :: byPath[p] in all && byPath[p].path == p && !byPath[p].removed)
      && (forall o <- all :: !o.removed ==> o.path in byPath && byPath[o.path] == o)
    }

    /** Parents and children mirror each other. */
    ghost predicate Linked()
      reads this`all, all`parent, all`children
    {
      && root in all && root.path == []
      && (forall o {:trigger Placed(o)} :: o in all && o != root ==> Placed(o))
      && (forall o {:trigger KidsBack(o)} :: o in all ==> KidsBack(o))
    }

    ghost predicate KidsBack(o: FsEntry)
      reads this`all, o`children, all`parent
    {
      (forall c <- o.children :: c in all && c != root && c.parent == o) && Distinct(o.children)
    }

    /** A linked entry is a child of the directory its path names, or of the root. */
    ghost predicate Placed(o: FsEntry)
      requires o in all
      reads this`all, all`parent, all`children
    {
      && o.path != [] && o.parent in all && o in o.parent.children && |o.parent.path| < |o.path|
      && (o.parent.path == Dir(o.path) || o.parent == root)
    }

    /** An entry that is emitted under p: the root always is. */
    predicate Here(p: Path)
      reads this`byPath
    {
      p == [] || p in byPath
    }

    function EntryAt(p: Path): FsEntry
      requires Here(p)
      reads this`byPath
    {
      if p == [] then root else byPath[p]
    }

    /** Every live entry hangs from the live entry of its directory. */
    ghost predicate InPlace()
      reads this`byPath, byPath.Values`parent
    {
      HomeIn(byPath)
    }

    ghost predicate HomeIn(index: map<Path, FsEntry>)
      reads index.Values`parent
    {
      forall p {:trigger AtHome(index, p)} :: p in index && p != [] ==> AtHome(index, p)
    }

    ghost predicate AtHome(index: map<Path, FsEntry>, p: Path)
      requires p in index
      reads index.Values`parent
    {
      (Dir(p) == [] || Dir(p) in index) && index[p].parent == if Dir(p) == [] then root else index[Dir(p)]
    }

    /** The map that the live entries form. */
    ghost function View(): View
      requires Sound()
      reads this, all
    {
      map p | p in byPath.Keys + {[]} :: EntryAt(p).attr
    }

    lemma Basics()
      requires Sound()
      ensures root in all && [] in View() && ([] in byPath ==> byPath[[]] == root)
      ensures forall p <- byPath :: byPath[p] in all && !byPath[p].removed
      ensures forall p :: p in View() <==> Here(p)
      ensures forall p <- View() :: Here(p) && EntryAt(p) in all && EntryAt(p).path == p && View()[p] == EntryAt(p).attr
    {
      hide Linked;
      if [] in byPath {
        OnlyRoot(byPath[[]]);
      }
    }

    lemma ViewIs(m: View)
      requires Sound() && forall p :: p in m <==> Here(p)
      requires forall p <- m :: m[p] == EntryAt(p).attr
      ensures View() == m
    {
      hide Linked, Indexed;
    }

    lemma OnlyRoot(o: FsEntry)
      requires Linked() && o in all && o.path == []
      ensures o == root
    {
      hide KidsBack;
      assert o != root ==> Placed(o);
    }

    /** In place means closed under directories. */
    lemma InPlaceClosed()
      requires Sound() && InPlace()
      ensures Closed(View())
    {
      hide KidsBack, Linked;
      forall p <- View() | p != []
        ensures Dir(p) in View()
      {
        assert AtHome(byPath, p);
      }
    }

    /** Entries all of which hang from the directory their path names. */
    ghost predicate Homed(s: set<FsEntry>)
      reads s`parent
    {
      forall o <- s :: o.parent != null && o.parent.path == Dir(o.path)
    }

    // ---- Adding ----

    /** The two link updates of addChild. */
    method Link(e: FsEntry, parent: FsEntry)
      requires Linked() && e !in all && parent in all && e.children == []
      requires e.path != [] && (parent.path == Dir(e.path) || parent == root)
      modifies this`all, e`parent, parent`children
      ensures Linked() && all == old(all) + {e} && e.parent == parent
    {
      assert KidsBack(parent);
      e.parent := parent;
      parent.children := parent.children + [e];
      all := all + {e};
      forall o | o in all && o != root
        ensures Placed(o)
      {
        if o != e {
          assert old(Placed(o));
        }
      }
      forall o | o in all
        ensures KidsBack(o)
      {
        if o != e {
          assert old(KidsBack(o));
        }
      }
    }

    /** A linked entry is indexed too. */
    method LinkIndexed(e: FsEntry, parent: FsEntry)
      requires Sound() && e !in all && parent in all && e.children == [] && !e.removed
      requires e.path != [] && e.path !in byPath && (parent.path == Dir(e.path) || parent == root)
      modifies this`byPath, this`all, e`parent, parent`children
      ensures Sound() && all == old(all) + {e} && e.parent == parent && byPath == old(byPath)[e.path := e]
    {
      hide Linked;
      Link(e, parent);
      byPath := byPath[e.path := e];
    }

    /**
     addChild: the parent is the entry indexed under the directory of the path, and the root if there
     is none. The tree stays in place exactly when the directory is there.
     */
    method AddChild(e: FsEntry)
      requires Sound() && e !in all && e.children == [] && !e.removed
      requires e.path != [] && e.path !in byPath
      modifies this`byPath, this`all, e`parent, all`children
      ensures Sound() && all == old(all) + {e} && byPath == old(byPath)[e.path := e]
      ensures e.parent == if Dir(e.path) in old(byPath) then old(byPath)[Dir(e.path)] else root
      ensures e.parent.path == Dir(e.path) <==> old(Here(Dir(e.path)))
      ensures View() == old(View())[e.path := e.attr]
      ensures old(InPlace()) ==> (InPlace() <==> old(Here(Dir(e.path))))
    {
      hide Linked, Indexed, HomeIn, View;
      Basics();
      ghost var was, m := byPath, View();
      var parent := if Dir(e.path) in byPath then byPath[Dir(e.path)] else root;
      assert Here(Dir(e.path)) <==> Dir(e.path) in m;
      LinkIndexed(e, parent);
      assert old(HomeIn(was)) ==> HomeIn(was);
      if HomeIn(was) {
        OneMore(was, e);
      }
      ViewWith(was, m, e);
    }

    /** The map after an addition, from the index and the map before it. */
    lemma ViewWith(was: map<Path, FsEntry>, m: View, e: FsEntry)
      requires Sound() && [] in m && m[[]] == root.attr && e.path != []
      requires forall q :: q in m <==> q == [] || q in was
      requires forall q <- was :: m[q] == was[q].attr
      requires byPath == was[e.path := e]
      ensures View() == m[e.path := e.attr]
    {
      hide Sound, View;
      ViewIs(m[e.path := e.attr]);
    }

    lemma OneMore(was: map<Path, FsEntry>, e: FsEntry)
      requires HomeIn(was) && e.path !in was && e.path != []
      requires e.parent == if Dir(e.path) in was then was[Dir(e.path)] else root
      requires [] in was ==> was[[]] == root
      ensures HomeIn(was[e.path := e]) <==> Dir(e.path) == [] || Dir(e.path) in was
    {
      var now := was[e.path := e];
      if Dir(e.path) == [] || Dir(e.path) in was {
        forall p | p in now && p != []
          ensures AtHome(now, p)
        {
          assert p != e.path ==> AtHome(was, p);
        }
      }
      if HomeIn(now) {
        assert AtHome(now, e.path);
      }
    }

    /** Paths from top upwards, each the directory of the one before, up to below d. */
    ghost predicate Ladder(missing: seq<Path>, top: Path, d: Path) {
      && (forall k :: 0 <= k < |missing| ==> missing[k] != [])
      && (forall k :: 0 <= k < |missing| - 1 ==> Dir(missing[k]) == missing[k + 1])
      && (if missing == [] then d == top else missing[0] == top && Dir(missing[|missing| - 1]) == d)
    }

    /** The walk up to an existing ancestor. */
    method MissingAbove(top: Path) returns (missing: seq<Path>, d: Path)
      ensures Ladder(missing, top, d) && Here(d) && forall k :: 0 <= k < |missing| ==> missing[k] !in byPath
    {
      missing := [];
      d := top;
      while d != [] && d !in byPath
        invariant Ladder(missing, top, d) && forall k :: 0 <= k < |missing| ==> missing[k] !in byPath
        decreases |d|
      {
        missing := missing + [d];
        d := Dir(d);
      }
    }

    /** ensureParent: the missing directories above name, added from the top down, each in its place. */
    method EnsureParent(name: Path)
      requires Sound() && name != []
      modifies this`byPath, this`all, all`children
      ensures Sound() && old(all) <= all && fresh(all - old(all)) && Here(Dir(name))
      ensures [] in old(View()) && View() == WithParents(old(View()), Dir(name)) && ([] in byPath <==> [] in old(byPath))
      ensures Homed(all - old(all)) && (old(InPlace()) ==> InPlace())
    {
      hide Linked, Indexed, InPlace, View, Homed;
      NoneHomed(all - old(all));
      Basics();
      ghost var m := View();
      var missing, d := MissingAbove(Dir(name));
      var i := |missing|;
      while i > 0
        invariant 0 <= i <= |missing| && Sound() && old(all) <= all && fresh(all - old(all))
        invariant forall k :: 0 <= k < i ==> missing[k] != [] && missing[k] !in m
        invariant Here(if i == |missing| then d else missing[i])
        invariant View() == WithParents(m, if i == |missing| then d else missing[i])
        invariant [] in byPath <==> [] in old(byPath)
        invariant Homed(all - old(all)) && (old(InPlace()) ==> InPlace())
      {
        i := i - 1;
        NotBelow(m, missing[i]);
        ghost var more := all;
        AddHere(missing[i], IMPLICIT);
        HomedBoth(more - old(all), all - more);
        assert all - old(all) == (more - old(all)) + (all - more);
      }
    }

    lemma HomedBoth(a: set<FsEntry>, b: set<FsEntry>)
      requires Homed(a) && Homed(b)
      ensures Homed(a + b)
    {
    }

    lemma NoneHomed(s: set<FsEntry>)
      requires s == {}
      ensures Homed(s)
    {
    }

    /** A new entry whose directory is there. */
    method AddHere(p: Path, a: Attr)
      requires Sound() && p != [] && p !in View() && Here(Dir(p))
      modifies this`byPath, this`all, all`children
      ensures Sound() && old(all) <= all && fresh(all - old(all)) && Here(p)
      ensures View() == old(View())[p := a] && ([] in byPath <==> [] in old(byPath))
      ensures Homed(all - old(all)) && (old(InPlace()) ==> InPlace())
    {
      hide Linked, Indexed, InPlace, View;
      Basics();
      var e := new FsEntry(p, a);
      assert e !in all;
      AddChild(e);
      assert all - old(all) == {e};
    }

    /** add: the tree stays sound whatever is added; the map changes as specified, all in place. */
    method Put(p: Path, a: Attr)
      requires Sound()
      modifies this`byPath, this`all, all`children, all`attr
      ensures Sound() && old(all) <= all && fresh(all - old(all)) && ([] in byPath <==> [] in old(byPath))
      ensures [] in old(View()) && View() == PutSpec(old(View()), p, a)
      ensures Homed(all - old(all)) && (old(InPlace()) ==> InPlace())
    {
      hide Linked, InPlace, Indexed, View, Homed;
      NoneHomed(all - old(all));
      Basics();
      if p == [] {
        SetRoot(RootAttr(root.attr, a));
        return;
      }
      EnsureParent(p);
      if p in byPath {
        Overwrite(p, a);
      } else {
        Basics();
        ghost var more := all;
        AddHere(p, a);
        HomedBoth(more - old(all), all - more);
        assert all - old(all) == (more - old(all)) + (all - more);
      }
    }

    method SetRoot(a: Attr)
      requires Sound()
      modifies root`attr
      ensures Sound() && View() == old(View())[[] := a] && (old(InPlace()) ==> InPlace())
    {
      hide Linked, HomeIn, View;
      Basics();
      ghost var m := View();
      root.attr := a;
      assert forall p <- m :: p != [] ==> EntryAt(p) != root;
      ViewIs(m[[] := a]);
    }

    /** Overwriting keeps the links and changes one path's fields. */
    method Overwrite(p: Path, a: Attr)
      requires Sound() && p in byPath && p != []
      modifies all`attr
      ensures Sound() && View() == old(View())[p := a] && (old(InPlace()) ==> InPlace())
    {
      hide Linked, HomeIn, View;
      Basics();
      ghost var m := View();
      byPath[p].attr := a;
      assert forall q <- m :: q != p ==> EntryAt(q) != EntryAt(p);
      ViewIs(m[p := a]);
    }

    /** Create and its kin: refuse the root and a path that is already there. */
    method Create(p: Path, a: Attr) returns (ok: bool)
      requires Sound()
      modifies this`byPath, this`all, all`children
      ensures Sound() && old(all) <= all && fresh(all - old(all)) && ([] in byPath <==> [] in old(byPath))
      ensures ok <==> p != [] && p !in old(View())
      ensures [] in old(View()) && View() == if ok then PutSpec(old(View()), p, a) else old(View())
      ensures Homed(all - old(all)) && (old(InPlace()) ==> InPlace())
    {
      hide Linked, InPlace, Indexed, View, Homed;
      NoneHomed(all - old(all));
      Basics();
      if p == [] || p in byPath {
        return false;
      }
      ghost var m := View();
      EnsureParent(p);
      NotBelow(m, p);
      ghost var more := all;
      AddHere(p, a);
      HomedBoth(more - old(all), all - more);
      assert all - old(all) == (more - old(all)) + (all - more);
      return true;
    }

    /** The end of copyFromImage's round: addChild without ensureParent. */
    method Register(p: Path, a: Attr)
      requires Sound()
      modifies this`byPath, this`all, all`children, all`attr
      ensures Sound() && old(all) <= all && fresh(all - old(all)) && ([] in byPath <==> [] in old(byPath))
      ensures [] in old(View()) && View() == RegisterSpec(old(View()), p, a)
      ensures p in old(View()) ==> all == old(all) && byPath == old(byPath)
      ensures p !in old(View()) ==>
                && p in byPath && byPath == old(byPath)[p := byPath[p]] && all == old(all) + {byPath[p]} && byPath[p] !in old(all)
                && byPath[p].parent == (if Dir(p) in old(byPath) then old(byPath)[Dir(p)] else root)
                && (byPath[p].parent.path == Dir(p) <==> Dir(p) in old(View()))
      ensures old(InPlace()) ==> (InPlace() <==> p in old(View()) || Dir(p) in old(View()))
    {
      hide Linked, InPlace, Indexed, View;
      Basics();
      if p == [] {
        SetRoot(RegisterRoot(root.attr, a));
      } else if p in byPath {
        Overwrite(p, a);
      } else {
        var e := new FsEntry(p, a);
        assert e !in all;
        AddChild(e);
        assert all - old(all) == {e};
      }
    }

    // ---- Removing ----

    ghost function Live(): set<FsEntry>
      reads this`all, all`removed
    {
      set o | o in all && !o.removed
    }

    /** o is reached from e downwards through the directories among `live`. */
    ghost predicate Reaches(e: FsEntry, o: FsEntry, live: set<FsEntry>)
      reads this`all, all`parent, all`attr
      decreases |o.path|
    {
      && o in live && o in all && o != root && o.parent in all && |o.parent.path| < |o.path|
      && (o.parent == e || (o.parent in live && DirAttr(o.parent.attr) && Reaches(e, o.parent, live)))
    }

    lemma {:induction false} ReachMore(e: FsEntry, o: FsEntry, few: set<FsEntry>, live: set<FsEntry>)
      requires few <= live && Reaches(e, o, few)
      ensures Reaches(e, o, live)
      decreases |o.path|
    {
      if o.parent != e {
        ReachMore(e, o.parent, few, live);
      }
    }

    lemma {:induction false} ReachOver(e: FsEntry, c: FsEntry, o: FsEntry, live: set<FsEntry>)
      requires Reaches(e, c, live) && DirAttr(c.attr) && Reaches(c, o, live)
      ensures Reaches(e, o, live)
      decreases |o.path|
    {
      if o.parent != c {
        ReachOver(e, c, o.parent, live);
      }
    }

    /** The entries that remove of e takes. */
    ghost function TakenWith(e: FsEntry): set<FsEntry>
      reads this, all, e
    {
      set o | o in Live() && (o == e || (DirAttr(e.attr) && Reaches(e, o, Live())))
    }

    /** The entries that removeSubtree of e takes. */
    ghost function TakenBelow(e: FsEntry): set<FsEntry>
      reads this, all
    {
      set o | o in Live() && Reaches(e, o, Live())
    }

    ghost function Without(gone: set<FsEntry>): map<Path, FsEntry>
      reads this`byPath
    {
      map p | p in byPath && byPath[p] !in gone :: byPath[p]
    }

    ghost predicate Emptied(o: FsEntry, live: set<FsEntry>)
      reads o`children
    {
      forall c <- o.children :: c !in live
    }

    /** Between two states of a removal below e: what has gone was reached, and directories that have gone are empty. */
    ghost predicate Removing(e: FsEntry, was: set<FsEntry>, now: set<FsEntry>)
      reads this`all, all`parent, all`attr, was`children, was`attr
    {
      && now <= was
      && (forall o {:trigger Reaches(e, o, was)} :: o in was && o !in now ==> Reaches(e, o, was))
      && (forall o {:trigger Emptied(o, now)} :: o in was && o !in now && DirAttr(o.attr) ==> Emptied(o, now))
    }

    lemma {:induction false} ReachedGone(e: FsEntry, o: FsEntry, was: set<FsEntry>, now: set<FsEntry>)
      requires Linked() && Removing(e, was, now) && Emptied(e, now) && Reaches(e, o, was)
      ensures o !in now
      decreases |o.path|
    {
      hide KidsBack;
      assert Placed(o);
      if o.parent != e {
        ReachedGone(e, o.parent, was, now);
        assert Emptied(o.parent, now);
      }
    }

    /** After a finished removal exactly the reached entries have gone. */
    lemma AllReached(e: FsEntry, was: set<FsEntry>, now: set<FsEntry>)
      requires Linked() && Removing(e, was, now) && Emptied(e, now)
      ensures now == set o | o in was && !Reaches(e, o, was)
    {
      hide Linked;
      forall o <- was
        ensures o in now <==> !Reaches(e, o, was)
      {
        if Reaches(e, o, was) {
          ReachedGone(e, o, was, now);
        }
      }
    }

    /** An index and the live entries it stands for; paths never change. */
    ghost predicate IndexOf(index: map<Path, FsEntry>, live: set<FsEntry>) {
      && (forall p <- index :: index[p] in live && index[p].path == p)
      && (forall o <- live :: o.path in index && index[o.path] == o)
    }

    lemma IndexIsLive()
      requires Sound()
      ensures IndexOf(byPath, Live())
    {
      hide Linked;
    }

    lemma FewerIndexed(was: map<Path, FsEntry>, all0: set<FsEntry>, now: map<Path, FsEntry>, live: set<FsEntry>)
      requires IndexOf(was, all0) && IndexOf(now, live) && live <= all0
      ensures now == map p | p in was && was[p] in live :: was[p]
    {
    }

    lemma NotGone(was: map<Path, FsEntry>, all0: set<FsEntry>, gone: set<FsEntry>)
      requires IndexOf(was, all0)
      ensures (map p | p in was && was[p] in all0 - gone :: was[p]) == map p | p in was && was[p] !in gone :: was[p]
    {
    }

    /** removeSubtree: exactly the live entries reached from e through directories are marked and unindexed. */
    method RemoveSubtree(e: FsEntry)
      requires Sound() && e in all
      modifies this`byPath, all`removed
      ensures Sound() && Live() == old(Live()) - old(TakenBelow(e)) && byPath == old(Without(TakenBelow(e)))
      ensures Removing(e, old(Live()), Live()) && Emptied(e, Live())
      decreases Live()
    {
      hide Linked, Reaches, IndexOf, Indexed;
      var i := 0;
      ghost var was, index, gone := Live(), byPath, TakenBelow(e);
      IndexIsLive();
      while i < |e.children|
        invariant i <= |e.children| && Sound() && Removing(e, was, Live())
        invariant forall k :: 0 <= k < i ==> e.children[k] !in Live()
      {
        var child := e.children[i];
        if !child.removed {
          RemoveChild(child, e, was);
        }
        i := i + 1;
      }
      AllReached(e, was, Live());
      IndexIsLive();
      FewerIndexed(index, was, byPath, Live());
      NotGone(index, was, gone);
    }

    /** Marks a live entry removed and drops it from the index. */
    method MarkRemoved(child: FsEntry)
      requires Sound() && child in all && !child.removed
      modifies this`byPath, child`removed
      ensures Sound() && Live() == old(Live()) - {child} && child in old(Live())
      ensures byPath == old(byPath) - {child.path} && child.path in old(byPath)
    {
      child.removed := true;
      byPath := byPath - {child.path};
      assert old(Linked());
    }

    /** The body of removeSubtree's loop for a live child. */
    method RemoveChild(child: FsEntry, e: FsEntry, ghost was: set<FsEntry>)
      requires Sound() && e in all && child in e.children && !child.removed && Removing(e, was, Live())
      modifies this`byPath, all`removed
      ensures Sound() && Removing(e, was, Live()) && child !in Live()
      ensures Live() < old(Live())
      decreases Live(), 0
    {
      hide Linked;
      ChildOf(e, child);
      ghost var before := Live();
      MarkRemoved(child);
      ghost var marked := Live();
      if DirAttr(child.attr) {
        RemoveSubtree(child);
      } else {
        assert Removing(child, marked, Live());
      }
      OneRound(e, child, was, before, marked, Live());
    }

    lemma ChildOf(e: FsEntry, child: FsEntry)
      requires Sound() && e in all && child in e.children
      ensures child in all && child != root && child.parent == e && |e.path| < |child.path|
    {
      assert KidsBack(e);
      assert Placed(child);
    }

    lemma OneRound(e: FsEntry, c: FsEntry, was: set<FsEntry>, before: set<FsEntry>, marked: set<FsEntry>, now: set<FsEntry>)
      requires e in all && c in before && c in all && c != root && c.parent == e && |e.path| < |c.path|
      requires Removing(e, was, before) && marked == before - {c} && Removing(c, marked, now)
      requires DirAttr(c.attr) ==> Emptied(c, now)
      requires !DirAttr(c.attr) ==> now == marked
      ensures Removing(e, was, now)
    {
      assert Reaches(e, c, was);
      forall o | o in was && o !in now
        ensures Reaches(e, o, was)
      {
        if o in marked {
          assert Reaches(c, o, marked);
          ReachMore(c, o, marked, was);
          ReachOver(e, c, o, was);
        }
      }
      forall o | o in was && o !in now && DirAttr(o.attr)
        ensures Emptied(o, now)
      {
        if o !in before {
          assert Emptied(o, before);
        } else if o != c {
          assert Emptied(o, now);
        }
      }
    }

    /** In an unchanged order of parents, what stays indexed is in place exactly when its directories stay. */
    lemma StillInPlace(was: map<Path, FsEntry>)
      requires Sound() && HomeIn(was) && forall p <- byPath :: p in was && byPath[p] == was[p]
      ensures InPlace() <==> Closed(View())
    {
      hide Linked;
      Basics();
      if InPlace() {
        InPlaceClosed();
      }
      forall p | p in byPath && p != [] && Closed(View())
        ensures AtHome(byPath, p)
      {
        assert AtHome(was, p) && p in View();
      }
    }

    /** In place, reaching through links is reaching through paths. */
    lemma {:induction false} ReachIsTaken(p: Path, q: Path)
      requires Sound() && InPlace() && Here(p) && q in byPath && q != []
      ensures Reaches(EntryAt(p), byPath[q], Live()) <==> Taken(View(), p, q)
      decreases |q|
    {
      hide KidsBack, Indexed, Linked, Taken, Reaches, InPlace;
      Basics();
      HomeFacts(q);
      assert p in View() && q in View() && Dir(q) in View() && Dir(q) <= q;
      NotTaken(View(), p, Dir(q));
      UnfoldTaken(View(), p, q);
      UnfoldReaches(EntryAt(p), byPath[q], Live());
      if Dir(q) != p {
        if Dir(q) == [] {
          UnfoldTaken(View(), p, []);
          UnfoldReaches(EntryAt(p), root, Live());
        } else {
          ReachIsTaken(p, Dir(q));
        }
      }
    }

    lemma HomeFacts(q: Path)
      requires Sound() && InPlace() && q in byPath && q != []
      ensures Here(Dir(q)) && byPath[q] in Live() && byPath[q] in all && byPath[q] != root
      ensures byPath[q].parent == EntryAt(Dir(q)) && EntryAt(Dir(q)) in all && EntryAt(Dir(q)).path == Dir(q)
      ensures Dir(q) != [] ==> byPath[Dir(q)] in Live()
    {
      hide KidsBack, Linked;
      assert AtHome(byPath, q);
    }

    lemma HomeOf(o: FsEntry)
      requires Sound() && InPlace() && o in all && o != root && !o.removed
      ensures o.parent in all && (o.parent == root || !o.parent.removed)
    {
      hide KidsBack;
      assert Placed(o) && AtHome(byPath, o.path);
    }

    lemma ParentThere(o: FsEntry)
      requires Sound() && o in all && o != root
      ensures o.path != [] && o.parent in all && |o.parent.path| < |o.path|
    {
      hide KidsBack;
      assert Placed(o);
    }

    lemma UnfoldReaches(e: FsEntry, o: FsEntry, live: set<FsEntry>)
      ensures Reaches(e, o, live) <==>
                && o in live && o in all && o != root && o.parent in all && |o.parent.path| < |o.path|
                && (o.parent == e || (o.parent in live && DirAttr(o.parent.attr) && Reaches(e, o.parent, live)))
    {
    }

    lemma RootNotTaken(e: FsEntry)
      ensures root !in TakenBelow(e) && (e != root ==> root !in TakenWith(e))
    {
      UnfoldReaches(e, root, Live());
    }

    /** The map after a removal, from the index and the map before it. */
    lemma ViewWithout(was: map<Path, FsEntry>, m: View, gone: set<FsEntry>)
      requires Sound() && [] in m && m[[]] == root.attr
      requires forall q :: q in m <==> q == [] || q in was
      requires forall q <- was :: m[q] == was[q].attr
      requires byPath == map q | q in was && was[q] !in gone :: was[q]
      ensures View() == map q | q in m && (q == [] || (q in was && was[q] !in gone)) :: m[q]
    {
      hide Sound, View;
      ViewIs(map q | q in m && (q == [] || (q in was && was[q] !in gone)) :: m[q]);
    }

    /** An entry does not stand in its own way. */
    lemma {:induction false} ReachWithout(e: FsEntry, o: FsEntry, live: set<FsEntry>)
      ensures Reaches(e, o, live) <==> Reaches(e, o, live - {e})
      ensures Reaches(e, o, live) ==> |e.path| < |o.path|
      decreases |o.path|
    {
      if o in live && o in all && o != root && o.parent in all && |o.parent.path| < |o.path| && o.parent != e {
        ReachWithout(e, o.parent, live);
      }
    }

    /** The two sets by paths, for a tree in place. */
    lemma TakenByPath(p: Path)
      requires Sound() && InPlace() && p in byPath
      ensures forall q <- byPath :: byPath[q] in TakenBelow(byPath[p]) <==> Taken(View(), p, q)
      ensures forall q <- byPath :: byPath[q] in TakenWith(byPath[p]) <==>
                q == p || (DirAttr(View()[p]) && Taken(View(), p, q))
    {
      hide KidsBack, Linked, Taken, Reaches, InPlace;
      Basics();
      forall q <- byPath
        ensures Reaches(byPath[p], byPath[q], Live()) <==> Taken(View(), p, q)
      {
        if q == [] {
          UnfoldTaken(View(), p, []);
          UnfoldReaches(byPath[p], root, Live());
        } else {
          ReachIsTaken(p, q);
        }
      }
    }

    /**
     remove, for whiteouts: takes the indexed entry and, if it is a directory, the live entries reached
     from it through directories. In a tree in place these are all the paths at and below p exactly
     when no file among them has children; and then, and only then, the tree stays in place.
     */
    method Remove(p: Path)
      requires Sound()
      modifies this`byPath, all`removed
      ensures Sound() && old(InPlace() ==> Closed(View()))
      ensures [] in byPath <==> p != [] && [] in old(byPath)
      ensures p !in old(byPath) ==> byPath == old(byPath) && Live() == old(Live()) && View() == old(View())
      ensures p !in old(byPath) && old(InPlace()) ==> InPlace()
      ensures p in old(byPath) ==> Live() == old(Live()) - old(TakenWith(byPath[p])) && byPath == old(Without(TakenWith(byPath[p])))
      ensures p in old(byPath) && old(InPlace()) ==>
                && View() == TakeOut(old(View()), p)
                && (View() == RemoveSpec(old(View()), p) <==> Solid(old(View()), p))
                && (Solid(old(View()), p) ==> InPlace()) && (p != [] && InPlace() ==> Solid(old(View()), p))
    {
      hide Linked, HomeIn, Reaches, Taken, Solid, Closed, View, Indexed, TakenWith, RemoveSpec, TakeOut;
      Basics();
      if InPlace() {
        InPlaceClosed();
      }
      if p !in byPath {
        return;
      }
      var e := byPath[p];
      ghost var was, m, live, gone := byPath, View(), Live(), TakenWith(e);
      RootNotTaken(e);
      if InPlace() {
        TakenByPath(p);
        RemoveExact(m, p);
      }
      MarkAndSweep(e);
      ViewWithout(was, m, gone);
      if HomeIn(was) {
        StillInPlace(was);
        TakeOutIs(was, m, p, gone);
      }
    }

    /** The two marks of remove. */
    method MarkAndSweep(e: FsEntry)
      requires Sound() && e in all && !e.removed
      modifies this`byPath, all`removed
      ensures Sound() && e in old(TakenWith(e)) && Live() == old(Live()) - old(TakenWith(e)) && byPath == old(Without(TakenWith(e)))
    {
      hide Linked, Reaches;
      ghost var live, gone := Live(), TakenWith(e);
      MarkRemoved(e);
      if DirAttr(e.attr) {
        forall o
          ensures Reaches(e, o, live) <==> Reaches(e, o, live - {e})
          ensures Reaches(e, o, live) ==> o != e
        {
          ReachWithout(e, o, live);
        }
        assert TakenBelow(e) == gone - {e};
        RemoveSubtree(e);
      }
    }

    /**
     removeChildren, for opaque directories: takes the live entries reached from the directory. In a
     tree in place these are all the paths below it exactly when no file below it has children.
     */
    method RemoveChildren(p: Path)
      requires Sound()
      modifies this`byPath, all`removed
      ensures Sound() && old(InPlace() ==> Closed(View()))
      ensures [] in byPath <==> [] in old(byPath)
      ensures p !in old(byPath) ==> byPath == old(byPath) && Live() == old(Live()) && View() == old(View())
      ensures p !in old(byPath) && old(InPlace()) ==> InPlace()
      ensures p in old(byPath) ==> Live() == old(Live()) - old(TakenBelow(byPath[p])) && byPath == old(Without(TakenBelow(byPath[p])))
      ensures p in old(byPath) && old(InPlace()) ==>
                && View() == TakeDown(old(View()), p)
                && (View() == ClearSpec(old(View()), p) <==> SolidBelow(old(View()), p))
                && (InPlace() <==> SolidBelow(old(View()), p))
    {
      hide Linked, HomeIn, Reaches, Taken, SolidBelow, Closed, View, Indexed, TakenBelow, ClearSpec, TakeDown;
      Basics();
      if InPlace() {
        InPlaceClosed();
      }
      if p !in byPath {
        return;
      }
      var e := byPath[p];
      ghost var was, m, live, gone := byPath, View(), Live(), TakenBelow(e);
      RootNotTaken(e);
      if InPlace() {
        TakenByPath(p);
        ClearExact(m, p);
      }
      RemoveSubtree(e);
      ViewWithout(was, m, gone);
      if HomeIn(was) {
        StillInPlace(was);
        TakeDownIs(was, m, p, gone);
      }
    }
  }

  lemma TakeDownIs(was: map<Path, FsEntry>, m: View, p: Path, gone: set<FsEntry>)
    requires forall q :: q in m <==> q == [] || q in was
    requires forall q <- was :: was[q] in gone <==> Taken(m, p, q)
    ensures (map q | q in m && (q == [] || (q in was && was[q] !in gone)) :: m[q]) == TakeDown(m, p)
  {
    NotTaken(m, p, []);
  }

  lemma TakeOutIs(was: map<Path, FsEntry>, m: View, p: Path, gone: set<FsEntry>)
    requires (forall q :: q in m <==> q == [] || q in was) && p in m
    requires forall q <- was :: was[q] in gone <==> q == p || (DirAttr(m[p]) && Taken(m, p, q))
    ensures (map q | q in m && (q == [] || (q in was && was[q] !in gone)) :: m[q]) == TakeOut(m, p)
  {
    hide Taken;
  }

  lemma UnfoldTaken(m: View, p: Path, q: Path)
    ensures Taken(m, p, q) <==>
              q in m && p < q && (Dir(q) == p || (Dir(q) in m && DirAttr(m[Dir(q)]) && Taken(m, p, Dir(q))))
  {
  }

  lemma NotBelow(m: View, p: Path)
    requires [] in m && p != [] && p !in m
    ensures p !in WithParents(m, Dir(p))
  {
    ParentsAdded(m, Dir(p));
  }

  ghost predicate Distinct(es: seq<FsEntry>) {
    forall i, j :: 0 <= i < j < |es| ==> es[i] != es[j]
  }
}
