/**
 The walk of copyFromImage (mkfs_image.go) as a client of the writer's tree: breadth first over the
 source's directories, with markers and entries in the order of the queue. Entries are registered
 without their missing ancestors, so a marker can take an entry's directory away before the entry
 comes; it then ends up under the root. The walk says exactly when.
 */
module ImageCopy {
  import opened Bytes
  import opened Format
  import opened Overlay
  import opened Layers
  import BuildTree

  /** An inode of the source with the children that its directory data lists. */
  datatype Src = Src(name: bytes, attr: Attr, kids: seq<Src>)

  /** imgQEntry */
  datatype Visit = Visit(path: Path, node: Src)

  /** ".wh." */
  const WHITEOUT_PREFIX: bytes := [46, 119, 104, 46]

  /** ".wh..wh..opq" */
  const OPAQUE_WHITEOUT: bytes := [46, 119, 104, 46, 46, 119, 104, 46, 46, 111, 112, 113]

  predicate IsMarker(p: Path) {
    p != [] && |p[|p| - 1]| > 4 && p[|p| - 1][..4] == WHITEOUT_PREFIX
  }

  /** The cleaned path of `name` in `dir`. */
  function Target(dir: Path, name: bytes): Path {
    if name == [] || name == [46] then dir else if name == [46, 46] then Dir(dir) else dir + [name]
  }

  function EventOf(v: Visit, merge: bool): Event {
    if merge && IsMarker(v.path) then
      var base := v.path[|v.path| - 1];
      if base == OPAQUE_WHITEOUT then Opaque(Dir(v.path)) else Whiteout(Target(Dir(v.path), base[4..]))
    else Register(v.path, v.node.attr)
  }

  function EventsOf(vs: seq<Visit>, merge: bool): (r: seq<Event>)
    ensures |r| == |vs| && forall i :: 0 <= i < |vs| ==> r[i] == EventOf(vs[i], merge)
  {
    seq(|vs|, i requires 0 <= i < |vs| => EventOf(vs[i], merge))
  }

  /** What a visited inode adds to the queue. */
  function Kids(v: Visit, merge: bool): (r: seq<Visit>) {
    if (merge && IsMarker(v.path)) || !DirAttr(v.node.attr) then []
    else seq(|v.node.kids|, i requires 0 <= i < |v.node.kids| => Visit(v.path + [v.node.kids[i].name], v.node.kids[i]))
  }

  function Weight(s: Src): nat {
    1 + WeightAll(s.kids)
  }

  function WeightAll(ss: seq<Src>): nat {
    if ss == [] then 0 else Weight(ss[0]) + WeightAll(ss[1..])
  }

  function Waiting(q: seq<Visit>): nat {
    if q == [] then 0 else Weight(q[0].node) + Waiting(q[1..])
  }

  lemma {:induction false} WaitingBoth(a: seq<Visit>, b: seq<Visit>)
    ensures Waiting(a + b) == Waiting(a) + Waiting(b)
  {
    if a == [] {
      assert a + b == b;
    } else {
      assert (a + b)[1..] == a[1..] + b;
      WaitingBoth(a[1..], b);
    }
  }

  lemma {:induction false} WaitingKids(q: seq<Visit>, ss: seq<Src>)
    requires |q| == |ss| && forall i :: 0 <= i < |q| ==> q[i].node == ss[i]
    ensures Waiting(q) == WeightAll(ss)
  {
    if q != [] {
      WaitingKids(q[1..], ss[1..]);
    }
  }

  lemma LessWaiting(q: seq<Visit>, merge: bool)
    requires q != []
    ensures Waiting(q[1..] + Kids(q[0], merge)) < Waiting(q)
  {
    WaitingBoth(q[1..], Kids(q[0], merge));
    if Kids(q[0], merge) != [] {
      WaitingKids(Kids(q[0], merge), q[0].node.kids);
    }
  }

  /** The visits, breadth first. */
  function Order(q: seq<Visit>, merge: bool): seq<Visit>
    decreases Waiting(q)
  {
    if q == [] then []
    else
      LessWaiting(q, merge);
      [q[0]] + Order(q[1..] + Kids(q[0], merge), merge)
  }

  function WalkOf(src: Src, merge: bool): seq<Event> {
    EventsOf(Order([Visit([], src)], merge), merge)
  }

  // ---- When an entry comes too late for its directory ----

  /** The paths registered by a run. */
  ghost function Listed(es: seq<Event>): set<Path> {
    set e | e in es && e.Register? :: e.path
  }

  /**
   Event k takes d down: d is at or below a whiteout's target, or below an opaque directory. Markers on
   the root itself do nothing once the root has been whited out.
   */
  predicate Hits(es: seq<Event>, k: nat, d: Path, rootIn: bool)
    requires k < |es|
  {
    match es[k]
    case Whiteout(t) => t <= d && (t == [] ==> rootIn && Whiteout([]) !in es[..k])
    case Opaque(o) => o < d && (o == [] ==> rootIn && Whiteout([]) !in es[..k])
    case _ => false
  }

  /** Some event before i takes d down and d is not registered again until i. */
  ghost predicate Gone(es: seq<Event>, i: nat, d: Path, rootIn: bool)
    requires i <= |es|
  {
    exists k: nat :: k < i && Hits(es, k, d, rootIn) && d !in Listed(es[k..i])
  }

  /** Entry i comes after a marker that took its directory. */
  ghost predicate Lost(es: seq<Event>, i: nat, rootIn: bool)
    requires i < |es|
  {
    es[i].Register? && Dir(es[i].path) != [] && Gone(es, i, Dir(es[i].path), rootIn)
  }

  lemma ListedMore(es: seq<Event>, k: nat, i: nat)
    requires k <= i < |es|
    ensures Listed(es[k..i + 1]) == Listed(es[k..i]) + if es[i].Register? then {es[i].path} else {}
  {
    assert es[k..i + 1] == es[k..i] + [es[i]];
  }

  lemma GoneNext(es: seq<Event>, i: nat, d: Path, rootIn: bool)
    requires i < |es|
    ensures Gone(es, i + 1, d, rootIn) <==>
              Hits(es, i, d, rootIn) || (Gone(es, i, d, rootIn) && !(es[i].Register? && es[i].path == d))
  {
    if Gone(es, i + 1, d, rootIn) {
      var k: nat :| k < i + 1 && Hits(es, k, d, rootIn) && d !in Listed(es[k..i + 1]);
      if k < i {
        ListedMore(es, k, i);
      }
    }
    if Hits(es, i, d, rootIn) {
      assert es[i..i + 1] == [es[i]];
      assert d !in Listed(es[i..i + 1]);
    }
    if Gone(es, i, d, rootIn) && !(es[i].Register? && es[i].path == d) {
      var k: nat :| k < i && Hits(es, k, d, rootIn) && d !in Listed(es[k..i]);
      ListedMore(es, k, i);
    }
  }

  /** Every entry comes after its directory, and what is listed above an entry is a directory. */
  ghost predicate Regular(es: seq<Event>) {
    && (forall i :: 0 <= i < |es| && es[i].Register? && es[i].path != [] ==> Dir(es[i].path) in Listed(es[..i]))
    && (forall i :: 0 <= i < |es| && es[i].Register? && Parental(Listed(es), es[i].path) ==> DirAttr(es[i].attr))
  }

  ghost predicate Parental(paths: set<Path>, p: Path) {
    exists q <- paths :: q != [] && Dir(q) == p
  }

  lemma DirListed(es: seq<Event>, q: Path)
    requires Regular(es) && q in Listed(es) && q != []
    ensures Dir(q) in Listed(es) && Parental(Listed(es), Dir(q))
  {
    var i :| 0 <= i < |es| && es[i].Register? && es[i].path == q;
    assert forall e <- es[..i] :: e in es;
  }

  // ---- Breadth first order is regular ----

  ghost predicate DistinctNames(s: Src) {
    && (forall i, j :: 0 <= i < j < |s.kids| ==> s.kids[i].name != s.kids[j].name)
    && (forall k <- s.kids :: DistinctNames(k))
  }

  /** The node that names lead to, through directories. */
  ghost function NodeAt(s: Src, p: Path): Option<Src>
    decreases |p|
  {
    if p == [] then Some(s)
    else
      match NodeAt(s, Dir(p))
      case None => None
      case Some(n) =>
        if DirAttr(n.attr) && exists k :: 0 <= k < |n.kids| && n.kids[k].name == p[|p| - 1] then
          var k :| 0 <= k < |n.kids| && n.kids[k].name == p[|p| - 1];
          Some(n.kids[k])
        else None
  }

  lemma NodeStep(s: Src, p: Path, n: Src, k: nat)
    requires NodeAt(s, p) == Some(n) && DistinctNames(n) && DirAttr(n.attr) && k < |n.kids|
    ensures NodeAt(s, p + [n.kids[k].name]) == Some(n.kids[k]) && DistinctNames(n.kids[k])
  {
    hide DirAttr;
    var q := p + [n.kids[k].name];
    assert Dir(q) == p && q[|q| - 1] == n.kids[k].name;
  }

  lemma NodeDir(s: Src, p: Path)
    requires p != [] && NodeAt(s, p).Some?
    ensures NodeAt(s, Dir(p)).Some? && DirAttr(NodeAt(s, Dir(p)).value.attr)
  {
  }

  /** A visit of the source: it shows the node at its path, and its directory was registered before. */
  ghost predicate Proper(src: Src, v: Visit, seen: set<Path>) {
    NodeAt(src, v.path) == Some(v.node) && DistinctNames(v.node) && (v.path != [] ==> Dir(v.path) in seen)
  }

  lemma KidsProper(src: Src, v: Visit, merge: bool, seen: set<Path>)
    requires Proper(src, v, seen)
    ensures forall x <- Kids(v, merge) :: Proper(src, x, seen + {v.path})
  {
    hide NodeAt, DirAttr, DistinctNames, IsMarker;
    forall x <- Kids(v, merge)
      ensures Proper(src, x, seen + {v.path})
    {
      var k: nat :| k < |v.node.kids| && x == Visit(v.path + [v.node.kids[k].name], v.node.kids[k]);
      NodeStep(src, v.path, v.node, k);
      assert Dir(x.path) == v.path;
    }
  }

  lemma KidsMeanEntry(v: Visit, merge: bool)
    ensures Kids(v, merge) != [] ==> EventOf(v, merge) == Register(v.path, v.node.attr)
  {
  }

  lemma ListedHead(e: Event, es: seq<Event>)
    ensures Listed([e] + es) == Listed(es) + if e.Register? then {e.path} else {}
  {
  }

  lemma {:induction false} OrderProper(src: Src, q: seq<Visit>, merge: bool, seen: set<Path>, i: nat)
    requires (forall v <- q :: Proper(src, v, seen)) && i < |Order(q, merge)|
    ensures var vs := Order(q, merge); Proper(src, vs[i], seen + Listed(EventsOf(vs, merge)[..i]))
    decreases i
  {
    hide Proper, Kids, EventOf, Listed, Order;
    OrderSome(q, merge);
    var vs, rest := Order(q, merge), q[1..] + Kids(q[0], merge);
    OrderHead(q, merge);
    if i > 0 {
      var e := EventOf(q[0], merge);
      var more := seen + if e.Register? then {e.path} else {};
      RestProper(src, q, merge, seen);
      OrderProper(src, rest, merge, more, i - 1);
      assert EventsOf(vs, merge)[..i] == [e] + EventsOf(Order(rest, merge), merge)[..i - 1];
      ListedHead(e, EventsOf(Order(rest, merge), merge)[..i - 1]);
      assert seen + Listed(EventsOf(vs, merge)[..i]) == more + Listed(EventsOf(Order(rest, merge), merge)[..i - 1]);
    } else {
      ProperMore(src, vs[0], seen, seen + Listed(EventsOf(vs, merge)[..0]));
    }
  }

  lemma OrderSome(q: seq<Visit>, merge: bool)
    ensures Order(q, merge) != [] ==> q != []
  {
  }

  lemma ProperMore(src: Src, v: Visit, seen: set<Path>, more: set<Path>)
    requires Proper(src, v, seen) && seen <= more
    ensures Proper(src, v, more)
  {
  }

  lemma RestProper(src: Src, q: seq<Visit>, merge: bool, seen: set<Path>)
    requires q != [] && forall v <- q :: Proper(src, v, seen)
    ensures var e := EventOf(q[0], merge);
            forall v <- q[1..] + Kids(q[0], merge) :: Proper(src, v, seen + if e.Register? then {e.path} else {})
  {
    hide Proper, Kids, EventOf;
    var e := EventOf(q[0], merge);
    var more := seen + if e.Register? then {e.path} else {};
    KidsProper(src, q[0], merge, seen);
    KidsMeanEntry(q[0], merge);
    forall v <- q[1..] + Kids(q[0], merge)
      ensures Proper(src, v, more)
    {
      if v in q[1..] {
        ProperMore(src, v, seen, more);
      }
    }
  }

  lemma ListedVisit(vs: seq<Visit>, merge: bool, q: Path) returns (j: nat)
    requires q in Listed(EventsOf(vs, merge))
    ensures j < |vs| && vs[j].path == q
  {
    j :| 0 <= j < |vs| && EventsOf(vs, merge)[j].Register? && EventsOf(vs, merge)[j].path == q;
  }

  lemma ParentalIsDir(src: Src, vs: seq<Visit>, merge: bool, i: nat)
    requires forall k :: 0 <= k < |vs| ==> NodeAt(src, vs[k].path) == Some(vs[k].node)
    requires i < |vs| && Parental(Listed(EventsOf(vs, merge)), vs[i].path)
    ensures DirAttr(vs[i].node.attr)
  {
    hide NodeAt, DirAttr, EventsOf;
    var q :| q in Listed(EventsOf(vs, merge)) && q != [] && Dir(q) == vs[i].path;
    var j := ListedVisit(vs, merge, q);
    NodeDir(src, vs[j].path);
  }

  lemma RegisterIs(v: Visit, merge: bool)
    requires EventOf(v, merge).Register?
    ensures EventOf(v, merge) == Register(v.path, v.node.attr)
  {
  }

  /** The walk of any source without duplicate names is regular. */
  lemma WalkRegular(src: Src, merge: bool)
    requires DistinctNames(src)
    ensures Regular(WalkOf(src, merge))
  {
    hide NodeAt, DistinctNames, DirAttr, Order, EventOf, Parental, Listed;
    var first := [Visit([], src)];
    var vs, es := Order(first, merge), WalkOf(src, merge);
    RootNode(src);
    forall i | 0 <= i < |vs|
      ensures Proper(src, vs[i], Listed(es[..i]))
    {
      OrderProper(src, first, merge, {}, i);
      assert {} + Listed(es[..i]) == Listed(es[..i]);
    }
    forall i | 0 <= i < |es| && es[i].Register?
      ensures es[i].path != [] ==> Dir(es[i].path) in Listed(es[..i])
      ensures Parental(Listed(es), es[i].path) ==> DirAttr(es[i].attr)
    {
      RegisterIs(vs[i], merge);
      if Parental(Listed(es), es[i].path) {
        ParentalIsDir(src, vs, merge, i);
      }
    }
  }

  lemma RootNode(src: Src)
    ensures NodeAt(src, []) == Some(src)
  {
  }

  // ---- The objects along the walk ----

  /** Listed entries that are live hang from the live directory of their path. */
  ghost predicate ListedHome(t: FsTree, paths: set<Path>, index: map<Path, FsEntry>, m: View)
    reads index.Values`parent
  {
    forall q {:trigger q in paths} :: q in paths && q != [] && q in index ==>
      t.AtHome(index, q) && Dir(q) in m && DirAttr(m[Dir(q)])
  }

  /** Entries registered so far that others will follow are directories. */
  ghost predicate SeenDirs(m: View, paths: set<Path>, seen: set<Path>) {
    forall d {:trigger d in seen} :: d in seen && d in m && Parental(paths, d) ==> DirAttr(m[d])
  }

  /** No live entry hangs from the root by the fallback. */
  ghost predicate NoStrays(index: map<Path, FsEntry>)
    reads index.Values`parent
  {
    forall q <- index :: q != [] ==> index[q].parent != null && index[q].parent.path == Dir(q)
  }

  /** Of the paths registered so far those are live that no marker has taken since. */
  ghost predicate LiveUnlessGone(index: map<Path, FsEntry>, es: seq<Event>, i: nat, rootIn: bool)
    requires i <= |es|
  {
    forall d {:trigger Gone(es, i, d, rootIn)} :: d in Listed(es[..i]) && d != [] ==> (d in index <==> !Gone(es, i, d, rootIn))
  }

  /** Where the walk stands after i events, as long as no entry was lost. */
  ghost predicate Tracks(t: FsTree, es: seq<Event>, i: nat, rootIn: bool, index: map<Path, FsEntry>, m: View)
    requires i <= |es|
    reads index.Values`parent
  {
    && ([] in index <==> rootIn && Whiteout([]) !in es[..i])
    && ListedHome(t, Listed(es), index, m) && SeenDirs(m, Listed(es), Listed(es[..i])) && NoStrays(index)
    && LiveUnlessGone(index, es, i, rootIn)
  }

  /** A live listed entry has live directories all the way up. */
  lemma {:induction false} Chain(t: FsTree, es: seq<Event>, index: map<Path, FsEntry>, m: View, q: Path, p: Path)
    requires Regular(es) && ListedHome(t, Listed(es), index, m) && q in Listed(es) && q in index && p < q
    ensures (p == [] || p in index) && p in m && DirAttr(m[p]) && p in Listed(es)
    decreases |q|
  {
    hide Regular;
    DirListed(es, q);
    assert t.AtHome(index, q);
    assert p <= Dir(q) && (p != Dir(q) ==> p < Dir(q));
    if p != Dir(q) {
      Chain(t, es, index, m, Dir(q), p);
    }
  }

  /** Everything listed and live below p is reached from p. */
  lemma {:induction false} ReachesListed(t: FsTree, es: seq<Event>, p: Path, q: Path)
    requires t.Sound() && Regular(es) && ListedHome(t, Listed(es), t.byPath, t.View())
    requires q in Listed(es) && q in t.byPath && p < q && t.Here(p)
    ensures t.Reaches(t.EntryAt(p), t.byPath[q], t.Live())
    decreases |q|
  {
    hide FsTree.KidsBack, FsTree.Placed, FsTree.Linked, FsTree.Reaches, FsTree.View, Regular;
    t.Basics();
    DirListed(es, q);
    assert t.AtHome(t.byPath, q);
    t.UnfoldReaches(t.EntryAt(p), t.byPath[q], t.Live());
    t.ParentThere(t.byPath[q]);
    assert p <= Dir(q) && (p != Dir(q) ==> p < Dir(q));
    if p != Dir(q) {
      ReachesListed(t, es, p, Dir(q));
    }
  }

  /** What is reached lies below, by its path. */
  lemma {:induction false} ReachesDown(t: FsTree, e: FsEntry, o: FsEntry)
    requires t.Sound() && NoStrays(t.byPath) && t.Reaches(e, o, t.Live())
    ensures e.path < o.path
    decreases |o.path|
  {
    hide FsTree.Linked, FsTree.View;
    assert t.byPath[o.path] == o && o.path != [] by {
      t.Basics();
      t.ParentThere(o);
    }
    if o.parent != e {
      ReachesDown(t, e, o.parent);
    }
  }

  lemma NotHereAbove(t: FsTree, es: seq<Event>, index: map<Path, FsEntry>, m: View, q: Path, p: Path)
    requires Regular(es) && ListedHome(t, Listed(es), index, m) && q in Listed(es) && q in index && p != [] && p !in index
    ensures !(p <= q)
  {
    hide Regular, ListedHome;
    assert p <= q ==> p < q || p == q;
    if p < q {
      Chain(t, es, index, m, q, p);
    }
  }

  lemma ListedTaken(t: FsTree, es: seq<Event>, p: Path, q: Path)
    requires t.Sound() && Regular(es) && ListedHome(t, Listed(es), t.byPath, t.View()) && NoStrays(t.byPath)
    requires p in t.byPath && q in Listed(es) && q != [] && q in t.byPath
    ensures t.byPath[q] in t.TakenWith(t.byPath[p]) <==> p <= q
    ensures t.byPath[q] in t.TakenBelow(t.byPath[p]) <==> p < q
  {
    hide FsTree.KidsBack, FsTree.Linked, FsTree.Reaches, FsTree.View, Regular, ListedHome;
    t.Basics();
    var e, o := t.byPath[p], t.byPath[q];
    assert p <= q ==> p < q || p == q;
    if t.Reaches(e, o, t.Live()) {
      ReachesDown(t, e, o);
    }
    if p < q {
      Chain(t, es, t.byPath, t.View(), q, p);
      ReachesListed(t, es, p, q);
    }
  }

  /** What a marker's removal will leave in the index. */
  ghost function LeftBy(t: FsTree, e: Event): map<Path, FsEntry>
    requires !e.Add? && !e.Register?
    reads t, t.all, t.byPath.Values
  {
    match e
    case Whiteout(p) => if p in t.byPath then t.Without(t.TakenWith(t.byPath[p])) else t.byPath
    case Opaque(p) => if p in t.byPath then t.Without(t.TakenBelow(t.byPath[p])) else t.byPath
  }

  /** A marker takes exactly the listed paths that it hits. */
  lemma MarkerTakes(t: FsTree, es: seq<Event>, i: nat, rootIn: bool, q: Path)
    requires t.Sound() && Regular(es) && i < |es| && !es[i].Register? && !es[i].Add? && Tracks(t, es, i, rootIn, t.byPath, t.View())
    requires q in Listed(es) && q != [] && q in t.byPath
    ensures q in LeftBy(t, es[i]) <==> !Hits(es, i, q, rootIn)
  {
    hide Regular, ListedHome, NoStrays, SeenDirs, LiveUnlessGone, FsTree.Sound, FsTree.View, FsTree.TakenWith, FsTree.TakenBelow;
    var p := if es[i].Whiteout? then es[i].target else es[i].dir;
    if p in t.byPath {
      ListedTaken(t, es, p, q);
    } else if p != [] {
      NotHereAbove(t, es, t.byPath, t.View(), q, p);
    }
  }

  lemma SeenGrows(es: seq<Event>, i: nat)
    requires i < |es|
    ensures Listed(es[..i + 1]) == Listed(es[..i]) + if es[i].Register? then {es[i].path} else {}
    ensures Whiteout([]) in es[..i + 1] <==> Whiteout([]) in es[..i] || es[i] == Whiteout([])
    ensures Listed(es[..i]) <= Listed(es) && (es[i].Register? ==> es[i].path in Listed(es))
  {
    assert es[..i + 1] == es[..i] + [es[i]];
  }

  lemma HitsBelow(es: seq<Event>, i: nat, q: Path, rootIn: bool)
    requires i < |es| && q != []
    ensures Hits(es, i, Dir(q), rootIn) ==> Hits(es, i, q, rootIn)
  {
    assert Dir(q) <= q && Dir(q) < q;
  }

  /** After a marker the bookkeeping is as it should be. */
  lemma TracksSwept(t: FsTree, es: seq<Event>, i: nat, rootIn: bool, was: map<Path, FsEntry>, m: View, now: map<Path, FsEntry>, n: View)
    requires Regular(es) && i < |es| && !es[i].Register? && !es[i].Add? && Tracks(t, es, i, rootIn, was, m)
    requires forall q <- now :: q in was && now[q] == was[q]
    requires forall q :: q in Listed(es) && q != [] && q in was ==> (q in now <==> !Hits(es, i, q, rootIn))
    requires [] in now <==> es[i] != Whiteout([]) && [] in was
    requires (forall q <- n :: q in m && n[q] == m[q]) && forall q :: q in n <==> q == [] || q in now
    ensures Tracks(t, es, i + 1, rootIn, now, n)
  {
    hide Regular, Hits, Listed, Gone;
    SeenGrows(es, i);
    forall q | q in Listed(es) && q != [] && q in now
      ensures t.AtHome(now, q) && Dir(q) in n && DirAttr(n[Dir(q)])
    {
      assert t.AtHome(was, q);
      DirListed(es, q);
      HitsBelow(es, i, q, rootIn);
    }
    forall d | d in Listed(es[..i + 1]) && d != []
      ensures d in now <==> !Gone(es, i + 1, d, rootIn)
    {
      GoneNext(es, i, d, rootIn);
    }
  }

  /** What registering p does to the index. */
  ghost predicate Appended(t: FsTree, p: Path, was: map<Path, FsEntry>, m: View, now: map<Path, FsEntry>)
    reads now.Values`parent
  {
    if p in m then now == was
    else
      && p in now && now == was[p := now[p]] && Dir(p) in m
      && now[p].parent == (if Dir(p) in was then was[Dir(p)] else t.root) && now[p].parent.path == Dir(p)
  }

  lemma HomeRegistered(t: FsTree, es: seq<Event>, i: nat, rootIn: bool, was: map<Path, FsEntry>, m: View, now: map<Path, FsEntry>, q: Path)
    requires Regular(es) && i < |es| && es[i].Register? && Tracks(t, es, i, rootIn, was, m)
    requires [] in m && forall q :: q in m <==> q == [] || q in was
    requires Appended(t, es[i].path, was, m, now)
    requires [] in was ==> was[[]] == t.root
    requires q in Listed(es) && q != [] && q in now
    ensures var n := RegisterSpec(m, es[i].path, es[i].attr); t.AtHome(now, q) && Dir(q) in n && DirAttr(n[Dir(q)])
  {
    hide Hits, Listed, Gone, DirAttr, RegisterRoot, NoStrays, LiveUnlessGone;
    RootMode(m[[]], es[i].attr);
    assert q in was ==> t.AtHome(was, q);
    DirListed(es, q);
  }

  lemma SeenRegistered(t: FsTree, es: seq<Event>, i: nat, m: View)
    requires Regular(es) && i < |es| && es[i].Register? && SeenDirs(m, Listed(es), Listed(es[..i])) && [] in m
    ensures SeenDirs(RegisterSpec(m, es[i].path, es[i].attr), Listed(es), Listed(es[..i + 1]))
  {
    hide Listed, DirAttr, RegisterRoot, Parental;
    SeenGrows(es, i);
    RootMode(m[[]], es[i].attr);
  }

  /** After an entry whose directory is there the bookkeeping is as it should be. */
  lemma TracksRegistered(t: FsTree, es: seq<Event>, i: nat, rootIn: bool, was: map<Path, FsEntry>, m: View, now: map<Path, FsEntry>)
    requires Regular(es) && i < |es| && es[i].Register? && Tracks(t, es, i, rootIn, was, m)
    requires [] in m && forall q :: q in m <==> q == [] || q in was
    requires Appended(t, es[i].path, was, m, now)
    requires [] in was ==> was[[]] == t.root
    ensures Tracks(t, es, i + 1, rootIn, now, RegisterSpec(m, es[i].path, es[i].attr))
  {
    hide Hits, Listed, Gone, RegisterSpec, LiveUnlessGone, SeenDirs, Regular, DirAttr;
    SeenGrows(es, i);
    forall q | q in Listed(es) && q != [] && q in now
      ensures t.AtHome(now, q) && Dir(q) in RegisterSpec(m, es[i].path, es[i].attr)
      ensures DirAttr(RegisterSpec(m, es[i].path, es[i].attr)[Dir(q)])
    {
      HomeRegistered(t, es, i, rootIn, was, m, now, q);
    }
    SeenRegistered(t, es, i, m);
    GoneRegistered(t, es, i, rootIn, was, m, now);
  }

  lemma GoneRegistered(t: FsTree, es: seq<Event>, i: nat, rootIn: bool, was: map<Path, FsEntry>, m: View, now: map<Path, FsEntry>)
    requires i < |es| && es[i].Register? && LiveUnlessGone(was, es, i, rootIn)
    requires forall q :: q in m <==> q == [] || q in was
    requires Appended(t, es[i].path, was, m, now)
    ensures LiveUnlessGone(now, es, i + 1, rootIn)
  {
    hide Hits, Listed, Gone;
    SeenGrows(es, i);
    forall d | d in Listed(es[..i + 1]) && d != []
      ensures d in now <==> !Gone(es, i + 1, d, rootIn)
    {
      GoneNext(es, i, d, rootIn);
      NoHit(es, i, d, rootIn);
    }
  }

  lemma NoHit(es: seq<Event>, i: nat, d: Path, rootIn: bool)
    requires i < |es| && es[i].Register?
    ensures !Hits(es, i, d, rootIn)
  {
  }

  /** On the way so far: is the next entry's directory there? */
  lemma DirThere(t: FsTree, es: seq<Event>, i: nat, rootIn: bool, was: map<Path, FsEntry>, m: View)
    requires Regular(es) && i < |es| && es[i].Register? && Tracks(t, es, i, rootIn, was, m)
    requires [] in m && forall q :: q in m <==> q == [] || q in was
    ensures es[i].path in m ==> es[i].path == [] || Dir(es[i].path) in m
    ensures es[i].path == [] || Dir(es[i].path) in m <==> !Lost(es, i, rootIn)
  {
    hide Hits, Listed, Gone, DirAttr;
    var p := es[i].path;
    SeenGrows(es, i);
    if p in was && p != [] {
      assert t.AtHome(was, p);
    }
  }

  /** A tree in place whose entries all lie below directories is a good start. */
  lemma TracksStart(t: FsTree, es: seq<Event>)
    requires t.Sound() && t.InPlace() && Shaped(t.View())
    ensures Tracks(t, es, 0, [] in t.byPath, t.byPath, t.View())
  {
    hide FsTree.KidsBack, FsTree.Linked, FsTree.View;
    t.Basics();
    assert es[..0] == [];
    forall q | q in Listed(es) && q != [] && q in t.byPath
      ensures t.AtHome(t.byPath, q) && Dir(q) in t.View() && DirAttr(t.View()[Dir(q)])
    {
      assert q in t.View();
    }
    forall q <- t.byPath | q != []
      ensures t.byPath[q].parent != null && t.byPath[q].parent.path == Dir(q)
    {
      assert t.AtHome(t.byPath, q);
      assert Dir(q) != [] ==> Dir(q) in t.View();
    }
  }

  /** One event of the walk. A registered entry misses its directory exactly when it is lost. */
  method Follow(t: FsTree, e: Event, ghost es: seq<Event>, ghost i: nat, ghost rootIn: bool, ghost tracked: bool)
    requires t.Sound() && i < |es| && e == es[i] && !e.Add?
    requires tracked ==> Regular(es) && Tracks(t, es, i, rootIn, t.byPath, t.View())
    modifies t`byPath, t`all, t.all`children, t.all`attr, t.all`removed
    ensures t.Sound() && old(t.all) <= t.all && fresh(t.all - old(t.all)) && [] in old(t.View())
    ensures old(t.InPlace()) ==> Closed(old(t.View()))
    ensures old(t.InPlace()) ==>
              (t.InPlace() && StateOf(t) == Apply(old(StateOf(t)), e) <==> Allowed(old(StateOf(t)), e))
    ensures tracked && !Lost(es, i, rootIn) ==> t.Homed(t.all - old(t.all)) && Tracks(t, es, i + 1, rootIn, t.byPath, t.View())
    ensures tracked && Lost(es, i, rootIn) ==> !t.Homed(t.all - old(t.all))
  {
    hide FsTree.Sound, FsTree.View, FsTree.InPlace, Regular, Tracks, Hits, Gone, Listed, Apply, Allowed, RegisterSpec, FsTree.TakenWith, FsTree.TakenBelow, Lost;
    t.Basics();
    LostRegisters(es, i, rootIn);
    ghost var was, m, left := t.byPath, t.View(), if e.Register? then t.byPath else LeftBy(t, e);
    if tracked && e.Register? {
      DirThere(t, es, i, rootIn, was, m);
    }
    if tracked && !e.Register? {
      forall q | q in Listed(es) && q != [] && q in was
        ensures q in left <==> !Hits(es, i, q, rootIn)
      {
        MarkerTakes(t, es, i, rootIn, q);
      }
    }
    Step(t, e);
    t.Basics();
    if tracked && e.Register? && !Lost(es, i, rootIn) {
      TracksRegistered(t, es, i, rootIn, was, m, t.byPath);
    }
    if tracked && !e.Register? {
      TracksSwept(t, es, i, rootIn, was, m, t.byPath, t.View());
    }
  }

  lemma LostRegisters(es: seq<Event>, i: nat, rootIn: bool)
    requires i < |es|
    ensures Lost(es, i, rootIn) ==> es[i].Register?
  {
  }

  /** Some entry among the first i events is lost. */
  ghost predicate AnyLost(es: seq<Event>, i: nat, rootIn: bool)
    requires i <= |es|
  {
    exists j: nat :: j < i && Lost(es, j, rootIn)
  }

  lemma AnyLostNext(es: seq<Event>, i: nat, rootIn: bool)
    requires i < |es|
    ensures AnyLost(es, i + 1, rootIn) <==> AnyLost(es, i, rootIn) || Lost(es, i, rootIn)
  {
    hide Lost;
  }

  /** The walk's state: entries linked since `known` are all in their directories until one is lost. */
  ghost predicate OnTrack(t: FsTree, es: seq<Event>, i: nat, rootIn: bool, known: set<FsEntry>)
    requires t.Sound() && i <= |es|
    reads t, t.all, t.byPath.Values
  {
    if AnyLost(es, i, rootIn) then !t.Homed(t.all - known)
    else t.Homed(t.all - known) && Tracks(t, es, i, rootIn, t.byPath, t.View())
  }

  method FollowOn(t: FsTree, e: Event, ghost es: seq<Event>, ghost i: nat, ghost rootIn: bool, ghost known: set<FsEntry>, ghost tracked: bool)
    requires t.Sound() && i < |es| && e == es[i] && !e.Add? && known <= t.all
    requires tracked ==> Regular(es) && OnTrack(t, es, i, rootIn, known)
    modifies t`byPath, t`all, t.all`children, t.all`attr, t.all`removed
    ensures t.Sound() && old(t.all) <= t.all && fresh(t.all - old(t.all)) && [] in old(t.View())
    ensures old(t.InPlace()) ==> Closed(old(t.View()))
    ensures old(t.InPlace()) ==>
              (t.InPlace() && StateOf(t) == Apply(old(StateOf(t)), e) <==> Allowed(old(StateOf(t)), e))
    ensures tracked ==> OnTrack(t, es, i + 1, rootIn, known)
  {
    hide FsTree.Sound, FsTree.View, FsTree.InPlace, Regular, Tracks, Lost, Closed, AnyLost, Apply, Allowed;
    AnyLostNext(es, i, rootIn);
    ghost var before := t.all;
    Follow(t, e, es, i, rootIn, tracked && !AnyLost(es, i, rootIn));
    assert t.all - known == (before - known) + (t.all - before);
  }

  /**
   copyFromImage. On a tree in place, with every entry below a directory, an entry is linked away from
   its directory exactly when a marker takes that directory between the registration of the two. An
   allowed walk leaves the tree standing for the map that its events describe.
   */
  method CopyFromImage(t: FsTree, src: Src, merge: bool)
    requires t.Sound()
    modifies t`byPath, t`all, t.all`children, t.all`attr, t.all`removed
    ensures t.Sound() && old(t.all) <= t.all && (old(t.InPlace()) ==> Closed(old(t.View())))
    ensures old(t.InPlace()) && Shaped(old(t.View())) && DistinctNames(src) ==>
              (t.Homed(t.all - old(t.all)) <==> !AnyLost(WalkOf(src, merge), |WalkOf(src, merge)|, [] in old(t.byPath)))
    ensures [] in old(t.View()) && (old(t.InPlace()) && AllAllowed(old(StateOf(t)), WalkOf(src, merge)) ==>
              t.InPlace() && StateOf(t) == ApplyAll(old(StateOf(t)), WalkOf(src, merge)))
  {
    hide FsTree.Sound, FsTree.View, FsTree.InPlace, Regular, OnTrack, Shaped, Closed, AnyLost, Apply, Allowed, EventOf, Kids, Runs;
    t.Basics();
    RunsStart();
    var queue := [Visit([], src)];
    ghost var es, i, rootIn, known := WalkOf(src, merge), 0, [] in t.byPath, t.all;
    ghost var tracked := t.InPlace() && Shaped(t.View()) && DistinctNames(src);
    ghost var s, allowed := StateOf(t), t.InPlace();
    if tracked {
      WalkRegular(src, merge);
      TracksStart(t, es);
      StartOnTrack(t, es);
    }
    ghost var goal := ApplyAll(s, es);
    if allowed {
      t.InPlaceClosed();
      allowed := Runs(s, es, goal);
    }
    assert es[0..] == es;
    while queue != []
      invariant i <= |es| && es[i..] == EventsOf(Order(queue, merge), merge)
      invariant t.Sound() && old(t.all) <= t.all && fresh(t.all - old(t.all))
      invariant tracked ==> OnTrack(t, es, i, rootIn, known)
      invariant allowed ==> t.InPlace() && Runs(StateOf(t), es[i..], goal)
      decreases Waiting(queue)
    {
      var cur := queue[0];
      LessWaiting(queue, merge);
      OrderStep(queue, merge, es, i);
      if allowed {
        RunsNext(StateOf(t), es[i..], goal);
      }
      queue := queue[1..] + Kids(cur, merge);
      FollowOn(t, EventOf(cur, merge), es, i, rootIn, known, tracked);
      t.Basics();
      i := i + 1;
    }
    assert es[i..] == [];
    if allowed {
      RunsOut(StateOf(t), goal);
    }
    Outcome(t, es, rootIn, known, tracked);
  }

  lemma StartOnTrack(t: FsTree, es: seq<Event>)
    requires t.Sound() && Tracks(t, es, 0, [] in t.byPath, t.byPath, t.View())
    ensures OnTrack(t, es, 0, [] in t.byPath, t.all)
  {
    hide Tracks;
  }

  lemma Outcome(t: FsTree, es: seq<Event>, rootIn: bool, known: set<FsEntry>, tracked: bool)
    requires t.Sound() && (tracked ==> OnTrack(t, es, |es|, rootIn, known))
    ensures tracked ==> (t.Homed(t.all - known) <==> !AnyLost(es, |es|, rootIn))
  {
    hide Tracks, AnyLost;
  }

  lemma OrderStep(queue: seq<Visit>, merge: bool, es: seq<Event>, i: nat)
    requires queue != [] && i <= |es| && es[i..] == EventsOf(Order(queue, merge), merge)
    ensures i < |es| && es[i] == EventOf(queue[0], merge) && !es[i].Add?
    ensures es[i..][0] == es[i] && es[i..][1..] == es[i + 1..]
    ensures es[i + 1..] == EventsOf(Order(queue[1..] + Kids(queue[0], merge), merge), merge)
  {
    hide Kids;
    var rest := queue[1..] + Kids(queue[0], merge);
    assert Order(queue, merge) == [queue[0]] + Order(rest, merge);
    assert es[i..][0] == es[i] && es[i..][1..] == es[i + 1..];
  }

  // ---- The fallback at work ----

  const D: bytes := [100]
  const SUB: bytes := [45, 115, 117, 98]
  const F: bytes := [102]

  /** A directory d with -sub/f and an opaque marker, which sorts after -sub. */
  function StraySource(dir: Attr, file: Attr): Src {
    Src([], dir, [Src(D, dir, [Src(SUB, dir, [Src(F, file, [])]), Src(OPAQUE_WHITEOUT, file, [])])])
  }

  function StrayEvents(dir: Attr, file: Attr): seq<Event> {
    [Register([], dir), Register([D], dir), Register([D, SUB], dir), Opaque([D]), Register([D, SUB, F], file)]
  }

  lemma StrayOrder(dir: Attr, file: Attr)
    requires DirAttr(dir) && !DirAttr(file)
    ensures WalkOf(StraySource(dir, file), true) == StrayEvents(dir, file)
  {
    hide DirAttr, Order, Kids, EventOf;
    StrayKids(dir, file);
    var src := StraySource(dir, file);
    var d := src.kids[0];
    FiveVisits(Visit([], src), Visit([D], d), Visit([D, SUB], d.kids[0]), Visit([D, OPAQUE_WHITEOUT], d.kids[1]),
               Visit([D, SUB, F], d.kids[0].kids[0]));
  }

  /** Breadth first: the children of the third come after the fourth. */
  lemma FiveVisits(v0: Visit, v1: Visit, v2: Visit, v3: Visit, v4: Visit)
    requires Kids(v0, true) == [v1] && Kids(v1, true) == [v2, v3] && Kids(v2, true) == [v4] && Kids(v3, true) == [] == Kids(v4, true)
    ensures Order([v0], true) == [v0, v1, v2, v3, v4]
  {
    hide Order, Kids;
    OrderNext(v0, [], [v1], true);
    OrderNext(v1, [], [v2, v3], true);
    OrderNext(v2, [v3], [v4], true);
    OrderNext(v3, [v4], [], true);
    OrderNext(v4, [], [], true);
    assert [v2] + [v3] == [v2, v3] && [v3] + [v4] == [v3, v4];
  }

  /** The marker is met after -sub and before f: f is lost. */
  lemma StrayWalk(dir: Attr, file: Attr)
    requires DirAttr(dir) && !DirAttr(file)
    ensures var es := WalkOf(StraySource(dir, file), true); |es| == 5 && Lost(es, 4, true)
  {
    hide DirAttr, WalkOf;
    StrayOrder(dir, file);
    var es := StrayEvents(dir, file);
    assert Dir([D, SUB, F]) == [D, SUB] && [D] < [D, SUB];
    assert Hits(es, 3, [D, SUB], true);
    assert es[3..4] == [es[3]];
    assert [D, SUB] !in Listed(es[3..4]);
  }

  lemma OrderHead(q: seq<Visit>, merge: bool)
    requires q != []
    ensures Order(q, merge) == [q[0]] + Order(q[1..] + Kids(q[0], merge), merge)
    ensures Order([], merge) == []
  {
  }

  lemma OrderNext(v: Visit, rest: seq<Visit>, kids: seq<Visit>, merge: bool)
    requires Kids(v, merge) == kids
    ensures Order([v] + rest, merge) == [v] + Order(rest + kids, merge)
    ensures [v] + [] == [v] && [] + kids == kids && rest + [] == rest && Order([], merge) == []
  {
    assert ([v] + rest)[1..] == rest;
  }

  lemma StrayKids(dir: Attr, file: Attr)
    requires DirAttr(dir) && !DirAttr(file)
    ensures var src := StraySource(dir, file);
            var d := src.kids[0];
            && Kids(Visit([], src), true) == [Visit([D], d)]
            && Kids(Visit([D], d), true) == [Visit([D, SUB], d.kids[0]), Visit([D, OPAQUE_WHITEOUT], d.kids[1])]
            && Kids(Visit([D, SUB], d.kids[0]), true) == [Visit([D, SUB, F], d.kids[0].kids[0])]
            && Kids(Visit([D, OPAQUE_WHITEOUT], d.kids[1]), true) == []
            && Kids(Visit([D, SUB, F], d.kids[0].kids[0]), true) == []
            && EventOf(Visit([], src), true) == Register([], dir) && EventOf(Visit([D], d), true) == Register([D], dir)
            && EventOf(Visit([D, SUB], d.kids[0]), true) == Register([D, SUB], dir)
            && EventOf(Visit([D, OPAQUE_WHITEOUT], d.kids[1]), true) == Opaque([D])
            && EventOf(Visit([D, SUB, F], d.kids[0].kids[0]), true) == Register([D, SUB, F], file)
  {
    hide DirAttr;
    assert Dir([D, OPAQUE_WHITEOUT]) == [D];
    assert OPAQUE_WHITEOUT[..4] == WHITEOUT_PREFIX;
    assert [] + [D] == [D] && [D] + [SUB] == [D, SUB] && [D, SUB] + [F] == [D, SUB, F] && [D] + [OPAQUE_WHITEOUT] == [D, OPAQUE_WHITEOUT];
  }

  /**
   The events of that walk, one by one, on a tree that holds a file f in the root: the new f hangs
   from the root, its own directory is gone, and the conversion gives both entries the name f.
   */
  method StrayEntry(dir: Attr, file: Attr) returns (t: FsTree, old_f: FsEntry, new_f: FsEntry)
    requires DirAttr(dir) && !DirAttr(file)
    ensures WalkOf(StraySource(dir, file), true) == StrayEvents(dir, file)
    ensures fresh(t) && t.Sound() && old_f in t.root.children && new_f in t.root.children && !old_f.removed && !new_f.removed
    ensures old_f.path == [F] && new_f.path == [D, SUB, F] && [D] in t.View() && [D, SUB] !in t.View()
    ensures BuildTree.Convert(old_f.path, old_f.attr).name == F == BuildTree.Convert(new_f.path, new_f.attr).name
  {
    hide FsTree.Sound, FsTree.InPlace, FsTree.View, FsTree.TakenBelow, FsTree.Homed, Closed, SolidBelow, TakeDown, ClearSpec, StrayEvents, WalkOf;
    StrayOrder(dir, file);
    t, old_f := BeforeMarker(dir, file);
    ghost var m := t.View();
    SubIsTaken(m);
    t.RemoveChildren([D]);
    AfterMarker(t, m, old_f);
    t.Register([D, SUB, F], file);
    t.Basics();
    new_f := t.byPath[[D, SUB, F]];
    assert [D, SUB, F] in t.View() && [F] in t.byPath && t.byPath[[F]] == old_f;
    BuildTree.InChildren(t, old_f);
    BuildTree.InChildren(t, new_f);
  }

  lemma AfterMarker(t: FsTree, m: View, f: FsEntry)
    requires t.Sound() && t.View() == TakeDown(m, [D]) && f in t.all && f.path == [F] && f.parent == t.root
    requires [D, SUB] in m && [D] in m && [F] in m && [D, SUB, F] !in m && f != t.root
    requires [F] in t.byPath ==> t.byPath[[F]] == f
    ensures [F] in t.byPath && [D, SUB] !in t.View() && [D] in t.View() && [D, SUB, F] !in t.View() && [D, SUB] !in t.byPath
    ensures Dir([D, SUB, F]) == [D, SUB]
  {
    hide FsTree.Sound, FsTree.View;
    t.Basics();
    SubIsTaken(m);
  }

  /** The lower layer and the first three events. */
  method BeforeMarker(dir: Attr, file: Attr) returns (t: FsTree, f: FsEntry)
    requires DirAttr(dir)
    ensures fresh(t) && fresh(t.all) && t.Sound() && t.InPlace()
    ensures [D] in t.byPath && [D, SUB] in t.View() && [D, SUB, F] !in t.View() && [D] in t.View() && [F] in t.View()
    ensures [F] in t.byPath && f == t.byPath[[F]] && f in t.all && f.parent == t.root && f.path == [F] && f != t.root
  {
    hide FsTree.Sound, FsTree.View, FsTree.InPlace, FsTree.Homed, DirAttr, RegisterSpec, PutSpec;
    t := new FsTree();
    StrayMaps(dir, file);
    t.Put([F], file);
    assert fresh(t.all);
    t.Register([], dir);
    assert fresh(t.all);
    t.Register([D], dir);
    assert fresh(t.all);
    t.Register([D, SUB], dir);
    t.Basics();
    f := t.byPath[[F]];
    t.HomeFacts([F]);
  }

  lemma StrayMaps(dir: Attr, file: Attr)
    ensures var m0: View := map[[] := IMPLICIT];
            var m1 := PutSpec(m0, [F], file);
            var m2 := RegisterSpec(m1, [], dir);
            var m3 := RegisterSpec(m2, [D], dir);
            var m4 := RegisterSpec(m3, [D, SUB], dir);
            && [] in m1 && [] in m2 && [D] in m3 && [D] in m4 && [D, SUB] in m4 && [F] in m4 && [D, SUB, F] !in m4
    ensures Dir([D]) == [] && Dir([D, SUB]) == [D] && Dir([F]) == []
  {
    assert Dir([F]) == [];
  }

  lemma SubIsTaken(m: View)
    ensures [D, SUB] in m ==> [D, SUB] !in TakeDown(m, [D])
    ensures [D] in m ==> [D] in TakeDown(m, [D])
    ensures [F] in m ==> [F] in TakeDown(m, [D])
  {
    assert Dir([D, SUB]) == [D] && [D] < [D, SUB] && !([D] < [F]);
  }

  // ---- Markers on the root ----

  /** The source holds ".wh..", an entry f and an opaque marker, and the writer a file g. */
  lemma RootMarkers(g: Attr, f: Attr)
    ensures Target([], [46]) == []
    ensures var s := State(map[[] := IMPLICIT], true);
            var r := ApplyAll(s, [Add([[103]], g), Whiteout(Target([], [46])), Add([F], f), Opaque([])]);
            r.view == map[[] := IMPLICIT, [F] := f] && !r.rootIn && [F] !in ClearSpec(r.view, [])
  {
    var s0 := State(map[[] := IMPLICIT], true);
    var es := [Add([[103]], g), Whiteout([]), Add([F], f), Opaque([])];
    assert Dir([[103]]) == [] && Dir([F]) == [];
    var s1 := Apply(s0, es[0]);
    assert s1.view == map[[] := IMPLICIT, [[103]] := g];
    var s2 := Apply(s1, es[1]);
    assert s2 == State(map[[] := IMPLICIT], false);
    var s3 := Apply(s2, es[2]);
    assert s3.view == map[[] := IMPLICIT, [F] := f];
    var e1, e2, e3 := es[1..], es[2..], es[3..];
    assert es[1..] == e1 && e1[1..] == e2 && e2[1..] == e3 && e3[1..] == [];
    assert ApplyAll(s3, e3) == s3;
    assert ApplyAll(s2, e2) == ApplyAll(s3, e3);
    assert ApplyAll(s1, e1) == ApplyAll(s2, e2);
  }

  /** The same on the objects: f outlives the opaque marker of its directory, the root. */
  method RootMarkersOnTree(g: Attr, f: Attr) returns (t: FsTree)
    ensures fresh(t) && t.Sound() && [] !in t.byPath && [F] in t.View() && [F] !in ClearSpec(t.View(), [])
  {
    hide FsTree.Sound, FsTree.View, FsTree.InPlace, FsTree.Homed, WithParents, RemoveSpec, Solid;
    t := new FsTree();
    t.Put([[103]], g);
    t.Remove(Target([], [46]));
    t.Put([F], f);
    t.RemoveChildren([]);
  }
}
