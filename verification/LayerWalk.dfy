/**
 The walk of CopyFrom over an fs.FS (mkfs.go): depth first in name order, each entry added with its
 missing ancestors, markers applied where they are met. It differs from the walk of copyFromImage in
 order, in what it makes of a bare ".wh.", and in going down into markers that are directories.
 */
module LayerWalk {
  import opened Bytes
  import opened Format
  import opened Order
  import opened Overlay
  import opened Layers
  import opened ImageCopy

  /** The file name starts with ".wh.", whatever follows. */
  predicate HasMarkerName(p: Path) {
    p != [] && |p[|p| - 1]| >= 4 && p[|p| - 1][..4] == WHITEOUT_PREFIX
  }

  /** The callback's decision for one entry. */
  function CallbackOf(p: Path, attr: Attr, merge: bool): Event {
    if merge && HasMarkerName(p) then
      var base := p[|p| - 1];
      if base == OPAQUE_WHITEOUT then Opaque(Dir(p)) else Whiteout(Target(Dir(p), base[4..]))
    else Add(p, attr)
  }

  function SrcName(s: Src): bytes { s.name }

  /** fs.ReadDir: the children by name. */
  function Sorted(s: Src): (ks: seq<Src>)
    ensures multiset(ks) == multiset(s.kids)
    ensures forall k <- ks :: k in s.kids
  {
    var ks := Sort(SrcName, s.kids);
    SortElements(SrcName, s.kids);
    assert forall k <- ks :: k in multiset(ks);
    ks
  }

  /** The events of fs.WalkDir from an entry on: the entry, then what is below it if it is a directory. */
  function Walk(p: Path, s: Src, merge: bool): (es: seq<Event>)
    decreases s, 1, 0
  {
    [CallbackOf(p, s.attr, merge)] + if DirAttr(s.attr) then WalkAll(p, s, Sorted(s), merge) else []
  }

  function WalkAll(p: Path, s: Src, ks: seq<Src>, merge: bool): seq<Event>
    requires forall k <- ks :: k in s.kids
    decreases s, 0, |ks|
  {
    if ks == [] then []
    else
      KidSmaller(s, ks[0]);
      Walk(p + [ks[0].name], ks[0], merge) + WalkAll(p, s, ks[1..], merge)
  }

  lemma KidSmaller(s: Src, k: Src)
    requires k in s.kids
    ensures k < s
  {
    var i :| 0 <= i < |s.kids| && s.kids[i] == k;
    assert s.kids[i] < s;
  }

  // ---- The walk on the tree ----

  /**
   CopyFrom: whatever the source, links and index stay sound; an allowed walk leaves the map of its
   events. Without merging every walk is allowed, and lays the source over the map.
   */
  method CopyFrom(t: FsTree, src: Src, merge: bool)
    requires t.Sound()
    modifies t`byPath, t`all, t.all`children, t.all`attr, t.all`removed
    ensures t.Sound() && [] in old(t.View()) && (old(t.InPlace()) ==> Closed(old(t.View())))
    ensures old(t.InPlace()) && AllAllowed(old(StateOf(t)), Walk([], src, merge)) ==>
              t.InPlace() && StateOf(t) == ApplyAll(old(StateOf(t)), Walk([], src, merge))
    ensures old(t.InPlace()) && !merge && NamesApart(src) ==> t.InPlace() && Laid(old(t.View()), [], src, t.View())
  {
    hide FsTree.InPlace, FsTree.View, FsTree.Sound, Closed, Runs, Walk, Laid, NamesApart, AllAllowed, ApplyAll;
    t.Basics();
    RunsStart();
    ghost var goal := ApplyAll(StateOf(t), Walk([], src, merge));
    ghost var ok := t.InPlace();
    if ok {
      t.InPlaceClosed();
      PlainCopy(StateOf(t), src);
      ok := Runs(StateOf(t), Walk([], src, merge), goal);
    }
    assert Walk([], src, merge) + [] == Walk([], src, merge);
    WalkDir(t, [], src, merge, [], goal, ok);
    t.Basics();
    if ok {
      RunsOut(StateOf(t), goal);
    }
  }

  /** walkDir: the callback, then the children; rest is what the walk does after that. */
  method WalkDir(t: FsTree, p: Path, s: Src, merge: bool, ghost rest: seq<Event>, ghost goal: State, ghost ok: bool)
    requires t.Sound() && (ok ==> t.InPlace() && Runs(StateOf(t), Walk(p, s, merge) + rest, goal))
    modifies t`byPath, t`all, t.all`children, t.all`attr, t.all`removed
    ensures t.Sound() && old(t.all) <= t.all && fresh(t.all - old(t.all))
    ensures ok ==> t.InPlace() && Runs(StateOf(t), rest, goal)
    decreases s, 1, 0
  {
    hide FsTree.InPlace, FsTree.View, FsTree.Sound, Closed, Runs, Apply, Allowed, CallbackOf;
    var e := CallbackOf(p, s.attr, merge);
    ghost var below := if DirAttr(s.attr) then WalkAll(p, s, Sorted(s), merge) else [];
    assert Walk(p, s, merge) + rest == [e] + (below + rest);
    if ok {
      RunsNext(StateOf(t), Walk(p, s, merge) + rest, goal);
    }
    Step(t, e);
    if DirAttr(s.attr) {
      WalkKids(t, p, s, Sorted(s), merge, rest, goal, ok);
    } else {
      assert below + rest == rest;
    }
  }

  method WalkKids(t: FsTree, p: Path, s: Src, ks: seq<Src>, merge: bool, ghost rest: seq<Event>, ghost goal: State, ghost ok: bool)
    requires t.Sound() && (forall k <- ks :: k in s.kids) && (ok ==> t.InPlace() && Runs(StateOf(t), WalkAll(p, s, ks, merge) + rest, goal))
    modifies t`byPath, t`all, t.all`children, t.all`attr, t.all`removed
    ensures t.Sound() && old(t.all) <= t.all && fresh(t.all - old(t.all))
    ensures ok ==> t.InPlace() && Runs(StateOf(t), rest, goal)
    decreases s, 0, |ks|
  {
    hide FsTree.InPlace, FsTree.View, FsTree.Sound, Closed, Runs, Walk;
    if ks == [] {
      assert WalkAll(p, s, ks, merge) + rest == rest;
    } else {
      ghost var later := WalkAll(p, s, ks[1..], merge) + rest;
      assert WalkAll(p, s, ks, merge) + rest == Walk(p + [ks[0].name], ks[0], merge) + later;
      KidSmaller(s, ks[0]);
      WalkDir(t, p + [ks[0].name], ks[0], merge, later, goal, ok);
      WalkKids(t, p, s, ks[1..], merge, rest, goal, ok);
    }
  }

  // ---- What a walk without markers amounts to ----

  /** The child of that name. */
  function KidNamed(ks: seq<Src>, n: bytes): (r: Option<Src>)
    ensures r.Some? ==> r.value in ks && r.value.name == n
  {
    if ks == [] then None else if ks[0].name == n then Some(ks[0]) else KidNamed(ks[1..], n)
  }

  /** The node of the source that a path leads to, through directories. */
  function SrcAt(s: Src, q: Path): Option<Src>
    decreases |q|
  {
    if q == [] then Some(s) else if DirAttr(s.attr) then Below(s.kids, q) else None
  }

  function Below(ks: seq<Src>, q: Path): Option<Src>
    requires q != []
    decreases |q|, 0
  {
    match KidNamed(ks, q[0])
    case None => None
    case Some(k) => SrcAt(k, q[1..])
  }

  ghost predicate Apart(ks: seq<Src>) {
    forall i, j :: 0 <= i < j < |ks| ==> ks[i].name != ks[j].name
  }

  /** No directory of the source lists a name twice. */
  ghost predicate NamesApart(s: Src) {
    Apart(s.kids) && forall k <- s.kids :: NamesApart(k)
  }

  /** What add leaves at a path. */
  function Added(m: View, q: Path, a: Attr): Attr
    requires [] in m
  {
    if q == [] then RootAttr(m[[]], a) else a
  }

  /** What the source s, put at p, has at q. */
  function OverAt(s: Src, p: Path, q: Path): Option<Src> {
    if p <= q then SrcAt(s, q[|p|..]) else None
  }

  /** What the children ks of p have at q. */
  function UnderAt(ks: seq<Src>, p: Path, q: Path): Option<Src> {
    if p < q then Below(ks, q[|p|..]) else None
  }

  /** The map m with the source s laid over it at p. */
  ghost predicate Laid(m: View, p: Path, s: Src, r: View)
    requires [] in m
  {
    forall q: Path :: LaidAt(m, q, OverAt(s, p, q), r)
  }

  /** The map m with the children ks laid over it below p. */
  ghost predicate LaidBelow(m: View, p: Path, ks: seq<Src>, r: View)
    requires [] in m
  {
    forall q: Path :: LaidAt(m, q, UnderAt(ks, p, q), r)
  }

  ghost predicate LaidAt(m: View, q: Path, node: Option<Src>, r: View)
    requires [] in m
  {
    (q in r <==> q in m || node.Some?) && (q in r ==> r[q] == if node.Some? then Added(m, q, node.value.attr) else m[q])
  }

  lemma {:induction false} ApplyBoth(s: State, a: seq<Event>, b: seq<Event>)
    requires [] in s.view
    ensures [] in ApplyAll(s, a).view && ApplyAll(s, a + b) == ApplyAll(ApplyAll(s, a), b)
    decreases |a|
  {
    hide Apply;
    if a == [] {
      assert a + b == b;
    } else {
      assert (a + b)[0] == a[0] && (a + b)[1..] == a[1..] + b;
      ApplyBoth(Apply(s, a[0]), a[1..], b);
    }
  }

  lemma ApplyOne(s: State, e: Event)
    requires [] in s.view
    ensures ApplyAll(s, [e]) == Apply(s, e)
  {
    hide Apply;
    assert [e][1..] == [];
  }

  /** An entry whose directory is there is added alone. */
  lemma AddAlone(s: State, p: Path, a: Attr)
    requires [] in s.view && (p == [] || Dir(p) in s.view)
    ensures Apply(s, Add(p, a)) == State(s.view[p := Added(s.view, p, a)], s.rootIn)
  {
  }

  /** Without merging, every node of the source ends at its path with its own attributes, and nothing else changes. */
  lemma {:induction false} WalkLays(st: State, p: Path, s: Src)
    requires [] in st.view && (p == [] || Dir(p) in st.view) && NamesApart(s)
    ensures var r := ApplyAll(st, Walk(p, s, false));
            r.rootIn == st.rootIn && [] in r.view && Laid(st.view, p, s, r.view)
    decreases s, 1, 0
  {
    hide Apply, ApplyAll, Walk, WalkAll, LaidBelow, Laid, NamesApart;
    var st1 := State(st.view[p := Added(st.view, p, s.attr)], st.rootIn);
    var below := if DirAttr(s.attr) then WalkAll(p, s, Sorted(s), false) else [];
    WalkIs(p, s);
    ApplyBoth(st, [Add(p, s.attr)], below);
    ApplyOne(st, Add(p, s.attr));
    AddAlone(st, p, s.attr);
    if DirAttr(s.attr) {
      NamesSorted(s);
      WalkAllLays(st1, p, s, Sorted(s));
      var r := ApplyAll(st1, below);
      SameBelow(s, st1.view, p, r.view);
      LaidDir(st.view, p, s, st1.view, r.view);
    } else {
      NoEvents(st1);
      LaidLeaf(st.view, p, s);
    }
  }

  lemma WalkIs(p: Path, s: Src)
    ensures Walk(p, s, false) == [Add(p, s.attr)] + if DirAttr(s.attr) then WalkAll(p, s, Sorted(s), false) else []
  {
    hide WalkAll, Sorted, DirAttr;
  }

  lemma NoEvents(s: State)
    requires [] in s.view
    ensures ApplyAll(s, []) == s
  {
  }

  lemma NamesSorted(s: Src)
    requires NamesApart(s)
    ensures Apart(Sorted(s)) && forall k <- Sorted(s) :: k in s.kids && NamesApart(k)
  {
    hide Sort;
    assert DistinctKeys(SrcName, s.kids);
    SortAscending(SrcName, s.kids);
    var ks := Sorted(s);
    forall i, j | 0 <= i < j < |ks|
      ensures ks[i].name != ks[j].name
    {
      assert Less(Map(SrcName, ks)[i], Map(SrcName, ks)[j]);
    }
  }

  lemma LaidLeaf(m: View, p: Path, s: Src)
    requires [] in m && !DirAttr(s.attr)
    ensures Laid(m, p, s, m[p := Added(m, p, s.attr)])
  {
    hide DirAttr;
    var r := m[p := Added(m, p, s.attr)];
    forall q: Path
      ensures LaidAt(m, q, OverAt(s, p, q), r)
    {
      assert p <= q && q[|p|..] == [] ==> p == q;
    }
  }

  lemma LaidDir(m: View, p: Path, s: Src, m1: View, r: View)
    requires [] in m && DirAttr(s.attr) && m1 == m[p := Added(m, p, s.attr)] && [] in m1 && LaidBelow(m1, p, s.kids, r)
    ensures Laid(m, p, s, r) && [] in r
  {
    hide DirAttr, Below;
    assert LaidAt(m1, [], None, r) by {
      assert !(p < []);
      BelowAt(m1, p, s.kids, r, []);
    }
    forall q: Path
      ensures LaidAt(m, q, OverAt(s, p, q), r)
    {
      BelowAt(m1, p, s.kids, r, q);
      if p <= q {
        assert p == q || p < q;
      }
    }
  }

  lemma BelowAt(m: View, p: Path, ks: seq<Src>, r: View, q: Path)
    requires [] in m && LaidBelow(m, p, ks, r)
    ensures LaidAt(m, q, UnderAt(ks, p, q), r)
  {
    hide LaidAt, Below;
  }

  lemma WalkedAt(m: View, p: Path, s: Src, r: View, q: Path)
    requires [] in m && Laid(m, p, s, r)
    ensures LaidAt(m, q, OverAt(s, p, q), r)
  {
    hide LaidAt, SrcAt;
  }

  lemma {:induction false} KidIs(ks: seq<Src>, k: Src)
    requires Apart(ks) && k in ks
    ensures KidNamed(ks, k.name) == Some(k)
  {
    if ks[0] != k {
      var i :| 0 < i < |ks| && ks[i] == k;
      assert ks[1..][i - 1] == k;
      KidIs(ks[1..], k);
    }
  }

  /** Order does not matter for which child a name means. */
  lemma SameKid(ks: seq<Src>, ls: seq<Src>, n: bytes)
    requires Apart(ks) && Apart(ls) && multiset(ks) == multiset(ls)
    ensures KidNamed(ks, n) == KidNamed(ls, n)
  {
    if KidNamed(ks, n).Some? {
      assert KidNamed(ks, n).value in multiset(ks);
      KidIs(ls, KidNamed(ks, n).value);
    } else if KidNamed(ls, n).Some? {
      assert KidNamed(ls, n).value in multiset(ls);
      KidIs(ks, KidNamed(ls, n).value);
    }
  }

  lemma SameBelow(s: Src, m: View, p: Path, r: View)
    requires [] in m && NamesApart(s) && LaidBelow(m, p, Sorted(s), r)
    ensures LaidBelow(m, p, s.kids, r)
  {
    hide LaidAt, Sorted;
    NamesSorted(s);
    forall q: Path
      ensures LaidAt(m, q, UnderAt(s.kids, p, q), r)
    {
      BelowAt(m, p, Sorted(s), r, q);
      if p < q {
        SameKid(Sorted(s), s.kids, q[|p|]);
      }
    }
  }

  lemma {:induction false} WalkAllLays(st: State, p: Path, s: Src, ks: seq<Src>)
    requires [] in st.view && p in st.view && Apart(ks) && forall k <- ks :: k in s.kids && NamesApart(k)
    ensures var r := ApplyAll(st, WalkAll(p, s, ks, false));
            r.rootIn == st.rootIn && [] in r.view && LaidBelow(st.view, p, ks, r.view)
    decreases s, 0, |ks|
  {
    hide Apply, ApplyAll, Walk, WalkAll, LaidBelow, Laid, NamesApart, LaidAt;
    AllIs(p, s, ks);
    if ks == [] {
      NoEvents(st);
      LaidNothing(st.view, p);
    } else {
      var k, at := ks[0], p + [ks[0].name];
      KidSmaller(s, k);
      assert Dir(at) == p;
      ApplyBoth(st, Walk(at, k, false), WalkAll(p, s, ks[1..], false));
      WalkLays(st, at, k);
      var mid := ApplyAll(st, Walk(at, k, false));
      KeptUnder(st.view, at, k, mid.view, p);
      WalkAllLays(mid, p, s, ks[1..]);
      var r := ApplyAll(mid, WalkAll(p, s, ks[1..], false));
      BothLaid(st.view, p, ks, mid.view, r.view);
    }
  }

  lemma AllIs(p: Path, s: Src, ks: seq<Src>)
    requires forall k <- ks :: k in s.kids
    ensures WalkAll(p, s, ks, false)
         == if ks == [] then [] else Walk(p + [ks[0].name], ks[0], false) + WalkAll(p, s, ks[1..], false)
  {
    hide Walk;
  }

  lemma LaidNothing(m: View, p: Path)
    requires [] in m
    ensures LaidBelow(m, p, [], m)
  {
  }

  lemma KeptUnder(m: View, at: Path, k: Src, r: View, p: Path)
    requires [] in m && p in m && Laid(m, at, k, r)
    ensures p in r
  {
    hide SrcAt;
    WalkedAt(m, at, k, r, p);
  }

  /** The first child laid, then the others. */
  lemma BothLaid(m: View, p: Path, ks: seq<Src>, mid: View, r: View)
    requires [] in m && [] in mid && ks != [] && Apart(ks)
    requires Laid(m, p + [ks[0].name], ks[0], mid) && LaidBelow(mid, p, ks[1..], r)
    ensures LaidBelow(m, p, ks, r)
  {
    hide LaidAt, SrcAt, Laid;
    var k, at := ks[0], p + [ks[0].name];
    forall q: Path
      ensures LaidAt(m, q, UnderAt(ks, p, q), r)
    {
      WalkedAt(m, at, k, mid, q);
      BelowAt(mid, p, ks[1..], r, q);
      LaidTwice(m, q, OverAt(k, at, q), mid, UnderAt(ks[1..], p, q), r);
      if p < q {
        assert q[|p|..][0] == q[|p|] && (at <= q <==> q[|p|] == k.name);
        if q[|p|] == k.name {
          NotAgain(ks);
          assert q[|p|..][1..] == q[|at|..];
        }
      } else {
        assert !(at <= q);
      }
    }
  }

  lemma NotAgain(ks: seq<Src>)
    requires ks != [] && Apart(ks)
    ensures KidNamed(ks[1..], ks[0].name) == None
  {
  }

  lemma LaidTwice(m: View, q: Path, a: Option<Src>, mid: View, b: Option<Src>, r: View)
    requires [] in m && [] in mid && LaidAt(m, q, a, mid) && LaidAt(mid, q, b, r) && (q == [] ==> a == None || b == None)
    ensures LaidAt(m, q, if b.Some? then b else a, r)
  {
  }

  /** A walk without markers is allowed from any map, and lays the source over it. */
  lemma PlainCopy(st: State, src: Src)
    requires Closed(st.view)
    ensures AllAllowed(st, Walk([], src, false))
    ensures NamesApart(src) ==> Laid(st.view, [], src, ApplyAll(st, Walk([], src, false)).view)
  {
    hide Walk, NamesApart, Laid, ApplyAll, AllAllowed;
    WalkAdds([], src);
    AddsAllowed(st, Walk([], src, false));
    if NamesApart(src) {
      WalkLays(st, [], src);
    }
  }

  lemma {:induction false} AddsAllowed(st: State, es: seq<Event>)
    requires Closed(st.view) && forall e <- es :: e.Add?
    ensures AllAllowed(st, es)
    decreases |es|
  {
    hide Apply;
    if es != [] {
      ApplyClosed(st, es[0]);
      AddsAllowed(Apply(st, es[0]), es[1..]);
    }
  }

  lemma {:induction false} WalkAdds(p: Path, s: Src)
    ensures forall e <- Walk(p, s, false) :: e.Add?
    decreases s, 1, 0
  {
    hide Walk, WalkAll;
    WalkIs(p, s);
    if DirAttr(s.attr) {
      WalkAllAdds(p, s, Sorted(s));
    }
  }

  lemma {:induction false} WalkAllAdds(p: Path, s: Src, ks: seq<Src>)
    requires forall k <- ks :: k in s.kids
    ensures forall e <- WalkAll(p, s, ks, false) :: e.Add?
    decreases s, 0, |ks|
  {
    hide Walk, WalkAll;
    AllIs(p, s, ks);
    if ks != [] {
      KidSmaller(s, ks[0]);
      WalkAdds(p + [ks[0].name], ks[0]);
      WalkAllAdds(p, s, ks[1..]);
    }
  }

  // ---- Where the two walks part ----

  /** Both walks take the same entries for markers, and for the same events, but for a bare ".wh.". */
  lemma MarkersAgree(p: Path, s: Src)
    ensures IsMarker(p) <==> HasMarkerName(p) && p[|p| - 1] != WHITEOUT_PREFIX
    ensures IsMarker(p) ==> CallbackOf(p, s.attr, true) == EventOf(Visit(p, s), true)
    ensures HasMarkerName(p) && !IsMarker(p) ==>
              CallbackOf(p, s.attr, true) == Whiteout(Dir(p)) && EventOf(Visit(p, s), true) == Register(p, s.attr)
  {
    if HasMarkerName(p) {
      var base := p[|p| - 1];
      assert |base| == 4 ==> base[..4] == base;
    }
  }

  const X: bytes := [120]
  const WHITEOUT_X: bytes := [46, 119, 104, 46, 120]

  /** A whiteout marker that is a directory with an entry x: the walk goes on inside, and the marker stays in the tree. */
  lemma MarkerDirectory(dir: Attr, file: Attr)
    requires DirAttr(dir) && !DirAttr(file)
    ensures var src := Src([], dir, [Src(WHITEOUT_X, dir, [Src(X, file, [])])]);
            var r := ApplyAll(State(map[[] := IMPLICIT], true), Walk([], src, true));
            Walk([], src, true) == [Add([], dir), Whiteout([X]), Add([WHITEOUT_X, X], file)] && [WHITEOUT_X] in r.view
  {
    hide DirAttr, Walk, Apply, ApplyAll, CallbackOf;
    var leaf := Src(X, file, []);
    var marker := Src(WHITEOUT_X, dir, [leaf]);
    var src := Src([], dir, [marker]);
    OnlyKid([], src, marker);
    OnlyKid([WHITEOUT_X], marker, leaf);
    Leaf([WHITEOUT_X, X], leaf);
    assert [] + [WHITEOUT_X] == [WHITEOUT_X] && [WHITEOUT_X] + [X] == [WHITEOUT_X, X];
    MarkerEvents(dir, file);
    var st := State(map[[] := IMPLICIT], true);
    var more := [Whiteout([X]), Add([WHITEOUT_X, X], file)];
    ApplyBoth(st, [Add([], dir)], more);
    ApplyBoth(ApplyAll(st, [Add([], dir)]), [Whiteout([X])], [Add([WHITEOUT_X, X], file)]);
    assert more == [Whiteout([X])] + [Add([WHITEOUT_X, X], file)];
    ApplyOne(ApplyAll(ApplyAll(st, [Add([], dir)]), [Whiteout([X])]), Add([WHITEOUT_X, X], file));
    MarkerAdded(ApplyAll(ApplyAll(st, [Add([], dir)]), [Whiteout([X])]), file);
  }

  lemma OnlyKid(p: Path, s: Src, k: Src)
    requires s.kids == [k] && DirAttr(s.attr)
    ensures Walk(p, s, true) == [CallbackOf(p, s.attr, true)] + Walk(p + [k.name], k, true)
  {
    hide CallbackOf, DirAttr;
    var none: seq<Src> := s.kids[1..];
    assert none == [] && Sorted(s) == [k] && Sorted(s)[1..] == [];
    assert WalkAll(p, s, [k], true) == Walk(p + [k.name], k, true) + [];
  }

  lemma Leaf(p: Path, s: Src)
    requires !DirAttr(s.attr)
    ensures Walk(p, s, true) == [CallbackOf(p, s.attr, true)]
  {
    hide CallbackOf, DirAttr;
  }

  lemma MarkerEvents(dir: Attr, file: Attr)
    ensures CallbackOf([], dir, true) == Add([], dir)
    ensures CallbackOf([WHITEOUT_X], dir, true) == Whiteout([X])
    ensures CallbackOf([WHITEOUT_X, X], file, true) == Add([WHITEOUT_X, X], file)
  {
    assert WHITEOUT_X[..4] == WHITEOUT_PREFIX && WHITEOUT_X[4..] == X;
    assert Dir([WHITEOUT_X]) == [];
  }

  lemma MarkerAdded(s: State, file: Attr)
    requires [] in s.view
    ensures [WHITEOUT_X] in Apply(s, Add([WHITEOUT_X, X], file)).view
  {
    assert Dir([WHITEOUT_X, X]) == [WHITEOUT_X];
    ParentsAdded(s.view, [WHITEOUT_X]);
  }
}
