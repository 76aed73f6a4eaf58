/**
 What merging a layer means (mkfs.go): which entries of earlier layers its markers delete, and which of its
 own entries they take with them, path by path.
 */
module LayerMerge {
  import opened Bytes
  import opened Format
  import opened Order
  import opened Overlay
  import opened Layers
  import opened ImageCopy
  import opened LayerWalk

  /** The marker file w asks for q to be deleted; markers for the root itself count only while it is indexed. */
  predicate Deletes(w: Path, q: Path, rootIn: bool) {
    w != [] && |w[|w| - 1]| >= 4 && w[|w| - 1][..4] == [46, 119, 104, 46]
    && var dir, rest := w[..|w| - 1], w[|w| - 1][4..];
       if rest == [46, 119, 104, 46, 46, 111, 112, 113] then dir < q && (dir == [] ==> rootIn)
       else
         var target := if rest == [] || rest == [46] then dir else if rest == [46, 46] then Dir(dir) else dir + [rest];
         q != [] && target <= q && (target == [] ==> rootIn)
  }

  // ---- One event, one path ----

  predicate Takes(e: Event, q: Path, rootIn: bool) {
    match e
    case Whiteout(t) => q != [] && t <= q && (t == [] ==> rootIn)
    case Opaque(d) => d < q && (d == [] ==> rootIn)
    case _ => false
  }

  lemma {:induction false} ParentsAbove(m: View, d: Path, q: Path)
    requires [] in m && q in WithParents(m, d) && q !in m
    ensures q <= d
    decreases |d|
  {
    if d != [] && d !in m && q != d {
      ParentsAbove(m, Dir(d), q);
    }
  }

  /** An entry that is not at or below q leaves q as it is; one that is not at q does when q is there. */
  lemma AddElsewhere(s: State, x: Path, a: Attr, q: Path)
    requires [] in s.view && q != [] && q != x && (q in s.view || !(q <= x))
    ensures var r := Apply(s, Add(x, a));
            r.rootIn == s.rootIn && (q in r.view <==> q in s.view) && (q in r.view ==> r.view[q] == s.view[q])
  {
    ParentsAdded(s.view, Dir(x));
    if x != [] && q in WithParents(s.view, Dir(x)) && q !in s.view {
      ParentsAbove(s.view, Dir(x), q);
    }
  }

  lemma RegisterElsewhere(s: State, x: Path, a: Attr, q: Path)
    requires [] in s.view && q != x
    ensures var r := Apply(s, Register(x, a));
            r.rootIn == s.rootIn && (q in r.view <==> q in s.view) && (q in r.view ==> r.view[q] == s.view[q])
  {
  }

  lemma MarkerApplied(s: State, e: Event, q: Path)
    requires [] in s.view && q != [] && (e.Whiteout? || e.Opaque?)
    ensures var r := Apply(s, e);
            && (q in r.view <==> q in s.view && !Takes(e, q, s.rootIn)) && (q in r.view ==> r.view[q] == s.view[q])
            && (r.rootIn == s.rootIn || (s.rootIn && e == Whiteout([])))
  {
  }

  /** Entries elsewhere, or anywhere but at q while it is there. */
  ghost predicate Elsewhere(es: seq<Event>, q: Path, there: bool) {
    forall e <- es :: (e.Register? ==> e.path != q) && (e.Add? ==> e.path != q && (there || !(q <= e.path)))
  }

  ghost predicate NoneTakes(es: seq<Event>, q: Path, rootIn: bool) {
    forall e <- es :: !Takes(e, q, rootIn)
  }

  /** A run of entries that are not at or below q: q stays exactly if no marker takes it. */
  lemma {:induction false} Untouched(s: State, es: seq<Event>, q: Path)
    requires [] in s.view && q != [] && Elsewhere(es, q, false)
    ensures var r := ApplyAll(s, es);
            && [] in r.view && (q in r.view <==> q in s.view && NoneTakes(es, q, s.rootIn))
            && (q in r.view ==> r.view[q] == s.view[q])
    decreases |es|
  {
    hide Apply, Takes;
    if es != [] {
      var s1 := Apply(s, es[0]);
      OneEvent(s, es[0], q, false);
      Untouched(s1, es[1..], q);
      assert es == [es[0]] + es[1..];
    }
  }

  lemma OneEvent(s: State, e: Event, q: Path, there: bool)
    requires [] in s.view && q != [] && Elsewhere([e], q, there) && (there ==> q in s.view)
    ensures var r := Apply(s, e);
            && [] in r.view && (q in r.view <==> q in s.view && !Takes(e, q, s.rootIn))
            && (q in r.view ==> r.view[q] == s.view[q] && r.rootIn == s.rootIn)
  {
    hide Apply;
    assert e in [e];
    if e.Add? {
      AddElsewhere(s, e.path, e.attr, q);
    } else if e.Register? {
      RegisterElsewhere(s, e.path, e.attr, q);
    } else {
      MarkerApplied(s, e, q);
      assert e == Whiteout([]) && s.rootIn ==> Takes(e, q, s.rootIn);
    }
  }

  /** A path that is there stays under entries at any other path and markers that do not take it. */
  lemma {:induction false} Kept(s: State, es: seq<Event>, q: Path)
    requires [] in s.view && q != [] && q in s.view && Elsewhere(es, q, true) && NoneTakes(es, q, s.rootIn)
    ensures var r := ApplyAll(s, es); [] in r.view && q in r.view && r.view[q] == s.view[q] && r.rootIn == s.rootIn
    decreases |es|
  {
    hide Apply, Takes;
    if es != [] {
      var s1 := Apply(s, es[0]);
      assert es[0] in es;
      OneEvent(s, es[0], q, true);
      Kept(s1, es[1..], q);
    }
  }

  // ---- The events of a walk are those of the source's nodes ----

  lemma MarkerIs(w: Path, a: Attr, q: Path, rootIn: bool)
    ensures Takes(CallbackOf(w, a, true), q, rootIn) <==> Deletes(w, q, rootIn)
    ensures CallbackOf(w, a, true).Add? <==> !HasMarkerName(w)
    ensures CallbackOf(w, a, true).Add? ==> CallbackOf(w, a, true) == Add(w, a)
    ensures !CallbackOf(w, a, true).Register?
  {
    if HasMarkerName(w) {
      var base := w[|w| - 1];
      assert base == base[..4] + base[4..];
      assert base == OPAQUE_WHITEOUT <==> base[4..] == [46, 119, 104, 46, 46, 111, 112, 113] by {
        assert OPAQUE_WHITEOUT[..4] == WHITEOUT_PREFIX && OPAQUE_WHITEOUT[4..] == [46, 119, 104, 46, 46, 111, 112, 113];
      }
    }
  }

  /** e is the event of a node of s, put at p; of a node below p in the other. */
  ghost predicate NodeEvent(s: Src, p: Path, e: Event) {
    exists w: Path :: OverAt(s, p, w).Some? && e == CallbackOf(w, OverAt(s, p, w).value.attr, true)
  }

  ghost predicate KidEvent(ks: seq<Src>, p: Path, e: Event) {
    exists w: Path :: UnderAt(ks, p, w).Some? && e == CallbackOf(w, UnderAt(ks, p, w).value.attr, true)
  }

  /** What is at w below p: in the first child's tree, or in the others'. */
  lemma FirstOrRest(ks: seq<Src>, p: Path, w: Path)
    requires ks != [] && Apart(ks)
    ensures UnderAt(ks, p, w) == if p + [ks[0].name] <= w then OverAt(ks[0], p + [ks[0].name], w) else UnderAt(ks[1..], p, w)
    ensures p + [ks[0].name] <= w ==> UnderAt(ks[1..], p, w) == None
  {
    hide SrcAt;
    var at := p + [ks[0].name];
    if p < w {
      assert w[|p|..][0] == w[|p|] && (at <= w <==> w[|p|] == ks[0].name);
      if w[|p|] == ks[0].name {
        NotAgain(ks);
        assert w[|p|..][1..] == w[|at|..];
      }
    } else {
      assert !(at <= w);
    }
  }

  lemma RootOrBelow(s: Src, p: Path, w: Path)
    ensures OverAt(s, p, w) == if w == p then Some(s) else if DirAttr(s.attr) then UnderAt(s.kids, p, w) else None
  {
    hide Below;
    if p <= w && w != p {
      assert w[|p|..] != [];
    }
  }

  lemma SortedUnder(s: Src, p: Path, w: Path)
    requires NamesApart(s)
    ensures UnderAt(Sorted(s), p, w) == UnderAt(s.kids, p, w)
  {
    hide Sort, SrcAt, KidNamed, NamesApart;
    NamesSorted(s);
    ApartKids(s);
    if p < w {
      SameKid(Sorted(s), s.kids, w[|p|..][0]);
    }
  }

  lemma ApartKids(s: Src)
    requires NamesApart(s)
    ensures Apart(s.kids)
  {
  }

  lemma {:induction false} WalkEvents(p: Path, s: Src)
    requires NamesApart(s)
    ensures forall e: Event :: e in Walk(p, s, true) <==> NodeEvent(s, p, e)
    decreases s, 1, 0
  {
    hide Walk, WalkAll, NodeEvent, KidEvent, NamesApart, CallbackOf;
    MergeIs(p, s);
    if DirAttr(s.attr) {
      NamesSorted(s);
      WalkAllEvents(p, s, Sorted(s));
    }
    forall e: Event
      ensures e in Walk(p, s, true) <==> NodeEvent(s, p, e)
    {
      EventHere(s, p, e);
    }
  }

  lemma EventHere(s: Src, p: Path, e: Event)
    requires NamesApart(s)
    ensures NodeEvent(s, p, e) <==> e == CallbackOf(p, s.attr, true) || (DirAttr(s.attr) && KidEvent(Sorted(s), p, e))
  {
    hide CallbackOf, NamesApart, Sort, SrcAt, UnderAt, OverAt, DirAttr;
    if NodeEvent(s, p, e) {
      var w: Path :| OverAt(s, p, w).Some? && e == CallbackOf(w, OverAt(s, p, w).value.attr, true);
      RootOrBelow(s, p, w);
      SortedUnder(s, p, w);
    }
    RootOrBelow(s, p, p);
    if DirAttr(s.attr) && KidEvent(Sorted(s), p, e) {
      var w: Path :| UnderAt(Sorted(s), p, w).Some? && e == CallbackOf(w, UnderAt(Sorted(s), p, w).value.attr, true);
      NotItself(Sorted(s), p, w);
      RootOrBelow(s, p, w);
      SortedUnder(s, p, w);
    }
  }

  lemma NotItself(ks: seq<Src>, p: Path, w: Path)
    requires UnderAt(ks, p, w).Some?
    ensures p < w
  {
  }

  lemma MergeIs(p: Path, s: Src)
    ensures Walk(p, s, true) == [CallbackOf(p, s.attr, true)] + if DirAttr(s.attr) then WalkAll(p, s, Sorted(s), true) else []
  {
    hide WalkAll, Sorted, DirAttr, CallbackOf;
  }

  lemma MergeAllIs(p: Path, s: Src, ks: seq<Src>)
    requires forall k <- ks :: k in s.kids
    ensures WalkAll(p, s, ks, true)
         == if ks == [] then [] else Walk(p + [ks[0].name], ks[0], true) + WalkAll(p, s, ks[1..], true)
  {
    hide Walk;
  }

  lemma {:induction false} WalkAllEvents(p: Path, s: Src, ks: seq<Src>)
    requires Apart(ks) && forall k <- ks :: k in s.kids && NamesApart(k)
    ensures forall e: Event :: e in WalkAll(p, s, ks, true) <==> KidEvent(ks, p, e)
    decreases s, 0, |ks|
  {
    hide Walk, WalkAll, NodeEvent, KidEvent, NamesApart;
    MergeAllIs(p, s, ks);
    if ks != [] {
      KidSmaller(s, ks[0]);
      WalkEvents(p + [ks[0].name], ks[0]);
      WalkAllEvents(p, s, ks[1..]);
    }
    forall e: Event
      ensures e in WalkAll(p, s, ks, true) <==> KidEvent(ks, p, e)
    {
      EventAmong(ks, p, e);
    }
  }

  lemma EventAmong(ks: seq<Src>, p: Path, e: Event)
    requires Apart(ks)
    ensures KidEvent(ks, p, e) <==> ks != [] && (NodeEvent(ks[0], p + [ks[0].name], e) || KidEvent(ks[1..], p, e))
  {
    hide CallbackOf, SrcAt;
    if ks != [] {
      var at := p + [ks[0].name];
      if KidEvent(ks, p, e) {
        var w: Path :| UnderAt(ks, p, w).Some? && e == CallbackOf(w, UnderAt(ks, p, w).value.attr, true);
        FirstOrRest(ks, p, w);
      }
      if NodeEvent(ks[0], at, e) {
        var w: Path :| OverAt(ks[0], at, w).Some? && e == CallbackOf(w, OverAt(ks[0], at, w).value.attr, true);
        FirstOrRest(ks, p, w);
      }
      if KidEvent(ks[1..], p, e) {
        var w: Path :| UnderAt(ks[1..], p, w).Some? && e == CallbackOf(w, UnderAt(ks[1..], p, w).value.attr, true);
        FirstOrRest(ks, p, w);
      }
    }
  }

  // ---- Entries of earlier layers ----

  /** Some marker of the layer asks for q to be deleted. */
  ghost predicate Deleted(src: Src, q: Path, rootIn: bool) {
    exists w: Path :: SrcAt(src, w).Some? && Deletes(w, q, rootIn)
  }

  /**
   An entry of an earlier layer, where the merged layer has none at or below it but markers, stays as it was
   exactly when no marker of the layer asks for it to be deleted, wherever in the walk that marker comes.
   */
  lemma PriorLayers(st: State, src: Src, q: Path)
    requires [] in st.view && NamesApart(src) && q != []
    requires forall w: Path :: SrcAt(src, w).Some? && q <= w ==> HasMarkerName(w)
    ensures var r := ApplyAll(st, Walk([], src, true)).view;
            && (q in r <==> q in st.view && !Deleted(src, q, st.rootIn))
            && (q in r ==> r[q] == st.view[q])
  {
    hide Walk, NamesApart, ApplyAll, CallbackOf, SrcAt, HasMarkerName, Deletes, Takes;
    var es := Walk([], src, true);
    WalkEvents([], src);
    forall e <- es
      ensures !e.Register? && (e.Add? ==> e.path != q && !(q <= e.path))
      ensures Takes(e, q, st.rootIn) ==> Deleted(src, q, st.rootIn)
    {
      assert NodeEvent(src, [], e);
      var w: Path :| OverAt(src, [], w).Some? && e == CallbackOf(w, OverAt(src, [], w).value.attr, true);
      AllOver(src, w);
      MarkerIs(w, OverAt(src, [], w).value.attr, q, st.rootIn);
    }
    if Deleted(src, q, st.rootIn) {
      var w: Path :| SrcAt(src, w).Some? && Deletes(w, q, st.rootIn);
      AllOver(src, w);
      MarkerIs(w, SrcAt(src, w).value.attr, q, st.rootIn);
      var e := CallbackOf(w, SrcAt(src, w).value.attr, true);
      assert NodeEvent(src, [], e);
      assert e in es;
    }
    Untouched(st, es, q);
  }

  lemma AllOver(src: Src, w: Path)
    ensures OverAt(src, [], w) == SrcAt(src, w)
  {
    hide SrcAt;
    assert w[0..] == w;
  }

  // ---- The layer's own entries ----

  /** A name that is no marker, the opaque marker, or a marker for a proper name. */
  predicate PlainName(n: bytes) {
    |n| >= 4 && n[..4] == [46, 119, 104, 46] ==> n[4..] !in {[], [46], [46, 46]}
  }

  ghost predicate PlainMarkers(s: Src) {
    forall k <- s.kids :: PlainName(k.name) && PlainMarkers(k)
  }

  /** A marker of s, put at p, that takes q and comes after q in the order of names. */
  ghost predicate TakenLater(s: Src, p: Path, q: Path, rootIn: bool) {
    exists w: Path :: OverAt(s, p, w).Some? && TakesAfter(w, p, q, rootIn)
  }

  ghost predicate TakenLaterBelow(ks: seq<Src>, p: Path, q: Path, rootIn: bool) {
    exists w: Path :: UnderAt(ks, p, w).Some? && TakesAfter(w, p, q, rootIn)
  }

  /** The marker w lies in a directory above q, at or below p, and its name comes after the name of q in there. */
  predicate TakesAfter(w: Path, p: Path, q: Path, rootIn: bool) {
    p < w && Deletes(w, q, rootIn) && Dir(w) < q && Less(q[|w| - 1], w[|w| - 1])
  }

  lemma {:induction false} PlainAt(s: Src, p: Path, w: Path)
    requires PlainMarkers(s) && OverAt(s, p, w).Some? && p < w
    ensures PlainName(w[|w| - 1])
    decreases |w| - |p|
  {
    hide PlainName;
    RootOrBelow(s, p, w);
    var k := KidNamed(s.kids, w[|p|]).value;
    assert w[|p|..][0] == w[|p|] && w[|p|..][1..] == w[|p| + 1..];
    var at := p + [k.name];
    assert at <= w;
    if at == w {
      assert w[|w| - 1] == k.name;
    } else {
      PlainAt(k, at, w);
    }
  }

  /** A plain marker takes only what is below its directory. */
  lemma TakesBelow(w: Path, q: Path, rootIn: bool)
    requires Deletes(w, q, rootIn) && PlainName(w[|w| - 1])
    ensures Dir(w) < q
  {
    var n := w[|w| - 1];
    assert n == n[..4] + n[4..];
  }

  /** Applying the event of a plain marker, or of an entry, does not take the root out of the index. */
  lemma StaysIndexed(st: State, w: Path, a: Attr)
    requires [] in st.view && (w != [] ==> PlainName(w[|w| - 1]))
    ensures [] in Apply(st, CallbackOf(w, a, true)).view && Apply(st, CallbackOf(w, a, true)).rootIn == st.rootIn
  {
    if HasMarkerName(w) {
      var n := w[|w| - 1];
      assert n == n[..4] + n[4..];
    }
  }

  lemma {:induction false} AllIndexed(st: State, p: Path, s: Src)
    requires [] in st.view && PlainMarkers(s) && (p != [] ==> PlainName(p[|p| - 1]))
    ensures var r := ApplyAll(st, Walk(p, s, true)); [] in r.view && r.rootIn == st.rootIn
    decreases s, 1, 0
  {
    hide Apply, ApplyAll, Walk, WalkAll, PlainName, CallbackOf, DirAttr;
    MergeIs(p, s);
    var e := CallbackOf(p, s.attr, true);
    var below := if DirAttr(s.attr) then WalkAll(p, s, Sorted(s), true) else [];
    StaysIndexed(st, p, s.attr);
    ApplyOne(st, e);
    ApplyBoth(st, [e], below);
    if DirAttr(s.attr) {
      AllBelowIndexed(Apply(st, e), p, s, Sorted(s));
    } else {
      NoEvents(Apply(st, e));
    }
  }

  lemma {:induction false} AllBelowIndexed(st: State, p: Path, s: Src, ks: seq<Src>)
    requires [] in st.view && forall k <- ks :: k in s.kids && PlainName(k.name) && PlainMarkers(k)
    ensures var r := ApplyAll(st, WalkAll(p, s, ks, true)); [] in r.view && r.rootIn == st.rootIn
    decreases s, 0, |ks|
  {
    hide Apply, ApplyAll, Walk, WalkAll, PlainName, PlainMarkers;
    MergeAllIs(p, s, ks);
    if ks == [] {
      NoEvents(st);
    } else {
      KidSmaller(s, ks[0]);
      var at := p + [ks[0].name];
      AllIndexed(st, at, ks[0]);
      ApplyBoth(st, Walk(at, ks[0], true), WalkAll(p, s, ks[1..], true));
      AllBelowIndexed(ApplyAll(st, Walk(at, ks[0], true)), p, s, ks[1..]);
    }
  }

  /** The events below a node leave the node alone. */
  lemma BelowLeaves(p: Path, s: Src, rootIn: bool)
    requires NamesApart(s) && PlainMarkers(s) && p != []
    ensures Elsewhere(WalkAll(p, s, Sorted(s), true), p, true) && NoneTakes(WalkAll(p, s, Sorted(s), true), p, rootIn)
    ensures !TakenLater(s, p, p, rootIn)
  {
    hide WalkAll, CallbackOf, NamesApart, PlainMarkers, Takes, Deletes, PlainName, SrcAt, HasMarkerName;
    NamesSorted(s);
    WalkAllEvents(p, s, Sorted(s));
    forall e <- WalkAll(p, s, Sorted(s), true)
      ensures !e.Register? && (e.Add? ==> e.path != p) && !Takes(e, p, rootIn)
    {
      assert KidEvent(Sorted(s), p, e);
      var w: Path :| UnderAt(Sorted(s), p, w).Some? && e == CallbackOf(w, UnderAt(Sorted(s), p, w).value.attr, true);
      NotItself(Sorted(s), p, w);
      MarkerIs(w, UnderAt(Sorted(s), p, w).value.attr, p, rootIn);
      SortedUnder(s, p, w);
      PlainBelow(s, p, w);
      assert p <= Dir(w);
      if Deletes(w, p, rootIn) {
        TakesBelow(w, p, rootIn);
      }
    }
    forall w: Path | OverAt(s, p, w).Some?
      ensures !TakesAfter(w, p, p, rootIn)
    {
      assert p < w ==> p <= Dir(w);
    }
  }

  lemma PlainBelow(s: Src, p: Path, w: Path)
    requires PlainMarkers(s) && UnderAt(s.kids, p, w).Some?
    ensures PlainName(w[|w| - 1])
  {
    hide PlainName, PlainMarkers, SrcAt;
    var k := KidNamed(s.kids, w[|p|..][0]).value;
    var at := p + [k.name];
    assert w[|p|..][0] == w[|p|] && at <= w && w[|p|..][1..] == w[|at|..];
    KidPlain(s, k);
    if at == w {
      assert w[|w| - 1] == k.name;
    } else {
      assert OverAt(k, at, w) == UnderAt(s.kids, p, w);
      PlainAt(k, at, w);
    }
  }

  lemma KidPlain(s: Src, k: Src)
    requires PlainMarkers(s) && k in s.kids
    ensures PlainName(k.name) && PlainMarkers(k)
  {
  }

  /** An entry of the layer ends in the merged map exactly when no marker that comes after it takes it. */
  lemma {:induction false} OwnKept(st: State, p: Path, s: Src, q: Path)
    requires [] in st.view && NamesApart(s) && PlainMarkers(s) && (p != [] ==> PlainName(p[|p| - 1]))
    requires q != [] && OverAt(s, p, q).Some? && !HasMarkerName(q)
    ensures var r := ApplyAll(st, Walk(p, s, true)).view;
            && (q in r <==> !TakenLater(s, p, q, st.rootIn)) && (q in r ==> r[q] == OverAt(s, p, q).value.attr)
    decreases s, 1, 0
  {
    hide Apply, ApplyAll, Walk, WalkAll, NamesApart, PlainMarkers, PlainName, SrcAt, CallbackOf, HasMarkerName, TakenLater, TakenLaterBelow;
    MergeIs(p, s);
    RootOrBelow(s, p, q);
    var e := CallbackOf(p, s.attr, true);
    var below := if DirAttr(s.attr) then WalkAll(p, s, Sorted(s), true) else [];
    StaysIndexed(st, p, s.attr);
    var st1 := Apply(st, e);
    ApplyOne(st, e);
    ApplyBoth(st, [e], below);
    if q == p {
      MarkerIs(p, s.attr, q, st.rootIn);
      AddedThere(st, p, s.attr);
      BelowLeaves(p, s, st.rootIn);
      NoneBelow(p);
      if DirAttr(s.attr) {
        Kept(st1, below, p);
      } else {
        NoEvents(st1);
      }
    } else {
      NamesSorted(s);
      SortedUnder(s, p, q);
      SortedPlain(s);
      SortedInOrder(s);
      OwnKeptBelow(st1, p, s, Sorted(s), q);
      LaterBelow(s, p, q, st.rootIn);
    }
  }

  lemma AddedThere(st: State, p: Path, a: Attr)
    requires [] in st.view && p != []
    ensures p in Apply(st, Add(p, a)).view && Apply(st, Add(p, a)).view[p] == a
  {
  }

  lemma NoneBelow(p: Path)
    ensures forall ks: seq<Src> :: UnderAt(ks, p, p) == None
  {
  }

  lemma SortedPlain(s: Src)
    requires PlainMarkers(s)
    ensures forall k <- Sorted(s) :: k in s.kids && PlainName(k.name) && PlainMarkers(k)
  {
    hide PlainName;
  }

  lemma LaterBelow(s: Src, p: Path, q: Path, rootIn: bool)
    requires NamesApart(s) && DirAttr(s.attr)
    ensures TakenLater(s, p, q, rootIn) <==> TakenLaterBelow(Sorted(s), p, q, rootIn)
  {
    hide TakesAfter, NamesApart, OverAt, UnderAt, DirAttr;
    if TakenLater(s, p, q, rootIn) {
      var w: Path :| OverAt(s, p, w).Some? && TakesAfter(w, p, q, rootIn);
      AfterIsBelow(w, p, q, rootIn);
      RootOrBelow(s, p, w);
      SortedUnder(s, p, w);
    }
    if TakenLaterBelow(Sorted(s), p, q, rootIn) {
      var w: Path :| UnderAt(Sorted(s), p, w).Some? && TakesAfter(w, p, q, rootIn);
      AfterIsBelow(w, p, q, rootIn);
      RootOrBelow(s, p, w);
      SortedUnder(s, p, w);
    }
  }

  lemma AfterIsBelow(w: Path, p: Path, q: Path, rootIn: bool)
    requires TakesAfter(w, p, q, rootIn)
    ensures p < w
  {
  }

  ghost predicate InOrder(ks: seq<Src>) {
    forall i, j :: 0 <= i < j < |ks| ==> Less(ks[i].name, ks[j].name)
  }

  lemma {:induction false} OwnKeptBelow(st: State, p: Path, s: Src, ks: seq<Src>, q: Path)
    requires [] in st.view && Apart(ks) && InOrder(ks) && forall k <- ks :: k in s.kids && NamesApart(k) && PlainName(k.name) && PlainMarkers(k)
    requires UnderAt(ks, p, q).Some? && !HasMarkerName(q)
    ensures var r := ApplyAll(st, WalkAll(p, s, ks, true)).view;
            && (q in r <==> !TakenLaterBelow(ks, p, q, st.rootIn)) && (q in r ==> r[q] == UnderAt(ks, p, q).value.attr)
    decreases s, 0, |ks|
  {
    hide Apply, ApplyAll, Walk, WalkAll, NamesApart, PlainMarkers, PlainName, SrcAt, HasMarkerName, TakenLater, TakenLaterBelow, Below;
    var i := KidOf(ks, p, q);
    var k, at := ks[0], p + [ks[0].name];
    KidSmaller(s, k);
    MergeAllIs(p, s, ks);
    FirstOrRest(ks, p, q);
    ApplyBoth(st, Walk(at, k, true), WalkAll(p, s, ks[1..], true));
    NameAtEnd(p, k.name);
    AllIndexed(st, at, k);
    var mid := ApplyAll(st, Walk(at, k, true));
    if at <= q {
      OwnKept(st, at, k, q);
      RestTakes(mid, p, s, ks, q);
    } else {
      OwnKeptBelow(mid, p, s, ks[1..], q);
      FirstTakesNone(ks, p, q, st.rootIn);
    }
  }

  lemma NameAtEnd(p: Path, n: bytes)
    ensures p + [n] != [] && (p + [n])[|p + [n]| - 1] == n && Dir(p + [n]) == p
  {
  }

  lemma KidOf(ks: seq<Src>, p: Path, w: Path) returns (i: nat)
    requires UnderAt(ks, p, w).Some?
    ensures p < w && i < |ks| && ks[i].name == w[|p|]
  {
    hide SrcAt;
    var k := KidNamed(ks, w[|p|..][0]).value;
    assert k in ks;
    i :| 0 <= i < |ks| && ks[i] == k;
  }

  lemma NotBefore(a: bytes, b: bytes)
    requires Less(a, b)
    ensures !Less(b, a) && a != b
  {
    CompareFlip(a, b);
  }

  /** With q in the first child's tree: what comes after it is in that tree, or among the later children. */
  lemma FirstTakes(ks: seq<Src>, p: Path, q: Path, rootIn: bool)
    requires ks != [] && Apart(ks) && p + [ks[0].name] <= q
    ensures TakenLaterBelow(ks, p, q, rootIn)
            <==> TakenLater(ks[0], p + [ks[0].name], q, rootIn) || TakenLaterBelow(ks[1..], p, q, rootIn)
  {
    hide Deletes, Less, UnderAt, OverAt;
    var at := p + [ks[0].name];
    if TakenLaterBelow(ks, p, q, rootIn) {
      var w: Path :| UnderAt(ks, p, w).Some? && TakesAfter(w, p, q, rootIn);
      FirstOrRest(ks, p, w);
      if at <= w {
        if Less(ks[0].name, ks[0].name) {
          NotBefore(ks[0].name, ks[0].name);
        }
        assert w != at;
        assert TakesAfter(w, at, q, rootIn);
      }
    }
    if TakenLater(ks[0], at, q, rootIn) {
      var w: Path :| OverAt(ks[0], at, w).Some? && TakesAfter(w, at, q, rootIn);
      FirstOrRest(ks, p, w);
      assert TakesAfter(w, p, q, rootIn);
    }
    if TakenLaterBelow(ks[1..], p, q, rootIn) {
      var w: Path :| UnderAt(ks[1..], p, w).Some? && TakesAfter(w, p, q, rootIn);
      FirstOrRest(ks, p, w);
    }
  }

  /** With q in a later child's tree the first child's tree takes nothing after it. */
  lemma FirstTakesNone(ks: seq<Src>, p: Path, q: Path, rootIn: bool)
    requires ks != [] && Apart(ks) && InOrder(ks) && UnderAt(ks, p, q).Some? && !(p + [ks[0].name] <= q)
    ensures TakenLaterBelow(ks, p, q, rootIn) <==> TakenLaterBelow(ks[1..], p, q, rootIn)
  {
    hide Deletes, Less, UnderAt, OverAt;
    var at := p + [ks[0].name];
    var i := KidOf(ks, p, q);
    NotBefore(ks[0].name, ks[i].name);
    if TakenLaterBelow(ks, p, q, rootIn) {
      var w: Path :| UnderAt(ks, p, w).Some? && TakesAfter(w, p, q, rootIn);
      FirstOrRest(ks, p, w);
      assert at < w ==> at <= Dir(w);
    }
    if TakenLaterBelow(ks[1..], p, q, rootIn) {
      var w: Path :| UnderAt(ks[1..], p, w).Some? && TakesAfter(w, p, q, rootIn);
      FirstOrRest(ks, p, w);
    }
  }

  /** A later child's marker that takes q lies beside q's ancestor, and comes after it. */
  lemma LaterMarker(ks: seq<Src>, p: Path, q: Path, w: Path, rootIn: bool)
    requires ks != [] && Apart(ks) && InOrder(ks) && p + [ks[0].name] <= q && UnderAt(ks[1..], p, w).Some?
    ensures !(q <= w)
    ensures Deletes(w, q, rootIn) && PlainName(w[|w| - 1]) ==> TakesAfter(w, p, q, rootIn)
  {
    hide Deletes, PlainName, Less, UnderAt;
    var at := p + [ks[0].name];
    FirstOrRest(ks, p, w);
    var i := KidOf(ks[1..], p, w);
    assert ks[1..][i] == ks[i + 1];
    if |w| > |p| + 1 {
      assert Dir(w)[|p|] == w[|p|] != q[|p|];
    }
    if Deletes(w, q, rootIn) && PlainName(w[|w| - 1]) {
      TakesBelow(w, q, rootIn);
    }
  }

  lemma RestTakes(mid: State, p: Path, s: Src, ks: seq<Src>, q: Path)
    requires [] in mid.view && ks != [] && Apart(ks) && InOrder(ks) && p + [ks[0].name] <= q
    requires forall k <- ks :: k in s.kids && NamesApart(k) && PlainName(k.name) && PlainMarkers(k)
    ensures var r := ApplyAll(mid, WalkAll(p, s, ks[1..], true)).view;
            && (q in r <==> q in mid.view && !TakenLaterBelow(ks[1..], p, q, mid.rootIn))
            && (q in r ==> r[q] == mid.view[q])
    ensures TakenLaterBelow(ks, p, q, mid.rootIn)
            <==> TakenLater(ks[0], p + [ks[0].name], q, mid.rootIn) || TakenLaterBelow(ks[1..], p, q, mid.rootIn)
  {
    hide WalkAll, ApplyAll, NamesApart, PlainMarkers, PlainName, Deletes, Takes, CallbackOf, UnderAt, TakesAfter, Less, HasMarkerName;
    var es := WalkAll(p, s, ks[1..], true);
    FirstTakes(ks, p, q, mid.rootIn);
    WalkAllEvents(p, s, ks[1..]);
    forall e <- es
      ensures !e.Register? && (e.Add? ==> e.path != q && !(q <= e.path))
      ensures Takes(e, q, mid.rootIn) ==> TakenLaterBelow(ks[1..], p, q, mid.rootIn)
    {
      assert KidEvent(ks[1..], p, e);
      var w: Path :| UnderAt(ks[1..], p, w).Some? && e == CallbackOf(w, UnderAt(ks[1..], p, w).value.attr, true);
      MarkerIs(w, UnderAt(ks[1..], p, w).value.attr, q, mid.rootIn);
      LaterMarker(ks, p, q, w, mid.rootIn);
      PlainAmong(ks[1..], p, w);
    }
    if TakenLaterBelow(ks[1..], p, q, mid.rootIn) {
      var w: Path :| UnderAt(ks[1..], p, w).Some? && TakesAfter(w, p, q, mid.rootIn);
      AfterTakes(w, p, q, mid.rootIn);
      MarkerIs(w, UnderAt(ks[1..], p, w).value.attr, q, mid.rootIn);
      assert KidEvent(ks[1..], p, CallbackOf(w, UnderAt(ks[1..], p, w).value.attr, true));
    }
    Untouched(mid, es, q);
  }

  lemma AfterTakes(w: Path, p: Path, q: Path, rootIn: bool)
    requires TakesAfter(w, p, q, rootIn)
    ensures Deletes(w, q, rootIn)
  {
  }

  lemma PlainAmong(ks: seq<Src>, p: Path, w: Path)
    requires UnderAt(ks, p, w).Some? && forall k <- ks :: PlainName(k.name) && PlainMarkers(k)
    ensures w != [] && PlainName(w[|w| - 1])
  {
    hide PlainName, PlainMarkers, SrcAt;
    var k := KidNamed(ks, w[|p|..][0]).value;
    var at := p + [k.name];
    assert w[|p|..][0] == w[|p|] && at <= w && w[|p|..][1..] == w[|at|..];
    if at == w {
      assert w[|w| - 1] == k.name;
    } else {
      assert OverAt(k, at, w) == UnderAt(ks, p, w);
      PlainAt(k, at, w);
    }
  }

  lemma SortedInOrder(s: Src)
    requires NamesApart(s)
    ensures InOrder(Sorted(s))
  {
    hide Sort, Less;
    assert DistinctKeys(SrcName, s.kids);
    SortAscending(SrcName, s.kids);
    var ks := Sorted(s);
    forall i, j | 0 <= i < j < |ks|
      ensures Less(ks[i].name, ks[j].name)
    {
      assert Less(Map(SrcName, ks)[i], Map(SrcName, ks)[j]);
    }
  }

  /**
   An entry of the merged layer itself stays, as the layer has it, exactly when no marker takes it that comes
   after it by name; such a marker is meant for earlier layers alone.
   */
  lemma OwnEntries(st: State, src: Src, q: Path)
    requires [] in st.view && NamesApart(src) && PlainMarkers(src) && q != []
    requires SrcAt(src, q).Some? && !HasMarkerName(q)
    ensures var r := ApplyAll(st, Walk([], src, true)).view;
            && (q in r <==> !exists w: Path :: SrcAt(src, w).Some? && w != [] && Deletes(w, q, st.rootIn)
                                              && Dir(w) < q && Less(q[|w| - 1], w[|w| - 1]))
            && (q in r ==> r[q] == SrcAt(src, q).value.attr)
  {
    hide Walk, ApplyAll, NamesApart, PlainMarkers, SrcAt, Deletes, HasMarkerName, Less;
    AllOver(src, q);
    OwnKept(st, [], src, q);
    if TakenLater(src, [], q, st.rootIn) {
      var w: Path :| OverAt(src, [], w).Some? && TakesAfter(w, [], q, st.rootIn);
      AllOver(src, w);
    }
    if w: Path :| SrcAt(src, w).Some? && w != [] && Deletes(w, q, st.rootIn) && Dir(w) < q && Less(q[|w| - 1], w[|w| - 1]) {
      AllOver(src, w);
      assert [] < w;
      assert TakesAfter(w, [], q, st.rootIn);
    }
  }

  /** A directory that the layer makes opaque loses the layer's own entries whose names sort before the marker's, ".a" say. */
  lemma OpaqueTakesOwn(st: State, src: Src, dir: Path, n: bytes)
    requires [] in st.view && NamesApart(src) && PlainMarkers(src) && (dir == [] ==> st.rootIn)
    requires SrcAt(src, dir + [n]).Some? && !HasMarkerName(dir + [n]) && SrcAt(src, dir + [OPAQUE_WHITEOUT]).Some?
    requires Less(n, OPAQUE_WHITEOUT)
    ensures dir + [n] !in ApplyAll(st, Walk([], src, true)).view
  {
    hide Walk, ApplyAll, NamesApart, PlainMarkers, SrcAt, HasMarkerName, Less;
    hide Deletes;
    OpaqueMarker(dir, n, st.rootIn);
    OwnEntries(st, src, dir + [n]);
  }

  lemma OpaqueMarker(dir: Path, n: bytes, rootIn: bool)
    requires dir == [] ==> rootIn
    ensures var q, w := dir + [n], dir + [OPAQUE_WHITEOUT];
            && q != [] && w != [] && Dir(w) == dir && dir < q && w[|w| - 1] == OPAQUE_WHITEOUT && q[|w| - 1] == n
            && Deletes(w, q, rootIn)
  {
    var w := dir + [OPAQUE_WHITEOUT];
    assert w[..|w| - 1] == dir;
    assert OPAQUE_WHITEOUT[..4] == [46, 119, 104, 46] && OPAQUE_WHITEOUT[4..] == [46, 119, 104, 46, 46, 111, 112, 113];
  }
}
