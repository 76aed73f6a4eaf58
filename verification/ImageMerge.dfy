/**
 What copying an image means (mkfs_image.go): without merging it is laid over the map, and with merging its
 markers delete entries of earlier layers, path by path.
 */
module ImageMerge {
  import opened Bytes
  import opened Overlay
  import opened Layers
  import opened ImageCopy
  import opened LayerWalk
  import opened LayerMerge

  lemma {:induction false} QueueVisited(queue: seq<Visit>, merge: bool, v: Visit)
    requires v in queue
    ensures v in ImageCopy.Order(queue, merge)
    decreases Waiting(queue)
  {
    hide ImageCopy.Order, Kids, Waiting;
    OrderIs(queue, merge);
    if v != queue[0] {
      LessWaiting(queue, merge);
      QueueVisited(queue[1..] + Kids(queue[0], merge), merge, v);
    }
  }

  lemma OrderIs(queue: seq<Visit>, merge: bool)
    ensures ImageCopy.Order(queue, merge) == if queue == [] then [] else [queue[0]] + ImageCopy.Order(queue[1..] + Kids(queue[0], merge), merge)
  {
    hide Kids;
  }

  /** The children of what is visited are visited. */
  lemma {:induction false} KidsVisited(queue: seq<Visit>, merge: bool, v: Visit, x: Visit)
    requires v in ImageCopy.Order(queue, merge) && x in Kids(v, merge)
    ensures x in ImageCopy.Order(queue, merge)
    decreases Waiting(queue)
  {
    hide ImageCopy.Order, Kids, Waiting;
    OrderIs(queue, merge);
    LessWaiting(queue, merge);
    var rest := queue[1..] + Kids(queue[0], merge);
    if v in ImageCopy.Order(rest, merge) {
      KidsVisited(rest, merge, v, x);
    } else {
      QueueVisited(rest, merge, x);
    }
  }

  /** No directory on the way to w is a marker. */
  ghost predicate Outside(w: Path, merge: bool) {
    forall x: Path :: merge && x < w ==> !IsMarker(x)
  }

  lemma OutsideDir(w: Path, merge: bool)
    requires w != [] && Outside(w, merge)
    ensures Outside(Dir(w), merge) && (merge ==> !IsMarker(Dir(w)))
  {
    hide IsMarker;
    assert Dir(w) < w;
    forall x: Path | merge && x < Dir(w)
      ensures !IsMarker(x)
    {
      assert x < w;
    }
  }

  lemma KidVisit(src: Src, merge: bool, w: Path)
    requires w != [] && NodeAt(src, w).Some? && (merge ==> !IsMarker(Dir(w)))
    ensures NodeAt(src, Dir(w)).Some?
    ensures Visit(w, NodeAt(src, w).value) in Kids(Visit(Dir(w), NodeAt(src, Dir(w)).value), merge)
  {
    hide IsMarker, DirAttr;
    var v := Visit(Dir(w), NodeAt(src, Dir(w)).value);
    var k :| 0 <= k < |v.node.kids| && v.node.kids[k].name == w[|w| - 1] && NodeAt(src, w) == Some(v.node.kids[k]);
    assert Dir(w) + [w[|w| - 1]] == w;
    assert Kids(v, merge)[k] == Visit(w, v.node.kids[k]);
  }

  /** The walk visits every node of the source but what lies below a marker. */
  lemma {:induction false} AllVisited(src: Src, merge: bool, w: Path)
    requires NodeAt(src, w).Some? && Outside(w, merge)
    ensures Visit(w, NodeAt(src, w).value) in ImageCopy.Order([Visit([], src)], merge)
    decreases |w|
  {
    hide ImageCopy.Order, Outside, Kids, NodeAt;
    var start := [Visit([], src)];
    NodeRoot(src);
    if w == [] {
      QueueVisited(start, merge, Visit([], src));
    } else {
      OutsideDir(w, merge);
      KidVisit(src, merge, w);
      AllVisited(src, merge, Dir(w));
      KidsVisited(start, merge, Visit(Dir(w), NodeAt(src, Dir(w)).value), Visit(w, NodeAt(src, w).value));
    }
  }

  /** And nothing else: what it visits at a path is the source's node there. */
  lemma VisitIs(src: Src, merge: bool, i: nat)
    requires DistinctNames(src) && i < |ImageCopy.Order([Visit([], src)], merge)|
    ensures var v := ImageCopy.Order([Visit([], src)], merge)[i]; NodeAt(src, v.path) == Some(v.node)
  {
    hide ImageCopy.Order, NodeAt, DistinctNames, Listed;
    RootProper(src);
    OrderProper(src, [Visit([], src)], merge, {}, i);
  }

  lemma RootProper(src: Src)
    requires DistinctNames(src)
    ensures Proper(src, Visit([], src), {})
  {
  }

  lemma RegisterAt(s: State, p: Path, a: Attr, q: Path)
    requires [] in s.view
    ensures var r := Apply(s, Register(p, a));
            && [] in r.view && r.rootIn == s.rootIn && (q in r.view <==> q in s.view || q == p)
            && (q in r.view ==> r.view[q] == if q != p then s.view[q] else if q == [] then RegisterRoot(s.view[[]], a) else a)
  {
  }

  lemma RegisteredTwice(was: Attr, a: Attr)
    ensures RegisterRoot(RegisterRoot(was, a), a) == RegisterRoot(was, a)
  {
  }

  /** Registrations of one value for q leave that value at q. */
  lemma {:induction false} RegisteredRun(s: State, es: seq<Event>, q: Path, a: Attr)
    requires [] in s.view && forall e <- es :: e.Register? && (e.path == q ==> e.attr == a)
    ensures var r := ApplyAll(s, es);
            && [] in r.view && r.rootIn == s.rootIn && (q in r.view <==> q in s.view || Register(q, a) in es)
            && (q in r.view ==> r.view[q] == if Register(q, a) !in es then s.view[q]
                                             else if q == [] then RegisterRoot(s.view[[]], a) else a)
    decreases |es|
  {
    hide Apply, RegisterRoot;
    if es != [] {
      var e := es[0];
      assert e in es && es == [e] + es[1..];
      RegisterAt(s, e.path, e.attr, q);
      RegisteredTwice(s.view[[]], a);
      RegisteredRun(Apply(s, e), es[1..], q, a);
    }
  }

  /** What the map must have at q after an image has been copied over it without merging. */
  ghost predicate CopiedAt(m: View, src: Src, q: Path, r: View)
    requires [] in m
  {
    && (q in r <==> q in m || NodeAt(src, q).Some?)
    && (q in r ==> r[q] == if NodeAt(src, q) == None then m[q]
                           else if q == [] then RegisterRoot(m[[]], src.attr) else NodeAt(src, q).value.attr)
  }

  /** Without merging, every node of the image ends at its path with its own attributes, and nothing else changes. */
  lemma ImageLays(st: State, src: Src, q: Path)
    requires [] in st.view && DistinctNames(src)
    ensures CopiedAt(st.view, src, q, ApplyAll(st, WalkOf(src, false)).view)
  {
    hide ImageCopy.Order, NodeAt, DistinctNames, ApplyAll, DirAttr, RegisterRoot, Kids;
    var vs, es := ImageCopy.Order([Visit([], src)], false), WalkOf(src, false);
    NodeRoot(src);
    var a := if NodeAt(src, q).Some? then NodeAt(src, q).value.attr else src.attr;
    forall e <- es
      ensures e.Register? && NodeAt(src, e.path).Some? && e.attr == NodeAt(src, e.path).value.attr
    {
      var i :| 0 <= i < |es| && es[i] == e;
      VisitIs(src, false, i);
    }
    if NodeAt(src, q).Some? {
      AllVisited(src, false, q);
      var i :| 0 <= i < |vs| && vs[i] == Visit(q, NodeAt(src, q).value);
      assert es[i] == Register(q, a);
    }
    RegisteredRun(st, es, q, a);
  }

  lemma NodeRoot(src: Src)
    ensures NodeAt(src, []) == Some(src)
  {
  }

  /** Some marker of the image that is not below another asks for q to be deleted. */
  ghost predicate DeletedByImage(src: Src, q: Path, rootIn: bool) {
    exists w: Path :: NodeAt(src, w).Some? && IsMarker(w) && Outside(w, true) && Deletes(w, q, rootIn)
  }

  /** Merging an image: an entry of an earlier layer that the image has none for stays exactly when no marker asks for its deletion. */
  lemma ImagePrior(st: State, src: Src, q: Path)
    requires [] in st.view && DistinctNames(src) && q != [] && (NodeAt(src, q).Some? ==> IsMarker(q))
    ensures var r := ApplyAll(st, WalkOf(src, true)).view;
            && (q in r <==> q in st.view && !DeletedByImage(src, q, st.rootIn))
            && (q in r ==> r[q] == st.view[q])
  {
    hide ImageCopy.Order, NodeAt, DistinctNames, ApplyAll, EventOf, IsMarker, Deletes, Takes, Outside;
    var vs, es := ImageCopy.Order([Visit([], src)], true), WalkOf(src, true);
    forall e <- es
      ensures !e.Add? && (e.Register? ==> e.path != q)
      ensures Takes(e, q, st.rootIn) ==> DeletedByImage(src, q, st.rootIn)
    {
      var i :| 0 <= i < |es| && es[i] == e;
      VisitIs(src, true, i);
      VisitOutside(src, i);
      ImageMarkerIs(vs[i], q, st.rootIn);
    }
    if DeletedByImage(src, q, st.rootIn) {
      var w: Path :| NodeAt(src, w).Some? && IsMarker(w) && Outside(w, true) && Deletes(w, q, st.rootIn);
      AllVisited(src, true, w);
      var i :| 0 <= i < |vs| && vs[i] == Visit(w, NodeAt(src, w).value);
      ImageMarkerIs(vs[i], q, st.rootIn);
      assert es[i] in es;
    }
    Untouched(st, es, q);
  }

  lemma ImageMarkerIs(v: Visit, q: Path, rootIn: bool)
    ensures Takes(EventOf(v, true), q, rootIn) <==> IsMarker(v.path) && Deletes(v.path, q, rootIn)
    ensures !EventOf(v, true).Add? && (EventOf(v, true).Register? ==> !IsMarker(v.path) && EventOf(v, true).path == v.path)
  {
    hide Deletes, CallbackOf, Takes;
    MarkersAgree(v.path, v.node);
    MarkerIs(v.path, v.node.attr, q, rootIn);
    RegisterTakesNone(v.path, v.node.attr, q, rootIn);
    EventShape(v);
  }

  lemma RegisterTakesNone(p: Path, a: Attr, q: Path, rootIn: bool)
    ensures !Takes(Register(p, a), q, rootIn)
  {
  }

  lemma EventShape(v: Visit)
    ensures EventOf(v, true) == Register(v.path, v.node.attr) || (IsMarker(v.path) && (EventOf(v, true).Whiteout? || EventOf(v, true).Opaque?))
    ensures !IsMarker(v.path) ==> EventOf(v, true) == Register(v.path, v.node.attr)
  {
    hide IsMarker, Target;
  }

  /** What is visited does not lie below a marker. */
  lemma VisitOutside(src: Src, i: nat)
    requires i < |ImageCopy.Order([Visit([], src)], true)|
    ensures Outside(ImageCopy.Order([Visit([], src)], true)[i].path, true)
  {
    hide ImageCopy.Order, IsMarker;
    OrderOutside([Visit([], src)], i);
  }

  lemma {:induction false} OrderOutside(queue: seq<Visit>, i: nat)
    requires (forall v <- queue :: Outside(v.path, true)) && i < |ImageCopy.Order(queue, true)|
    ensures Outside(ImageCopy.Order(queue, true)[i].path, true)
    decreases i
  {
    hide ImageCopy.Order, IsMarker, Outside, Kids;
    OrderIs(queue, true);
    if i > 0 {
      var rest := queue[1..] + Kids(queue[0], true);
      forall v <- rest
        ensures Outside(v.path, true)
      {
        if v !in queue[1..] {
          KidOutside(queue[0], v);
        }
      }
      OrderOutside(rest, i - 1);
    }
  }

  lemma KidOutside(v: Visit, x: Visit)
    requires Outside(v.path, true) && x in Kids(v, true)
    ensures Outside(x.path, true)
  {
    hide IsMarker, DirAttr;
    var k :| 0 <= k < |v.node.kids| && x == Visit(v.path + [v.node.kids[k].name], v.node.kids[k]);
    forall y: Path | y < x.path
      ensures !IsMarker(y)
    {
      assert y == v.path || y < v.path;
    }
  }
}
