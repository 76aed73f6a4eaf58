/**
 Layers on the writer's tree (mkfs.go): what a run of additions, whiteouts and opaque markers makes of
 it, and exactly which runs keep every live entry in its directory.
 */
module Layers {
  import opened Bytes
  import opened Format
  import opened Overlay

  // ---- Layers ----

  /**
   What the walk of a layer asks of the tree: entries (added with their missing ancestors, or, when an
   image is copied, registered alone), whiteouts, opaque markers.
   */
  datatype Event = Add(path: Path, attr: Attr) | Register(path: Path, attr: Attr) | Whiteout(target: Path) | Opaque(dir: Path)

  /** The map, and whether the root is still indexed: a whiteout of the root takes it out of the index for good. */
  datatype State = State(view: View, rootIn: bool)

  ghost function StateOf(t: FsTree): State
    requires t.Sound()
    reads t, t.all
  {
    State(t.View(), [] in t.byPath)
  }

  function Apply(s: State, e: Event): (r: State)
    requires [] in s.view
    ensures [] in r.view
  {
    match e
    case Add(p, a) => s.(view := PutSpec(s.view, p, a))
    case Register(p, a) => s.(view := RegisterSpec(s.view, p, a))
    case Whiteout(t) => if t == [] && !s.rootIn then s else State(RemoveSpec(s.view, t), s.rootIn && t != [])
    case Opaque(d) => if d == [] && !s.rootIn then s else s.(view := ClearSpec(s.view, d))
  }

  /** A registered entry needs its directory, a removal needs files without children. */
  ghost predicate Allowed(s: State, e: Event)
    requires Closed(s.view)
  {
    match e
    case Add(_, _) => true
    case Register(p, _) => p in s.view || Dir(p) in s.view
    case Whiteout(t) => (t == [] ==> s.rootIn) ==> Solid(s.view, t)
    case Opaque(d) => (d == [] ==> s.rootIn) ==> SolidBelow(s.view, d)
  }

  lemma {:induction false} ParentsClosed(m: View, d: Path)
    requires Closed(m)
    ensures Closed(WithParents(m, d))
    decreases |d|
  {
    ParentsAdded(m, d);
    if d != [] && d !in m {
      ParentsClosed(m, Dir(d));
      ParentsAdded(m, Dir(d));
    }
  }

  lemma ApplyClosed(s: State, e: Event)
    requires Closed(s.view) && Allowed(s, e)
    ensures Closed(Apply(s, e).view)
  {
    hide Solid, SolidBelow, WithParents;
    match e
    case Add(p, a) =>
      ParentsClosed(s.view, Dir(p));
      ParentsAdded(s.view, Dir(p));
    case Register(p, a) =>
    case Whiteout(t) => ClearedClosed(s.view, t);
    case Opaque(d) => ClearedClosed(s.view, d);
  }

  /** Markers on the root do what they are for exactly while the root is indexed, or when there is nothing below it. */
  lemma RootMarkerExact(s: State)
    requires [] in s.view
    ensures Apply(s, Opaque([])).view == ClearSpec(s.view, []) <==> s.rootIn || forall q <- s.view :: q == []
    ensures Apply(s, Whiteout([])).view == RemoveSpec(s.view, []) <==> s.rootIn || forall q <- s.view :: q == []
  {
    forall q <- s.view | q != []
      ensures q !in ClearSpec(s.view, []) && q !in RemoveSpec(s.view, [])
    {
      assert [] < q;
    }
  }

  /** Removing what is not there removes nothing. */
  lemma Absent(m: View, p: Path)
    requires Closed(m) && p !in m
    ensures RemoveSpec(m, p) == m == ClearSpec(m, p) && Solid(m, p) && SolidBelow(m, p)
  {
    hide DirAttr;
    forall q <- m
      ensures !(p <= q)
    {
      assert p <= q ==> p < q || p == q;
      if p < q {
        var c := ChildAbove(m, p, q);
      }
    }
  }

  /**
   One event on a tree in place: the tree stays in place and stands for the changed map exactly when
   the event is allowed. Whatever is asked, links and index stay sound.
   */
  method Step(t: FsTree, e: Event)
    requires t.Sound()
    modifies t`byPath, t`all, t.all`children, t.all`attr, t.all`removed
    ensures t.Sound() && old(t.all) <= t.all && fresh(t.all - old(t.all)) && [] in old(t.View())
    ensures old(t.InPlace()) ==> Closed(old(t.View()))
    ensures old(t.InPlace()) ==>
              (t.InPlace() && StateOf(t) == Apply(old(StateOf(t)), e) <==> Allowed(old(StateOf(t)), e))
    ensures e.Whiteout? ==> t.byPath == if e.target in old(t.byPath) then old(t.Without(t.TakenWith(t.byPath[e.target]))) else old(t.byPath)
    ensures e.Opaque? ==> t.byPath == if e.dir in old(t.byPath) then old(t.Without(t.TakenBelow(t.byPath[e.dir]))) else old(t.byPath)
    ensures e.Whiteout? || e.Opaque? ==>
              t.all == old(t.all) && forall q <- t.View() :: q in old(t.View()) && t.View()[q] == old(t.View())[q]
    ensures e.Register? ==> t.View() == RegisterSpec(old(t.View()), e.path, e.attr)
    ensures e.Register? ==> (t.Homed(t.all - old(t.all)) <==> e.path in old(t.View()) || Dir(e.path) in old(t.View()))
    ensures [] in t.byPath <==> e != Whiteout([]) && [] in old(t.byPath)
    ensures e.Register? && e.path in old(t.View()) ==> t.all == old(t.all) && t.byPath == old(t.byPath)
    ensures e.Register? && e.path !in old(t.View()) ==>
              && e.path in t.byPath && t.byPath == old(t.byPath)[e.path := t.byPath[e.path]] && t.all == old(t.all) + {t.byPath[e.path]}
              && t.byPath[e.path].parent == (if Dir(e.path) in old(t.byPath) then old(t.byPath)[Dir(e.path)] else t.root)
              && (t.byPath[e.path].parent.path == Dir(e.path) <==> Dir(e.path) in old(t.View()))
  {
    hide PutSpec, RemoveSpec, ClearSpec, RegisterSpec, Solid, SolidBelow, FsTree.InPlace, FsTree.View, FsTree.Sound, Closed;
    t.Basics();
    if t.InPlace() {
      t.InPlaceClosed();
    }
    match e {
      case Add(p, a) => t.Put(p, a);
      case Register(p, a) => StepRegister(t, p, a);
      case Whiteout(target) => StepWhiteout(t, target);
      case Opaque(dir) => StepOpaque(t, dir);
    }
  }

  method StepRegister(t: FsTree, p: Path, a: Attr)
    requires t.Sound()
    modifies t`byPath, t`all, t.all`children, t.all`attr
    ensures t.Sound() && old(t.all) <= t.all && fresh(t.all - old(t.all)) && [] in old(t.View())
    ensures t.View() == RegisterSpec(old(t.View()), p, a) && ([] in t.byPath <==> [] in old(t.byPath))
    ensures old(t.InPlace()) ==> (t.InPlace() <==> p in old(t.View()) || Dir(p) in old(t.View()))
    ensures t.Homed(t.all - old(t.all)) <==> p in old(t.View()) || Dir(p) in old(t.View())
    ensures p in old(t.View()) ==> t.all == old(t.all) && t.byPath == old(t.byPath)
    ensures p !in old(t.View()) ==>
              && p in t.byPath && t.byPath == old(t.byPath)[p := t.byPath[p]] && t.all == old(t.all) + {t.byPath[p]}
              && t.byPath[p].parent == (if Dir(p) in old(t.byPath) then old(t.byPath)[Dir(p)] else t.root)
              && (t.byPath[p].parent.path == Dir(p) <==> Dir(p) in old(t.View()))
  {
    hide RegisterSpec, FsTree.InPlace, FsTree.View, FsTree.Sound;
    t.Basics();
    ghost var m, all := t.View(), t.all;
    t.Register(p, a);
    if p in m {
      t.NoneHomed(t.all - all);
    } else {
      t.Basics();
      assert p in t.View() && t.all - all == {t.byPath[p]};
    }
  }

  method StepWhiteout(t: FsTree, target: Path)
    requires t.Sound()
    modifies t`byPath, t.all`removed
    ensures t.Sound() && [] in old(t.View()) && (old(t.InPlace()) ==> Closed(old(t.View())))
    ensures old(t.InPlace()) ==>
              (t.InPlace() && StateOf(t) == Apply(old(StateOf(t)), Whiteout(target)) <==> Allowed(old(StateOf(t)), Whiteout(target)))
    ensures t.byPath == if target in old(t.byPath) then old(t.Without(t.TakenWith(t.byPath[target]))) else old(t.byPath)
    ensures forall q <- t.View() :: q in old(t.View()) && t.View()[q] == old(t.View())[q]
    ensures [] in t.byPath <==> target != [] && [] in old(t.byPath)
  {
    hide RemoveSpec, Solid, FsTree.InPlace, FsTree.View, FsTree.Sound, Closed;
    t.Basics();
    if t.InPlace() {
      t.InPlaceClosed();
      if target !in t.View() {
        Absent(t.View(), target);
      }
    }
    t.Remove(target);
    t.Basics();
  }

  method StepOpaque(t: FsTree, dir: Path)
    requires t.Sound()
    modifies t`byPath, t.all`removed
    ensures t.Sound() && [] in old(t.View()) && (old(t.InPlace()) ==> Closed(old(t.View())))
    ensures old(t.InPlace()) ==>
              (t.InPlace() && StateOf(t) == Apply(old(StateOf(t)), Opaque(dir)) <==> Allowed(old(StateOf(t)), Opaque(dir)))
    ensures t.byPath == if dir in old(t.byPath) then old(t.Without(t.TakenBelow(t.byPath[dir]))) else old(t.byPath)
    ensures forall q <- t.View() :: q in old(t.View()) && t.View()[q] == old(t.View())[q]
    ensures [] in t.byPath <==> [] in old(t.byPath)
  {
    hide ClearSpec, SolidBelow, FsTree.InPlace, FsTree.View, FsTree.Sound, Closed;
    t.Basics();
    if t.InPlace() {
      t.InPlaceClosed();
      if dir !in t.View() {
        Absent(t.View(), dir);
      }
    }
    t.RemoveChildren(dir);
    t.Basics();
  }

  ghost predicate AllAllowed(s: State, es: seq<Event>)
    requires Closed(s.view)
    decreases |es|
  {
    es == [] || (Allowed(s, es[0]) && (ApplyClosed(s, es[0]); AllAllowed(Apply(s, es[0]), es[1..])))
  }

  function ApplyAll(s: State, es: seq<Event>): State
    requires [] in s.view
    decreases |es|
  {
    if es == [] then s else ApplyAll(Apply(s, es[0]), es[1..])
  }

  /** Events that are allowed from s on and lead to goal. */
  ghost predicate Runs(s: State, es: seq<Event>, goal: State) {
    Closed(s.view) && AllAllowed(s, es) && ApplyAll(s, es) == goal
  }

  lemma RunsStart()
    ensures forall s: State, es: seq<Event> :: Closed(s.view) && AllAllowed(s, es) ==> Runs(s, es, ApplyAll(s, es))
  {
  }

  lemma RunsNext(s: State, es: seq<Event>, goal: State)
    requires Runs(s, es, goal) && es != []
    ensures Closed(s.view) && Allowed(s, es[0]) && Runs(Apply(s, es[0]), es[1..], goal)
  {
    hide Allowed, Apply;
    ApplyClosed(s, es[0]);
  }

  lemma RunsOut(s: State, goal: State)
    requires Runs(s, [], goal)
    ensures s == goal
  {
  }

  /** Any run of events keeps the tree sound; an allowed one leaves it standing for the map the events describe. */
  method Replay(t: FsTree, es: seq<Event>)
    requires t.Sound()
    modifies t`byPath, t`all, t.all`children, t.all`attr, t.all`removed
    ensures t.Sound() && [] in old(t.View()) && (old(t.InPlace()) ==> Closed(old(t.View())))
    ensures old(t.InPlace()) && AllAllowed(old(StateOf(t)), es) ==>
              t.InPlace() && StateOf(t) == ApplyAll(old(StateOf(t)), es)
  {
    hide Apply, Allowed, Closed, FsTree.InPlace, FsTree.View, Runs;
    t.Basics();
    RunsStart();
    ghost var s, ok := StateOf(t), t.InPlace();
    ghost var goal := ApplyAll(s, es);
    if ok {
      t.InPlaceClosed();
      ok := Runs(s, es, goal);
    }
    var i := 0;
    assert es[0..] == es;
    while i < |es|
      invariant i <= |es| && t.Sound()
      invariant old(t.all) <= t.all && fresh(t.all - old(t.all))
      invariant ok ==> t.InPlace() && Runs(StateOf(t), es[i..], goal)
    {
      assert es[i..][0] == es[i] && es[i..][1..] == es[i + 1..];
      if ok {
        RunsNext(StateOf(t), es[i..], goal);
      }
      Step(t, es[i]);
      t.Basics();
      i := i + 1;
    }
    assert es[i..] == [];
    if ok {
      RunsOut(StateOf(t), goal);
    }
  }

  // ---- Runs that keep directories above entries ----

  /** What a caller must check before each event to keep every entry below a directory. */
  ghost predicate Guarded(m: View, e: Event) {
    match e
    case Add(p, a) => PutGuard(m, p, a)
    case Register(p, a) => (p in m || (Dir(p) in m && DirAttr(m[Dir(p)]))) && (HasChild(m, p) ==> DirAttr(a))
    case Whiteout(_) => true
    case Opaque(_) => true
  }

  ghost predicate AllGuarded(s: State, es: seq<Event>)
    requires [] in s.view
    decreases |es|
  {
    es == [] || (Guarded(s.view, es[0]) && AllGuarded(Apply(s, es[0]), es[1..]))
  }

  lemma RegisterShaped(m: View, p: Path, a: Attr)
    requires Shaped(m) && (p in m || Dir(p) in m)
    ensures Shaped(RegisterSpec(m, p, a)) <==> Guarded(m, Register(p, a))
  {
    hide RegisterRoot;
    var r := RegisterSpec(m, p, a);
    assert DirAttr(RegisterRoot(m[[]], a)) == DirAttr(a) by {
      RootMode(m[[]], a);
    }
    assert p !in m ==> p != [] && Dir(p) != p;
    if HasChild(m, p) {
      var q :| q in m && q != [] && Dir(q) == p;
      assert Dir(q) != q && q in r;
    }
    if Shaped(r) && p !in m {
      assert p in r && Dir(p) in r;
    }
    if Guarded(m, Register(p, a)) {
      forall q <- r | q != []
        ensures Dir(q) in r && DirAttr(r[Dir(q)])
      {
        assert Dir(q) != q;
        if q in m && Dir(q) == p {
          assert HasChild(m, p);
        }
      }
    }
  }

  lemma RootMode(was: Attr, a: Attr)
    ensures DirAttr(RegisterRoot(was, a)) == DirAttr(a)
  {
  }

  lemma GuardedStep(s: State, e: Event)
    requires Shaped(s.view) && Guarded(s.view, e)
    ensures Closed(s.view) && Allowed(s, e) && Shaped(Apply(s, e).view)
  {
    hide PutGuard, PutSpec, RemoveSpec, ClearSpec, RegisterSpec, HasChild;
    match e
    case Add(p, a) => PutShaped(s.view, p, a);
    case Register(p, a) => RegisterShaped(s.view, p, a);
    case Whiteout(t) => RemoveShaped(s.view, t);
    case Opaque(d) => RemoveShaped(s.view, d);
  }

  /** A run of guarded events is allowed and ends with every entry below a directory. */
  lemma {:induction false} GuardedRun(s: State, es: seq<Event>)
    requires Shaped(s.view) && AllGuarded(s, es)
    ensures Closed(s.view) && AllAllowed(s, es) && Shaped(ApplyAll(s, es).view)
    decreases |es|
  {
    hide Guarded, Allowed, Apply, Shaped;
    assert Closed(s.view) && [] in s.view by {
      ShapedClosed(s.view);
    }
    if es != [] {
      GuardedStep(s, es[0]);
      GuardedRun(Apply(s, es[0]), es[1..]);
    }
  }

  lemma ShapedClosed(m: View)
    requires Shaped(m)
    ensures Closed(m)
  {
  }

  // ---- What sound trees in place are like ----

  /** e is on o's way up to the root. */
  ghost predicate Above(t: FsTree, e: FsEntry, o: FsEntry)
    reads t`all, t.all`parent
    decreases |o.path|
  {
    && o in t.all && o != t.root && o.parent in t.all && |o.parent.path| < |o.path|
    && (o.parent == e || Above(t, e, o.parent))
  }

  /** In a tree in place everything below a removed entry is removed, at any depth. */
  lemma {:induction false} RemovedDownwards(t: FsTree, e: FsEntry, o: FsEntry)
    requires t.Sound() && t.InPlace() && e.removed && e != t.root && Above(t, e, o)
    ensures o.removed
    decreases |o.path|
  {
    hide FsTree.KidsBack, FsTree.Placed, FsTree.Linked, FsTree.InPlace;
    if !o.removed {
      t.HomeOf(o);
      if o.parent != e {
        RemovedDownwards(t, e, o.parent);
      }
    }
  }

  /** After any allowed run on a new tree nothing outlives an entry above it. */
  method RunDownwards(es: seq<Event>) returns (t: FsTree)
    ensures fresh(t) && t.Sound()
    ensures var s := State(map[[] := IMPLICIT], true);
            Closed(s.view) && (AllAllowed(s, es) ==>
              t.InPlace() && forall e, o :: e in t.all && e.removed && e != t.root && Above(t, e, o) ==> o.removed)
  {
    hide AllAllowed, Above, FsTree.InPlace, FsTree.View;
    t := new FsTree();
    t.InPlaceClosed();
    Replay(t, es);
    if t.InPlace() {
      forall e, o | e in t.all && e.removed && e != t.root && Above(t, e, o)
        ensures o.removed
      {
        RemovedDownwards(t, e, o);
      }
    }
  }

  /** Live entries of one directory have distinct names. */
  lemma SiblingsDistinct(t: FsTree, a: FsEntry, b: FsEntry)
    requires t.Sound() && a in t.all && b in t.all && !a.removed && !b.removed && a != t.root && b != t.root
    requires a.parent == b.parent && a.parent != null && a.parent.path == Dir(a.path) == Dir(b.path) && a != b
    ensures a.path != [] && b.path != [] && a.path[|a.path| - 1] != b.path[|b.path| - 1]
  {
    assert t.Placed(a) && t.Placed(b);
    assert a.path == Dir(a.path) + [a.path[|a.path| - 1]];
    assert b.path == Dir(b.path) + [b.path[|b.path| - 1]];
  }

  /** Files must not have children: below a file, an entry outlives the file's whiteout. */
  method OrphanStays(dir: bytes, name: bytes, file: Attr) returns (t: FsTree)
    requires !DirAttr(file)
    ensures fresh(t) && t.Sound() && [dir] !in t.View() && [dir, name] in t.View() && !t.InPlace()
  {
    hide PutSpec, WithParents, Closed, Solid, FsTree.InPlace, FsTree.View, FsTree.Sound;
    t := new FsTree();
    PutTwo(dir, name, file);
    t.Put([dir], file);
    t.Put([dir, name], file);
    ghost var m := t.View();
    t.InPlaceClosed();
    t.Basics();
    OrphanMap(dir, name, file);
    t.Remove([dir]);
  }

  lemma PutTwo(dir: bytes, name: bytes, file: Attr)
    ensures Dir([dir, name]) == [dir] && [dir] != [dir, name] && [dir] != []
    ensures var m: View := map[[] := IMPLICIT];
            && PutSpec(m, [dir], file) == m[[dir] := file]
            && [] in m[[dir] := file]
            && PutSpec(m[[dir] := file], [dir, name], file) == m[[dir] := file][[dir, name] := file]
  {
    assert Dir([dir]) == [] && Dir([dir, name]) == [dir];
  }

  lemma OrphanMap(dir: bytes, name: bytes, file: Attr)
    requires !DirAttr(file)
    ensures var m: View := map[[] := IMPLICIT][[dir] := file][[dir, name] := file];
            && Closed(m) && !Solid(m, [dir]) && [dir] in m
            && [dir] !in TakeOut(m, [dir]) && [dir, name] in TakeOut(m, [dir])
  {
    var m: View := map[[] := IMPLICIT][[dir] := file][[dir, name] := file];
    assert Dir([dir]) == [] && Dir([dir, name]) == [dir];
    assert [dir, name] in m && [dir] < [dir, name];
  }
}
