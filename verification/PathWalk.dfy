/**
 What a path means, on lists of names: the names of a followed link's target are walked from the
 directory that holds the link, or from the root, and the names behind the link after them. The walk
 over path strings (erofs.go, resolve) does exactly that.
 */
module PathWalk {
  import opened Bytes
  import opened Format
  import opened Dirents
  import opened Resolve
  import MetaReader

  // ---- Names ----

  function NonEmpty(cs: seq<bytes>): seq<bytes> {
    if cs == [] then [] else (if cs[0] == [] then [] else [cs[0]]) + NonEmpty(cs[1..])
  }

  /** The names in a path string: what stands between slashes. */
  function Parts(p: bytes): seq<bytes> { NonEmpty(Split(p)) }

  function Parent(dir: seq<bytes>): seq<bytes> { if dir == [] then [] else dir[..|dir| - 1] }

  /** Where one name leads from a directory: "." stays, ".." goes to the parent, which the root is of itself. */
  function StayName(dir: seq<bytes>, c: bytes): seq<bytes> {
    if c == DOT then dir else if c == DOTDOT then Parent(dir) else dir + [c]
  }

  function Stay(dir: seq<bytes>, cs: seq<bytes>): seq<bytes>
    decreases |cs|
  {
    if cs == [] then dir else StayName(Stay(dir, cs[..|cs| - 1]), cs[|cs| - 1])
  }

  /** The same, but ".." above the root is kept, to be looked up there. */
  function KeepName(dir: seq<bytes>, c: bytes): seq<bytes> {
    if c == DOT then dir
    else if c == DOTDOT && dir != [] && dir[|dir| - 1] != DOTDOT then Parent(dir)
    else dir + [c]
  }

  function Keep(dir: seq<bytes>, cs: seq<bytes>): seq<bytes>
    decreases |cs|
  {
    if cs == [] then dir else KeepName(Keep(dir, cs[..|cs| - 1]), cs[|cs| - 1])
  }

  /** A link's target counts from the root if it is absolute, and if it is empty with names behind it. */
  predicate FromRoot(target: bytes, rest: seq<bytes>) {
    IsAbs(target) || (target == [] && rest != [])
  }

  /**
   The names to walk from the root after a link in directory `at`, with the names `rest` behind it.
   With `home`, ".." stays at the root; else a relative target read below the root keeps it.
   */
  function Onward(at: seq<bytes>, target: bytes, rest: seq<bytes>, home: bool): seq<bytes> {
    var names := Parts(target) + rest;
    if FromRoot(target, rest) then Stay([], names)
    else if home || at == [] then Stay(at, names)
    else Keep(at, names)
  }

  // ---- The walk on names ----

  function LastName(at: seq<bytes>): bytes { if at == [] then [] else at[|at| - 1] }

  /**
   From the entry nid of type t, which the names `at` lead to, along the names `todo`: a link on the way
   is followed, a link at the end if asked, at most 255 in all.
   */
  function Travel<N>(look: Look<N>, link: Link<N>, root: N, at: seq<bytes>, nid: N, t: FileMode, todo: seq<bytes>, links: nat,
                     follow: bool, home: bool): Result<Found<N>>
    requires links <= 255
    decreases 255 - links, |todo|
  {
    if todo == [] then Ok(Found(nid, t, LastName(at)))
    else if t != ModeDir then Err(NotDirectory)
    else
      match look(nid, todo[0])
      case Err(e) => Err(e)
      case Ok((n, k)) =>
        if k == ModeSymlink && (follow || |todo| > 1) then
          if links == 255 then Err(Loop)
          else
            match link(n)
            case Err(e) => Err(e)
            case Ok(target) => Travel(look, link, root, [], root, ModeDir, Onward(at, target, todo[1..], home), links + 1, follow, home)
        else Travel(look, link, root, at + [todo[0]], n, k, todo[1..], links, follow, home)
  }

  // ---- Cleaned lists ----

  /** Names that cleaning leaves: no empty one, no ".", and ".." in front only. */
  ghost predicate Tidy(cs: seq<bytes>) {
    && Plain(cs) && DOT !in cs
    && forall i :: 0 < i < |cs| && cs[i] == DOTDOT ==> cs[i - 1] == DOTDOT
  }

  lemma NonEmptyStep(cs: seq<bytes>)
    requires cs != []
    ensures cs[0] == [] ==> NonEmpty(cs) == NonEmpty(cs[1..])
    ensures cs[0] != [] ==> NonEmpty(cs) != [] && NonEmpty(cs)[0] == cs[0] && NonEmpty(cs)[1..] == NonEmpty(cs[1..])
  {
  }

  lemma {:induction false} NormalizeKeeps(cs: seq<bytes>, stack: seq<bytes>)
    ensures Normalize(cs, false, stack) == Keep(stack, NonEmpty(cs))
    decreases |cs|
  {
    if cs != [] {
      KeepFirst(stack, NonEmpty(cs));
      NonEmptyStep(cs);
      if cs[0] == [] {
        NormalizeKeeps(cs[1..], stack);
      } else {
        NormalizeKeeps(cs[1..], Keep(stack, [cs[0]]));
        KeepOne(stack, cs[0]);
      }
    }
  }

  lemma KeepOne(dir: seq<bytes>, c: bytes)
    ensures Keep(dir, [c]) == KeepName(dir, c)
  {
    var none: seq<bytes> := [c][..0];
    assert none == [];
  }

  lemma StayOne(dir: seq<bytes>, c: bytes)
    ensures Stay(dir, [c]) == StayName(dir, c)
  {
    var none: seq<bytes> := [c][..0];
    assert none == [];
  }

  lemma {:induction false} KeepBoth(dir: seq<bytes>, a: seq<bytes>, b: seq<bytes>)
    ensures Keep(dir, a + b) == Keep(Keep(dir, a), b)
    decreases |b|
  {
    if b == [] {
      assert a + b == a;
    } else {
      var n := |b| - 1;
      assert (a + b)[..|a + b| - 1] == a + b[..n];
      KeepBoth(dir, a, b[..n]);
    }
  }

  lemma {:induction false} StayBoth(dir: seq<bytes>, a: seq<bytes>, b: seq<bytes>)
    ensures Stay(dir, a + b) == Stay(Stay(dir, a), b)
    decreases |b|
  {
    if b == [] {
      assert a + b == a;
    } else {
      var n := |b| - 1;
      assert (a + b)[..|a + b| - 1] == a + b[..n];
      StayBoth(dir, a, b[..n]);
    }
  }

  lemma KeepFirst(dir: seq<bytes>, cs: seq<bytes>)
    ensures cs != [] ==> Keep(dir, cs) == Keep(Keep(dir, [cs[0]]), cs[1..])
  {
    if cs != [] {
      assert cs == [cs[0]] + cs[1..];
      KeepBoth(dir, [cs[0]], cs[1..]);
    }
  }

  lemma StayFirst(dir: seq<bytes>, cs: seq<bytes>)
    ensures cs != [] ==> Stay(dir, cs) == Stay(Stay(dir, [cs[0]]), cs[1..])
  {
    if cs != [] {
      assert cs == [cs[0]] + cs[1..];
      StayBoth(dir, [cs[0]], cs[1..]);
    }
  }

  /** Cleaning a rooted path never leaves a "..". */
  lemma {:induction false} NormalizeStays(cs: seq<bytes>, stack: seq<bytes>)
    requires DOTDOT !in stack
    ensures Normalize(cs, true, stack) == Stay(stack, NonEmpty(cs))
    decreases |cs|
  {
    if cs != [] {
      StayFirst(stack, NonEmpty(cs));
      NonEmptyStep(cs);
      if cs[0] == [] {
        NormalizeStays(cs[1..], stack);
      } else {
        StayOne(stack, cs[0]);
        NormalizeStays(cs[1..], Stay(stack, [cs[0]]));
      }
    }
  }

  lemma {:induction false} NonEmptyBoth(a: seq<bytes>, b: seq<bytes>)
    ensures NonEmpty(a + b) == NonEmpty(a) + NonEmpty(b)
  {
    if a == [] {
      assert a + b == b;
    } else {
      assert (a + b)[1..] == a[1..] + b;
      NonEmptyBoth(a[1..], b);
    }
  }

  lemma {:induction false} NonEmptyPlain(cs: seq<bytes>)
    requires Plain(cs)
    ensures NonEmpty(cs) == cs
  {
    if cs != [] {
      PlainTail(cs);
      assert cs[0] in cs;
      NonEmptyPlain(cs[1..]);
    }
  }

  lemma {:induction false} SplitBoth(a: bytes, b: bytes)
    ensures Split(a + [SLASH] + b) == Split(a) + Split(b)
    decreases |a|
  {
    hide Split, FirstSlash;
    var k := FirstSlash(a);
    if k == |a| {
      assert a[..k] == a;
      SplitFirst(a, b);
      SplitLast(a);
    } else {
      var head, tail := a[..k], a[k + 1..];
      assert a == head + [SLASH] + tail;
      assert a + [SLASH] + b == head + [SLASH] + (tail + [SLASH] + b);
      SplitFirst(head, tail + [SLASH] + b);
      SplitFirst(head, tail);
      SplitBoth(tail, b);
    }
  }

  lemma PartsBoth(a: bytes, b: bytes)
    ensures Parts(a + [SLASH] + b) == Parts(a) + Parts(b)
  {
    hide Split, NonEmpty;
    SplitBoth(a, b);
    NonEmptyBoth(Split(a), Split(b));
  }

  lemma PartsJoin(cs: seq<bytes>)
    requires Plain(cs)
    ensures Parts(Join(cs)) == cs
  {
    hide Split, Join;
    if cs == [] {
      JoinNone();
      assert Split([]) == [[]] && NonEmpty([[]]) == [] by {
        PartsNone();
      }
    } else {
      SplitJoin(cs);
      NonEmptyPlain(cs);
    }
  }

  lemma PartsNone()
    ensures Split([]) == [[]] && NonEmpty([[]]) == []
  {
    var one: seq<bytes> := [[]];
    assert one[1..] == [];
  }

  lemma {:induction false} NonEmptyFilters(cs: seq<bytes>)
    requires forall c <- cs :: SLASH !in c
    ensures Plain(NonEmpty(cs))
  {
    if cs != [] {
      assert cs[0] in cs;
      assert forall c <- cs[1..] :: c in cs;
      NonEmptyFilters(cs[1..]);
    }
  }

  lemma PartsPlain(p: bytes)
    ensures Plain(Parts(p))
  {
    hide Split;
    SplitFree(p);
    NonEmptyFilters(Split(p));
  }

  lemma {:induction false} KeepTidy(dir: seq<bytes>, cs: seq<bytes>)
    requires Tidy(dir) && Plain(cs)
    ensures Tidy(Keep(dir, cs))
    decreases |cs|
  {
    hide Tidy;
    if cs != [] {
      var n := |cs| - 1;
      assert cs[n] in cs;
      assert forall c <- cs[..n] :: c in cs;
      KeepTidy(dir, cs[..n]);
      var before := Keep(dir, cs[..n]);
      if cs[n] != DOT && (cs[n] == DOTDOT ==> before == [] || before[|before| - 1] == DOTDOT) {
        TidyMore(before, cs[n]);
      }
      if before != [] {
        TidyFront(before, |before| - 1);
      }
    }
  }

  lemma TidyMore(cs: seq<bytes>, c: bytes)
    requires Tidy(cs) && c != [] && SLASH !in c && c != DOT && (c == DOTDOT ==> cs == [] || cs[|cs| - 1] == DOTDOT)
    ensures Tidy(cs + [c])
  {
  }

  lemma {:induction false} StayTidy(dir: seq<bytes>, cs: seq<bytes>)
    requires Tidy(dir) && Plain(cs) && DOTDOT !in dir
    ensures Tidy(Stay(dir, cs)) && DOTDOT !in Stay(dir, cs)
    decreases |cs|
  {
    if cs != [] {
      var n := |cs| - 1;
      assert cs[n] in cs;
      assert forall c <- cs[..n] :: c in cs;
      StayTidy(dir, cs[..n]);
    }
  }

  lemma {:induction false} KeepAsIs(cs: seq<bytes>)
    requires Tidy(cs)
    ensures Keep([], cs) == cs
    decreases |cs|
  {
    if cs != [] {
      var n := |cs| - 1;
      TidyFront(cs, n);
      KeepAsIs(cs[..n]);
      assert cs == cs[..n] + [cs[n]];
    }
  }

  lemma TidyFront(cs: seq<bytes>, n: nat)
    requires Tidy(cs) && n <= |cs|
    ensures Tidy(cs[..n]) && Tidy(cs[n..])
  {
    assert forall c <- cs[..n] :: c in cs;
    assert forall c <- cs[n..] :: c in cs;
  }

  /** Cleaning a path and dropping its leading slash, in terms of its names. */
  lemma RelativeIs(p: bytes)
    ensures Relative(p) == Join(if IsAbs(p) then Stay([], Parts(p)) else Keep([], Parts(p)))
    ensures Tidy(if IsAbs(p) then Stay([], Parts(p)) else Keep([], Parts(p)))
  {
    hide Split, Join, Normalize, NonEmpty;
    PartsPlain(p);
    JoinNone();
    if IsAbs(p) {
      NormalizeStays(Split(p), []);
      StayTidy([], Parts(p));
      TidyJoin(Stay([], Parts(p)));
    } else {
      NormalizeKeeps(Split(p), []);
      KeepTidy([], Parts(p));
      TidyJoin(Keep([], Parts(p)));
    }
  }

  lemma TidyJoin(cs: seq<bytes>)
    requires Tidy(cs)
    ensures Join(cs) != DOT && (cs != [] ==> !IsAbs(Join(cs)) && Join(cs) != [])
  {
    hide Join, Split;
    JoinNone();
    DotComponents();
    JoinComponents(cs);
    if cs != [] {
      JoinStart(cs);
      NotEmptyName(cs);
      assert cs == [DOT] ==> DOT in cs;
    }
  }

  /** The string that the walk goes on with after a link carries exactly the names that the link means. */
  lemma RestartIs(at: seq<bytes>, target: bytes, rest: seq<bytes>)
    requires Tidy(at) && Plain(rest)
    ensures Tidy(Onward(at, target, rest, false))
    ensures Restart(target, Join(rest), Join(at)) == Join(Onward(at, target, rest, false))
  {
    hide Split, Join, NonEmpty, Relative, Stay, Keep, Tidy, Parts;
    JoinNone();
    var t := if rest != [] then target + [SLASH] + Join(rest) else target;
    NamesOf(target, rest);
    if rest != [] {
      NotEmptyName(rest);
    }
    assert IsAbs(t) <==> FromRoot(target, rest);
    var u := if IsAbs(t) then t else Join(at) + [SLASH] + t;
    RelativeIs(u);
    if !IsAbs(t) {
      PartsBoth(Join(at), t);
      AtParts(at, Parts(t));
    }
  }

  lemma NamesOf(target: bytes, rest: seq<bytes>)
    requires Plain(rest)
    ensures Parts(if rest != [] then target + [SLASH] + Join(rest) else target) == Parts(target) + rest
  {
    hide Parts, Join;
    PartsBoth(target, Join(rest));
    PartsJoin(rest);
  }

  lemma AtParts(at: seq<bytes>, names: seq<bytes>)
    requires Tidy(at)
    ensures Parts(Join(at)) == at && (at != [] ==> Join(at) != [] && !IsAbs(Join(at)))
    ensures Keep([], at + names) == Keep(at, names) && [] + names == names
  {
    hide Parts, Join, Keep;
    PartsJoin(at);
    TidyJoin(at);
    KeepAsIs(at);
    KeepBoth([], at, names);
  }

  /** The walk over strings is the walk over names: same answers, same errors. */
  lemma {:induction false} WalkIsTravel<N>(look: Look<N>, link: Link<N>, root: N, at: seq<bytes>, nid: N, t: FileMode, todo: seq<bytes>,
                                           basename: bytes, links: nat, follow: bool)
    requires links <= MAX_SYMLINKS && Tidy(at + todo) && (todo == [] ==> basename == LastName(at))
    ensures Walk(look, link, root, State(nid, t, Join(todo), Join(at), basename, links), follow)
         == Travel(look, link, root, at, nid, t, todo, links, follow, false)
    decreases MAX_SYMLINKS - links, |todo|
  {
    hide Join, Restart, Onward, Extend, Resolve.Head, Tail, Tidy, Split;
    JoinNone();
    if todo != [] {
      StepNames(at, todo);
      if t == ModeDir && look(nid, todo[0]).Ok? {
        var (n, k) := look(nid, todo[0]).value;
        if k == ModeSymlink && (follow || |todo| > 1) {
          if links < MAX_SYMLINKS && link(n).Ok? {
            RestartIs(at, link(n).value, todo[1..]);
            var next := Onward(at, link(n).value, todo[1..], false);
            assert [] + next == next;
            WalkIsTravel(look, link, root, [], root, ModeDir, next, Join(next), links + 1, follow);
          }
        } else {
          WalkIsTravel(look, link, root, at + [todo[0]], n, k, todo[1..], todo[0], links, follow);
        }
      }
    }
  }

  lemma StepNames(at: seq<bytes>, todo: seq<bytes>)
    requires Tidy(at + todo) && todo != []
    ensures Tidy(at) && Plain(todo[1..]) && Tidy(at + [todo[0]] + todo[1..])
    ensures Join(todo) != [] && Resolve.Head(Join(todo)) == todo[0] && Tail(Join(todo)) == Join(todo[1..])
    ensures Join(todo[1..]) != [] <==> |todo| > 1
    ensures Extend(Join(at), todo[0]) == Join(at + [todo[0]])
    ensures LastName(at + [todo[0]]) == todo[0]
  {
    hide Join, Resolve.Head, Tail, Split, Extend;
    JoinNone();
    TidyFront(at + todo, |at|);
    assert (at + todo)[..|at|] == at && (at + todo)[|at|..] == todo;
    assert at + [todo[0]] + todo[1..] == at + todo;
    SplitJoin(todo);
    PlainTail(todo);
    ExtendJoin(at, todo[0]);
    if |todo| > 1 {
      NotEmptyName(todo[1..]);
    }
  }

  /** What a walk starts with: the name's own names, ".." kept where it comes first. */
  lemma StartIs(name: bytes)
    requires !TwoSlashes(name)
    ensures StartName(name) == Join(Keep([], Parts(name))) && Tidy(Keep([], Parts(name)))
  {
    hide Clean, Split, Join, NonEmpty, Keep, Tidy;
    var n := if IsAbs(name) then name[1..] else name;
    RelativeIs(n);
    if IsAbs(name) {
      assert name == [] + [SLASH] + n;
      PartsBoth([], n);
      PartsNone();
      assert [] + Parts(n) == Parts(n);
    }
    CleanPlain(n);
  }

  predicate TwoSlashes(name: bytes) { |name| > 1 && name[0] == SLASH == name[1] }

  /** Resolving a name, from its first byte to the answer, in terms of names alone. */
  lemma ResolveIsTravel<N>(look: Look<N>, link: Link<N>, root: N, name: bytes, follow: bool)
    requires !TwoSlashes(name)
    ensures Walk(look, link, root, StartState(root, name), follow)
         == Travel(look, link, root, [], root, ModeDir, Keep([], Parts(name)), 0, follow, false)
  {
    hide Join, Keep, Parts, StartName, Tidy;
    StartIs(name);
    JoinNone();
    var todo := Keep([], Parts(name));
    assert [] + todo == todo;
    WalkIsTravel(look, link, root, [], root, ModeDir, todo, StartName(name), 0, follow);
  }

  /** A name with two leading slashes keeps one, and looks up an entry without a name. */
  lemma TwoSlashesFail<N>(look: Look<N>, link: Link<N>, root: N, name: bytes, follow: bool)
    requires TwoSlashes(name) && look(root, []).Err?
    ensures Walk(look, link, root, StartState(root, name), follow) == Err(look(root, []).error)
  {
    hide Clean, Split;
    CleanPlain(name[1..]);
    assert FirstSlash(StartName(name)) == 0;
  }

  // ---- Where the root is its own parent ----

  function Ups(k: nat): (r: seq<bytes>)
    ensures |r| == k && forall i :: 0 <= i < k ==> r[i] == DOTDOT
  {
    seq(k, _ => DOTDOT)
  }

  /** The same answer: entry and type, the same error; and the same last name, if the second has one. */
  ghost predicate SameAnswer<N>(a: Result<Found<N>>, b: Result<Found<N>>) {
    match b
    case Err(e) => a == Err(e)
    case Ok(f) => a.Ok? && a.value.nid == f.nid && a.value.ftype == f.ftype && (f.basename != [] ==> a.value.basename == f.basename)
  }

  lemma {:induction false} StayNoUps(dir: seq<bytes>, cs: seq<bytes>)
    requires DOTDOT !in dir
    ensures DOTDOT !in Stay(dir, cs)
    decreases |cs|
  {
    if cs != [] {
      StayNoUps(dir, cs[..|cs| - 1]);
    }
  }

  /** What is kept above the root stands in front. */
  lemma {:induction false} KeepIsStay(a: nat, dir: seq<bytes>, cs: seq<bytes>) returns (m: nat)
    requires DOTDOT !in dir
    ensures Keep(Ups(a) + dir, cs) == Ups(m) + Stay(dir, cs)
    decreases |cs|
  {
    if cs == [] {
      m := a;
    } else {
      hide KeepName, StayName, Ups;
      var n := |cs| - 1;
      var k := KeepIsStay(a, dir, cs[..n]);
      StayNoUps(dir, cs[..n]);
      m := KeepIsStayName(k, Stay(dir, cs[..n]), cs[n]);
    }
  }

  lemma KeepIsStayName(k: nat, before: seq<bytes>, c: bytes) returns (m: nat)
    requires DOTDOT !in before
    ensures KeepName(Ups(k) + before, c) == Ups(m) + StayName(before, c)
  {
    m := if c == DOTDOT && before == [] then k + 1 else k;
    if c == DOTDOT {
      if before == [] {
        assert Ups(k) + before == Ups(k) && Ups(k) + [DOTDOT] == Ups(k + 1);
      } else {
        assert (Ups(k) + before)[|Ups(k) + before| - 1] == before[|before| - 1];
        assert Parent(Ups(k) + before) == Ups(k) + Parent(before);
      }
    } else if c != DOT {
      assert Ups(k) + before + [c] == Ups(k) + (before + [c]);
    }
  }

  /** Names kept above the root lead back to the root, so walking them changes nothing. */
  lemma {:induction false} HomeAgrees<N>(look: Look<N>, link: Link<N>, root: N, a: nat, at: seq<bytes>, nid: N, t: FileMode, b: nat,
                                         todo: seq<bytes>, links: nat, follow: bool)
    requires look(root, DOTDOT) == Ok((root, ModeDir)) && links <= MAX_SYMLINKS && DOTDOT !in at && DOTDOT !in todo
    requires b > 0 ==> at == [] && nid == root && t == ModeDir
    ensures SameAnswer(Travel(look, link, root, Ups(a) + at, nid, t, Ups(b) + todo, links, follow, false),
                       Travel(look, link, root, at, nid, t, todo, links, follow, true))
    decreases MAX_SYMLINKS - links, b + |todo|
  {
    hide Onward, Parts, Stay, Keep, Ups;
    if b > 0 {
      UpFirst(a, b, todo);
      HomeAgrees(look, link, root, a + 1, [], root, ModeDir, b - 1, todo, links, follow);
    } else {
      assert Ups(0) + todo == todo;
      if todo != [] && t == ModeDir && look(nid, todo[0]).Ok? {
        var (n, k) := look(nid, todo[0]).value;
        if k == ModeSymlink && (follow || |todo| > 1) {
          if links < MAX_SYMLINKS && link(n).Ok? {
            var target := link(n).value;
            var m := OnwardHome(a, at, target, todo[1..]);
            HomeAgrees(look, link, root, 0, [], root, ModeDir, m, Onward(at, target, todo[1..], true), links + 1, follow);
            assert Ups(0) + [] == [];
          }
        } else {
          assert Ups(a) + at + [todo[0]] == Ups(a) + (at + [todo[0]]);
          HomeAgrees(look, link, root, a, at + [todo[0]], n, k, 0, todo[1..], links, follow);
          assert Ups(0) + todo[1..] == todo[1..];
        }
      }
    }
  }

  lemma UpFirst(a: nat, b: nat, todo: seq<bytes>)
    requires b > 0
    ensures (Ups(b) + todo)[0] == DOTDOT && (Ups(b) + todo)[1..] == Ups(b - 1) + todo
    ensures Ups(a) + [] + [DOTDOT] == Ups(a + 1) + []
  {
  }

  lemma OnwardHome(a: nat, at: seq<bytes>, target: bytes, rest: seq<bytes>) returns (m: nat)
    requires DOTDOT !in at
    ensures Onward(Ups(a) + at, target, rest, false) == Ups(m) + Onward(at, target, rest, true)
    ensures DOTDOT !in Onward(at, target, rest, true)
  {
    hide Parts, Stay, Keep;
    var names := Parts(target) + rest;
    StayNoUps([], names);
    StayNoUps(at, names);
    if FromRoot(target, rest) || Ups(a) + at == [] {
      m := 0;
      assert Ups(0) + Stay([], names) == Stay([], names);
      if !FromRoot(target, rest) {
        assert at == [];
      }
    } else {
      m := KeepIsStay(a, at, names);
    }
  }

  /**
   Resolving a name where the root is its own parent: the names are walked from the root, ".." taking
   one name off and staying at the root, and so are the names of every link's target, counted from the
   link's directory or from the root, with the names behind the link after them.
   */
  lemma ResolveMeans<N>(look: Look<N>, link: Link<N>, root: N, name: bytes, follow: bool)
    requires !TwoSlashes(name) && look(root, DOTDOT) == Ok((root, ModeDir))
    ensures SameAnswer(Walk(look, link, root, StartState(root, name), follow),
                       Travel(look, link, root, [], root, ModeDir, Stay([], Parts(name)), 0, follow, true))
  {
    hide Parts, Keep, Stay, Walk, Travel, SameAnswer;
    ResolveIsTravel(look, link, root, name, follow);
    assert Ups(0) + [] == [];
    var m := KeepIsStay(0, [], Parts(name));
    StayNoUps([], Parts(name));
    HomeAgrees(look, link, root, 0, [], root, ModeDir, m, Stay([], Parts(name)), 0, follow);
  }

  // ---- Paths in the queue of an image walk ----

  /** A directory's children are queued under their absolute paths: its names and then theirs. */
  lemma {:induction false} QueuedPaths(ds: seq<Dirent>, cs: seq<bytes>)
    requires Plain(cs) && forall d <- ds :: d.name != [] && SLASH !in d.name
    ensures var q := MetaReader.QueueOf(ds, [SLASH] + Join(cs));
            && |q| == |ds|
            && forall i :: 0 <= i < |ds| ==> q[i] == MetaReader.Queued(ds[i].nid, [SLASH] + Join(cs + [ds[i].name]))
  {
    hide Join;
    if ds != [] {
      JoinAppend(cs, ds[0].name);
      JoinNone();
      if cs != [] {
        NotEmptyName(cs);
        assert [SLASH] + Join(cs) != [SLASH];
        assert [SLASH] + Join(cs) + [SLASH] + ds[0].name == [SLASH] + (Join(cs) + [SLASH] + ds[0].name);
      } else {
        assert [SLASH] + Join(cs) == [SLASH];
      }
      QueuedPaths(ds[1..], cs);
    }
  }
}
