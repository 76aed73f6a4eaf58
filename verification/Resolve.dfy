/** Path resolution (erofs.go): lexical cleaning, component walk, symlinks with a budget of 255. */
module Resolve {
  import opened Bytes
  import opened Format
  import opened Dirents
  import opened Reader
  import opened DirReader

  const SLASH: byte := 47
  const MAX_SYMLINKS: nat := 255
  const MAX_SYMLINK_SIZE: nat := 4096
  const MAX_READ_FILE: nat := 0x800_0000

  // ---- Paths ----

  /** Position of the first slash, or the length. */
  function FirstSlash(p: bytes): (k: nat)
    ensures k <= |p| && SLASH !in p[..k]
    ensures k < |p| ==> p[k] == SLASH
  {
    if p == [] || p[0] == SLASH then 0
    else
      var k := FirstSlash(p[1..]);
      assert p[..k + 1] == [p[0]] + p[1..][..k];
      k + 1
  }

  /** First component and what follows its slash. */
  function Head(p: bytes): bytes { p[..FirstSlash(p)] }

  function Tail(p: bytes): (r: bytes)
    ensures p != [] ==> |r| < |p|
  {
    if FirstSlash(p) < |p| then p[FirstSlash(p) + 1..] else []
  }

  function Split(p: bytes): (r: seq<bytes>)
    ensures r != []
    decreases |p|
  {
    if FirstSlash(p) < |p| then [Head(p)] + Split(Tail(p)) else [p]
  }

  function Join(cs: seq<bytes>): bytes {
    if cs == [] then [] else if |cs| == 1 then cs[0] else cs[0] + [SLASH] + Join(cs[1..])
  }

  predicate IsAbs(p: bytes) { p != [] && p[0] == SLASH }

  /** The component stack of path.Clean. */
  function Normalize(cs: seq<bytes>, rooted: bool, stack: seq<bytes>): seq<bytes>
    decreases |cs|
  {
    if cs == [] then stack
    else if cs[0] == [] || cs[0] == DOT then Normalize(cs[1..], rooted, stack)
    else if cs[0] == DOTDOT then
      if stack != [] && stack[|stack| - 1] != DOTDOT then Normalize(cs[1..], rooted, stack[..|stack| - 1])
      else if rooted then Normalize(cs[1..], rooted, stack)
      else Normalize(cs[1..], rooted, stack + [DOTDOT])
    else Normalize(cs[1..], rooted, stack + [cs[0]])
  }

  /** path.Clean */
  function Clean(p: bytes): bytes {
    var cs := Normalize(Split(p), IsAbs(p), []);
    if IsAbs(p) then [SLASH] + Join(cs)
    else if cs == [] then DOT
    else Join(cs)
  }

  /** A cleaned path without its leading slash; empty for the root. */
  function Relative(p: bytes): bytes {
    var c := Clean(p);
    var r := if IsAbs(c) then c[1..] else c;
    if r == DOT then [] else r
  }

  /** What a walk starts from: one leading slash dropped, then cleaned. */
  function StartName(name: bytes): bytes {
    var c := Clean(if IsAbs(name) then name[1..] else name);
    if c == DOT then [] else c
  }

  /** The path to continue with after a symlink met in directory curPath. */
  function Restart(target: bytes, rest: bytes, curPath: bytes): bytes {
    var t := if rest != [] then target + [SLASH] + rest else target;
    Relative(if IsAbs(t) then t else curPath + [SLASH] + t)
  }

  function Extend(curPath: bytes, base: bytes): bytes {
    if curPath == [] then base else curPath + [SLASH] + base
  }

  // ---- The walk ----

  /** Lookup of a name in a directory, and a symlink's target, over any kind of inode reference. */
  type Look<!N> = (N, bytes) -> Result<(N, FileMode)>
  type Link<!N> = N -> Result<bytes>

  datatype State<N> = State(nid: N, ftype: FileMode, name: bytes, curPath: bytes, basename: bytes, links: nat)

  datatype Found<N> = Found(nid: N, ftype: FileMode, basename: bytes)

  /** The loop of resolve, over any lookup and symlink reader. */
  function Walk<N>(look: Look<N>, link: Link<N>, root: N, s: State<N>, follow: bool): Result<Found<N>>
    requires s.links <= MAX_SYMLINKS
    decreases MAX_SYMLINKS - s.links, |s.name|
  {
    if s.name == [] then Ok(Found(s.nid, s.ftype, s.basename))
    else if s.ftype != ModeDir then Err(NotDirectory)
    else
      var base, rest := Head(s.name), Tail(s.name);
      match look(s.nid, base)
      case Err(e) => Err(e)
      case Ok((n, t)) =>
        if t == ModeSymlink && (follow || rest != []) then
          if s.links + 1 > MAX_SYMLINKS then Err(Loop)
          else
            match link(n)
            case Err(e) => Err(e)
            case Ok(target) =>
              var next := Restart(target, rest, s.curPath);
              Walk(look, link, root, State(root, ModeDir, next, [], next, s.links + 1), follow)
        else Walk(look, link, root, State(n, t, rest, Extend(s.curPath, base), base, s.links), follow)
  }

  function StartState<N>(root: N, name: bytes): State<N> {
    State(root, ModeDir, StartName(name), [], StartName(name), 0)
  }

  /** readLink */
  function LinkTarget(img: Image, nid: u64): Result<bytes>
    requires BlockSize(img.bs)
  {
    match ReadInfo(img, nid)
    case Err(e) => Err(e)
    case Ok(ino) => if ino.size < 0 || ino.size > MAX_SYMLINK_SIZE then Err(Invalid) else ReadWhole(img, ino)
  }

  method ReadLink(img: Image, nid: u64) returns (r: Result<bytes>)
    requires BlockSize(img.bs)
    ensures r == LinkTarget(img, nid)
  {
    hide ReadInfo, ReadWhole;
    var info := ReadInfo(img, nid);
    if info.Err? {
      return Err(info.error);
    }
    if info.value.size < 0 || info.value.size > MAX_SYMLINK_SIZE {
      return Err(Invalid);
    }
    r := ReadAll(img, nid, info.value);
  }

  function ImageLook(img: Image): Look<u64>
    requires BlockSize(img.bs)
  {
    (nid: u64, name: bytes) => LookupSpec(img, nid, name)
  }

  function ImageLink(img: Image): Link<u64>
    requires BlockSize(img.bs)
  {
    (nid: u64) => LinkTarget(img, nid)
  }

  /** resolve: nid, type and base name (the name as given when the walk ends at the root). */
  function ResolveSpec(img: Image, name: bytes, follow: bool): Result<Found<u64>>
    requires BlockSize(img.bs)
  {
    match Walk<u64>(ImageLook(img), ImageLink(img), img.rootNid, StartState<u64>(img.rootNid, name), follow)
    case Err(e) => Err(e)
    case Ok(f) => Ok(f.(basename := if f.basename == [] then name else f.basename))
  }

  /** ReadFile: the bytes of the file a path leads to, links followed. */
  function FileBytes(img: Image, name: bytes): Result<bytes>
    requires BlockSize(img.bs)
  {
    match ResolveSpec(img, name, true)
    case Err(e) => Err(e)
    case Ok(f) =>
      if f.ftype == ModeDir then Err(IsDirectory)
      else
        match ReadInfo(img, f.nid)
        case Err(e) => Err(e)
        case Ok(ino) => if ino.size < 0 || ino.size > MAX_READ_FILE then Err(Invalid) else ReadWhole(img, ino)
  }

  method ReadFile(img: Image, name: bytes) returns (r: Result<bytes>)
    requires BlockSize(img.bs)
    ensures r == FileBytes(img, name)
  {
    hide ReadInfo, ReadWhole, ResolveSpec;
    var found := Resolve(img, name, true);
    if found.Err? {
      return Err(found.error);
    }
    if found.value.ftype == ModeDir {
      return Err(IsDirectory);
    }
    var info := ReadInfo(img, found.value.nid);
    if info.Err? {
      return Err(info.error);
    }
    if info.value.size < 0 || info.value.size > MAX_READ_FILE {
      return Err(Invalid);
    }
    r := ReadAll(img, found.value.nid, info.value);
  }

  method Resolve(img: Image, name: bytes, follow: bool) returns (r: Result<Found<u64>>)
    requires BlockSize(img.bs)
    ensures r == ResolveSpec(img, name, follow)
  {
    hide LookupSpec, LinkTarget, Restart, Extend, StartName, BlockSize, FirstSlash;
    ghost var look, link := ImageLook(img), ImageLink(img);
    var nid: u64, ftype := img.rootNid, ModeDir;
    var rest, curPath: bytes := StartName(name), [];
    var basename, links := rest, 0;
    while rest != []
      invariant links <= MAX_SYMLINKS
      invariant Walk<u64>(look, link, img.rootNid, State(nid, ftype, rest, curPath, basename, links), follow)
             == Walk<u64>(look, link, img.rootNid, StartState<u64>(img.rootNid, name), follow)
      decreases MAX_SYMLINKS - links, |rest|
    {
      var sep := FindSlash(rest);
      basename := rest[..sep];
      var after := if sep < |rest| then rest[sep + 1..] else [];
      assert basename == Head(rest) && after == Tail(rest);
      if ftype != ModeDir {
        return Err(NotDirectory);
      }
      var found := Lookup(img, nid, basename);
      assert found == look(nid, basename);
      if found.Err? {
        return Err(found.error);
      }
      var (n, t) := found.value;
      if t == ModeSymlink && (follow || after != []) {
        if links + 1 > MAX_SYMLINKS {
          return Err(Loop);
        }
        var target := ReadLink(img, n);
        assert target == link(n);
        if target.Err? {
          return Err(target.error);
        }
        rest := Restart(target.value, after, curPath);
        nid, ftype, curPath, basename, links := img.rootNid, ModeDir, [], rest, links + 1;
      } else {
        nid, ftype, curPath, rest := n, t, Extend(curPath, basename), after;
      }
    }
    return Ok(Found(nid, ftype, if basename == [] then name else basename));
  }

  /** The separator scan of resolve. */
  method FindSlash(p: bytes) returns (sep: nat)
    ensures sep == FirstSlash(p)
  {
    sep := 0;
    while sep < |p| && p[sep] != SLASH
      invariant sep <= |p|
      invariant FirstSlash(p) == sep + FirstSlash(p[sep..])
    {
      assert p[sep..][1..] == p[sep + 1..];
      sep := sep + 1;
    }
  }

  // ---- What the walk keeps ----

  /** Plain lookups, one component after the other, no symlink followed. */
  function Fold<N>(look: Look<N>, nid: N, cs: seq<bytes>): Result<(N, FileMode)>
    decreases |cs|
  {
    if cs == [] then Ok((nid, ModeDir))
    else
      match look(nid, cs[0])
      case Err(e) => Err(e)
      case Ok((n, t)) =>
        if |cs| == 1 then Ok((n, t))
        else if t != ModeDir then Err(NotDirectory)
        else Fold(look, n, cs[1..])
  }

  lemma {:induction false} FoldAppend<N>(look: Look<N>, nid: N, cs: seq<bytes>, c: bytes)
    requires Fold(look, nid, cs).Ok? && Fold(look, nid, cs).value.1 == ModeDir
    ensures Fold(look, nid, cs + [c]) == look(Fold(look, nid, cs).value.0, c)
    decreases |cs|
  {
    if cs != [] {
      assert (cs + [c])[1..] == cs[1..] + [c];
      if |cs| > 1 {
        var n := look(nid, cs[0]).value.0;
        FoldAppend(look, n, cs[1..], c);
      } else {
        assert cs[1..] == [];
        assert (cs + [c])[1..] == [c];
      }
    }
  }

  /** Components that a path string can carry. */
  ghost predicate Plain(cs: seq<bytes>) {
    forall c <- cs :: c != [] && SLASH !in c
  }

  lemma {:induction false} SplitJoin(cs: seq<bytes>)
    requires Plain(cs) && cs != []
    ensures Split(Join(cs)) == cs
    ensures Join(cs) != [] && Head(Join(cs)) == cs[0] && Tail(Join(cs)) == Join(cs[1..])
  {
    hide Split, Head, Tail;
    assert cs[0] in cs;
    if |cs| == 1 {
      SplitLast(cs[0]);
    } else {
      assert forall c <- cs[1..] :: c in cs;
      SplitJoin(cs[1..]);
      SplitFirst(cs[0], Join(cs[1..]));
    }
  }

  lemma SplitLast(c: bytes)
    requires SLASH !in c
    ensures Split(c) == [c] && Head(c) == c && Tail(c) == []
  {
    SlashFree(c, []);
    assert c + [] == c;
  }

  lemma SplitFirst(c: bytes, rest: bytes)
    requires SLASH !in c
    ensures var p := c + [SLASH] + rest; Split(p) == [c] + Split(rest) && Head(p) == c && Tail(p) == rest
  {
    hide FirstSlash;
    assert c + [SLASH] + rest == c + ([SLASH] + rest);
    SlashFree(c, [SLASH] + rest);
  }

  lemma {:induction false} SlashFree(c: bytes, rest: bytes)
    requires SLASH !in c && (rest == [] || rest[0] == SLASH)
    ensures FirstSlash(c + rest) == |c|
  {
    if c == [] {
      assert c + rest == rest;
    } else {
      assert c[0] in c;
      assert forall x :: x in c[1..] ==> x in c;
      assert (c + rest)[1..] == c[1..] + rest;
      SlashFree(c[1..], rest);
    }
  }

  lemma {:induction false} JoinAppend(cs: seq<bytes>, c: bytes)
    ensures Join(cs + [c]) == if cs == [] then c else Join(cs) + [SLASH] + c
  {
    if cs == [] {
      assert cs + [c] == [c];
    } else if |cs| == 1 {
      assert (cs + [c])[1..] == [c];
    } else {
      assert (cs + [c])[1..] == cs[1..] + [c];
      JoinAppend(cs[1..], c);
      assert cs[0] + [SLASH] + (Join(cs[1..]) + [SLASH] + c) == cs[0] + [SLASH] + Join(cs[1..]) + [SLASH] + c;
    }
  }

  /** Components still to walk, none when the name is used up. */
  function Components(name: bytes): seq<bytes> {
    if name == [] then [] else Split(name)
  }

  /** The state of a walk is consistent: curPath leads, by plain lookups, to the current nid. */
  ghost predicate Consistent<N>(look: Look<N>, root: N, s: State<N>) {
    && Plain(Components(s.name)) && Plain(Components(s.curPath))
    && Fold(look, root, Components(s.curPath)) == Ok((s.nid, s.ftype))
  }

  lemma {:induction false} SplitFree(p: bytes)
    ensures Join(Split(p)) == p
    ensures forall c <- Split(p) :: SLASH !in c
    decreases |p|
  {
    if FirstSlash(p) < |p| {
      SplitFree(Tail(p));
      assert p == Head(p) + [SLASH] + Tail(p);
    }
  }

  lemma {:induction false} NormalizePlain(cs: seq<bytes>, rooted: bool, stack: seq<bytes>)
    requires Plain(stack) && forall c <- cs :: SLASH !in c
    ensures Plain(Normalize(cs, rooted, stack))
    decreases |cs|
  {
    if cs != [] {
      assert cs[0] in cs;
      forall c <- cs[1..]
        ensures SLASH !in c
      {
        assert c in cs;
      }
      if cs[0] == [] || cs[0] == DOT {
        NormalizePlain(cs[1..], rooted, stack);
      } else if cs[0] == DOTDOT {
        if stack != [] && stack[|stack| - 1] != DOTDOT {
          NormalizePlain(cs[1..], rooted, stack[..|stack| - 1]);
        } else if rooted {
          NormalizePlain(cs[1..], rooted, stack);
        } else {
          NormalizePlain(cs[1..], rooted, stack + [DOTDOT]);
        }
      } else {
        NormalizePlain(cs[1..], rooted, stack + [cs[0]]);
      }
    }
  }

  lemma JoinComponents(cs: seq<bytes>)
    requires Plain(cs)
    ensures Components(Join(cs)) == cs
  {
    if cs != [] {
      SplitJoin(cs);
    }
  }

  /** A cleaned path is absolute or relative with plain components only. */
  lemma CleanPlain(p: bytes)
    ensures var c := Clean(p);
            if IsAbs(p) then IsAbs(c) && Plain(Components(c[1..]))
            else !IsAbs(c) && c != [] && Plain(Components(c))
  {
    hide Normalize, Split, Join, Components;
    SplitFree(p);
    var cs := Normalize(Split(p), IsAbs(p), []);
    NormalizePlain(Split(p), IsAbs(p), []);
    JoinComponents(cs);
    DotComponents();
    if cs != [] {
      SplitJoin(cs);
      JoinStart(cs);
    }
  }

  lemma DotComponents()
    ensures Components(DOT) == [DOT] && Plain([DOT]) && Components([]) == []
  {
    SlashFree(DOT, []);
    assert DOT + [] == DOT;
  }

  lemma JoinStart(cs: seq<bytes>)
    requires Plain(cs) && cs != []
    ensures !IsAbs(Join(cs))
  {
    assert cs[0] in cs;
    assert cs[0][0] in cs[0];
  }

  lemma RelativePlain(p: bytes)
    ensures Plain(Components(Relative(p)))
  {
    hide Clean, Components;
    CleanPlain(p);
    DotComponents();
  }

  lemma StartPlain(name: bytes)
    ensures StartName(name) != [] && IsAbs(StartName(name)) ==> Plain(Components(StartName(name)[1..]))
    ensures !IsAbs(StartName(name)) ==> Plain(Components(StartName(name)))
  {
    hide Clean, Components;
    CleanPlain(if IsAbs(name) then name[1..] else name);
    DotComponents();
  }

  /** One step of the walk keeps the state consistent. */
  lemma StepConsistent<N>(look: Look<N>, root: N, s: State<N>)
    requires Consistent(look, root, s) && s.name != [] && s.ftype == ModeDir
    requires look(s.nid, Head(s.name)).Ok?
    ensures var (n, t) := look(s.nid, Head(s.name)).value;
            Consistent(look, root, State(n, t, Tail(s.name), Extend(s.curPath, Head(s.name)), Head(s.name), s.links))
  {
    hide Split, Join, Fold;
    var cs := Components(s.curPath);
    var base := Head(s.name);
    SplitStep(s.name);
    assert base in Components(s.name);
    FoldAppend(look, root, cs, base);
    ExtendComponents(s.curPath, base);
    assert Plain(cs + [base]);
    var (n, t) := look(s.nid, base).value;
    assert look(s.nid, base) == Ok((n, t));
    assert Fold(look, root, cs + [base]) == Ok((n, t));
    assert Plain(Components(Extend(s.curPath, base)));
  }

  /** A trailing slash would leave an empty component. */
  lemma TailNotEmpty(name: bytes)
    ensures FirstSlash(name) < |name| && Tail(name) == [] ==> [] in Split(name)
  {
    assert Split([]) == [[]];
    assert FirstSlash(name) < |name| ==> Split(name)[1] == Split(Tail(name))[0];
  }

  lemma SplitStep(name: bytes)
    requires name != [] && Plain(Components(name))
    ensures Components(name) == [Head(name)] + Components(Tail(name))
    ensures Plain(Components(Tail(name)))
  {
    if FirstSlash(name) < |name| {
      assert Split(name) == [Head(name)] + Split(Tail(name));
      TailNotEmpty(name);
      forall c <- Split(Tail(name))
        ensures c in Components(name)
      {
      }
    } else {
      assert Head(name) == name;
    }
  }

  lemma ExtendComponents(curPath: bytes, base: bytes)
    requires Plain(Components(curPath)) && base != [] && SLASH !in base
    ensures Components(Extend(curPath, base)) == Components(curPath) + [base]
  {
    var cs := Components(curPath);
    SplitFree(curPath);
    JoinAppend(cs, base);
    assert Plain(cs + [base]);
    JoinComponents(cs + [base]);
  }

  /** A walk's answer, when it has one, is reached by plain lookups along some plain path. */
  lemma {:induction false} WalkReaches<N>(look: Look<N>, link: Link<N>, root: N, s: State<N>, follow: bool) returns (cs: seq<bytes>)
    requires s.links <= MAX_SYMLINKS && Consistent(look, root, s)
    ensures Plain(cs)
    ensures var r := Walk(look, link, root, s, follow);
            r.Ok? ==> Fold(look, root, cs) == Ok((r.value.nid, r.value.ftype))
    decreases MAX_SYMLINKS - s.links, |s.name|
  {
    hide Fold, Split, Restart, Extend, FirstSlash;
    cs := Components(s.curPath);
    if s.name != [] && s.ftype == ModeDir {
      var base, rest := Head(s.name), Tail(s.name);
      match look(s.nid, base)
      case Err(_) =>
      case Ok((n, t)) =>
        if t == ModeSymlink && (follow || rest != []) {
          if s.links + 1 <= MAX_SYMLINKS && link(n).Ok? {
            var next := Restart(link(n).value, rest, s.curPath);
            RestartConsistent(look, root, link(n).value, rest, s.curPath, s.links + 1);
            cs := WalkReaches(look, link, root, State(root, ModeDir, next, [], next, s.links + 1), follow);
          }
        } else {
          StepConsistent(look, root, s);
          cs := WalkReaches(look, link, root, State(n, t, rest, Extend(s.curPath, base), base, s.links), follow);
        }
    }
  }

  /**
   The same for any name given to resolve: an answer is an entry that plain lookups from the root lead
   to, provided that no directory has an entry without a name. (A name that starts with two slashes is
   cleaned to one slash, and its first component is then empty.)
   */
  lemma ResolveReaches<N>(look: Look<N>, link: Link<N>, root: N, name: bytes, follow: bool) returns (cs: seq<bytes>)
    requires look(root, []).Err?
    ensures Plain(cs)
    ensures var r := Walk(look, link, root, StartState(root, name), follow);
            r.Ok? ==> Fold(look, root, cs) == Ok((r.value.nid, r.value.ftype))
  {
    hide Split, StartName, Restart, Extend;
    StartPlain(name);
    DotComponents();
    if IsAbs(StartName(name)) {
      cs := [];
      assert FirstSlash(StartName(name)) == 0;
    } else {
      assert Consistent(look, root, StartState(root, name));
      cs := WalkReaches(look, link, root, StartState(root, name), follow);
    }
  }

  lemma RestartConsistent<N>(look: Look<N>, root: N, target: bytes, rest: bytes, curPath: bytes, links: nat)
    ensures var next := Restart(target, rest, curPath);
            Consistent(look, root, State(root, ModeDir, next, [], next, links))
  {
    hide Relative, Split;
    var t := if rest != [] then target + [SLASH] + rest else target;
    RelativePlain(if IsAbs(t) then t else curPath + [SLASH] + t);
    assert Components([]) == [];
  }

  /** Without symlinks on the way, the walk is a fold of lookups. */
  ghost predicate NoLinks<N>(look: Look<N>, nid: N, cs: seq<bytes>, follow: bool)
    decreases |cs|
  {
    cs == [] ||
    (look(nid, cs[0]).Ok? ==>
       && (look(nid, cs[0]).value.1 == ModeSymlink ==> |cs| == 1 && !follow)
       && (look(nid, cs[0]).value.1 == ModeDir ==> NoLinks(look, look(nid, cs[0]).value.0, cs[1..], follow)))
  }

  lemma {:induction false} WalkIsFold<N>(look: Look<N>, link: Link<N>, root: N, s: State<N>, cs: seq<bytes>, follow: bool)
    requires s.links <= MAX_SYMLINKS && Plain(cs) && s.name == Join(cs) && s.ftype == ModeDir
    requires NoLinks(look, s.nid, cs, follow)
    ensures var r := Walk(look, link, root, s, follow);
            match Fold(look, s.nid, cs)
            case Err(e) => r == Err(e)
            case Ok((n, t)) => r == Ok(Found(n, t, if cs == [] then s.basename else cs[|cs| - 1]))
    decreases |cs|
  {
    hide Head, Tail, Join, Restart, Extend, Split, Plain;
    JoinNone();
    if cs != [] {
      SplitJoin(cs);
      PlainTail(cs);
      match look(s.nid, cs[0])
      case Err(_) =>
      case Ok((n, t)) =>
        var s' := State(n, t, Join(cs[1..]), Extend(s.curPath, cs[0]), cs[0], s.links);
        if |cs| > 1 {
          SplitJoin(cs[1..]);
          if t == ModeDir {
            WalkIsFold(look, link, root, s', cs[1..], follow);
          }
        } else {
          assert cs[1..] == [];
        }
    }
  }

  /** Past a path that leads to a directory, a fold goes on from there. */
  lemma {:induction false} FoldBeyond<N>(look: Look<N>, nid: N, cs: seq<bytes>, ds: seq<bytes>, follow: bool)
    requires Fold(look, nid, cs).Ok? && Fold(look, nid, cs).value.1 == ModeDir && ds != []
    ensures Fold(look, nid, cs + ds) == Fold(look, Fold(look, nid, cs).value.0, ds)
    ensures NoLinks(look, Fold(look, nid, cs).value.0, ds, follow) ==> NoLinks(look, nid, cs + ds, follow)
    decreases |cs|
  {
    if cs == [] {
      assert cs + ds == ds;
    } else {
      assert (cs + ds)[0] == cs[0] && (cs + ds)[1..] == cs[1..] + ds;
      FoldBeyond(look, look(nid, cs[0]).value.0, cs[1..], ds, follow);
    }
  }

  /** Past a path that leads to a directory, a walk goes on from there. */
  lemma {:induction false} WalkBeyond<N>(look: Look<N>, link: Link<N>, root: N, nid: N, done: seq<bytes>, cs: seq<bytes>, ds: seq<bytes>,
                                         first: bytes, last: bytes, links: nat, follow: bool)
    requires links <= MAX_SYMLINKS && Plain(done) && Plain(cs + ds) && ds != []
    requires Fold(look, nid, cs).Ok? && Fold(look, nid, cs).value.1 == ModeDir
    ensures Walk(look, link, root, State(nid, ModeDir, Join(cs + ds), Join(done), first, links), follow)
         == Walk(look, link, root, State(Fold(look, nid, cs).value.0, ModeDir, Join(ds), Join(done + cs), last, links), follow)
    decreases |cs|
  {
    hide Head, Tail, Join, Restart, Split, Plain;
    if cs == [] {
      assert cs + ds == ds && done + cs == done;
      NotEmptyName(ds);
    } else {
      assert (cs + ds)[0] == cs[0] && (cs + ds)[1..] == cs[1..] + ds;
      assert done + cs == done + [cs[0]] + cs[1..];
      SplitJoin(cs + ds);
      PlainTail(cs + ds);
      NotEmptyName(cs[1..] + ds);
      PlainMore(done, cs + ds);
      ExtendJoin(done, cs[0]);
      WalkBeyond(look, link, root, look(nid, cs[0]).value.0, done + [cs[0]], cs[1..], ds, cs[0], last, links, follow);
    }
  }

  lemma NotEmptyName(cs: seq<bytes>)
    requires Plain(cs) && cs != []
    ensures Join(cs) != []
  {
    SplitJoin(cs);
  }

  lemma PlainMore(done: seq<bytes>, cs: seq<bytes>)
    requires Plain(done) && Plain(cs) && cs != []
    ensures Plain(done + [cs[0]])
  {
    assert cs[0] in cs;
  }

  lemma ExtendJoin(done: seq<bytes>, c: bytes)
    requires Plain(done)
    ensures Extend(Join(done), c) == Join(done + [c])
  {
    JoinAppend(done, c);
    if done != [] {
      NotEmptyName(done);
    } else {
      JoinNone();
    }
  }

  /** The state after following a link. */
  function Jump<N>(root: N, next: bytes, links: nat): State<N> {
    State(root, ModeDir, next, [], next, links)
  }

  /** One name further, at something that is not a directory. */
  lemma OneMoreStep<N>(look: Look<N>, link: Link<N>, root: N, nid: N, n: N, t: FileMode, x: bytes, rest: seq<bytes>, curPath: bytes,
                       basename: bytes, follow: bool)
    requires Plain([x] + rest) && rest != [] && look(nid, x) == Ok((n, t)) && t != ModeDir
    ensures Walk(look, link, root, State(nid, ModeDir, Join([x] + rest), curPath, basename, 0), follow) ==
              if t != ModeSymlink then Err(NotDirectory)
              else if link(n).Err? then Err(link(n).error)
              else Walk(look, link, root, Jump(root, Restart(link(n).value, Join(rest), curPath), 1), follow)
  {
    hide Head, Tail, Join, Restart, Split, Plain, Extend;
    SplitJoin([x] + rest);
    assert ([x] + rest)[1..] == rest;
    PlainTail([x] + rest);
    NotEmptyName(rest);
  }

  lemma JoinNone()
    ensures Join([]) == []
  {
  }

  lemma PlainTail(cs: seq<bytes>)
    requires Plain(cs) && cs != []
    ensures Plain(cs[1..])
  {
    assert forall c <- cs[1..] :: c in cs;
  }

  // ---- Two readers that agree resolve alike ----

  /**
   Reader 1 over N mirrors reader 2 over M: seen through f, their lookups agree in every directory
   that can be reached, and so do the targets of the links found there.
   */
  ghost predicate Mirrors<N(!new), M(!new)>(look1: Look<N>, link1: Link<N>, look2: Look<M>, link2: Link<M>, f: M -> N, dirs: iset<M>) {
    && (forall d, name :: d in dirs ==> look1(f(d), name) == Through(look2(d, name), f))
    && (forall d, name :: d in dirs && look2(d, name).Ok? && look2(d, name).value.1 == ModeDir ==> look2(d, name).value.0 in dirs)
    && (forall d, name :: d in dirs && look2(d, name).Ok? && look2(d, name).value.1 == ModeSymlink ==>
          link1(f(look2(d, name).value.0)) == link2(look2(d, name).value.0))
  }

  function Through<N, M>(r: Result<(M, FileMode)>, f: M -> N): Result<(N, FileMode)> {
    match r
    case Err(e) => Err(e)
    case Ok((n, t)) => Ok((f(n), t))
  }

  function FoundThrough<N, M>(r: Result<Found<M>>, f: M -> N): Result<Found<N>> {
    match r
    case Err(e) => Err(e)
    case Ok(Found(n, t, b)) => Ok(Found(f(n), t, b))
  }

  lemma {:induction false} WalkMirrors<N(!new), M(!new)>(look1: Look<N>, link1: Link<N>, look2: Look<M>, link2: Link<M>, f: M -> N,
                                             dirs: iset<M>, root: M, s: State<M>, follow: bool)
    requires s.links <= MAX_SYMLINKS && Mirrors(look1, link1, look2, link2, f, dirs) && root in dirs
    requires s.ftype == ModeDir ==> s.nid in dirs
    ensures Walk(look1, link1, f(root), State(f(s.nid), s.ftype, s.name, s.curPath, s.basename, s.links), follow)
         == FoundThrough(Walk(look2, link2, root, s, follow), f)
    decreases MAX_SYMLINKS - s.links, |s.name|
  {
    hide Restart, Extend, FirstSlash;
    if s.name != [] && s.ftype == ModeDir {
      var base, rest := Head(s.name), Tail(s.name);
      match look2(s.nid, base)
      case Err(_) =>
      case Ok((n, t)) =>
        if t == ModeSymlink && (follow || rest != []) {
          if s.links + 1 <= MAX_SYMLINKS && link2(n).Ok? {
            var next := Restart(link2(n).value, rest, s.curPath);
            WalkMirrors(look1, link1, look2, link2, f, dirs, root, State(root, ModeDir, next, [], next, s.links + 1), follow);
          }
        } else {
          WalkMirrors(look1, link1, look2, link2, f, dirs, root, State(n, t, rest, Extend(s.curPath, base), base, s.links), follow);
        }
    }
  }

  // ---- Plain paths ----

  /** Components that cleaning leaves alone. */
  ghost predicate Named(cs: seq<bytes>) {
    Plain(cs) && DOT !in cs && DOTDOT !in cs
  }

  lemma {:induction false} NormalizeNamed(cs: seq<bytes>, stack: seq<bytes>)
    requires Named(cs)
    ensures Normalize(cs, false, stack) == stack + cs
    decreases |cs|
  {
    if cs != [] {
      assert cs[0] in cs;
      forall c <- cs[1..]
        ensures c in cs
      {
      }
      NormalizeNamed(cs[1..], stack + [cs[0]]);
      assert stack + [cs[0]] + cs[1..] == stack + cs;
    }
  }

  /** A path of ordinary names is walked as it stands. */
  lemma NamedStart(cs: seq<bytes>)
    requires Named(cs) && cs != []
    ensures StartName(Join(cs)) == Join(cs)
  {
    hide Join, Split, Normalize;
    SplitJoin(cs);
    JoinStart(cs);
    NormalizeNamed(cs, []);
    assert [] + cs == cs;
    NotDot(cs);
  }

  lemma NotDot(cs: seq<bytes>)
    requires Named(cs) && cs != []
    ensures Join(cs) != DOT
  {
    DotComponents();
    JoinComponents(cs);
    assert cs == [DOT] ==> DOT in cs;
  }
}
