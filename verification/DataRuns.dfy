/**
 Any interleaving of Create, Write and Close on files of the external data file (mkfs.go): where each
 byte goes, where the chunk lists say it is, and exactly which files can be found again.
 */
module DataRuns {
  import opened Bytes
  import opened Format
  import opened Chunks
  import opened Placement
  import opened DataFile

  /** Calls on the writer and on the File of name f. */
  datatype Event = Create(f: nat) | Write(f: nat, p: bytes) | Close(f: nat)

  /** A file: its start, its bytes, and the position in the data file that each byte was written to. */
  datatype FileState = FileState(start: nat, content: bytes, at: seq<nat>, closed: bool)

  datatype Run = Run(data: bytes, files: map<nat, FileState>)

  function Positions(from: nat, n: nat): (r: seq<nat>)
    ensures |r| == n && forall k :: 0 <= k < n ==> r[k] == from + k
  {
    seq(n, i => from + i)
  }

  function Padding(data: bytes, bs: nat): bytes
    requires bs > 0
  {
    Zeros(RoundUp(|data|, bs) - |data|)
  }

  /** A name is created once; only an open file is written or closed. */
  function Next(bs: nat, r: Run, e: Event): Run
    requires bs > 0
  {
    match e
    case Create(f) =>
      if f in r.files then r else r.(files := r.files[f := FileState(|r.data|, [], [], false)])
    case Write(f, p) =>
      if f !in r.files || r.files[f].closed then r
      else
        var s := r.files[f];
        Run(r.data + p, r.files[f := s.(content := s.content + p, at := s.at + Positions(|r.data|, |p|))])
    case Close(f) =>
      if f !in r.files || r.files[f].closed then r
      else
        var s := r.files[f];
        Run(r.data + if s.content == [] then [] else Padding(r.data, bs), r.files[f := s.(closed := true)])
  }

  /** The state after the first n events, on a data file of any length. */
  function After(bs: nat, existing: bytes, es: seq<Event>, n: nat): Run
    requires bs > 0 && n <= |es|
  {
    if n == 0 then Run(existing, map[]) else Next(bs, After(bs, existing, es, n - 1), es[n - 1])
  }

  // ---- The condition ----

  predicate Own(e: Event, f: nat) {
    e.Write? && e.f == f
  }

  /** Event i appends to the data file. */
  predicate Grows(bs: nat, existing: bytes, es: seq<Event>, i: nat)
    requires bs > 0 && i < |es|
  {
    |After(bs, existing, es, i).data| < |After(bs, existing, es, i + 1).data|
  }

  /** After f was created, something else than f is appended. */
  predicate Foreign(bs: nat, existing: bytes, es: seq<Event>, f: nat, i: nat)
    requires bs > 0 && i < |es|
  {
    f in After(bs, existing, es, i).files && Grows(bs, existing, es, i) && !Own(es[i], f)
  }

  /** Between f's creation and its last non-empty write something else is appended. */
  ghost predicate Disturbed(bs: nat, existing: bytes, es: seq<Event>, n: nat, f: nat)
    requires bs > 0 && n <= |es|
  {
    exists i: nat, j: nat :: i < j < n && Foreign(bs, existing, es, f, i) && Own(es[j], f) && Grows(bs, existing, es, j)
  }

  ghost predicate AnyForeign(bs: nat, existing: bytes, es: seq<Event>, n: nat, f: nat)
    requires bs > 0 && n <= |es|
  {
    exists i: nat :: i < n && Foreign(bs, existing, es, f, i)
  }

  // ---- What every run keeps ----

  /** The bytes are where they were put, in order, from the start on. */
  ghost predicate Kept(data: bytes, s: FileState) {
    && |s.at| == |s.content| && s.start + |s.content| <= |data|
    && forall k :: 0 <= k < |s.at| ==> s.start + k <= s.at[k] < |data| && data[s.at[k]] == s.content[k]
  }

  predicate InOrder(s: FileState) {
    forall k :: 0 <= k < |s.at| ==> s.at[k] == s.start + k
  }

  lemma KeptLonger(data: bytes, more: bytes, s: FileState)
    requires Kept(data, s)
    ensures Kept(data + more, s)
  {
  }

  lemma KeptWrite(data: bytes, p: bytes, s: FileState)
    requires Kept(data, s)
    ensures Kept(data + p, s.(content := s.content + p, at := s.at + Positions(|data|, |p|)))
  {
    var t := s.(content := s.content + p, at := s.at + Positions(|data|, |p|));
    forall k | 0 <= k < |t.at|
      ensures t.start + k <= t.at[k] < |data + p| && (data + p)[t.at[k]] == t.content[k]
    {
      if k < |s.at| {
        assert t.at[k] == s.at[k];
      } else {
        assert t.at[k] == |data| + (k - |s.at|);
      }
    }
  }

  lemma NextKept(bs: nat, r: Run, e: Event)
    requires bs > 0 && forall f <- r.files :: Kept(r.data, r.files[f])
    ensures forall f <- Next(bs, r, e).files :: Kept(Next(bs, r, e).data, Next(bs, r, e).files[f])
    ensures r.data <= Next(bs, r, e).data && r.files.Keys <= Next(bs, r, e).files.Keys
  {
    hide Kept, RoundUp;
    var n := Next(bs, r, e);
    var more := n.data[|r.data|..];
    assert n.data == r.data + more;
    forall f <- n.files
      ensures Kept(n.data, n.files[f])
    {
      if f in r.files {
        KeptLonger(r.data, more, r.files[f]);
        if e.Write? && e.f == f {
          KeptWrite(r.data, e.p, r.files[f]);
        }
        KeptClosed(n.data, r.files[f]);
      } else {
        KeptNew(n.data);
      }
    }
  }

  lemma KeptClosed(data: bytes, s: FileState)
    ensures Kept(data, s) ==> Kept(data, s.(closed := true))
  {
  }

  lemma KeptNew(data: bytes)
    ensures Kept(data, FileState(|data|, [], [], false))
  {
  }

  lemma {:induction false} AllKept(bs: nat, existing: bytes, es: seq<Event>, n: nat)
    requires bs > 0 && n <= |es|
    ensures var r := After(bs, existing, es, n); existing <= r.data && forall f <- r.files :: Kept(r.data, r.files[f])
  {
    hide Next, Kept;
    if n > 0 {
      AllKept(bs, existing, es, n - 1);
      NextKept(bs, After(bs, existing, es, n - 1), es[n - 1]);
    }
  }

  // ---- Where the bytes went ----

  lemma ForeignNext(bs: nat, existing: bytes, es: seq<Event>, n: nat, f: nat)
    requires bs > 0 && n < |es|
    ensures AnyForeign(bs, existing, es, n + 1, f) <==> AnyForeign(bs, existing, es, n, f) || Foreign(bs, existing, es, f, n)
    ensures Disturbed(bs, existing, es, n + 1, f) <==>
              Disturbed(bs, existing, es, n, f) || (AnyForeign(bs, existing, es, n, f) && Own(es[n], f) && Grows(bs, existing, es, n))
  {
    hide Foreign, Own, Grows;
  }

  /** Until something else is appended, a file ends where the data file ends. */
  ghost predicate Tail(r: Run, s: FileState) {
    |r.data| == s.start + |s.content|
  }

  /** One step, for one file. */
  lemma StepOf(bs: nat, r: Run, e: Event, f: nat)
    requires bs > 0 && f in Next(bs, r, e).files && (f in r.files ==> Kept(r.data, r.files[f]))
    ensures var n := Next(bs, r, e);
            var grows := |r.data| < |n.data|;
            if f !in r.files then n.files[f] == FileState(|n.data|, [], [], false) && n.data == r.data
            else
              var s, t := r.files[f], n.files[f];
              && t.start == s.start
              && (Own(e, f) && grows ==> (Tail(n, t) <==> Tail(r, s)) && (InOrder(t) <==> InOrder(s) && Tail(r, s)))
              && (!(Own(e, f) && grows) ==>
                    t.at == s.at && t.content == s.content && (InOrder(t) <==> InOrder(s)) && (Tail(n, t) <==> Tail(r, s) && !grows))
  {
    hide RoundUp;
    if f in r.files && e.Write? && e.f == f && !r.files[f].closed {
      WrittenInOrder(r, r.files[f], e.p);
    }
  }

  lemma WrittenInOrder(r: Run, s: FileState, p: bytes)
    requires |s.at| == |s.content|
    ensures var t := s.(content := s.content + p, at := s.at + Positions(|r.data|, |p|));
            p != [] ==> (InOrder(t) <==> InOrder(s) && Tail(r, s))
  {
    var t := s.(content := s.content + p, at := s.at + Positions(|r.data|, |p|));
    assert forall k :: 0 <= k < |s.at| ==> t.at[k] == s.at[k];
    assert forall k :: |s.at| <= k < |t.at| ==> t.at[k] == |r.data| + (k - |s.at|);
    if p != [] && InOrder(t) {
      assert t.at[|s.at|] == |r.data|;
    }
  }

  /** A file's bytes lie in one piece from its start exactly when nothing came between them. */
  lemma {:induction false} OnePiece(bs: nat, existing: bytes, es: seq<Event>, n: nat, f: nat)
    requires bs > 0 && n <= |es| && f in After(bs, existing, es, n).files
    ensures var r := After(bs, existing, es, n);
            && (InOrder(r.files[f]) <==> !Disturbed(bs, existing, es, n, f))
            && (Tail(r, r.files[f]) <==> !AnyForeign(bs, existing, es, n, f))
  {
    hide Next, Kept, InOrder, Disturbed, AnyForeign, Tail;
    var was := After(bs, existing, es, n - 1);
    AllKept(bs, existing, es, n - 1);
    StepOf(bs, was, es[n - 1], f);
    ForeignNext(bs, existing, es, n - 1, f);
    if f in was.files {
      OnePiece(bs, existing, es, n - 1, f);
    } else {
      NotYet(bs, existing, es, n - 1, f);
      FreshInOrder(|was.data|, After(bs, existing, es, n));
    }
  }

  lemma FreshInOrder(start: nat, r: Run)
    ensures InOrder(FileState(start, [], [], false))
    ensures start == |r.data| ==> Tail(r, FileState(start, [], [], false))
  {
  }

  /** Before it is created a file is not disturbed. */
  lemma {:induction false} NotYet(bs: nat, existing: bytes, es: seq<Event>, n: nat, f: nat)
    requires bs > 0 && n < |es| && f !in After(bs, existing, es, n).files
    ensures !AnyForeign(bs, existing, es, n, f) && !Disturbed(bs, existing, es, n, f) && !Foreign(bs, existing, es, f, n)
  {
    hide Next, Disturbed, AnyForeign, Grows, Kept;
    if n > 0 {
      AllKept(bs, existing, es, n - 1);
      NextKept(bs, After(bs, existing, es, n - 1), es[n - 1]);
      NotYet(bs, existing, es, n - 1, f);
      ForeignNext(bs, existing, es, n - 1, f);
    } else {
      NothingYet(bs, existing, es, f);
    }
  }

  lemma NothingYet(bs: nat, existing: bytes, es: seq<Event>, f: nat)
    requires bs > 0
    ensures !AnyForeign(bs, existing, es, 0, f) && !Disturbed(bs, existing, es, 0, f)
  {
  }

  // ---- Where the chunk list says the bytes are ----

  /** The chunk list that Close gives the file leads each of its bytes' blocks to where the byte was written. */
  ghost predicate Located(bs: nat, s: FileState)
    requires bs > 0 && |s.at| == |s.content| && StartBlock(s.start, bs) + CeilDiv(|s.content|, bs) < 0x1_0000_0000_0000_0000
  {
    var runs := RunsFor(StartBlock(s.start, bs), CeilDiv(|s.content|, bs));
    forall k :: 0 <= k < |s.at| ==> LeadsTo(runs, bs, k, s.at[k])
  }

  predicate LeadsTo(runs: seq<Chunk>, bs: nat, k: nat, pos: nat)
    requires bs > 0
  {
    Locate(runs, Quo(k, bs)).Some? && Locate(runs, Quo(k, bs)).value.phys * bs + Rem(k, bs) == pos
  }

  lemma BlockInside(k: nat, size: nat, bs: nat)
    requires bs > 0 && k < size
    ensures Quo(k, bs) < CeilDiv(size, bs)
  {
    hide CeilDiv;
    CeilCovers(size, bs);
    MulMono(CeilDiv(size, bs), Quo(k, bs), bs);
  }

  lemma RunLeads(start: nat, size: nat, bs: nat, k: nat, pos: nat)
    requires bs > 0 && k < size && StartBlock(start, bs) + CeilDiv(size, bs) < 0x1_0000_0000_0000_0000
    ensures LeadsTo(RunsFor(StartBlock(start, bs), CeilDiv(size, bs)), bs, k, pos) <==> pos == StartBlock(start, bs) * bs + k
  {
    hide RunsFor, CeilDiv, Locate, Contiguous, Total, Quo, Rem;
    RunsCover(StartBlock(start, bs), CeilDiv(size, bs));
    BlockInside(k, size, bs);
    Distribute(StartBlock(start, bs), Quo(k, bs), bs);
    assert k == Quo(k, bs) * bs + Rem(k, bs);
  }

  /** On an aligned start that means one piece from the start; on any other start it never holds. */
  lemma LocatedInOrder(bs: nat, data: bytes, s: FileState)
    requires bs > 0 && Kept(data, s) && StartBlock(s.start, bs) + CeilDiv(|s.content|, bs) < 0x1_0000_0000_0000_0000
    ensures Located(bs, s) <==> s.content == [] || (s.start % bs == 0 && InOrder(s))
  {
    hide CeilDiv, RunsFor, LeadsTo, StartBlock;
    forall k, pos: nat | 0 <= k < |s.content|
      ensures LeadsTo(RunsFor(StartBlock(s.start, bs), CeilDiv(|s.content|, bs)), bs, k, pos) <==> pos == StartBlock(s.start, bs) * bs + k
    {
      RunLeads(s.start, |s.content|, bs, k, pos);
    }
    StartsAtChunk(s.start, bs);
    StartAfter(s.start, bs);
    if Located(bs, s) && s.content != [] {
      assert s.at[0] == StartBlock(s.start, bs) * bs + 0;
    }
  }

  lemma StartAfter(start: nat, bs: nat)
    requires bs > 0
    ensures StartBlock(start, bs) * bs <= start
  {
  }

  /**
   The exact condition. In any run of calls on any data file, the chunk list of a file leads to its
   bytes exactly when the file is empty, or starts on a block and nothing else (another file's bytes
   or padding) is appended between its creation and its last non-empty write.
   */
  lemma FoundExactly(bs: nat, existing: bytes, es: seq<Event>, f: nat)
    requires BlockSize(bs) && f in After(bs, existing, es, |es|).files && |After(bs, existing, es, |es|).data| <= MAX_OFFSET
    ensures var s := After(bs, existing, es, |es|).files[f];
            && |s.at| == |s.content| && StartBlock(s.start, bs) + CeilDiv(|s.content|, bs) < 0x1_0000_0000_0000_0000
            && (Located(bs, s) <==> s.content == [] || (s.start % bs == 0 && !Disturbed(bs, existing, es, |es|, f)))
  {
    hide Next, After, Disturbed, CeilDiv, Located, InOrder, PowerOfTwo;
    var r := After(bs, existing, es, |es|);
    AllKept(bs, existing, es, |es|);
    OnePiece(bs, existing, es, |es|, f);
    BlocksFit(r.files[f].start, |r.files[f].content|, bs);
    LocatedInOrder(bs, r.data, r.files[f]);
  }

  /** Such a file lies whole at its start, whatever is appended later. */
  lemma FoundWhole(bs: nat, existing: bytes, es: seq<Event>, f: nat)
    requires BlockSize(bs) && f in After(bs, existing, es, |es|).files && !Disturbed(bs, existing, es, |es|, f)
    ensures var r := After(bs, existing, es, |es|); At(r.data, r.files[f].start, r.files[f].content)
  {
    hide Next, After, Disturbed, PowerOfTwo;
    var r := After(bs, existing, es, |es|);
    AllKept(bs, existing, es, |es|);
    OnePiece(bs, existing, es, |es|, f);
    var s := r.files[f];
    assert r.data[s.start..s.start + |s.content|] == s.content by {
      assert forall k :: 0 <= k < |s.content| ==> r.data[s.at[k]] == s.content[k];
    }
  }

  // ---- The objects ----

  /** The File object of a file: its chunk list comes with Close. */
  ghost predicate Matches(o: OpenFile, s: FileState, bs: nat)
    requires bs > 0
    reads o
  {
    && o.dataStartOff == s.start && o.written == |s.content| && o.closed == s.closed
    && (s.closed ==>
          && StartBlock(s.start, bs) + CeilDiv(|s.content|, bs) < 0x1_0000_0000_0000_0000
          && o.size == |s.content| && o.chunks == RunsFor(StartBlock(s.start, bs), CeilDiv(|s.content|, bs)))
    && (!s.closed ==> o.chunks == [])
  }

  ghost predicate AllMatch(fs: DataWriter, files: map<nat, OpenFile>, r: Run)
    requires fs.bs > 0
    reads fs, files.Values
  {
    && fs.data == r.data && files.Keys == r.files.Keys
    && (forall f <- files :: files[f].fs == fs && Matches(files[f], r.files[f], fs.bs))
    && (forall f, g :: f in files && g in files && f != g ==> files[f] != files[g])
  }

  lemma {:induction false} DataGrows(bs: nat, existing: bytes, es: seq<Event>, i: nat, n: nat)
    requires bs > 0 && i <= n <= |es|
    ensures After(bs, existing, es, i).data <= After(bs, existing, es, n).data
    decreases n - i
  {
    hide Next, Kept;
    if i < n {
      DataGrows(bs, existing, es, i, n - 1);
      AllKept(bs, existing, es, n - 1);
      NextKept(bs, After(bs, existing, es, n - 1), es[n - 1]);
    }
  }

  method CallWrite(fs: DataWriter, ghost files: map<nat, OpenFile>, o: OpenFile, f: nat, p: bytes, ghost r: Run)
    requires fs.Valid() && AllMatch(fs, files, r) && f in files && o == files[f]
    modifies fs, o
    ensures fs.Valid() && AllMatch(fs, files, Next(fs.bs, r, Write(f, p)))
  {
    hide RoundUp, CeilDiv, RunsFor, PowerOfTwo, StartBlock;
    var ok := o.Write(p);
    assert forall g <- files :: g != f ==> files[g] != o;
  }

  method CallClose(fs: DataWriter, ghost files: map<nat, OpenFile>, o: OpenFile, f: nat, ghost r: Run)
    requires fs.Valid() && AllMatch(fs, files, r) && f in files && o == files[f]
    requires |r.data| <= MAX_OFFSET && Kept(r.data, r.files[f])
    modifies fs, o
    ensures fs.Valid() && AllMatch(fs, files, Next(fs.bs, r, Close(f)))
  {
    hide RoundUp, CeilDiv, RunsFor, PowerOfTwo, StartBlock;
    BlocksFit(r.files[f].start, |r.files[f].content|, fs.bs);
    ghost var runs := RunsFor(StartBlock(r.files[f].start, fs.bs), CeilDiv(|r.files[f].content|, fs.bs));
    assert [] + runs == runs && fs.data + [] == fs.data;
    var ok := o.Close();
    assert forall g <- files :: g != f ==> files[g] != o;
  }

  /** One call. */
  method Call(fs: DataWriter, files: map<nat, OpenFile>, e: Event, ghost r: Run) returns (now: map<nat, OpenFile>)
    requires fs.Valid() && AllMatch(fs, files, r) && |Next(fs.bs, r, e).data| <= MAX_OFFSET
    requires forall f <- r.files :: Kept(r.data, r.files[f])
    modifies fs, files.Values
    ensures fs.Valid() && AllMatch(fs, now, Next(fs.bs, r, e))
    ensures files.Keys <= now.Keys && (forall f <- files :: now[f] == files[f]) && forall f <- now :: f in files || fresh(now[f])
  {
    hide RoundUp, CeilDiv, RunsFor, PowerOfTwo, StartBlock, Kept;
    now := files;
    match e {
      case Create(f) =>
        if f !in files {
          var o := new OpenFile(fs);
          now := files[f := o];
        }
      case Write(f, p) =>
        if f in files {
          CallWrite(fs, files, files[f], f, p, r);
        }
      case Close(f) =>
        if f in files {
          GrowsOnly(fs.bs, r, e);
          CallClose(fs, files, files[f], f, r);
        }
    }
  }

  lemma GrowsOnly(bs: nat, r: Run, e: Event)
    requires bs > 0
    ensures |r.data| <= |Next(bs, r, e).data|
  {
  }

  /** Any run of calls leaves the data file and the File objects as the values say. */
  method RunEvents(fs: DataWriter, es: seq<Event>) returns (files: map<nat, OpenFile>)
    requires fs.Valid() && fs.bs > 0 && |After(fs.bs, fs.data, es, |es|).data| <= MAX_OFFSET
    modifies fs
    ensures fs.Valid() && AllMatch(fs, files, After(fs.bs, old(fs.data), es, |es|))
  {
    hide Next, Kept, AllMatch, PowerOfTwo;
    files := map[];
    ghost var existing := fs.data;
    var i := 0;
    NoFiles(fs);
    while i < |es|
      invariant i <= |es| && fs.Valid() && AllMatch(fs, files, After(fs.bs, existing, es, i))
      invariant forall f <- files :: fresh(files[f])
    {
      DataGrows(fs.bs, existing, es, i + 1, |es|);
      AllKept(fs.bs, existing, es, i);
      files := Call(fs, files, es[i], After(fs.bs, existing, es, i));
      i := i + 1;
    }
  }

  lemma NoFiles(fs: DataWriter)
    requires fs.bs > 0
    ensures AllMatch(fs, map[], Run(fs.data, map[]))
  {
  }

  // ---- Both ways to fail ----

  /** Two files open together: the second one's byte comes after the first one's. */
  lemma TwoOpen(bs: nat, a: byte, b: byte)
    requires BlockSize(bs)
    ensures var es := [Create(0), Create(1), Write(0, [a]), Write(1, [b])];
            && Disturbed(bs, [], es, 4, 1) && 1 in After(bs, [], es, 4).files
            && After(bs, [], es, 4).files[1] == FileState(0, [b], [1], false)
  {
    hide PowerOfTwo, After, Next;
    var es := [Create(0), Create(1), Write(0, [a]), Write(1, [b])];
    FourSteps(bs, es);
    TwoWrites(bs, a, b);
    assert Foreign(bs, [], es, 1, 2) && Own(es[3], 1) && Grows(bs, [], es, 3);
  }

  lemma FourSteps(bs: nat, es: seq<Event>)
    requires bs > 0 && |es| == 4
    ensures After(bs, [], es, 0) == Run([], map[]) && After(bs, [], es, 1) == Next(bs, After(bs, [], es, 0), es[0])
    ensures After(bs, [], es, 2) == Next(bs, After(bs, [], es, 1), es[1])
    ensures After(bs, [], es, 3) == Next(bs, After(bs, [], es, 2), es[2])
    ensures After(bs, [], es, 4) == Next(bs, After(bs, [], es, 3), es[3])
  {
    hide Next;
  }

  lemma TwoWrites(bs: nat, a: byte, b: byte)
    requires bs > 0
    ensures var r0 := FileState(0, [], [], false);
            var r2 := Run([], map[0 := r0, 1 := r0]);
            var r3 := Run([a], map[0 := FileState(0, [a], [0], false), 1 := r0]);
            && Next(bs, Run([], map[]), Create(0)) == Run([], map[0 := r0]) && Next(bs, Run([], map[0 := r0]), Create(1)) == r2
            && Next(bs, r2, Write(0, [a])) == r3
            && Next(bs, r3, Write(1, [b])) == Run([a, b], map[0 := FileState(0, [a], [0], false), 1 := FileState(0, [b], [1], false)])
  {
    assert [] + [a] == [a] && [] + Positions(0, 1) == [0];
    assert [] + [b] == [b] && [] + Positions(1, 1) == [1];
  }

  /** A data file that holds one byte already: the first file written to it is not found. */
  lemma UnalignedStart(bs: nat, x: byte, b: byte)
    requires BlockSize(bs)
    ensures var es := [Create(0), Write(0, [b]), Close(0)];
            var r := After(bs, [x], es, 3);
            && !Disturbed(bs, [x], es, 3, 0) && 0 in r.files && r.files[0] == FileState(1, [b], [1], true)
            && StartBlock(1, bs) + CeilDiv(1, bs) < 0x1_0000_0000_0000_0000 && !Located(bs, r.files[0])
  {
    hide PowerOfTwo, Located, RoundUp;
    var es := [Create(0), Write(0, [b]), Close(0)];
    assert After(bs, [x], es, 0) == Run([x], map[]);
    assert After(bs, [x], es, 1) == Run([x], map[0 := FileState(1, [], [], false)]);
    assert [x] + [b] == [x, b] && [] + [b] == [b] && [] + Positions(1, 1) == [1];
    assert After(bs, [x], es, 2) == Run([x, b], map[0 := FileState(1, [b], [1], false)]);
    var r := After(bs, [x], es, 3);
    assert r.files == map[0 := FileState(1, [b], [1], true)];
    AllKept(bs, [x], es, 3);
    BlocksFit(1, 1, bs);
    LocatedInOrder(bs, r.data, r.files[0]);
    SmallNotBlock(bs);
    forall i: nat | i < 3
      ensures !Foreign(bs, [x], es, 0, i) || i == 2
    {
    }
  }

  lemma SmallNotBlock(bs: nat)
    requires bs > 1
    ensures 1 % bs == 1
  {
    DivUnique(1, bs, 0, 1);
  }
}
