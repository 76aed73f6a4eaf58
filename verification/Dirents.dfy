/** Directory data: greedy packing of sorted names into blocks (layout.go, writer.go). */
module Dirents {
  import opened Bytes
  import opened Order
  import opened Format

  datatype Dirent = Dirent(name: bytes, nid: u64, ftype: byte)

  const DOT: bytes := [46]
  const DOTDOT: bytes := [46, 46]

  function NameOf(d: Dirent): bytes { d.name }

  function Names(ds: seq<Dirent>): (r: seq<bytes>)
    ensures |r| == |ds| && forall i :: 0 <= i < |ds| ==> r[i] == ds[i].name
  {
    Map(NameOf, ds)
  }

  /** Total length of the names. */
  function NameLen(names: seq<bytes>): nat {
    if names == [] then 0 else |names[0]| + NameLen(names[1..])
  }

  lemma {:induction false} NameLenConcat(a: seq<bytes>, b: seq<bytes>)
    ensures NameLen(a + b) == NameLen(a) + NameLen(b)
  {
    if a == [] {
      assert a + b == b;
    } else {
      NameLenConcat(a[1..], b);
      assert (a + b)[1..] == a[1..] + b;
    }
  }

  lemma NameLenStep(names: seq<bytes>, k: nat)
    requires k < |names|
    ensures NameLen(names[..k + 1]) == NameLen(names[..k]) + |names[k]|
  {
    assert names[..k + 1] == names[..k] + [names[k]];
    NameLenConcat(names[..k], [names[k]]);
  }

  /** Bytes that these entries occupy in one block: headers, then names. */
  function Need(names: seq<bytes>): nat {
    SIZE_DIRENT * |names| + NameLen(names)
  }

  lemma NeedMono(names: seq<bytes>, j: nat, k: nat)
    requires j <= k <= |names|
    ensures Need(names[..j]) <= Need(names[..k])
  {
    assert names[..k] == names[..j] + names[j..k];
    NameLenConcat(names[..j], names[j..k]);
  }

  /** Greedy growth of a block that already holds the first k names. */
  function Grow(names: seq<bytes>, k: nat, bs: nat): (r: nat)
    requires k <= |names|
    ensures k <= r <= |names|
    decreases |names| - k
  {
    if k < |names| && Need(names[..k + 1]) <= bs then Grow(names, k + 1, bs) else k
  }

  /** How many of the names go into the next block: at least one. */
  function FitCount(names: seq<bytes>, bs: nat): (r: nat)
    requires names != []
    ensures 1 <= r <= |names|
  {
    var k := Grow(names, 0, bs);
    if k == 0 then 1 else k
  }

  /** FitCount is the largest prefix that fits the block. */
  lemma FitCountMaximal(names: seq<bytes>, bs: nat)
    requires names != [] && Need(names[..1]) <= bs
    ensures var k := FitCount(names, bs);
            Need(names[..k]) <= bs && (k < |names| ==> Need(names[..k + 1]) > bs)
  {
    GrowMaximal(names, 1, bs);
    assert names[..0] == [];
  }

  lemma {:induction false} GrowMaximal(names: seq<bytes>, k: nat, bs: nat)
    requires k <= |names| && Need(names[..k]) <= bs
    ensures var r := Grow(names, k, bs);
            Need(names[..r]) <= bs && (r < |names| ==> Need(names[..r + 1]) > bs)
    decreases |names| - k
  {
    if k < |names| && Need(names[..k + 1]) <= bs {
      GrowMaximal(names, k + 1, bs);
    }
  }

  /** Size of directory data: every block but the last is padded to the block size. */
  function DirSize(names: seq<bytes>, bs: nat): nat
    requires bs > 0
    decreases |names|
  {
    if names == [] then 0
    else
      var k := FitCount(names, bs);
      (if k < |names| then RoundUp(Need(names[..k]), bs) else Need(names[..k])) + DirSize(names[k..], bs)
  }

  /** Sorted entry list of a directory, with "." and ".." among the children. */
  function EntryList(self: u64, parent: u64, children: seq<Dirent>): seq<Dirent> {
    Sort(NameOf, Unsorted(self, parent, children))
  }

  function Unsorted(self: u64, parent: u64, children: seq<Dirent>): seq<Dirent> {
    [Dirent(DOT, self, 2), Dirent(DOTDOT, parent, 2)] + children
  }

  function NameList(children: seq<bytes>): seq<bytes> {
    Sort(Same, UnsortedNames(children))
  }

  function UnsortedNames(children: seq<bytes>): seq<bytes> {
    [DOT, DOTDOT] + children
  }

  lemma {:induction false} SortNames(ds: seq<Dirent>)
    ensures Names(Sort(NameOf, ds)) == Sort(Same, Names(ds))
  {
    if ds != [] {
      SortNames(ds[1..]);
      assert Names(ds)[1..] == Names(ds[1..]);
      InsertNames(ds[0], Sort(NameOf, ds[1..]));
    }
  }

  lemma {:induction false} InsertNames(d: Dirent, ds: seq<Dirent>)
    ensures Names(Insert(NameOf, d, ds)) == Insert(Same, d.name, Names(ds))
  {
    if ds == [] || Less(d.name, ds[0].name) {
      assert Names([d] + ds) == [d.name] + Names(ds);
    } else {
      InsertNames(d, ds[1..]);
      assert Names(ds)[1..] == Names(ds[1..]);
      assert Names([ds[0]] + Insert(NameOf, d, ds[1..])) == [ds[0].name] + Names(Insert(NameOf, d, ds[1..]));
    }
  }

  /** The names planned for and the names written are the same list, whatever the nids. */
  lemma EntryListNames(self: u64, parent: u64, children: seq<Dirent>)
    ensures Names(EntryList(self, parent, children)) == NameList(Names(children))
  {
    SortNames(Unsorted(self, parent, children));
    UnsortedAgree(self, parent, children);
  }

  lemma UnsortedAgree(self: u64, parent: u64, children: seq<Dirent>)
    ensures Names(Unsorted(self, parent, children)) == UnsortedNames(Names(children))
  {
  }

  /** Name offset of entry i of a block. */
  function NameOffset(names: seq<bytes>, i: nat): nat
    requires i <= |names|
  {
    SIZE_DIRENT * |names| + NameLen(names[..i])
  }

  function Header(ds: seq<Dirent>, i: nat): (b: bytes)
    requires i < |ds|
    ensures |b| == SIZE_DIRENT
  {
    U64(ds[i].nid) + U16(NameOffset(Names(ds), i)) + [ds[i].ftype, 0]
  }

  function Headers(ds: seq<Dirent>, n: nat): (b: bytes)
    requires n <= |ds|
    ensures |b| == SIZE_DIRENT * n
  {
    if n == 0 then [] else Headers(ds, n - 1) + Header(ds, n - 1)
  }

  function Concat(names: seq<bytes>): (b: bytes)
    ensures |b| == NameLen(names)
  {
    if names == [] then [] else names[0] + Concat(names[1..])
  }

  lemma Assoc(x: bytes, y: bytes, z: bytes)
    ensures x + (y + z) == x + y + z
  {
  }

  lemma {:induction false} ConcatAppend(a: seq<bytes>, b: seq<bytes>)
    ensures Concat(a + b) == Concat(a) + Concat(b)
  {
    if a == [] {
      assert a + b == b;
    } else {
      ConcatAppend(a[1..], b);
      assert (a + b)[0] == a[0] && (a + b)[1..] == a[1..] + b;
      Assoc(a[0], Concat(a[1..]), Concat(b));
    }
  }

  function BlockBytes(ds: seq<Dirent>): (b: bytes)
    ensures |b| == Need(Names(ds))
  {
    Headers(ds, |ds|) + Concat(Names(ds))
  }

  /** The blocks that the entries are split into. */
  function Blocks(ds: seq<Dirent>, bs: nat): (r: seq<seq<Dirent>>)
    ensures forall b <- r :: b != []
    ensures ds != [] ==> r != []
    decreases |ds|
  {
    if ds == [] then []
    else
      var k := FitCount(Names(ds), bs);
      [ds[..k]] + Blocks(ds[k..], bs)
  }

  /** Directory data, as written: blocks in order, all but the last padded with zeros. */
  function DirBytes(ds: seq<Dirent>, bs: nat): bytes
    requires bs > 0
    decreases |ds|
  {
    if ds == [] then []
    else
      var k := FitCount(Names(ds), bs);
      PaddedBlock(ds[..k], k < |ds|, bs) + DirBytes(ds[k..], bs)
  }

  function PaddedBlock(b: seq<Dirent>, more: bool, bs: nat): bytes
    requires bs > 0
  {
    BlockBytes(b) + if more then Zeros(RoundUp(Need(Names(b)), bs) - Need(Names(b))) else []
  }

  /** Planned size equals written size. */
  lemma {:induction false} DirSizeIsWritten(ds: seq<Dirent>, bs: nat)
    requires bs > 0
    ensures |DirBytes(ds, bs)| == DirSize(Names(ds), bs)
    decreases |ds|
  {
    if ds != [] {
      var k := FitCount(Names(ds), bs);
      DirSizeIsWritten(ds[k..], bs);
      assert Names(ds)[..k] == Names(ds[..k]);
      assert Names(ds)[k..] == Names(ds[k..]);
    }
  }

  /** direntDataSize: the planner's own loops, with its shortcut for an empty directory. */
  method DirentDataSize(children: seq<bytes>, bs: nat) returns (total: nat)
    requires BlockSize(bs)
    ensures total == DirSize(NameList(children), bs)
  {
    if |children| == 0 {
      EmptyDirSize(bs);
      return 2 * SIZE_DIRENT + 1 + 2;
    }
    var names := NameList(children);
    total := 0;
    var i := 0;
    while i < |names|
      invariant i <= |names|
      invariant total + DirSize(names[i..], bs) == DirSize(names, bs)
    {
      var start := i;
      var used;
      i, used := MeasureBlock(names, start, bs);
      DirSizeStep(names, start, i, bs);
      if i < |names| && used % bs != 0 {
        used := RoundUp(used, bs);
      }
      total := total + used;
    }
    assert names[i..] == [];
  }

  lemma DirSizeStep(names: seq<bytes>, start: nat, i: nat, bs: nat)
    requires bs > 0 && start < |names| && i == start + FitCount(names[start..], bs)
    ensures DirSize(names[start..], bs)
         == (if i < |names| then RoundUp(Need(names[start..i]), bs) else Need(names[start..i])) + DirSize(names[i..], bs)
  {
    var rest := names[start..];
    assert rest[i - start..] == names[i..];
    assert rest[..i - start] == names[start..i];
  }

  /** The inner loop of direntDataSize and of writeDirents: end index and bytes used of a block. */
  method MeasureBlock(names: seq<bytes>, start: nat, bs: nat) returns (i: nat, used: nat)
    requires start < |names|
    ensures i == start + FitCount(names[start..], bs)
    ensures used == Need(names[start..i])
  {
    var rest := names[start..];
    i, used := start, 0;
    var nameSize, j := 0, start;
    assert rest[..0] == [];
    while j < |names|
      invariant start <= j <= |names| && i == j
      invariant nameSize == NameLen(rest[..j - start])
      invariant used == Need(rest[..j - start])
      invariant Grow(rest, j - start, bs) == Grow(rest, 0, bs)
    {
      NameLenStep(rest, j - start);
      var headerSize := (j - start + 1) * SIZE_DIRENT;
      nameSize := nameSize + |names[j]|;
      var needed := headerSize + nameSize;
      if needed > bs {
        break;
      }
      used := needed;
      i := j + 1;
      j := j + 1;
    }
    if i == start {
      used := SIZE_DIRENT + |names[i]|;
      assert names[start..start + 1] == [names[start]];
      i := i + 1;
    }
    assert rest[..i - start] == names[start..i];
  }

  lemma EmptyDirSize(bs: nat)
    requires bs >= 27
    ensures DirSize(NameList([]), bs) == 27
  {
    var names := NameList([]);
    assert [DOT, DOTDOT] + [] == [DOT, DOTDOT];
    assert [DOT, DOTDOT][1..] == [DOTDOT];
    var last: seq<bytes> := [DOTDOT];
    assert last[1..] == [];
    assert Sort(Same, last) == last;
    assert DOT[1..] == [] && DOTDOT[1..] == [46];
    assert names == [DOT, DOTDOT];
    var tail: seq<bytes> := names[1..];
    assert tail == [DOTDOT] && tail[1..] == [];
    assert NameLen(names) == 3 && Need(names) == 27;
    assert names[..2] == names;
    NeedMono(names, 1, 2);
    FitCountMaximal(names, bs);
    assert names[2..] == [];
  }

  /** Names the kernel format allows in a directory, in the order it requires. */
  ghost predicate ValidNames(names: seq<bytes>) {
    && Ascending(names)
    && forall n <- names :: 1 <= |n| <= 255 && 0 !in n
  }

  lemma ValidSlices(ds: seq<Dirent>, k: nat)
    requires ValidNames(Names(ds)) && k <= |ds|
    ensures ValidNames(Names(ds[..k])) && ValidNames(Names(ds[k..]))
  {
    assert Names(ds)[..k] == Names(ds[..k]);
    assert Names(ds)[k..] == Names(ds[k..]);
  }

  lemma PositiveNames(names: seq<bytes>)
    requires ValidNames(names) && names != []
    ensures SIZE_DIRENT * |names| < Need(names)
    ensures Need(names[..1]) <= 267
  {
    assert names[0] in names;
    assert names[..1] == [names[0]];
    assert NameLen(names[..1]) == |names[0]|;
    NeedMono(names, 1, |names|);
    assert names[..|names|] == names;
    NameLenConcat(names[..1], names[1..]);
    assert names[..1] + names[1..] == names;
  }

  lemma FirstBlockFits(names: seq<bytes>, bs: nat)
    requires ValidNames(names) && names != [] && bs >= 512
    ensures 0 < Need(names[..FitCount(names, bs)]) <= bs
  {
    PositiveNames(names);
    FitCountMaximal(names, bs);
  }

  /** A padded block is exactly one block long, the last one at most that. */
  lemma PaddedBlockSize(b: seq<Dirent>, more: bool, bs: nat)
    requires bs > 0 && 0 < Need(Names(b)) <= bs
    ensures |PaddedBlock(b, more, bs)| == if more then bs else Need(Names(b))
  {
    if more {
      RoundUpOnce(Need(Names(b)), bs);
    }
  }

  lemma RoundUpOnce(x: nat, m: nat)
    requires 0 < x <= m
    ensures RoundUp(x, m) == m
  {
    DivUnique(x + m - 1, m, 1, x - 1);
  }

  /** Bytes of block bn of a byte string, found by skipping bn whole blocks. */
  function Slot(c: bytes, bs: nat, bn: nat): bytes
    requires bs > 0
  {
    if bn == 0 then c[..Min(bs, |c|)] else if |c| <= bs then [] else Slot(c[bs..], bs, bn - 1)
  }

  lemma {:induction false} SlotIsSlice(c: bytes, bs: nat, bn: nat)
    requires bs > 0 && bn * bs < |c|
    ensures Slot(c, bs, bn) == c[bn * bs..Min((bn + 1) * bs, |c|)]
  {
    MulStep(bn, bs);
    if bn > 0 {
      MulStep(bn - 1, bs);
      MulMono(1, bn, bs);
      SlotIsSlice(c[bs..], bs, bn - 1);
      SliceOfDrop(c, bs, (bn - 1) * bs, Min((bn - 1 + 1) * bs, |c[bs..]|));
    }
  }

  function Head(ds: seq<Dirent>, bs: nat): seq<Dirent>
    requires ds != []
  {
    ds[..FitCount(Names(ds), bs)]
  }

  function Rest(ds: seq<Dirent>, bs: nat): (r: seq<Dirent>)
    requires ds != []
    ensures |r| < |ds|
  {
    ds[FitCount(Names(ds), bs)..]
  }

  /** One step of the packing, in byte terms. */
  lemma Unroll(ds: seq<Dirent>, bs: nat)
    requires ValidNames(Names(ds)) && bs >= 512 && ds != []
    ensures ValidNames(Names(Rest(ds, bs)))
    ensures Blocks(ds, bs) == [Head(ds, bs)] + Blocks(Rest(ds, bs), bs)
    ensures Blocks(Rest(ds, bs), bs) == [] <==> Rest(ds, bs) == []
    ensures DirBytes(Rest(ds, bs), bs) == [] <==> Rest(ds, bs) == []
    ensures var head := PaddedBlock(Head(ds, bs), Rest(ds, bs) != [], bs);
            && DirBytes(ds, bs) == head + DirBytes(Rest(ds, bs), bs)
            && 0 < |head| <= bs
            && (Rest(ds, bs) != [] ==> |head| == bs)
  {
    var k := FitCount(Names(ds), bs);
    FirstBlockFits(Names(ds), bs);
    assert Names(ds)[..k] == Names(ds[..k]);
    ValidSlices(ds, k);
    PaddedBlockSize(ds[..k], k < |ds|, bs);
    NonEmptyDir(Rest(ds, bs), bs);
  }

  lemma NonEmptyDir(ds: seq<Dirent>, bs: nat)
    requires bs > 0
    ensures DirBytes(ds, bs) == [] <==> ds == []
  {
  }

  /** Block bn of the directory data is the bn-th group of entries, padded unless it is the last. */
  lemma {:induction false} BlockAt(ds: seq<Dirent>, bs: nat, bn: nat)
    requires ValidNames(Names(ds)) && bs >= 512 && bn < |Blocks(ds, bs)|
    ensures Slot(DirBytes(ds, bs), bs, bn) == PaddedBlock(Blocks(ds, bs)[bn], bn + 1 < |Blocks(ds, bs)|, bs)
    decreases bn
  {
    Unroll(ds, bs);
    var tail := DirBytes(Rest(ds, bs), bs);
    var head := PaddedBlock(Head(ds, bs), Rest(ds, bs) != [], bs);
    if bn == 0 {
      assert (head + tail)[..|head|] == head;
    } else {
      BlockAt(Rest(ds, bs), bs, bn - 1);
      assert (head + tail)[bs..] == tail;
    }
  }

  lemma {:induction false} BlockTotal(ds: seq<Dirent>, bs: nat)
    requires ValidNames(Names(ds)) && bs >= 512
    ensures CeilDiv(|DirBytes(ds, bs)|, bs) == |Blocks(ds, bs)|
    decreases |ds|
  {
    if ds != [] {
      Unroll(ds, bs);
      var rest := Rest(ds, bs);
      BlockTotal(rest, bs);
      if rest != [] {
        CeilDivStep(|DirBytes(rest, bs)|, bs);
      }
    }
  }

  /** Index of the first entry of block bn in the whole list. */
  function Start(ds: seq<Dirent>, bs: nat, bn: nat): (s: nat)
    requires bn <= |Blocks(ds, bs)|
    ensures s <= |ds|
    decreases bn
  {
    if bn == 0 then 0
    else
      var k := FitCount(Names(ds), bs);
      k + Start(ds[k..], bs, bn - 1)
  }

  /** Blocks are consecutive slices of the list. */
  lemma {:induction false} BlockIsSlice(ds: seq<Dirent>, bs: nat, bn: nat)
    requires bn < |Blocks(ds, bs)|
    ensures Start(ds, bs, bn) < Start(ds, bs, bn + 1)
    ensures Blocks(ds, bs)[bn] == ds[Start(ds, bs, bn)..Start(ds, bs, bn + 1)]
    decreases bn
  {
    hide Names, FitCount, Blocks, Start;
    BlocksUnfold(ds, bs);
    var k := FitCount(Names(ds), bs);
    StartUnfold(ds, bs, bn + 1);
    if bn == 0 {
      StartUnfold(ds, bs, 0);
      StartUnfold(ds[k..], bs, 0);
    } else {
      StartUnfold(ds, bs, bn);
      BlockIsSlice(ds[k..], bs, bn - 1);
      SliceOfDrop(ds, k, Start(ds[k..], bs, bn - 1), Start(ds[k..], bs, bn));
    }
  }

  lemma BlocksUnfold(ds: seq<Dirent>, bs: nat)
    requires Blocks(ds, bs) != []
    ensures ds != [] && 0 < FitCount(Names(ds), bs) <= |ds|
    ensures Blocks(ds, bs) == [ds[..FitCount(Names(ds), bs)]] + Blocks(ds[FitCount(Names(ds), bs)..], bs)
  {
    hide FitCount;
  }

  lemma StartUnfold(ds: seq<Dirent>, bs: nat, bn: nat)
    requires bn <= |Blocks(ds, bs)|
    ensures bn == 0 ==> Start(ds, bs, bn) == 0
    ensures bn > 0 ==> var k := FitCount(Names(ds), bs);
              k <= |ds| && bn - 1 <= |Blocks(ds[k..], bs)| && Start(ds, bs, bn) == k + Start(ds[k..], bs, bn - 1)
  {
    hide FitCount;
  }

  lemma SliceOfDrop<T>(s: seq<T>, k: nat, lo: nat, hi: nat)
    requires lo <= hi && k + hi <= |s|
    ensures s[k..][lo..hi] == s[k + lo..k + hi]
  {
  }

  lemma {:induction false} StartOfEnd(ds: seq<Dirent>, bs: nat)
    ensures Start(ds, bs, |Blocks(ds, bs)|) == |ds|
    decreases |ds|
  {
    if ds != [] {
      StartOfEnd(ds[FitCount(Names(ds), bs)..], bs);
    }
  }
}
