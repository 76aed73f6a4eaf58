/**
 Directory listing (dir.ReadDir, a resumable cursor) and the whole-buffer parser of
 mkfs_image.go; both yield the children the writer packed, in order.
 */
module DirList {
  import opened Bytes
  import opened Order
  import opened Format
  import opened Dirents
  import opened Reader
  import opened DirReader

  predicate IsDot(name: bytes) { name == DOT || name == DOTDOT }

  /** The entries a listing shows: all but "." and "..". */
  function Visible(ds: seq<Dirent>): seq<Dirent> {
    if ds == [] then []
    else (if IsDot(ds[0].name) then [] else [ds[0]]) + Visible(ds[1..])
  }

  lemma {:induction false} VisibleConcat(a: seq<Dirent>, b: seq<Dirent>)
    ensures Visible(a + b) == Visible(a) + Visible(b)
  {
    hide Visible;
    if a == [] {
      assert a + b == b;
      NoneVisible();
      assert [] + Visible(b) == Visible(b);
    } else {
      VisibleConcat(a[1..], b);
      assert (a + b)[0] == a[0] && (a + b)[1..] == a[1..] + b;
      UnfoldVisible(a + b);
      UnfoldVisible(a);
      var first: seq<Dirent> := if IsDot(a[0].name) then [] else [a[0]];
      assert first + (Visible(a[1..]) + Visible(b)) == first + Visible(a[1..]) + Visible(b);
    }
  }

  lemma UnfoldVisible(ds: seq<Dirent>)
    requires ds != []
    ensures Visible(ds) == (if IsDot(ds[0].name) then [] else [ds[0]]) + Visible(ds[1..])
  {
  }

  lemma NoneVisible()
    ensures Visible([]) == []
  {
  }

  lemma VisibleStep(ds: seq<Dirent>, lo: nat, i: nat)
    requires lo <= i < |ds|
    ensures Visible(ds[lo..i + 1]) == Visible(ds[lo..i]) + if IsDot(ds[i].name) then [] else [ds[i]]
  {
    var one: seq<Dirent> := [ds[i]];
    assert ds[lo..i + 1] == ds[lo..i] + one;
    VisibleConcat(ds[lo..i], one);
    assert one[1..] == [];
  }

  lemma VisibleSplit(ds: seq<Dirent>, lo: nat, mid: nat, hi: nat)
    requires lo <= mid <= hi <= |ds|
    ensures Visible(ds[lo..hi]) == Visible(ds[lo..mid]) + Visible(ds[mid..hi])
  {
    assert ds[lo..hi] == ds[lo..mid] + ds[mid..hi];
    VisibleConcat(ds[lo..mid], ds[mid..hi]);
  }

  lemma {:induction false} VisibleElements(ds: seq<Dirent>)
    ensures forall d :: d in Visible(ds) <==> d in ds && !IsDot(d.name)
  {
    if ds != [] {
      VisibleElements(ds[1..]);
    }
  }

  lemma {:induction false} VisibleAscending(ds: seq<Dirent>)
    requires Ascending(Names(ds))
    ensures Ascending(Names(Visible(ds)))
  {
    if ds != [] {
      TailAscending(NameOf, ds);
      VisibleAscending(ds[1..]);
      VisibleElements(ds[1..]);
      forall d <- Visible(ds[1..])
        ensures Less(ds[0].name, d.name)
      {
        HeadLess(NameOf, ds, d);
      }
      ConsAscending(NameOf, ds[0], Visible(ds[1..]));
    }
  }

  /** Children acceptable to the writer: sorted, distinct, and none is "." or "..". */
  ghost predicate ValidChildren(children: seq<Dirent>) {
    && ValidNames(Names(children))
    && forall c <- children :: !IsDot(c.name)
  }

  /** A packed directory lists exactly its children, in name order. */
  lemma VisibleIsChildren(self: u64, parent: u64, children: seq<Dirent>)
    requires ValidChildren(children)
    ensures ValidNames(Names(EntryList(self, parent, children)))
    ensures Visible(EntryList(self, parent, children)) == children
  {
    hide Sort, Visible, Ascending, Less;
    var all := Unsorted(self, parent, children);
    var ds := EntryList(self, parent, children);
    UnsortedDistinct(self, parent, children);
    SortAscending(NameOf, all);
    ListMembers(self, parent, children);
    NamesInRange(self, parent, children, ds);
    VisibleAscending(ds);
    VisibleElements(ds);
    AscendingUnique(NameOf, Visible(ds), children);
  }

  lemma ListMembers(self: u64, parent: u64, children: seq<Dirent>)
    ensures forall d :: d in EntryList(self, parent, children) <==> d in Unsorted(self, parent, children)
  {
    hide Sort;
    var all := Unsorted(self, parent, children);
    var ds := EntryList(self, parent, children);
    SortElements(NameOf, all);
    assert forall d :: d in ds <==> d in multiset(ds);
    assert forall d :: d in all <==> d in multiset(all);
  }

  lemma NamesInRange(self: u64, parent: u64, children: seq<Dirent>, ds: seq<Dirent>)
    requires ValidChildren(children)
    requires forall d <- ds :: d in Unsorted(self, parent, children)
    ensures forall n <- Names(ds) :: 1 <= |n| <= 255 && 0 !in n
  {
    forall n <- Names(ds)
      ensures 1 <= |n| <= 255 && 0 !in n
    {
      var i :| 0 <= i < |ds| && ds[i].name == n;
      assert ds[i] in Unsorted(self, parent, children);
      if ds[i] in children {
        var j :| 0 <= j < |children| && children[j] == ds[i];
        assert Names(children)[j] in Names(children);
      }
    }
  }

  lemma UnsortedDistinct(self: u64, parent: u64, children: seq<Dirent>)
    requires ValidChildren(children)
    ensures DistinctKeys(NameOf, Unsorted(self, parent, children))
  {
    var all := Unsorted(self, parent, children);
    forall i, j | 0 <= i < j < |all|
      ensures all[i].name != all[j].name
    {
      if j >= 2 {
        assert all[j] == children[j - 2];
        assert children[j - 2] in children;
        if i >= 2 {
          assert Less(Names(children)[i - 2], Names(children)[j - 2]);
        }
      }
    }
  }

  /** First n of a listing, and what is left. */
  function Take<T>(s: seq<T>, n: nat): seq<T> { s[..Min(n, |s|)] }

  function Drop<T>(s: seq<T>, n: nat): seq<T> { s[Min(n, |s|)..] }

  function Sum(ns: seq<nat>): nat {
    if ns == [] then 0 else Sum(ns[..|ns| - 1]) + ns[|ns| - 1]
  }

  function Joined<T>(parts: seq<seq<T>>): seq<T> {
    if parts == [] then [] else Joined(parts[..|parts| - 1]) + parts[|parts| - 1]
  }

  /** Taking a from a list and b from what is left is taking a + b. */
  lemma TakeMore<T>(s: seq<T>, a: nat, b: nat)
    ensures Take(s, a) + Take(Drop(s, a), b) == Take(s, a + b)
    ensures Drop(Drop(s, a), b) == Drop(s, a + b)
  {
    var m, n := Min(a, |s|), Min(a + b, |s|);
    assert Drop(s, a)[..n - m] == s[m..n];
    assert s[..m] + s[m..n] == s[..n];
  }

  /** One raw dirent as decoded from the buffer. */
  datatype Raw = Raw(nid: u64, nameOff: nat, ftype: byte)

  function DecodeRaw(buf: bytes, off: nat): Raw
    requires off + SIZE_DIRENT <= |buf|
  {
    Raw(Get64(buf, off), Get16(buf, off + 8), buf[off + 10])
  }

  /** Where name i lies in a block. */
  ghost predicate NameSpan(buf: bytes, b: seq<Dirent>, i: nat)
    requires i < |b|
  {
    && NameOffset(Names(b), i) < |buf|
    && (i < |b| - 1 ==>
          && NameOffset(Names(b), i) + |b[i].name| == NameOffset(Names(b), i + 1) < |buf|
          && buf[NameOffset(Names(b), i)..NameOffset(Names(b), i + 1)] == b[i].name)
    && (i == |b| - 1 ==> TrimNul(buf[NameOffset(Names(b), i)..]) == b[i].name)
  }

  lemma BlockBounds(buf: bytes, b: seq<Dirent>)
    requires IsBlock(buf, b)
    ensures ValidNames(Names(b)) && Need(Names(b)) <= |buf| && Names(b)[|b| - 1] in Names(b)
    ensures |Names(b)| == |b| && forall i :: 0 <= i < |b| ==> Names(b)[i] == b[i].name
  {
  }

  lemma NameSpans(buf: bytes, b: seq<Dirent>, i: nat)
    requires IsBlock(buf, b) && i < |b|
    ensures NameSpan(buf, b, i)
  {
    hide IsBlock, NameOffset, TrimNul, ValidNames, Names;
    BlockBounds(buf, b);
    OffsetStep(Names(b), i);
    if i < |b| - 1 {
      NameAt(buf, b, i);
      AtSlice(buf, NameOffset(Names(b), i), b[i].name);
      OffsetStep(Names(b), i + 1);
    } else {
      LastName(buf, b);
    }
  }

  lemma RawOfBlock(buf: bytes, b: seq<Dirent>, i: nat)
    requires IsBlock(buf, b) && i < |b|
    ensures SIZE_DIRENT * i + SIZE_DIRENT <= |buf|
    ensures DecodeRaw(buf, SIZE_DIRENT * i) == Raw(b[i].nid, NameOffset(Names(b), i), b[i].ftype)
    ensures NameSpan(buf, b, i)
  {
    hide IsBlock, NameOffset, DecodeRaw, Names, NameSpan;
    NameSpans(buf, b, i);
    BlockFacts(buf, b);
    FieldsOfHeader(buf, b, i);
    OffsetStep(Names(b), i);
    Decoded(buf, SIZE_DIRENT * i);
  }

  lemma AtSlice(buf: bytes, o: nat, p: bytes)
    requires At(buf, o, p)
    ensures o + |p| <= |buf| && buf[o..o + |p|] == p
  {
  }

  lemma Decoded(buf: bytes, off: nat)
    requires off + SIZE_DIRENT <= |buf|
    ensures DecodeRaw(buf, off) == Raw(Get64(buf, off), Get16(buf, off + 8), buf[off + 10])
  {
  }

  lemma FirstRaw(buf: bytes, b: seq<Dirent>)
    requires IsBlock(buf, b)
    ensures SIZE_DIRENT <= |buf|
    ensures DecodeRaw(buf, 0) == Raw(b[0].nid, NameOffset(Names(b), 0), b[0].ftype)
    ensures DecodeRaw(buf, 0).nameOff / SIZE_DIRENT == |b| && DecodeRaw(buf, 0).nameOff <= |buf|
    ensures |b| > 0
  {
    RawOfBlock(buf, b, 0);
    EntryCount(buf, b);
  }

  lemma VisibleNone(ds: seq<Dirent>, i: nat)
    requires i <= |ds|
    ensures Visible(ds[i..i]) == []
  {
  }

  /** Name of entry i, and the entry after it. */
  method EntryAt(buf: bytes, i: nat, entryN: nat, cur: Raw, ghost b: seq<Dirent>) returns (r: Option<(bytes, Raw)>)
    requires |buf| >= SIZE_DIRENT && i < entryN
    ensures IsBlock(buf, b) && entryN == |b| && cur == Raw(b[i].nid, NameOffset(Names(b), i), b[i].ftype) ==>
              && r.Some? && r.value.0 == b[i].name
              && (i < |b| - 1 ==> r.value.1 == Raw(b[i + 1].nid, NameOffset(Names(b), i + 1), b[i + 1].ftype))
  {
    hide IsBlock, DecodeRaw, NameOffset, At, TrimNul;
    if IsBlock(buf, b) && entryN == |b| {
      RawOfBlock(buf, b, i);
      if i < |b| - 1 {
        RawOfBlock(buf, b, i + 1);
      }
    }
    if i < entryN - 1 {
      var start := SIZE_DIRENT * (i + 1);
      if start + SIZE_DIRENT > |buf| {
        return None;
      }
      var next := DecodeRaw(buf, start);
      if cur.nameOff > |buf| || next.nameOff > |buf| || next.nameOff < cur.nameOff {
        return None;
      }
      return Some((buf[cur.nameOff..next.nameOff], next));
    } else {
      if cur.nameOff > |buf| {
        return None;
      }
      return Some((TrimNul(buf[cur.nameOff..]), cur));
    }
  }

  /**
   The entries of one block, from index skip on, until n are held in all (n <= 0: no limit).
   `passed` is the index after the last entry taken when the limit was reached.
   */
  method ScanBlock(buf: bytes, skip: nat, n: int, have: nat, ghost b: seq<Dirent>)
    returns (status: ReadStatus, found: seq<Dirent>, passed: nat, entryN: nat)
    requires |buf| >= SIZE_DIRENT
    ensures IsBlock(buf, b) && skip <= |b| && (n > 0 ==> have < n) ==>
              && status == Fine && entryN == |b|
              && skip <= passed <= |b|
              && found == Visible(b[skip..passed])
              && (n > 0 ==> have + |found| <= n)
              && (passed == |b| || (n > 0 && have + |found| == n))
  {
    hide IsBlock, Visible, DecodeRaw, NameOffset, At, TrimNul;
    var cur := DecodeRaw(buf, 0);
    if IsBlock(buf, b) && skip <= |b| {
      FirstRaw(buf, b);
      VisibleNone(b, skip);
    }
    status, found, passed := Fine, [], skip;
    entryN := cur.nameOff / SIZE_DIRENT;
    if cur.nameOff > |buf| || entryN == 0 {
      status := Failed(Invalid);
      return;
    }
    ghost var good := IsBlock(buf, b) && skip <= |b| && (n > 0 ==> have < n);
    var i := 0;
    while i < entryN
      invariant 0 <= i <= entryN && status == Fine
      invariant good ==> passed == (if i <= skip then skip else i)
      invariant good ==> found == Visible(b[skip..passed])
      invariant good ==> n > 0 ==> have + |found| < n
      invariant good && i < entryN ==> cur == Raw(b[i].nid, NameOffset(Names(b), i), b[i].ftype)
    {
      var entry := EntryAt(buf, i, entryN, cur, b);
      if entry == None {
        status := Failed(Invalid);
        return;
      }
      var (name, next) := entry.value;
      if good && i >= skip {
        VisibleStep(b, skip, i);
      }
      if i >= skip && !IsDot(name) {
        found := found + [Dirent(name, cur.nid, cur.ftype)];
        if n > 0 && have + |found| == n {
          passed := i + 1;
          return;
        }
      }
      cur := next;
      i := i + 1;
      passed := if i <= skip then skip else i;
    }
  }

  ghost predicate Loads(r: Result<bytes>, b: seq<Dirent>) {
    r.Ok? && IsBlock(r.value, b) && |r.value| >= SIZE_DIRENT
  }

  /** Block bn of a stored directory loads and is readable, whatever the block size. */
  lemma StoredBlockReads(img: Image, ino: Inode, ds: seq<Dirent>, bn: nat)
    requires BlockSize(img.bs) && Stored(img, ino, DirBytes(ds, img.bs))
    requires ValidNames(Names(ds)) && bn < |Blocks(ds, img.bs)|
    ensures bn * img.bs < ino.size
    ensures Loads(BlockOf(img, ino)(bn), Blocks(ds, img.bs)[bn])
  {
    hide IsBlock, LoadBlock, BlockOf, DirBytes, Blocks, PaddedBlock, ValidNames;
    StoredDirBlock(img, ino, ds, bn);
    PaddedIsBlock(ds, img.bs, bn);
    BlockTotal(ds, img.bs);
    SlotExists(|DirBytes(ds, img.bs)|, img.bs, bn);
    EntryCount(BlockOf(img, ino)(bn).value, Blocks(ds, img.bs)[bn]);
  }

  lemma {:induction false} SlotInside(n: nat, bs: nat, bn: nat)
    requires bs > 0 && bn * bs < n
    ensures bn < CeilDiv(n, bs)
  {
    if bn > 0 {
      MulStep(bn - 1, bs);
      SlotInside(n - bs, bs, bn - 1);
    }
  }

  lemma PastLastBlock(img: Image, ino: Inode, ds: seq<Dirent>)
    requires BlockSize(img.bs) && Stored(img, ino, DirBytes(ds, img.bs)) && ValidNames(Names(ds))
    ensures !(|Blocks(ds, img.bs)| * img.bs < ino.size)
  {
    hide LoadBlock, DirBytes, Blocks, ValidNames;
    BlockTotal(ds, img.bs);
    if |Blocks(ds, img.bs)| * img.bs < ino.size {
      SlotInside(|DirBytes(ds, img.bs)|, img.bs, |Blocks(ds, img.bs)|);
    }
  }

  lemma VisibleInBlock(ds: seq<Dirent>, bs: nat, bn: nat, p0: nat, skip: nat, passed: nat)
    requires bn < |Blocks(ds, bs)| && skip <= passed <= |Blocks(ds, bs)[bn]|
    requires p0 <= Start(ds, bs, bn) + skip
    ensures Start(ds, bs, bn) + passed <= Start(ds, bs, bn + 1) <= |ds|
    ensures Start(ds, bs, bn + 1) == Start(ds, bs, bn) + |Blocks(ds, bs)[bn]|
    ensures Visible(ds[p0..Start(ds, bs, bn) + passed])
         == Visible(ds[p0..Start(ds, bs, bn) + skip]) + Visible(Blocks(ds, bs)[bn][skip..passed])
  {
    hide Blocks, Visible, Start;
    BlockIsSlice(ds, bs, bn);
    var s, e := Start(ds, bs, bn), Start(ds, bs, bn + 1);
    SliceOfSlice(ds, s, e, skip, passed);
    VisiblePrefix(ds, p0, s + skip, s + passed);
  }

  lemma VisiblePrefix(ds: seq<Dirent>, lo: nat, mid: nat, hi: nat)
    requires lo <= mid <= hi <= |ds|
    ensures Visible(ds[lo..hi]) == Visible(ds[lo..mid]) + Visible(ds[mid..hi])
  {
    VisibleSplit(ds, lo, mid, hi);
  }

  datatype Step = Stop | BadLoad(e: Error) | BadFormat(e: Error) | Next | Full

  /** What was shown up to an entry of a block, and what the block shows from there on. */
  lemma ShownInBlock(ds: seq<Dirent>, bs: nat, bn: nat, p0: nat, skip: nat, passed: nat, before: seq<Dirent>, found: seq<Dirent>)
    requires bn < |Blocks(ds, bs)| && skip <= passed <= |Blocks(ds, bs)[bn]| && p0 <= Start(ds, bs, bn) + skip <= |ds|
    requires before == Visible(ds[p0..Start(ds, bs, bn) + skip]) && found == Visible(Blocks(ds, bs)[bn][skip..passed])
    ensures p0 <= Start(ds, bs, bn) + passed <= |ds| && before + found == Visible(ds[p0..Start(ds, bs, bn) + passed])
    ensures passed == |Blocks(ds, bs)[bn]| ==>
              p0 <= Start(ds, bs, bn + 1) + 0 <= |ds| && before + found == Visible(ds[p0..Start(ds, bs, bn + 1) + 0])
  {
    hide Blocks, Visible, Start;
    VisibleInBlock(ds, bs, bn, p0, skip, passed);
  }

  /** An open directory: a cursor made of a block number and the entries consumed in it. */
  class Dir {
    const img: Image
    const nid: nat
    var bn: nat
    var consumed: nat

    constructor (img: Image, nid: nat)
      ensures this.img == img && this.nid == nid && bn == 0 && consumed == 0
    {
      this.img, this.nid, this.bn, this.consumed := img, nid, 0, 0;
    }

    /** The directory's blocks hold the packed entries ds. */
    ghost predicate Packed(ds: seq<Dirent>) {
      && BlockSize(img.bs)
      && ValidNames(Names(ds))
      && ReadInfo(img, nid).Ok?
      && Stored(img, ReadInfo(img, nid).value, DirBytes(ds, img.bs))
    }

    /** The cursor points between two entries of ds. */
    ghost predicate InRange(ds: seq<Dirent>)
      reads this
    {
      if bn < |Blocks(ds, img.bs)| then consumed <= |Blocks(ds, img.bs)[bn]|
      else bn == |Blocks(ds, img.bs)| && consumed == 0
    }

    ghost function Position(ds: seq<Dirent>): (p: nat)
      requires InRange(ds)
      reads this
      ensures p <= |ds|
    {
      if bn < |Blocks(ds, img.bs)| then
        BlockIsSlice(ds, img.bs, bn);
        Start(ds, img.bs, bn) + consumed
      else Start(ds, img.bs, bn)
    }

    /** Entries still to be listed. */
    ghost function Rest(ds: seq<Dirent>): seq<Dirent>
      requires InRange(ds)
      reads this
    {
      Visible(ds[Position(ds)..])
    }

    /**
     ReadDir. On a packed directory a positive n returns the next n children (fewer, with EOF, at
     the end) and moves the cursor exactly past them; n <= 0 returns all the rest without EOF.
     */
    method ReadDir(n: int, ghost ds: seq<Dirent>) returns (status: ReadStatus, ents: seq<Dirent>)
      requires BlockSize(img.bs)
      modifies this
      ensures Packed(ds) && old(InRange(ds)) ==>
                && InRange(ds)
                && ents == (if n > 0 then Take(old(Rest(ds)), n) else old(Rest(ds)))
                && Rest(ds) == (if n > 0 then Drop(old(Rest(ds)), n) else [])
                && status == (if n > 0 && |ents| < n then AtEOF else Fine)
    {
      hide Visible, Blocks, Stored, ReadInfo, Start, Packed, DirBytes;
      var info := ReadInfo(img, nid);
      PackedFacts(ds);
      if info.Err? {
        return Failed(info.error), [];
      }
      var fi := info.value;
      ghost var good := Packed(ds) && InRange(ds);
      ghost var p0 := if good then Position(ds) else 0;
      ents := [];
      if good {
        VisibleNone(ds, p0);
      }
      while bn * img.bs < fi.size
        invariant good ==> Listed(ds, p0, ents)
        invariant n > 0 && good ==> |ents| < n
        decreases fi.size - bn
      {
        MulMono(1, img.bs, bn);
        var step, found := ReadBlock(fi, n, |ents|, ds, p0, ents);
        ents := ents + found;
        match step
        case Stop => break;
        case BadLoad(e) => return Failed(e), [];
        case BadFormat(e) => return Failed(e), ents;
        case Next =>
        case Full =>
          if good {
            Finish(ds, p0, n, ents);
          }
          return Fine, ents;
      }
      status := if n > 0 then AtEOF else Fine;
      if good {
        AtEnd(ds, fi);
        Finish(ds, p0, n, ents);
      }
    }

    /** One round of ReadDir: load the cursor's block, list from it, move the cursor. */
    method ReadBlock(fi: Inode, n: int, have: nat, ghost ds: seq<Dirent>, ghost p0: nat, ghost before: seq<Dirent>)
      returns (step: Step, found: seq<Dirent>)
      requires BlockSize(img.bs) && bn * img.bs < fi.size && have == |before|
      modifies this
      ensures step == Next ==> bn == old(bn) + 1
      ensures Packed(ds) && ReadInfo(img, nid) == Ok(fi) && old(Listed(ds, p0, before)) && (n > 0 ==> have < n) ==>
                && step in {Next, Full}
                && Listed(ds, p0, before + found)
                && (step == Full <==> n > 0 && have + |found| == n)
                && (n > 0 ==> have + |found| <= n)
    {
      hide LoadBlock, IsBlock, Visible, Blocks, Stored, ReadInfo, Start, Packed, DirBytes, PowerOfTwo, Listed;
      ghost var good := Packed(ds) && ReadInfo(img, nid) == Ok(fi) && Listed(ds, p0, before) && (n > 0 ==> have < n);
      var b := LoadBlock(img, fi, bn * img.bs);
      ghost var group := if good && bn < |Blocks(ds, img.bs)| then Blocks(ds, img.bs)[bn] else [];
      if good {
        Inside(ds, fi, p0, before);
        ListedIs(ds, p0, before);
        StoredBlockReads(img, fi, ds, bn);
      }
      if b.Err? {
        return if b.error == EOF then Stop else BadLoad(b.error), [];
      }
      if |b.value| < SIZE_DIRENT {
        return Stop, [];
      }
      var st, passed, entryN;
      st, found, passed, entryN := ScanBlock(b.value, consumed, n, have, group);
      if st.Failed? {
        consumed := passed;
        return BadFormat(st.e), found;
      }
      if good {
        ShownInBlock(ds, img.bs, bn, p0, consumed, passed, before, found);
      }
      if n > 0 && have + |found| == n && passed != entryN {
        consumed := passed;
        if good {
          ListedAt(ds, p0, before + found);
        }
        return Full, found;
      }
      consumed, bn := 0, bn + 1;
      if good {
        ListedAt(ds, p0, before + found);
      }
      return if n > 0 && have + |found| == n then Full else Next, found;
    }

    /** The cursor stands behind what has been shown since p0. */
    ghost predicate Listed(ds: seq<Dirent>, p0: nat, shown: seq<Dirent>)
      reads this
    {
      InRange(ds) && p0 <= Position(ds) && shown == Visible(ds[p0..Position(ds)])
    }

    lemma ListedIs(ds: seq<Dirent>, p0: nat, shown: seq<Dirent>)
      requires Listed(ds, p0, shown) && bn < |Blocks(ds, img.bs)|
      ensures consumed <= |Blocks(ds, img.bs)[bn]| && p0 <= Start(ds, img.bs, bn) + consumed <= |ds|
      ensures shown == Visible(ds[p0..Start(ds, img.bs, bn) + consumed])
    {
      hide Blocks, Start, Visible;
    }

    lemma ListedAt(ds: seq<Dirent>, p0: nat, shown: seq<Dirent>)
      requires bn <= |Blocks(ds, img.bs)| && consumed <= if bn < |Blocks(ds, img.bs)| then |Blocks(ds, img.bs)[bn]| else 0
      requires p0 <= Start(ds, img.bs, bn) + consumed <= |ds| && shown == Visible(ds[p0..Start(ds, img.bs, bn) + consumed])
      ensures Listed(ds, p0, shown)
    {
      hide Blocks, Start, Visible;
    }

    lemma Inside(ds: seq<Dirent>, fi: Inode, p0: nat, shown: seq<Dirent>)
      requires Packed(ds) && ReadInfo(img, nid) == Ok(fi) && Listed(ds, p0, shown) && bn * img.bs < fi.size
      ensures bn < |Blocks(ds, img.bs)| && ValidNames(Names(ds)) && Stored(img, fi, DirBytes(ds, img.bs))
    {
      hide LoadBlock, ReadInfo, DirBytes, Blocks, ValidNames;
      PastLastBlock(img, fi, ds);
    }

    lemma PackedFacts(ds: seq<Dirent>)
      ensures Packed(ds) ==>
                && ReadInfo(img, nid).Ok? && ValidNames(Names(ds))
                && Stored(img, ReadInfo(img, nid).value, DirBytes(ds, img.bs))
    {
    }

    lemma AtEnd(ds: seq<Dirent>, fi: Inode)
      requires Packed(ds) && InRange(ds) && ReadInfo(img, nid) == Ok(fi) && bn * img.bs >= fi.size
      ensures Position(ds) == |ds|
    {
      hide LoadBlock, ReadInfo, DirBytes;
      StartOfEnd(ds, img.bs);
      if bn < |Blocks(ds, img.bs)| {
        StoredBlockReads(img, fi, ds, bn);
      }
    }

    lemma Finish(ds: seq<Dirent>, p0: nat, n: int, ents: seq<Dirent>)
      requires InRange(ds) && p0 <= Position(ds) && ents == Visible(ds[p0..Position(ds)])
      requires (n > 0 && |ents| == n) || (Position(ds) == |ds| && (n > 0 ==> |ents| < n))
      ensures ents == if n > 0 then Take(Visible(ds[p0..]), n) else Visible(ds[p0..])
      ensures Rest(ds) == if n > 0 then Drop(Visible(ds[p0..]), n) else []
    {
      var p := Position(ds);
      VisiblePrefix(ds, p0, p, |ds|);
      assert ds[p0..|ds|] == ds[p0..] && ds[p..|ds|] == ds[p..];
      VisibleNone(ds, |ds|);
      assert ds[|ds|..] == ds[|ds|..|ds|];
    }
  }

  /**
   Resuming a listing: calls with any positive counts return, one after the other, the first entries
   still to be listed, as many as the counts add up to; a call that finds fewer than it asks for says
   EOF, and past the end every call returns nothing and EOF.
   */
  method ListInBatches(d: Dir, ns: seq<nat>, ghost ds: seq<Dirent>) returns (calls: seq<seq<Dirent>>, stats: seq<ReadStatus>)
    requires BlockSize(d.img.bs) && forall n <- ns :: n > 0
    modifies d
    ensures |calls| == |stats| == |ns|
    ensures d.Packed(ds) && old(d.InRange(ds)) ==>
              && d.InRange(ds) && Joined(calls) == Take(old(d.Rest(ds)), Sum(ns)) && d.Rest(ds) == Drop(old(d.Rest(ds)), Sum(ns))
              && forall k :: 0 <= k < |ns| ==> OneCall(old(d.Rest(ds)), ns, k, calls[k], stats[k])
  {
    hide Dir.Packed, Dir.InRange, Dir.Rest, Take, Drop, Batched, Joined, Sum, OneCall;
    calls, stats := [], [];
    ghost var good := d.Packed(ds) && d.InRange(ds);
    ghost var all := if good then d.Rest(ds) else [];
    NoneTaken(all, ns);
    var k := 0;
    while k < |ns|
      invariant k <= |ns| && |calls| == |stats| == k
      invariant good ==> d.InRange(ds) && Batched(all, ns, calls, stats) && d.Rest(ds) == Drop(all, Sum(ns[..k]))
    {
      assert ns[k] in ns;
      var status, ents := d.ReadDir(ns[k], ds);
      if good {
        BatchedMore(all, ns, calls, stats, ents, status);
      }
      calls, stats, k := calls + [ents], stats + [status], k + 1;
    }
    assert ns[..k] == ns;
    if good {
      BatchedAll(all, ns, calls, stats);
    }
  }

  /** The first calls of a series. */
  ghost predicate Batched(all: seq<Dirent>, ns: seq<nat>, calls: seq<seq<Dirent>>, stats: seq<ReadStatus>) {
    && |calls| == |stats| <= |ns| && Joined(calls) == Take(all, Sum(ns[..|calls|]))
    && forall j :: 0 <= j < |calls| ==> OneCall(all, ns, j, calls[j], stats[j])
  }

  lemma BatchedMore(all: seq<Dirent>, ns: seq<nat>, calls: seq<seq<Dirent>>, stats: seq<ReadStatus>, ents: seq<Dirent>, status: ReadStatus)
    requires Batched(all, ns, calls, stats) && |calls| < |ns|
    requires ents == Take(Drop(all, Sum(ns[..|calls|])), ns[|calls|]) && status == if |ents| < ns[|calls|] then AtEOF else Fine
    ensures Batched(all, ns, calls + [ents], stats + [status])
    ensures Drop(Drop(all, Sum(ns[..|calls|])), ns[|calls|]) == Drop(all, Sum(ns[..|calls| + 1]))
  {
    hide OneCall, Take, Drop;
    var k := |calls|;
    TakeMore(all, Sum(ns[..k]), ns[k]);
    CallIs(all, ns, k, ents, status);
    assert (calls + [ents])[..k] == calls && ns[..k + 1][..k] == ns[..k];
  }

  lemma BatchedAll(all: seq<Dirent>, ns: seq<nat>, calls: seq<seq<Dirent>>, stats: seq<ReadStatus>)
    requires Batched(all, ns, calls, stats) && |calls| == |ns|
    ensures Joined(calls) == Take(all, Sum(ns)) && forall k :: 0 <= k < |ns| ==> OneCall(all, ns, k, calls[k], stats[k])
  {
    hide OneCall, Take, Joined, Sum;
    assert ns[..|ns|] == ns;
  }

  /** What call k of a series returns, from the entries that there were at first. */
  ghost predicate OneCall(all: seq<Dirent>, ns: seq<nat>, k: nat, ents: seq<Dirent>, status: ReadStatus)
    requires k < |ns|
  {
    && ents == Take(Drop(all, Sum(ns[..k])), ns[k]) && status == (if |ents| < ns[k] then AtEOF else Fine)
    && (Sum(ns[..k]) >= |all| && ns[k] > 0 ==> ents == [] && status == AtEOF)
  }

  lemma CallIs(all: seq<Dirent>, ns: seq<nat>, k: nat, ents: seq<Dirent>, status: ReadStatus)
    requires k < |ns|
    ensures ents == Take(Drop(all, Sum(ns[..k])), ns[k]) && status == (if |ents| < ns[k] then AtEOF else Fine)
            ==> OneCall(all, ns, k, ents, status)
  {
  }

  lemma NoneTaken(all: seq<Dirent>, ns: seq<nat>)
    ensures Batched(all, ns, [], []) && Drop(all, Sum(ns[..0])) == all
  {
  }
}
