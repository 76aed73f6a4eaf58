/**
 Directory lookup over raw bytes (erofs.go): a binary search across blocks by first name, then
 one inside the block. On data that the writer packed, both are exact.
 */
module DirReader {
  import opened Bytes
  import opened Order
  import opened Format
  import opened Dirents
  import opened Reader

  /** A name ends at its first NUL. */
  function TrimNul(b: bytes): (r: bytes)
    ensures |r| <= |b| && r == b[..|r|]
  {
    if b == [] || b[0] == 0 then [] else [b[0]] + TrimNul(b[1..])
  }

  lemma {:induction false} TrimPadding(name: bytes, z: nat)
    requires 0 !in name
    ensures TrimNul(name + Zeros(z)) == name
  {
    if name == [] {
      assert name + Zeros(z) == Zeros(z);
    } else {
      assert name[0] in name;
      assert forall x :: x in name[1..] ==> x in name;
      TrimPadding(name[1..], z);
      assert (name + Zeros(z))[1..] == name[1..] + Zeros(z);
    }
  }

  /** uint16(len(buf)): a full 64 KiB block wraps to 0. */
  function BufEnd(buf: bytes): u16 { |buf| % 0x1_0000 }

  function BlockFirstName(buf: bytes): Result<bytes> {
    if |buf| < SIZE_DIRENT then Err(Invalid)
    else
      var nameOff := Get16(buf, 8);
      var n := nameOff / SIZE_DIRENT;
      if n == 0 || nameOff > |buf| then Err(Invalid)
      else if n > 1 && SIZE_DIRENT + 8 + 2 > |buf| then Err(Invalid)
      else
        var nameEnd := if n > 1 then Get16(buf, SIZE_DIRENT + 8) else BufEnd(buf);
        if nameOff > nameEnd || nameEnd > |buf| then Err(Invalid)
        else Ok(TrimNul(buf[nameOff..nameEnd]))
  }

  /** blockDirent: entry i of n, its nid, file type and name. */
  function BlockDirent(buf: bytes, i: nat, n: nat): Result<Dirent> {
    var off := SIZE_DIRENT * i;
    if off + SIZE_DIRENT > |buf| then Err(Invalid)
    else if i < n - 1 && SIZE_DIRENT * (i + 1) + 8 + 2 > |buf| then Err(Invalid)
    else
      var nameOff := Get16(buf, off + 8);
      var nameEnd := if i < n - 1 then Get16(buf, SIZE_DIRENT * (i + 1) + 8) else BufEnd(buf);
      if nameOff > nameEnd || nameEnd > |buf| then Err(Invalid)
      else
        var raw := buf[nameOff..nameEnd];
        Ok(Dirent(if i == n - 1 then TrimNul(raw) else raw, Get64(buf, off), buf[off + 10]))
  }

  /** Binary search among entries lo..hi, each decoded by `entry`. */
  function SearchEntries(entry: nat -> Result<Dirent>, target: bytes, lo: nat, hi: nat): Result<(u64, FileMode)>
    requires lo <= hi
    decreases hi - lo
  {
    if lo == hi then Err(NotExist)
    else
      var mid := lo + (hi - lo) / 2;
      match entry(mid)
      case Err(e) => Err(e)
      case Ok(d) =>
        var c := Compare(d.name, target);
        if c == 0 then Ok((d.nid, FileModeOf(d.ftype)))
        else if c < 0 then SearchEntries(entry, target, mid + 1, hi)
        else SearchEntries(entry, target, lo, mid)
  }

  function EntryOf(buf: bytes, n: nat): nat -> Result<Dirent> {
    (i: nat) => BlockDirent(buf, i, n)
  }

  function LookupInBlock(buf: bytes, target: bytes): Result<(u64, FileMode)> {
    if |buf| < SIZE_DIRENT then Err(Invalid)
    else
      var nameOff := Get16(buf, 8);
      if nameOff % SIZE_DIRENT != 0 || nameOff > |buf| then Err(Invalid)
      else
        var n := nameOff / SIZE_DIRENT;
        SearchEntries(EntryOf(buf, n), target, 0, n)
  }

  /** lookupBlock */
  method LookupBlock(buf: bytes, target: bytes) returns (r: Result<(u64, FileMode)>)
    ensures r == LookupInBlock(buf, target)
  {
    if |buf| < SIZE_DIRENT {
      return Err(Invalid);
    }
    var nameOff := Get16(buf, 8);
    if nameOff % SIZE_DIRENT != 0 || nameOff > |buf| {
      return Err(Invalid);
    }
    r := SearchLoop(EntryOf(buf, nameOff / SIZE_DIRENT), target, nameOff / SIZE_DIRENT);
  }

  /** The lo/hi loop of lookupBlock. */
  method SearchLoop(entry: nat -> Result<Dirent>, target: bytes, n: nat) returns (r: Result<(u64, FileMode)>)
    ensures r == SearchEntries(entry, target, 0, n)
  {
    var lo: nat, hi: nat := 0, n;
    while lo < hi
      invariant lo <= hi <= n
      invariant SearchEntries(entry, target, lo, hi) == SearchEntries(entry, target, 0, n)
    {
      var mid := lo + (hi - lo) / 2;
      var d := entry(mid);
      if d.Err? {
        return Err(d.error);
      }
      var c := Compare(d.value.name, target);
      if c == 0 {
        return Ok((d.value.nid, FileModeOf(d.value.ftype)));
      } else if c < 0 {
        lo := mid + 1;
      } else {
        hi := mid;
      }
    }
    return Err(NotExist);
  }

  /** What a lookup should answer: the entry of that name, if any. */
  function Find(ds: seq<Dirent>, target: bytes): Result<(u64, FileMode)> {
    if ds == [] then Err(NotExist)
    else if ds[0].name == target then Ok((ds[0].nid, FileModeOf(ds[0].ftype)))
    else Find(ds[1..], target)
  }

  lemma {:induction false} FindAt(ds: seq<Dirent>, i: nat)
    requires i < |ds| && Ascending(Names(ds))
    ensures Find(ds, ds[i].name) == Ok((ds[i].nid, FileModeOf(ds[i].ftype)))
  {
    if i > 0 {
      assert Less(Names(ds)[0], Names(ds)[i]);
      TailAscending(NameOf, ds);
      FindAt(ds[1..], i - 1);
    }
  }

  lemma {:induction false} FindNone(ds: seq<Dirent>, target: bytes)
    requires forall d <- ds :: d.name != target
    ensures Find(ds, target) == Err(NotExist)
  {
    if ds != [] {
      FindNone(ds[1..], target);
    }
  }

  /** A block as it lies in the image: entries, then zeros. */
  ghost predicate IsBlock(buf: bytes, b: seq<Dirent>) {
    && b != []
    && ValidNames(Names(b))
    && Need(Names(b)) <= |buf| <= 0x1_0000
    && buf == BlockBytes(b) + Zeros(|buf| - Need(Names(b)))
  }

  lemma BlockFacts(buf: bytes, b: seq<Dirent>)
    requires IsBlock(buf, b)
    ensures ValidNames(Names(b)) && Need(Names(b)) <= |buf| <= 0x1_0000
    ensures buf == Headers(b, |b|) + Concat(Names(b)) + Zeros(|buf| - Need(Names(b)))
  {
  }

  lemma OffsetParts(names: seq<bytes>, i: nat)
    requires i <= |names|
    ensures NameOffset(names, i) == SIZE_DIRENT * |names| + NameLen(names[..i])
    ensures NameLen(names[..0]) == 0
  {
  }

  lemma {:induction false} HeaderIn(b: seq<Dirent>, n: nat, i: nat)
    requires i < n <= |b|
    ensures At(Headers(b, n), SIZE_DIRENT * i, Header(b, i))
  {
    hide Header, At;
    var before, last := Headers(b, n - 1), Header(b, n - 1);
    AtThree(before, last, []);
    assert before + last + [] == Headers(b, n);
    if i < n - 1 {
      HeaderIn(b, n - 1, i);
      AtSub(Headers(b, n), 0, before, SIZE_DIRENT * i, Header(b, i));
    }
  }

  lemma NameIn(names: seq<bytes>, i: nat)
    requires i < |names|
    ensures At(Concat(names), NameLen(names[..i]), names[i])
    ensures NameLen(names[..i]) + |names[i]| == NameLen(names[..i + 1])
  {
    NameLenStep(names, i);
    var one: seq<bytes> := [names[i]];
    assert one[1..] == [] && Concat(one) == names[i];
    assert names == names[..i] + one + names[i + 1..];
    ConcatAppend(names[..i] + one, names[i + 1..]);
    ConcatAppend(names[..i], one);
    AtThree(Concat(names[..i]), names[i], Concat(names[i + 1..]));
  }

  /** Where entry i of a block lies: its header and its name. */
  lemma HeaderAt(buf: bytes, b: seq<Dirent>, i: nat)
    requires IsBlock(buf, b) && i < |b|
    ensures At(buf, SIZE_DIRENT * i, Header(b, i))
  {
    HeaderIn(b, |b|, i);
    InFirst(Headers(b, |b|), Concat(Names(b)), Zeros(|buf| - Need(Names(b))), SIZE_DIRENT * i, Header(b, i));
  }

  lemma NameAt(buf: bytes, b: seq<Dirent>, i: nat)
    requires IsBlock(buf, b) && i < |b|
    ensures At(buf, NameOffset(Names(b), i), b[i].name)
  {
    var names := Names(b);
    hide *;
    BlockFacts(buf, b);
    NameIn(names, i);
    InSecond(Headers(b, |b|), Concat(names), Zeros(|buf| - Need(names)), NameLen(names[..i]), names[i]);
    OffsetParts(names, i);
  }

  lemma InFirst(x: bytes, y: bytes, z: bytes, o: nat, p: bytes)
    requires At(x, o, p)
    ensures At(x + y + z, o, p)
  {
    AtThree(x, y, z);
    AtSub(x + y + z, 0, x, o, p);
  }

  lemma InSecond(x: bytes, y: bytes, z: bytes, o: nat, p: bytes)
    requires At(y, o, p)
    ensures At(x + y + z, |x| + o, p)
  {
    AtThree(x, y, z);
    AtSub(x + y + z, |x|, y, o, p);
  }

  lemma OffsetStep(names: seq<bytes>, i: nat)
    requires ValidNames(names) && i < |names|
    ensures SIZE_DIRENT * |names| <= NameOffset(names, i)
    ensures NameOffset(names, i) + |names[i]| == NameOffset(names, i + 1) <= Need(names)
    ensures |names[i]| > 0
  {
    NameLenStep(names, i);
    assert names[i] in names;
    assert names == names[..i + 1] + names[i + 1..];
    NameLenConcat(names[..i + 1], names[i + 1..]);
  }

  lemma FieldsOfHeader(buf: bytes, b: seq<Dirent>, i: nat)
    requires IsBlock(buf, b) && i < |b|
    ensures SIZE_DIRENT * (i + 1) <= |buf|
    ensures Get64(buf, SIZE_DIRENT * i) == b[i].nid
    ensures Get16(buf, SIZE_DIRENT * i + 8) == NameOffset(Names(b), i)
    ensures buf[SIZE_DIRENT * i + 10] == b[i].ftype
  {
    HeaderAt(buf, b, i);
    OffsetStep(Names(b), i);
    LoadHeader(buf, SIZE_DIRENT * i, b[i].nid, NameOffset(Names(b), i), b[i].ftype);
  }

  lemma LoadHeader(buf: bytes, o: nat, nid: u64, off: u16, ftype: byte)
    requires At(buf, o, U64(nid) + U16(off) + [ftype, 0])
    ensures Get64(buf, o) == nid && Get16(buf, o + 8) == off && buf[o + 10] == ftype
  {
    hide U64, U16, Get64, Get16;
    AtParts(buf, o, U64(nid), U16(off), [ftype, 0]);
    AtIndex(buf, o + 10, [ftype, 0], 0);
    LoadStored64(buf, o, nid);
    LoadStored16(buf, o + 8, off);
  }

  /**
   blockDirent returns exactly the entry that was written, except for the last entry of a full
   64 KiB block, whose name end wraps to 0: that one is always a format error.
   */
  lemma BlockDirentExact(buf: bytes, b: seq<Dirent>, i: nat)
    requires IsBlock(buf, b) && i < |b|
    ensures BlockDirent(buf, i, |b|) == if i == |b| - 1 && |buf| == 0x1_0000 then Err(Invalid) else Ok(b[i])
  {
    hide *;
    BlockFacts(buf, b);
    FieldsOfHeader(buf, b, i);
    NameAt(buf, b, i);
    OffsetStep(Names(b), i);
    var off := NameOffset(Names(b), i);
    if i < |b| - 1 {
      FieldsOfHeader(buf, b, i + 1);
      MiddleDirent(buf, i, |b|, b[i], off);
    } else {
      LastName(buf, b);
      LastDirent(buf, i, b[i], off);
    }
  }

  lemma MiddleDirent(buf: bytes, i: nat, n: nat, d: Dirent, off: nat)
    requires i < n - 1 && SIZE_DIRENT * (i + 2) <= |buf|
    requires Get64(buf, SIZE_DIRENT * i) == d.nid && buf[SIZE_DIRENT * i + 10] == d.ftype
    requires Get16(buf, SIZE_DIRENT * i + 8) == off
    requires Get16(buf, SIZE_DIRENT * (i + 1) + 8) == off + |d.name|
    requires At(buf, off, d.name)
    ensures BlockDirent(buf, i, n) == Ok(d)
  {
  }

  lemma LastDirent(buf: bytes, i: nat, d: Dirent, off: nat)
    requires SIZE_DIRENT * (i + 1) <= |buf| <= 0x1_0000
    requires Get64(buf, SIZE_DIRENT * i) == d.nid && buf[SIZE_DIRENT * i + 10] == d.ftype
    requires Get16(buf, SIZE_DIRENT * i + 8) == off
    requires 0 < off < |buf| && TrimNul(buf[off..]) == d.name
    ensures BlockDirent(buf, i, i + 1) == if |buf| == 0x1_0000 then Err(Invalid) else Ok(d)
  {
    assert buf[off..|buf|] == buf[off..];
  }

  /** The last name runs to the padding. */
  lemma LastNamePadded(buf: bytes, b: seq<Dirent>)
    requires IsBlock(buf, b)
    ensures 0 < NameOffset(Names(b), |b| - 1) < |buf| && Need(Names(b)) <= |buf|
    ensures buf[NameOffset(Names(b), |b| - 1)..] == b[|b| - 1].name + Zeros(|buf| - Need(Names(b)))
  {
    hide NameOffset, Need, At;
    var names := Names(b);
    var i := |b| - 1;
    BlockStarts(buf, b);
    NameAt(buf, b, i);
    OffsetStep(names, i);
    NeedIs(names);
    assert names[i] in names && names[i] == b[i].name;
    AtThenZeros(buf, NameOffset(names, i), names[i], Need(names));
  }

  lemma BlockStarts(buf: bytes, b: seq<Dirent>)
    requires IsBlock(buf, b)
    ensures b != [] && ValidNames(Names(b)) && Need(Names(b)) <= |buf| <= 0x1_0000
    ensures buf[Need(Names(b))..] == Zeros(|buf| - Need(Names(b)))
  {
    hide ValidNames, Need, BlockBytes;
    BlockBytesLength(b);
  }

  lemma NeedIs(names: seq<bytes>)
    requires names != []
    ensures Need(names) == NameOffset(names, |names| - 1) + |names[|names| - 1]|
    ensures 0 < NameOffset(names, |names| - 1)
  {
    NameLenStep(names, |names| - 1);
    assert names[..|names|] == names;
  }

  lemma AtThenZeros(buf: bytes, off: nat, name: bytes, end: nat)
    requires At(buf, off, name) && end == off + |name| <= |buf| && buf[end..] == Zeros(|buf| - end)
    ensures buf[off..] == name + Zeros(|buf| - end)
  {
    assert buf[off..] == buf[off..end] + buf[end..];
  }

  lemma LastName(buf: bytes, b: seq<Dirent>)
    requires IsBlock(buf, b)
    ensures 0 < NameOffset(Names(b), |b| - 1) < |buf|
    ensures TrimNul(buf[NameOffset(Names(b), |b| - 1)..]) == b[|b| - 1].name
  {
    hide NameOffset, Need;
    LastNamePadded(buf, b);
    assert Names(b)[|b| - 1] in Names(b);
    TrimPadding(b[|b| - 1].name, |buf| - Need(Names(b)));
  }

  /** Likewise for the first name, which decides the search across blocks. */
  lemma BlockFirstNameExact(buf: bytes, b: seq<Dirent>)
    requires IsBlock(buf, b)
    ensures BlockFirstName(buf) == if |b| == 1 && |buf| == 0x1_0000 then Err(Invalid) else Ok(b[0].name)
  {
    EntryCount(buf, b);
    if |b| > 1 {
      SecondOffset(buf, b);
      assert Names(b)[0] in Names(b);
      FirstOfMany(buf, b[0].name, |b|);
    } else {
      LastName(buf, b);
      assert Names(b)[..0] == [];
      FirstAlone(buf, b[0].name);
    }
  }

  lemma EntryCount(buf: bytes, b: seq<Dirent>)
    requires IsBlock(buf, b)
    ensures |b| > 0 && SIZE_DIRENT * |b| < |buf| && Get16(buf, 8) == SIZE_DIRENT * |b|
  {
    FieldsOfHeader(buf, b, 0);
    OffsetStep(Names(b), 0);
    assert Names(b)[..0] == [];
  }

  lemma SecondOffset(buf: bytes, b: seq<Dirent>)
    requires IsBlock(buf, b) && |b| > 1
    ensures 2 * SIZE_DIRENT <= |buf| && Get16(buf, SIZE_DIRENT + 8) == SIZE_DIRENT * |b| + |b[0].name|
    ensures At(buf, SIZE_DIRENT * |b|, b[0].name)
  {
    hide *;
    BlockFacts(buf, b);
    OffsetParts(Names(b), 0);
    FieldsOfHeader(buf, b, 1);
    NameAt(buf, b, 0);
    OffsetStep(Names(b), 0);
  }

  lemma FirstOfMany(buf: bytes, name: bytes, n: nat)
    requires n > 1 && SIZE_DIRENT * 2 <= |buf|
    requires Get16(buf, 8) == SIZE_DIRENT * n && Get16(buf, SIZE_DIRENT + 8) == SIZE_DIRENT * n + |name|
    requires At(buf, SIZE_DIRENT * n, name) && 0 !in name
    ensures BlockFirstName(buf) == Ok(name)
  {
    TrimPadding(name, 0);
    assert name + Zeros(0) == name;
  }

  lemma FirstAlone(buf: bytes, name: bytes)
    requires SIZE_DIRENT < |buf| <= 0x1_0000 && Get16(buf, 8) == SIZE_DIRENT
    requires TrimNul(buf[SIZE_DIRENT..]) == name
    ensures BlockFirstName(buf) == if |buf| == 0x1_0000 then Err(Invalid) else Ok(name)
  {
    assert buf[SIZE_DIRENT..|buf|] == buf[SIZE_DIRENT..];
  }

  /** The first n entries decode as written. */
  ghost predicate Decodes(entry: nat -> Result<Dirent>, b: seq<Dirent>, n: nat)
    requires n <= |b|
  {
    forall i :: 0 <= i < n ==> entry(i) == Ok(b[i])
  }

  /** Binary search over entries that decode to an ascending list is exact. */
  lemma {:induction false} SearchEntriesExact(entry: nat -> Result<Dirent>, b: seq<Dirent>, target: bytes, lo: nat, hi: nat)
    requires lo <= hi <= |b| && Decodes(entry, b, hi) && Ascending(Names(b))
    requires forall j :: 0 <= j < lo ==> b[j].name != target
    requires forall j :: hi <= j < |b| ==> b[j].name != target
    ensures SearchEntries(entry, target, lo, hi) == Find(b, target)
    decreases hi - lo
  {
    hide Ascending, Find, Compare, Less, Names;
    if lo == hi {
      FindNone(b, target);
    } else {
      var mid := lo + (hi - lo) / 2;
      assert entry(mid) == Ok(b[mid]);
      var c := Compare(b[mid].name, target);
      if c == 0 {
        FindAt(b, mid);
      } else if c < 0 {
        NamesBelow(b, mid, target);
        SearchEntriesExact(entry, b, target, mid + 1, hi);
      } else {
        NamesAbove(b, mid, target);
        SearchEntriesExact(entry, b, target, lo, mid);
      }
    }
  }

  /** Where a search of n entries that always moves right, now at lo, has one or two entries left: it then probes the last. */
  function LastStretch(lo: nat, n: nat): (k: nat)
    requires lo < n
    ensures lo <= k < n <= k + 2
    decreases n - lo
  {
    if n - lo <= 2 then lo else LastStretch(lo + (n - lo) / 2 + 1, n)
  }

  /** The search for this name in a block comes to probe the block's last entry. */
  ghost predicate ProbesLast(b: seq<Dirent>, target: bytes) {
    b != [] && AllBelow(b, LastStretch(0, |b|), target)
  }

  /** The first n names are below the target. */
  ghost predicate AllBelow(b: seq<Dirent>, n: nat, target: bytes)
    requires n <= |b|
  {
    forall j :: 0 <= j < n ==> Less(b[j].name, target)
  }

  /** What a search of a block answers; in a full 64 KiB block the last entry cannot be decoded. */
  ghost function BlockAnswer(b: seq<Dirent>, target: bytes, full: bool): Result<(u64, FileMode)> {
    if full && ProbesLast(b, target) then Err(Invalid) else Find(b, target)
  }

  /** The search when the last entry cannot be decoded, from where all names before lo are below the target. */
  lemma {:induction false} SearchWithoutLast(entry: nat -> Result<Dirent>, b: seq<Dirent>, target: bytes, lo: nat)
    requires lo < |b| && Decodes(entry, b, |b| - 1) && entry(|b| - 1) == Err(Invalid) && Ascending(Names(b))
    requires AllBelow(b, lo, target)
    ensures SearchEntries(entry, target, lo, |b|)
         == if AllBelow(b, LastStretch(lo, |b|), target) then Err(Invalid) else Find(b, target)
    decreases |b| - lo
  {
    hide Ascending, Find, Names, Compare, AllBelow, SearchEntries, Decodes;
    var mid := lo + (|b| - lo) / 2;
    if |b| - lo <= 2 {
      ProbeFails(entry, target, lo, |b|);
    } else {
      DecodedAt(entry, b, |b| - 1, mid);
      ProbeAt(entry, target, lo, |b|, b[mid]);
      if Less(b[mid].name, target) {
        NamesBelow(b, mid, target);
        SearchWithoutLast(entry, b, target, mid + 1);
      } else {
        NotBelow(b, mid, LastStretch(lo, |b|), target);
        if b[mid].name == target {
          FindAt(b, mid);
        } else {
          NamesAbove(b, mid, target);
          BelowDiffers(b, lo, target);
          DecodesFewer(entry, b, |b| - 1, mid);
          SearchEntriesExact(entry, b, target, lo, mid);
        }
      }
    }
  }

  lemma ProbeFails(entry: nat -> Result<Dirent>, target: bytes, lo: nat, hi: nat)
    requires lo < hi <= lo + 2 && entry(hi - 1) == Err(Invalid)
    ensures SearchEntries(entry, target, lo, hi) == Err(Invalid)
  {
  }

  lemma ProbeAt(entry: nat -> Result<Dirent>, target: bytes, lo: nat, hi: nat, d: Dirent)
    requires lo < hi && entry(lo + (hi - lo) / 2) == Ok(d)
    ensures var mid := lo + (hi - lo) / 2;
            SearchEntries(entry, target, lo, hi)
            == if d.name == target then Ok((d.nid, FileModeOf(d.ftype)))
               else if Less(d.name, target) then SearchEntries(entry, target, mid + 1, hi)
               else SearchEntries(entry, target, lo, mid)
  {
    hide Compare;
  }

  lemma DecodedAt(entry: nat -> Result<Dirent>, b: seq<Dirent>, n: nat, i: nat)
    requires i < n <= |b| && Decodes(entry, b, n)
    ensures entry(i) == Ok(b[i])
  {
  }

  lemma DecodesFewer(entry: nat -> Result<Dirent>, b: seq<Dirent>, n: nat, k: nat)
    requires k <= n <= |b| && Decodes(entry, b, n)
    ensures Decodes(entry, b, k)
  {
  }

  lemma NotBelow(b: seq<Dirent>, i: nat, n: nat, target: bytes)
    requires i < n <= |b| && !Less(b[i].name, target)
    ensures !AllBelow(b, n, target)
  {
  }

  lemma BelowDiffers(b: seq<Dirent>, n: nat, target: bytes)
    requires n <= |b| && AllBelow(b, n, target)
    ensures forall j :: 0 <= j < n ==> b[j].name != target
  {
    hide Compare;
  }

  lemma NamesBelow(b: seq<Dirent>, mid: nat, target: bytes)
    requires Ascending(Names(b)) && mid < |b| && Less(b[mid].name, target)
    ensures AllBelow(b, mid + 1, target)
    ensures forall j :: 0 <= j <= mid ==> b[j].name != target
  {
    forall j | 0 <= j < mid
      ensures Less(b[j].name, target)
    {
      assert Less(Names(b)[j], Names(b)[mid]);
      LessTrans(b[j].name, b[mid].name, target);
    }
  }

  lemma NamesAbove(b: seq<Dirent>, mid: nat, target: bytes)
    requires Ascending(Names(b)) && mid < |b| && Compare(b[mid].name, target) > 0
    ensures forall j :: mid <= j < |b| ==> b[j].name != target
  {
    CompareFlip(b[mid].name, target);
    forall j | mid < j < |b|
      ensures b[j].name != target
    {
      assert Less(Names(b)[mid], Names(b)[j]);
      LessTrans(target, b[mid].name, b[j].name);
    }
  }

  lemma BlockDecodes(buf: bytes, b: seq<Dirent>)
    requires IsBlock(buf, b)
    ensures var entry := EntryOf(buf, |b|);
            Decodes(entry, b, |b| - 1) && entry(|b| - 1) == if |buf| == 0x1_0000 then Err(Invalid) else Ok(b[|b| - 1])
  {
    hide IsBlock, BlockDirent;
    EntryCount(buf, b);
    forall i | 0 <= i < |b|
      ensures EntryOf(buf, |b|)(i) == if i == |b| - 1 && |buf| == 0x1_0000 then Err(Invalid) else Ok(b[i])
    {
      BlockDirentExact(buf, b, i);
    }
  }

  lemma BlockAscending(buf: bytes, b: seq<Dirent>)
    requires IsBlock(buf, b)
    ensures b != [] && Ascending(Names(b)) && |buf| <= 0x1_0000
  {
  }

  lemma LookupInBlockExact(buf: bytes, b: seq<Dirent>, target: bytes)
    requires IsBlock(buf, b)
    ensures b != [] && LookupInBlock(buf, target) == BlockAnswer(b, target, |buf| == 0x1_0000)
  {
    hide IsBlock, BlockDirent, Ascending, Find, Less, Names;
    BlockDecodes(buf, b);
    BlockAscending(buf, b);
    EntryCount(buf, b);
    CountFromOffset(|b|);
    if |buf| == 0x1_0000 {
      SearchWithoutLast(EntryOf(buf, |b|), b, target, 0);
    } else {
      SearchEntriesExact(EntryOf(buf, |b|), b, target, 0, |b|);
    }
  }

  lemma CountFromOffset(n: nat)
    ensures SIZE_DIRENT * n % SIZE_DIRENT == 0 && SIZE_DIRENT * n / SIZE_DIRENT == n
  {
  }

  /**
   Binary search across blocks lo..hi by first name; `last` is the block kept so far, the last one
   whose first name is not above the target.
   */
  function SearchBlocks(load: nat -> Result<bytes>, target: bytes, lo: nat, hi: nat, last: Option<bytes>): Result<(u64, FileMode)>
    requires lo <= hi
    decreases hi - lo
  {
    if lo == hi then
      match last
      case None => Err(NotExist)
      case Some(buf) => LookupInBlock(buf, target)
    else
      var mid := lo + (hi - lo) / 2;
      match load(mid)
      case Err(e) => if e == EOF then SearchBlocks(load, target, lo, mid, last) else Err(e)
      case Ok(buf) =>
        match BlockFirstName(buf)
        case Err(e) => Err(e)
        case Ok(first) =>
          if Compare(first, target) <= 0 then SearchBlocks(load, target, mid + 1, hi, Some(buf))
          else SearchBlocks(load, target, lo, mid, last)
  }

  /** loadBlock at block bn of a directory. */
  function BlockOf(img: Image, ino: Inode): nat -> Result<bytes>
    requires BlockSize(img.bs)
  {
    (bn: nat) => LoadBlock(img, ino, bn * img.bs)
  }

  function DirBlockCount(img: Image, ino: Inode): nat
    requires BlockSize(img.bs)
  {
    if ino.size <= 0 then 0 else CeilDiv(ino.size, img.bs)
  }

  /** dir.lookup */
  function LookupSpec(img: Image, nid: nat, target: bytes): Result<(u64, FileMode)>
    requires BlockSize(img.bs)
  {
    match ReadInfo(img, nid)
    case Err(e) => Err(e)
    case Ok(ino) => SearchBlocks(BlockOf(img, ino), target, 0, DirBlockCount(img, ino), None)
  }

  method Lookup(img: Image, nid: nat, target: bytes) returns (r: Result<(u64, FileMode)>)
    requires BlockSize(img.bs)
    ensures r == LookupSpec(img, nid, target)
  {
    var ino := ReadInfo(img, nid);
    if ino.Err? {
      return Err(ino.error);
    }
    r := SearchBlocksLoop(BlockOf(img, ino.value), target, DirBlockCount(img, ino.value));
  }

  /** The loop of lookup: narrow to the last block that may hold the target, then search it. */
  method SearchBlocksLoop(load: nat -> Result<bytes>, target: bytes, nblocks: nat) returns (r: Result<(u64, FileMode)>)
    ensures r == SearchBlocks(load, target, 0, nblocks, None)
  {
    hide LookupInBlock, BlockFirstName;
    var last: Option<bytes> := None;
    var lo: nat, hi: nat := 0, nblocks;
    while lo < hi
      invariant lo <= hi <= nblocks
      invariant SearchBlocks(load, target, lo, hi, last) == SearchBlocks(load, target, 0, nblocks, None)
    {
      var mid := lo + (hi - lo) / 2;
      var b := load(mid);
      if b.Err? {
        if b.error == EOF {
          hi := mid;
          continue;
        }
        return Err(b.error);
      }
      var first := BlockFirstName(b.value);
      if first.Err? {
        return Err(first.error);
      }
      if Compare(first.value, target) <= 0 {
        last := Some(b.value);
        lo := mid + 1;
      } else {
        hi := mid;
      }
    }
    match last {
      case None => return Err(NotExist);
      case Some(buf) => r := LookupBlock(buf, target);
    }
  }

  /** A result that is a block with these entries, full or not; a full one holds more than one. */
  ghost predicate Holds(r: Result<bytes>, b: seq<Dirent>, full: bool) {
    r.Ok? && IsBlock(r.value, b) && (full <==> |r.value| == 0x1_0000) && (full ==> |b| > 1)
  }

  /** Block bn fills 64 KiB: it is padded up to there, or its entries do so themselves. */
  ghost predicate Full(ds: seq<Dirent>, bs: nat, bn: nat)
    requires bn < |Blocks(ds, bs)|
  {
    bs == 0x1_0000 && (bn + 1 < |Blocks(ds, bs)| || Need(Names(Blocks(ds, bs)[bn])) == 0x1_0000)
  }

  /** The blocks of a packed directory, each at its place. */
  ghost predicate HoldsDir(load: nat -> Result<bytes>, ds: seq<Dirent>, bs: nat) {
    forall bn :: 0 <= bn < |Blocks(ds, bs)| ==> Holds(load(bn), Blocks(ds, bs)[bn], Full(ds, bs, bn))
  }

  lemma HeldBlock(r: Result<bytes>, b: seq<Dirent>, target: bytes, full: bool)
    requires Holds(r, b, full)
    ensures r.Ok? && b != []
    ensures BlockFirstName(r.value) == Ok(b[0].name)
    ensures LookupInBlock(r.value, target) == BlockAnswer(b, target, full)
  {
    hide BlockFirstName, LookupInBlock, BlockAnswer, IsBlock;
    BlockFirstNameExact(r.value, b);
    LookupInBlockExact(r.value, b, target);
  }

  lemma {:induction false} FindInSlice(ds: seq<Dirent>, a: nat, b: nat, target: bytes)
    requires a <= b <= |ds|
    requires forall j :: 0 <= j < a ==> ds[j].name != target
    requires forall j :: b <= j < |ds| ==> ds[j].name != target
    ensures Find(ds, target) == Find(ds[a..b], target)
    decreases a, b
  {
    if a > 0 {
      FindInSlice(ds[1..], a - 1, b - 1, target);
      assert ds[1..][a - 1..b - 1] == ds[a..b];
    } else if b > 0 {
      assert ds[..b][1..] == ds[1..][..b - 1];
      if ds[0].name != target {
        FindInSlice(ds[1..], 0, b - 1, target);
      }
      assert ds[0..b] == ds[..b];
    } else {
      FindNone(ds, target);
    }
  }

  /** First name of block bn not above / above the target. */
  ghost predicate FirstAtMost(ds: seq<Dirent>, bs: nat, bn: nat, target: bytes)
    requires bn < |Blocks(ds, bs)|
  {
    var b := Blocks(ds, bs)[bn];
    b != [] && Compare(b[0].name, target) <= 0
  }

  /** When the range has closed, only the kept block can hold the target. */
  lemma KeptBlock(ds: seq<Dirent>, bs: nat, target: bytes, k: nat)
    requires Ascending(Names(ds)) && k <= |Blocks(ds, bs)|
    requires k > 0 ==> FirstAtMost(ds, bs, k - 1, target)
    requires k < |Blocks(ds, bs)| ==> !FirstAtMost(ds, bs, k, target)
    ensures Find(ds, target) == if k == 0 then Err(NotExist) else Find(Blocks(ds, bs)[k - 1], target)
  {
    hide Find, Blocks, Start;
    var a := if k == 0 then 0 else Start(ds, bs, k - 1);
    var b := Start(ds, bs, k);
    if k > 0 {
      BlockIsSlice(ds, bs, k - 1);
      EarlierNames(ds, a, target);
    }
    if k < |Blocks(ds, bs)| {
      BlockIsSlice(ds, bs, k);
      NamesAbove(ds, b, target);
    } else {
      StartOfEnd(ds, bs);
    }
    FindInSlice(ds, a, b, target);
    if k == 0 {
      StartZero(ds, bs);
      FindNone(ds[0..0], target);
    }
  }

  lemma StartZero(ds: seq<Dirent>, bs: nat)
    ensures Start(ds, bs, 0) == 0
  {
  }

  lemma EarlierNames(ds: seq<Dirent>, a: nat, target: bytes)
    requires Ascending(Names(ds)) && a < |ds| && Compare(ds[a].name, target) <= 0
    ensures forall j :: 0 <= j < a ==> ds[j].name != target
  {
    forall j | 0 <= j < a
      ensures ds[j].name != target
    {
      assert Less(Names(ds)[j], Names(ds)[a]);
      LessTrans(ds[j].name, ds[a].name, target);
    }
  }

  /** Block bn is where the search across blocks looks for the name: the last one whose first name is not above it. */
  ghost predicate Chosen(ds: seq<Dirent>, bs: nat, target: bytes, bn: nat) {
    && bn < |Blocks(ds, bs)| && FirstAtMost(ds, bs, bn, target)
    && (bn + 1 < |Blocks(ds, bs)| ==> !FirstAtMost(ds, bs, bn + 1, target))
  }

  /** The search ends in a full 64 KiB block and comes to probe its last entry. */
  ghost predicate Missed(ds: seq<Dirent>, bs: nat, target: bytes) {
    exists bn: nat :: Chosen(ds, bs, target, bn) && Full(ds, bs, bn) && ProbesLast(Blocks(ds, bs)[bn], target)
  }

  ghost function DirAnswer(ds: seq<Dirent>, bs: nat, target: bytes): Result<(u64, FileMode)> {
    if Missed(ds, bs, target) then Err(Invalid) else Find(ds, target)
  }

  /** First names ascend from block to block. */
  lemma FirstsAscend(ds: seq<Dirent>, bs: nat, bn: nat, more: nat, target: bytes)
    requires Ascending(Names(ds)) && bn <= more < |Blocks(ds, bs)| && FirstAtMost(ds, bs, more, target)
    ensures FirstAtMost(ds, bs, bn, target)
  {
    hide Blocks, Start, Compare, Names;
    BlockIsSlice(ds, bs, bn);
    BlockIsSlice(ds, bs, more);
    if bn < more {
      StartsGrow(ds, bs, bn, more);
      var a, b := ds[Start(ds, bs, bn)].name, ds[Start(ds, bs, more)].name;
      assert Less(a, b);
      if b != target {
        LessTrans(a, b, target);
      }
    }
  }

  lemma {:induction false} StartsGrow(ds: seq<Dirent>, bs: nat, bn: nat, more: nat)
    requires bn < more <= |Blocks(ds, bs)|
    ensures Start(ds, bs, bn) < Start(ds, bs, more)
  {
    hide Start, Blocks;
    BlockIsSlice(ds, bs, more - 1);
    if bn < more - 1 {
      StartsGrow(ds, bs, bn, more - 1);
    }
  }

  /** Only one block is chosen. */
  lemma ChosenOnce(ds: seq<Dirent>, bs: nat, target: bytes, bn: nat, other: nat)
    requires Ascending(Names(ds)) && Chosen(ds, bs, target, bn) && Chosen(ds, bs, target, other)
    ensures bn == other
  {
    hide FirstAtMost;
    if bn < other {
      FirstsAscend(ds, bs, bn + 1, other, target);
    } else if other < bn {
      FirstsAscend(ds, bs, other + 1, bn, target);
    }
  }

  /** When the range has closed, the kept block decides. */
  lemma KeptAnswer(ds: seq<Dirent>, bs: nat, target: bytes, k: nat)
    requires Ascending(Names(ds)) && k <= |Blocks(ds, bs)|
    requires k > 0 ==> FirstAtMost(ds, bs, k - 1, target)
    requires k < |Blocks(ds, bs)| ==> !FirstAtMost(ds, bs, k, target)
    ensures DirAnswer(ds, bs, target)
         == if k == 0 then Err(NotExist) else BlockAnswer(Blocks(ds, bs)[k - 1], target, Full(ds, bs, k - 1))
  {
    hide Find, Blocks, FirstAtMost, Full, ProbesLast, Ascending;
    KeptBlock(ds, bs, target, k);
    if k > 0 {
      assert Chosen(ds, bs, target, k - 1);
    }
    if Missed(ds, bs, target) {
      var bn: nat :| Chosen(ds, bs, target, bn) && Full(ds, bs, bn) && ProbesLast(Blocks(ds, bs)[bn], target);
      if k > 0 {
        ChosenOnce(ds, bs, target, k - 1, bn);
      } else {
        FirstsAscend(ds, bs, 0, bn, target);
      }
    }
  }

  lemma HeldAt(load: nat -> Result<bytes>, ds: seq<Dirent>, bs: nat, target: bytes, bn: nat)
    requires HoldsDir(load, ds, bs) && bn < |Blocks(ds, bs)|
    ensures var first := if load(bn).Ok? then BlockFirstName(load(bn).value) else Err(Invalid);
            first.Ok? && (FirstAtMost(ds, bs, bn, target) <==> Compare(first.value, target) <= 0)
    ensures LookupInBlock(load(bn).value, target) == BlockAnswer(Blocks(ds, bs)[bn], target, Full(ds, bs, bn))
  {
    hide Holds, Full, Blocks, BlockAnswer, Compare, LookupInBlock, BlockFirstName;
    HeldBlock(load(bn), Blocks(ds, bs)[bn], target, Full(ds, bs, bn));
  }

  /** The search across blocks gives exactly that answer. */
  lemma {:induction false} SearchBlocksExact(
    load: nat -> Result<bytes>, ds: seq<Dirent>, bs: nat, target: bytes, lo: nat, hi: nat, last: Option<bytes>)
    requires HoldsDir(load, ds, bs) && Ascending(Names(ds)) && lo <= hi <= |Blocks(ds, bs)|
    requires if lo == 0 then last == None else last.Some? && load(lo - 1) == Ok(last.value)
    requires lo > 0 ==> FirstAtMost(ds, bs, lo - 1, target)
    requires hi < |Blocks(ds, bs)| ==> !FirstAtMost(ds, bs, hi, target)
    ensures SearchBlocks(load, target, lo, hi, last) == DirAnswer(ds, bs, target)
    decreases hi - lo
  {
    hide LookupInBlock, BlockFirstName, Holds, HoldsDir, DirAnswer, BlockAnswer, Full, Blocks, Ascending, FirstAtMost;
    if lo == hi {
      KeptAnswer(ds, bs, target, lo);
      if lo > 0 {
        HeldAt(load, ds, bs, target, lo - 1);
      }
    } else {
      var mid := lo + (hi - lo) / 2;
      HeldAt(load, ds, bs, target, mid);
      var buf := load(mid).value;
      if FirstAtMost(ds, bs, mid, target) {
        SearchBlocksExact(load, ds, bs, target, mid + 1, hi, Some(buf));
      } else {
        SearchBlocksExact(load, ds, bs, target, lo, mid, last);
      }
    }
  }

  lemma BlockPosition(bs: nat, n: nat, bn: nat)
    requires bs > 0 && bn * bs < n
    ensures Quo(bn * bs, bs) == bn && BlockStop(bs, n, bn * bs) == Min((bn + 1) * bs, n)
  {
    MulMod(bn, bs);
  }

  lemma {:induction false} SlotExists(n: nat, bs: nat, bn: nat)
    requires bs > 0 && bn < CeilDiv(n, bs)
    ensures bn * bs < n
  {
    if bn > 0 {
      SlotExists(n - bs, bs, bn - 1);
      MulStep(bn - 1, bs);
    }
  }

  /** A stored directory loads block by block. */
  lemma StoredDirBlock(img: Image, ino: Inode, ds: seq<Dirent>, bn: nat)
    requires BlockSize(img.bs) && Stored(img, ino, DirBytes(ds, img.bs))
    requires ValidNames(Names(ds)) && bn < |Blocks(ds, img.bs)|
    ensures BlockOf(img, ino)(bn) == Ok(PaddedBlock(Blocks(ds, img.bs)[bn], bn + 1 < |Blocks(ds, img.bs)|, img.bs))
  {
    var bs := img.bs;
    hide LoadBlock, DirBytes, Blocks, PaddedBlock, ValidNames;
    var c := DirBytes(ds, bs);
    BlockTotal(ds, bs);
    SlotExists(|c|, bs, bn);
    BlockAt(ds, bs, bn);
    SlotIsSlice(c, bs, bn);
    BlockPosition(bs, |c|, bn);
    var pos: nat := bn * bs;
    assert LoadBlock(img, ino, pos) == Ok(c[pos..BlockStop(bs, |c|, pos)]);
  }

  lemma {:induction false} EachBlockFits(ds: seq<Dirent>, bs: nat, bn: nat)
    requires ValidNames(Names(ds)) && bs >= 512 && bn < |Blocks(ds, bs)|
    ensures ValidNames(Names(Blocks(ds, bs)[bn]))
    ensures 0 < Need(Names(Blocks(ds, bs)[bn])) <= bs
    decreases bn
  {
    hide ValidNames, Need, Blocks, DirBytes, PaddedBlock;
    NoBlocks(ds, bs);
    Unroll(ds, bs);
    HeadFacts(ds, bs);
    if bn > 0 {
      EachBlockFits(Rest(ds, bs), bs, bn - 1);
    }
  }

  lemma NoBlocks(ds: seq<Dirent>, bs: nat)
    ensures ds == [] ==> Blocks(ds, bs) == []
  {
  }

  lemma HeadFacts(ds: seq<Dirent>, bs: nat)
    requires ValidNames(Names(ds)) && bs >= 512 && ds != []
    ensures ValidNames(Names(Head(ds, bs))) && 0 < Need(Names(Head(ds, bs))) <= bs
  {
    FirstBlockFits(Names(ds), bs);
    ValidSlices(ds, FitCount(Names(ds), bs));
    assert Names(ds)[..FitCount(Names(ds), bs)] == Names(Head(ds, bs));
  }

  /**
   Lookup on any directory the writer packed, at any block size: the right nid and type for ".", ".."
   and every child, not-exist for any other name; a format error exactly when the search ends in a
   full 64 KiB block and comes to probe its last entry.
   */
  lemma LookupExact(img: Image, nid: nat, ds: seq<Dirent>, target: bytes)
    requires BlockSize(img.bs) && ReadInfo(img, nid).Ok?
    requires Stored(img, ReadInfo(img, nid).value, DirBytes(ds, img.bs))
    requires ValidNames(Names(ds))
    ensures LookupSpec(img, nid, target) == DirAnswer(ds, img.bs, target)
  {
    hide IsBlock, LoadBlock, ReadInfo, SearchBlocks, PaddedBlock, DirBytes, Blocks, ValidNames, Holds, Full, DirAnswer;
    var ino := ReadInfo(img, nid).value;
    var load := BlockOf(img, ino);
    BlockTotal(ds, img.bs);
    forall bn | 0 <= bn < |Blocks(ds, img.bs)|
      ensures Holds(load(bn), Blocks(ds, img.bs)[bn], Full(ds, img.bs, bn))
    {
      StoredDirBlock(img, ino, ds, bn);
      BlockHeld(ds, img.bs, bn);
    }
    AscendingOf(ds);
    SearchBlocksExact(load, ds, img.bs, target, 0, |Blocks(ds, img.bs)|, None);
  }

  lemma BlockHeld(ds: seq<Dirent>, bs: nat, bn: nat)
    requires BlockSize(bs) && ValidNames(Names(ds)) && bn < |Blocks(ds, bs)|
    ensures Holds(Ok(PaddedBlock(Blocks(ds, bs)[bn], bn + 1 < |Blocks(ds, bs)|, bs)), Blocks(ds, bs)[bn], Full(ds, bs, bn))
  {
    hide PaddedBlock, Blocks, ValidNames, IsBlock, PowerOfTwo;
    EachBlockFits(ds, bs, bn);
    PaddedIsBlock(ds, bs, bn);
    var b := Blocks(ds, bs)[bn];
    PaddedBlockSize(b, bn + 1 < |Blocks(ds, bs)|, bs);
    if |b| == 1 {
      LoneNeed(b);
    }
    if bs == 0x1_0000 && bn + 1 < |Blocks(ds, bs)| {
      NotAlone(ds, bs, bn);
    }
  }

  lemma LoneNeed(b: seq<Dirent>)
    requires ValidNames(Names(b)) && |b| == 1
    ensures Need(Names(b)) < 0x1_0000
  {
    assert Names(b) == [b[0].name] && b[0].name in Names(b);
    FewNames(b[0].name, []);
  }

  lemma FewNames(a: bytes, b: bytes)
    ensures Need([a]) == SIZE_DIRENT + |a| && Need([a, b]) == 2 * SIZE_DIRENT + |a| + |b|
  {
    var one, two: seq<bytes> := [a], [a, b];
    assert one[1..] == [] && two[1..] == [b] && two[1..][1..] == [];
    assert NameLen(one) == |one[0]| + NameLen(one[1..]);
    assert NameLen(two) == |two[0]| + NameLen(two[1..]);
    assert NameLen(two[1..]) == |b|;
  }

  /** Two names fit any large block, so only the last block can hold a single one. */
  lemma {:induction false} NotAlone(ds: seq<Dirent>, bs: nat, bn: nat)
    requires ValidNames(Names(ds)) && bs >= 0x1_0000 && bn + 1 < |Blocks(ds, bs)|
    ensures |Blocks(ds, bs)[bn]| > 1
    decreases bn
  {
    hide ValidNames, Need, Blocks, DirBytes, PaddedBlock, Head, Rest, Names;
    NoBlocks(ds, bs);
    Unroll(ds, bs);
    if bn > 0 {
      NotAlone(Rest(ds, bs), bs, bn - 1);
    } else {
      NoBlocks(Rest(ds, bs), bs);
      HeadNotAlone(ds, bs);
    }
  }

  lemma HeadNotAlone(ds: seq<Dirent>, bs: nat)
    requires ds != [] && ValidNames(Names(ds)) && bs >= 0x1_0000 && Rest(ds, bs) != []
    ensures |Head(ds, bs)| > 1
  {
    hide ValidNames, FitCount, Names;
    TwoFit(ds, bs);
  }

  lemma TwoFit(ds: seq<Dirent>, bs: nat)
    requires ValidNames(Names(ds)) && bs >= 0x1_0000 && |ds| > 1
    ensures FitCount(Names(ds), bs) > 1
  {
    hide FitCount;
    var names := Names(ds);
    assert names[0] in names && names[1] in names;
    FewNames(names[0], names[1]);
    assert names[..1] == [names[0]] && names[..2] == [names[0], names[1]];
    FitCountMaximal(names, bs);
  }

  /**
   Every lookup in a directory is exact, for all names, exactly when blocks are at most 32 KiB or the
   whole directory is shorter than 64 KiB.
   */
  lemma LookupAllExact(img: Image, nid: nat, ds: seq<Dirent>)
    requires BlockSize(img.bs) && ReadInfo(img, nid).Ok?
    requires Stored(img, ReadInfo(img, nid).value, DirBytes(ds, img.bs))
    requires ValidNames(Names(ds))
    ensures (forall target: bytes :: LookupSpec(img, nid, target) == Find(ds, target))
            <==> img.bs <= 32768 || |DirBytes(ds, img.bs)| < 0x1_0000
  {
    hide LoadBlock, ReadInfo, Stored, LookupSpec, DirBytes, Blocks, ValidNames, Full, Missed, Find, PowerOfTwo;
    forall target: bytes
      ensures LookupSpec(img, nid, target) == DirAnswer(ds, img.bs, target)
    {
      LookupExact(img, nid, ds, target);
    }
    FullSomewhere(ds, img.bs);
    if bn: nat :| bn < |Blocks(ds, img.bs)| && Full(ds, img.bs, bn) {
      var target := FullMisses(ds, img.bs, bn);
      assert LookupSpec(img, nid, target) != Find(ds, target);
    } else {
      forall target: bytes
        ensures !Missed(ds, img.bs, target)
      {
        NeverMissed(ds, img.bs, target);
      }
    }
  }

  lemma NeverMissed(ds: seq<Dirent>, bs: nat, target: bytes)
    requires forall bn: nat :: bn < |Blocks(ds, bs)| ==> !Full(ds, bs, bn)
    ensures !Missed(ds, bs, target)
  {
    hide Full, Blocks, FirstAtMost, ProbesLast;
  }

  lemma SmallNeverMissed(ds: seq<Dirent>, bs: nat, target: bytes)
    requires BlockSize(bs) && ValidNames(Names(ds)) && (bs <= 32768 || |DirBytes(ds, bs)| < 0x1_0000)
    ensures !Missed(ds, bs, target)
  {
    hide ValidNames, PowerOfTwo, Blocks, DirBytes, Full, Missed;
    FullSomewhere(ds, bs);
    NeverMissed(ds, bs, target);
  }

  /** The last name of a full block is there, and every search for it fails. */
  lemma FullMisses(ds: seq<Dirent>, bs: nat, bn: nat) returns (target: bytes)
    requires ValidNames(Names(ds)) && bn < |Blocks(ds, bs)| && Full(ds, bs, bn)
    ensures Missed(ds, bs, target) && Find(ds, target).Ok?
  {
    hide Full, Blocks, Start, ValidNames, Compare, Find, ProbesLast;
    AscendingOf(ds);
    BlockIsSlice(ds, bs, bn);
    var b, s, e := Blocks(ds, bs)[bn], Start(ds, bs, bn), Start(ds, bs, bn + 1);
    target := ds[e - 1].name;
    FindAt(ds, e - 1);
    SliceProbed(ds, s, e);
    if s < e - 1 {
      LessAt(ds, s, e - 1);
    }
    if bn + 1 < |Blocks(ds, bs)| {
      BlockIsSlice(ds, bs, bn + 1);
      LessAt(ds, e - 1, e);
      CompareFlip(ds[e - 1].name, ds[e].name);
    }
    assert Chosen(ds, bs, target, bn);
  }

  lemma LessAt(ds: seq<Dirent>, i: nat, j: nat)
    requires Ascending(Names(ds)) && i < j < |ds|
    ensures Less(ds[i].name, ds[j].name)
  {
    assert Less(Names(ds)[i], Names(ds)[j]);
  }

  lemma SliceProbed(ds: seq<Dirent>, s: nat, e: nat)
    requires Ascending(Names(ds)) && s < e <= |ds|
    ensures ProbesLast(ds[s..e], ds[e - 1].name)
  {
    forall j | 0 <= j < LastStretch(0, e - s)
      ensures Less(ds[s..e][j].name, ds[e - 1].name)
    {
      LessAt(ds, s + j, e - 1);
    }
  }

  lemma FullSomewhere(ds: seq<Dirent>, bs: nat)
    requires BlockSize(bs) && ValidNames(Names(ds))
    ensures (exists bn: nat :: bn < |Blocks(ds, bs)| && Full(ds, bs, bn)) <==> !(bs <= 32768 || |DirBytes(ds, bs)| < 0x1_0000)
  {
    hide ValidNames, PowerOfTwo, Blocks, DirBytes, PaddedBlock, Need, Head, Rest;
    if bn: nat :| bn < |Blocks(ds, bs)| && Full(ds, bs, bn) {
      PaddedIsBlock(ds, bs, bn);
      EachBlockFits(ds, bs, bn);
      PaddedBlockSize(Blocks(ds, bs)[bn], bn + 1 < |Blocks(ds, bs)|, bs);
    }
    if bs > 32768 && |DirBytes(ds, bs)| >= 0x1_0000 {
      LargestBlock(bs);
      NoBytes(ds, bs);
      Unroll(ds, bs);
      HeadFacts(ds, bs);
      PaddedBlockSize(Head(ds, bs), Rest(ds, bs) != [], bs);
      NoBytes(Rest(ds, bs), bs);
      assert Full(ds, bs, 0);
    }
  }

  lemma NoBytes(ds: seq<Dirent>, bs: nat)
    requires bs > 0
    ensures ds == [] ==> DirBytes(ds, bs) == [] && Blocks(ds, bs) == []
  {
  }

  lemma LargestBlock(bs: nat)
    requires BlockSize(bs) && bs > 32768
    ensures bs == 0x1_0000
  {
    hide PowerOfTwo;
    Power15();
    NextPower(bs, 32768);
  }

  lemma {:induction false} NextPower(p: nat, k: nat)
    requires PowerOfTwo(p) && PowerOfTwo(k) && k < p <= 2 * k
    ensures p == 2 * k
  {
    if k > 1 {
      NextPower(p / 2, k / 2);
    }
  }

  lemma Power15()
    ensures PowerOfTwo(32768)
  {
    assert PowerOfTwo(32) by { assert PowerOfTwo(4); assert PowerOfTwo(8); assert PowerOfTwo(16); }
    assert PowerOfTwo(512) by { assert PowerOfTwo(64); assert PowerOfTwo(128); assert PowerOfTwo(256); }
    assert PowerOfTwo(8192) by { assert PowerOfTwo(1024); assert PowerOfTwo(2048); assert PowerOfTwo(4096); }
    assert PowerOfTwo(16384);
  }

  lemma AscendingOf(ds: seq<Dirent>)
    requires ValidNames(Names(ds))
    ensures Ascending(Names(ds))
  {
  }

  lemma PaddedIsBlock(ds: seq<Dirent>, bs: nat, bn: nat)
    requires BlockSize(bs) && ValidNames(Names(ds)) && bn < |Blocks(ds, bs)|
    ensures var buf := PaddedBlock(Blocks(ds, bs)[bn], bn + 1 < |Blocks(ds, bs)|, bs);
            && IsBlock(buf, Blocks(ds, bs)[bn])
            && |buf| <= bs
            && |buf| <= |DirBytes(ds, bs)|
  {
    hide PaddedBlock, Blocks, DirBytes, ValidNames, Need, IsBlock, Slot;
    EachBlockFits(ds, bs, bn);
    var b := Blocks(ds, bs)[bn];
    assert b in Blocks(ds, bs);
    PaddedBlockSize(b, bn + 1 < |Blocks(ds, bs)|, bs);
    BlockAt(ds, bs, bn);
    SlotShorter(DirBytes(ds, bs), bs, bn);
    MakesBlock(b, bn + 1 < |Blocks(ds, bs)|, bs);
  }

  lemma MakesBlock(b: seq<Dirent>, more: bool, bs: nat)
    requires BlockSize(bs) && b != [] && ValidNames(Names(b)) && 0 < Need(Names(b)) <= bs
    ensures IsBlock(PaddedBlock(b, more, bs), b)
  {
    hide BlockBytes, ValidNames, Need, RoundUp, Names;
    PaddedBlockSize(b, more, bs);
    BlockBytesLength(b);
    assert BlockBytes(b) + Zeros(0) == BlockBytes(b) + [];
  }

  lemma BlockBytesLength(b: seq<Dirent>)
    ensures |BlockBytes(b)| == Need(Names(b))
  {
  }

  lemma {:induction false} SlotShorter(c: bytes, bs: nat, bn: nat)
    requires bs > 0
    ensures |Slot(c, bs, bn)| <= |c|
  {
    if bn > 0 && |c| > bs {
      SlotShorter(c[bs..], bs, bn - 1);
    }
  }
}
