/** The two xattr parsers; both give back exactly the map that was written. */
module XattrReader {
  import opened Bytes
  import opened Order
  import opened Format
  import opened Reader
  import opened Xattrs

  /** Where entry k starts in the area. */
  function EntryStart(es: seq<Attr>, k: nat): nat
    requires k <= |es|
  {
    SIZE_XATTR_HEADER + SumSizes(es[..k])
  }

  lemma {:induction false} SumSizesConcat(a: seq<Attr>, b: seq<Attr>)
    ensures SumSizes(a + b) == SumSizes(a) + SumSizes(b)
    ensures EntriesBytes(a + b) == EntriesBytes(a) + EntriesBytes(b)
  {
    if a == [] {
      assert a + b == b;
    } else {
      assert (a + b)[0] == a[0] && (a + b)[1..] == a[1..] + b;
      SumSizesConcat(a[1..], b);
      AppendAssoc(EntryBytes(a[0]), EntriesBytes(a[1..]), EntriesBytes(b));
    }
  }

  lemma EntryStartStep(es: seq<Attr>, k: nat)
    requires k < |es|
    ensures EntryStart(es, k + 1) == EntryStart(es, k) + EntrySize(es[k])
  {
    var one: seq<Attr> := [es[k]];
    assert es[..k + 1] == es[..k] + one;
    SumSizesConcat(es[..k], one);
    assert one[1..] == [];
  }

  lemma EntryStartEnds(es: seq<Attr>)
    ensures EntryStart(es, 0) == SIZE_XATTR_HEADER
    ensures EntryStart(es, |es|) == |AreaBytes(es)|
  {
    EntriesSize(es);
    assert es[..|es|] == es;
  }

  lemma {:induction false} EntryStartAligned(es: seq<Attr>, k: nat)
    requires k <= |es|
    ensures EntryStart(es, k) % 4 == 0
    ensures EntryStart(es, k) <= |AreaBytes(es)|
    ensures k < |es| ==> EntryStart(es, k) < |AreaBytes(es)|
    decreases |es| - k
  {
    hide SumSizes, AreaBytes, EntrySize;
    SumAligned(es[..k]);
    if k == |es| {
      EntryStartEnds(es);
    } else {
      EntryStartStep(es, k);
      EntryStartAligned(es, k + 1);
    }
  }

  lemma SumModFour(a: nat, b: nat)
    requires a % 4 == 0 && b % 4 == 0
    ensures (a + b) % 4 == 0
  {
  }

  lemma {:induction false} SumAligned(es: seq<Attr>)
    ensures SumSizes(es) % 4 == 0
  {
    hide EntrySize;
    if es != [] {
      SumAligned(es[1..]);
      SumModFour(EntrySize(es[0]), SumSizes(es[1..]));
    }
  }

  /** Entry k lies in the area at its start. */
  lemma EntryAt(es: seq<Attr>, k: nat)
    requires k < |es|
    ensures At(AreaBytes(es), EntryStart(es, k), EntryBytes(es[k]))
  {
    hide *;
    SplitEntries(es, k);
    AreaParts(es, k);
    AtConcat(AreaHeader() + EntriesBytes(es[..k]), EntryBytes(es[k]), EntriesBytes(es[k + 1..]));
    AppendAssoc(AreaHeader(), EntriesBytes(es[..k]), EntryBytes(es[k]) + EntriesBytes(es[k + 1..]));
  }

  lemma AreaParts(es: seq<Attr>, k: nat)
    requires k < |es|
    ensures AreaBytes(es) == AreaHeader() + EntriesBytes(es)
    ensures EntryStart(es, k) == |AreaHeader() + EntriesBytes(es[..k])|
  {
    EntriesSize(es[..k]);
  }

  lemma SplitEntries(es: seq<Attr>, k: nat)
    requires k < |es|
    ensures EntriesBytes(es) == EntriesBytes(es[..k]) + (EntryBytes(es[k]) + EntriesBytes(es[k + 1..]))
  {
    hide EntryBytes;
    assert es == es[..k] + es[k..];
    SumSizesConcat(es[..k], es[k..]);
    EntriesStep(es, k);
  }

  /** xb is the part of the area that starts at pos. */
  ghost predicate Window(area: bytes, pos: nat, xb: bytes) {
    pos + |xb| <= |area| && xb == area[pos..pos + |xb|]
  }

  lemma WindowDrop(area: bytes, pos: nat, xb: bytes, n: nat)
    requires Window(area, pos, xb) && n <= |xb|
    ensures Window(area, pos + n, xb[n..])
    ensures xb[..n] == area[pos..pos + n]
  {
  }

  /** The fields of entry k as a parser standing at its start sees them. */
  lemma EntryFields(es: seq<Attr>, k: nat)
    requires k < |es| && FitsEntry(es[k])
    ensures var area, p, s, v := AreaBytes(es), EntryStart(es, k), Suffix(es[k].name), es[k].value;
            && p + SIZE_XATTR_ENTRY + |s| + |v| <= EntryStart(es, k + 1) <= |area|
            && area[p] == |s| && area[p + 1] == Index(es[k].name) && Get16(area, p + 2) == |v|
            && area[p + 4..p + 4 + |s|] == s
            && area[p + 4 + |s|..p + 4 + |s| + |v|] == v
            && EntryStart(es, k + 1) == RoundUp(p + SIZE_XATTR_ENTRY + |s| + |v|, 4)
  {
    hide *;
    var area, p, s, v := AreaBytes(es), EntryStart(es, k), Suffix(es[k].name), es[k].value;
    EntryAt(es, k);
    EntryStartStep(es, k);
    EntryStartAligned(es, k);
    EntryStartAligned(es, k + 1);
    EntryParts(es[k]);
    var body := EntryHead(es[k]) + s + v;
    AtParts2(area, p, body, Zeros(RoundUp(|body|, 4) - |body|));
    AtParts(area, p, EntryHead(es[k]), s, v);
    AtSlice(area, p + 4, s);
    AtSlice(area, p + 4 + |s|, v);
    HeadFields(area, p, |s|, Index(es[k].name), |v|);
    RoundUpShift(p, SIZE_XATTR_ENTRY + |s| + |v|);
  }

  lemma AtSlice(b: bytes, o: nat, p: bytes)
    requires At(b, o, p)
    ensures o + |p| <= |b| && b[o..o + |p|] == p
  {
  }

  lemma EntryParts(a: Attr)
    requires FitsEntry(a)
    ensures |Suffix(a.name)| <= 255 && |a.value| <= 65535
    ensures EntryHead(a) == [|Suffix(a.name)|, Index(a.name)] + U16(|a.value|)
    ensures var body := EntryHead(a) + Suffix(a.name) + a.value;
            && EntryBytes(a) == body + Zeros(RoundUp(|body|, 4) - |body|)
            && EntrySize(a) == RoundUp(SIZE_XATTR_ENTRY + |Suffix(a.name)| + |a.value|, 4)
  {
  }

  lemma AtParts2(b: bytes, o: nat, x: bytes, y: bytes)
    requires At(b, o, x + y)
    ensures At(b, o, x)
  {
    AtThree([], x, y);
    assert [] + x + y == x + y;
    AtSub(b, o, x + y, 0, x);
  }

  lemma HeadFields(area: bytes, p: nat, nameLen: byte, index: byte, valueLen: u16)
    requires At(area, p, [nameLen, index] + U16(valueLen))
    ensures area[p] == nameLen && area[p + 1] == index && Get16(area, p + 2) == valueLen
  {
    var h: bytes := [nameLen, index];
    AtIndex(area, p, h + U16(valueLen), 0);
    AtIndex(area, p, h + U16(valueLen), 1);
    AtThree(h, U16(valueLen), []);
    assert h + U16(valueLen) + [] == h + U16(valueLen);
    AtSub(area, p, h + U16(valueLen), 2, U16(valueLen));
    LoadStored16(area, p + 2, valueLen);
  }

  lemma RoundUpShift(p: nat, n: nat)
    requires p % 4 == 0
    ensures RoundUp(p + n, 4) == p + RoundUp(n, 4)
  {
  }

  lemma MapOfStep(es: seq<Attr>, k: nat)
    requires k < |es|
    ensures MapOf(es[..k + 1]) == MapOf(es[..k])[es[k].name := es[k].value]
  {
    assert es[..k + 1][..k] == es[..k];
  }

  lemma HeaderByte(es: seq<Attr>)
    ensures |AreaBytes(es)| >= SIZE_XATTR_HEADER && AreaBytes(es)[4] == 0
  {
    var h := AreaHeader();
    assert h[4] == Zeros(8)[0];
  }

  /** The byte string is the area of these attributes. */
  ghost predicate IsArea(buf: bytes, es: seq<Attr>) {
    AllFit(es) && buf == AreaBytes(es)
  }

  /** parseXattrsFromBuf, for areas without shared attributes and long prefixes. */
  method ParseXattrs(buf: bytes, ghost es: seq<Attr>) returns (r: Result<map<bytes, bytes>>)
    ensures IsArea(buf, es) ==> r == Ok(MapOf(es))
  {
    hide AreaBytes, MapOf, EntryStart, Suffix, Index, Prefix, FitsEntry, IsArea;
    ghost var good := IsArea(buf, es);
    if good {
      AreaStart(buf, es);
    }
    if |buf| < SIZE_XATTR_HEADER {
      return Ok(map[]);
    }
    if buf[4] != 0 {
      return Err(NotImplemented);
    }
    var pos := SIZE_XATTR_HEADER;
    var attrs: map<bytes, bytes> := map[];
    ghost var k := 0;
    while pos + SIZE_XATTR_ENTRY <= |buf|
      invariant good ==> k <= |es| && pos == EntryStart(es, k) && attrs == MapOf(es[..k])
      decreases |buf| - pos
    {
      if good {
        AreaEntry(buf, es, k);
      }
      var nameLen, index, valueLen := buf[pos], buf[pos + 1], Get16(buf, pos + 2);
      pos := pos + SIZE_XATTR_ENTRY;
      if index >= 128 {
        return Err(NotImplemented);
      }
      if pos + nameLen + valueLen > |buf| {
        break;
      }
      var name := Prefix(index) + buf[pos..pos + nameLen];
      pos := pos + nameLen;
      var value := buf[pos..pos + valueLen];
      pos := pos + valueLen;
      attrs := attrs[name := value];
      PadToFour(pos);
      if pos % 4 != 0 {
        pos := pos + (4 - pos % 4);
      }
      k := k + 1;
    }
    if good {
      AreaDone(buf, es, k, pos);
    }
    return Ok(attrs);
  }

  lemma AreaStart(buf: bytes, es: seq<Attr>)
    requires IsArea(buf, es)
    ensures |buf| >= SIZE_XATTR_HEADER && buf[4] == 0
    ensures EntryStart(es, 0) == SIZE_XATTR_HEADER && MapOf(es[..0]) == map[]
  {
    HeaderByte(es);
    EntryStartEnds(es);
  }

  /** What a parser at entry k of an area finds, and where the next entry is. */
  lemma AreaEntry(buf: bytes, es: seq<Attr>, k: nat)
    requires IsArea(buf, es) && k <= |es| && EntryStart(es, k) < |buf|
    ensures k < |es|
    ensures var p, s, v := EntryStart(es, k), Suffix(es[k].name), es[k].value;
            && p + SIZE_XATTR_ENTRY + |s| + |v| <= EntryStart(es, k + 1) <= |buf|
            && |s| <= 255 && |v| <= 65535
            && buf[p] == |s| && buf[p + 1] == Index(es[k].name) < 128 && Get16(buf, p + 2) == |v|
            && buf[p + 4..p + 4 + |s|] == s
            && buf[p + 4 + |s|..p + 4 + |s| + |v|] == v
            && Prefix(Index(es[k].name)) + s == es[k].name
            && EntryStart(es, k + 1) == RoundUp(p + SIZE_XATTR_ENTRY + |s| + |v|, 4)
            && MapOf(es[..k + 1]) == MapOf(es[..k])[es[k].name := v]
  {
    hide AreaBytes, MapOf, Prefix;
    EntryStartEnds(es);
    assert es[k] in es;
    EntryFields(es, k);
    MapOfStep(es, k);
  }

  lemma AreaDone(buf: bytes, es: seq<Attr>, k: nat, pos: nat)
    requires IsArea(buf, es) && k <= |es| && pos == EntryStart(es, k)
    ensures pos <= |buf|
    ensures pos + SIZE_XATTR_ENTRY > |buf| ==> k == |es| && pos == |buf| && MapOf(es[..k]) == MapOf(es)
  {
    hide AreaBytes, MapOf;
    EntryStartAligned(es, k);
    EntryStartAligned(es, |es|);
    EntryStartEnds(es);
    if k == |es| {
      assert es[..k] == es;
    } else {
      EntryStartStep(es, k);
      EntryStartAligned(es, k + 1);
    }
  }

  /** loadAt: at most one block, in full. */
  function LoadAt(img: Image, addr: nat, size: int): Result<bytes> {
    if size < 0 then Err(Invalid) else ReadAt(img.meta, addr, Min(size, img.bs))
  }

  /** The image holds the area at addr. */
  ghost predicate Holds(img: Image, addr: nat, area: bytes) {
    img.bs >= 512 && At(img.meta, addr, area)
  }

  lemma LoadWindow(img: Image, addr: nat, area: bytes, pos: nat)
    requires Holds(img, addr, area) && pos <= |area|
    ensures var r := LoadAt(img, addr + pos, |area| - pos);
            && r.Ok? && Window(area, pos, r.value) && |r.value| == Min(img.bs, |area| - pos)
  {
    var n := Min(img.bs, |area| - pos);
    SliceOfSlice(img.meta, addr, addr + |area|, pos, pos + n);
  }

  /** The value loop of loadXattrs: collects across as many reloads as it takes. */
  method ReadValue(img: Image, addr: nat, xsize: nat, pos0: nat, xb0: bytes, len: nat, ghost area: bytes)
    returns (r: Result<bytes>, pos: nat, xb: bytes)
    requires |xb0| < len
    ensures r.Ok? ==> pos == pos0 + len
    ensures Holds(img, addr, area) && xsize == |area| && Window(area, pos0, xb0) && pos0 + len <= |area| ==>
              r == Ok(area[pos0..pos0 + len]) && pos == pos0 + len && Window(area, pos, xb)
  {
    hide Holds, LoadAt;
    pos, xb := pos0, xb0;
    var buf: bytes, remaining: nat := [], len;
    ghost var good := Holds(img, addr, area) && xsize == |area| && Window(area, pos0, xb0) && pos0 + len <= |area|;
    BlockSizePositive(img, addr, area);
    while remaining > 0
      invariant remaining <= len && pos == pos0 + (len - remaining)
      invariant good ==> Window(area, pos, xb)
      invariant good ==> buf == area[pos0..pos]
      decreases remaining
    {
      if good {
        LoadWindow(img, addr, area, pos);
      }
      if |xb| == 0 {
        var b := LoadAt(img, addr + pos, xsize - pos);
        if b.Err? {
          return Err(b.error), pos, xb;
        }
        xb := b.value;
        if |xb| == 0 {
          return Err(Invalid), pos, xb;
        }
      }
      var copySize := Min(remaining, |xb|);
      if good {
        WindowDrop(area, pos, xb, copySize);
      }
      buf := buf + xb[..copySize];
      remaining := remaining - copySize;
      pos := pos + copySize;
      xb := xb[copySize..];
    }
    assert good ==> buf == area[pos0..pos0 + len];
    r := Ok(buf);
  }

  lemma BlockSizePositive(img: Image, addr: nat, area: bytes)
    ensures Holds(img, addr, area) ==> img.bs >= 512
  {
  }

  /** One inline entry through the window; `next` stands after its padding. */
  method ReadEntry(img: Image, addr: nat, xsize: nat, pos0: nat, xb0: bytes, ghost es: seq<Attr>, ghost k: nat)
    returns (r: Result<Attr>, pos: nat, xb: bytes)
    ensures r.Ok? ==> pos > pos0
    ensures Standing(img, addr, xsize, es, k, pos0, xb0) && pos0 < xsize ==>
              r.Ok? && k < |es| && r.value == es[k] && Standing(img, addr, xsize, es, k + 1, pos, xb)
  {
    hide AreaBytes, MapOf, EntryStart, Suffix, Index, Prefix, IsArea, Holds, Window, RoundUp, Get16;
    ghost var area := AreaBytes(es);
    var head, name, value;
    if Standing(img, addr, xsize, es, k, pos0, xb0) && pos0 < xsize {
      AreaEntry(area, es, k);
      HeadOfSlice(area, pos0);
    }
    head, pos, xb := TakeShort(img, addr, xsize, pos0, xb0, SIZE_XATTR_ENTRY, area);
    if head.Err? {
      return Err(head.error), pos, xb;
    }
    if head.value[1] >= 128 {
      return Err(NotImplemented), pos, xb;
    }
    name, pos, xb := TakeShort(img, addr, xsize, pos, xb, head.value[0], area);
    if name.Err? {
      return Err(name.error), pos, xb;
    }
    value, pos, xb := TakeValue(img, addr, xsize, pos, xb, Get16(head.value, 2), area);
    if value.Err? {
      return Err(value.error), pos, xb;
    }
    r := Ok(Attr(Prefix(head.value[1]) + name.value, value.value));
    pos, xb := SkipPadding(pos, xb, area);
  }

  lemma HeadOfSlice(b: bytes, p: nat)
    requires p + 4 <= |b|
    ensures var h := b[p..p + 4];
            h[0] == b[p] && h[1] == b[p + 1] && Get16(h, 2) == Get16(b, p + 2)
  {
  }

  /** Rounds the position up to 4 bytes; a window too short for that is dropped. */
  method SkipPadding(pos0: nat, xb0: bytes, ghost area: bytes) returns (pos: nat, xb: bytes)
    ensures pos == RoundUp(pos0, 4)
    ensures Window(area, pos0, xb0) && pos <= |area| ==> Window(area, pos, xb)
  {
    pos, xb := pos0, xb0;
    PadToFour(pos);
    if pos % 4 != 0 {
      var pad := 4 - pos % 4;
      pos := pos + pad;
      if |xb| < pad {
        xb := [];
      } else {
        if Window(area, pos0, xb0) {
          WindowDrop(area, pos0, xb0, pad);
        }
        xb := xb[pad..];
      }
    }
  }

  method TakeValue(img: Image, addr: nat, xsize: nat, pos0: nat, xb0: bytes, len: nat, ghost area: bytes)
    returns (r: Result<bytes>, pos: nat, xb: bytes)
    ensures r.Ok? ==> pos == pos0 + len
    ensures Holds(img, addr, area) && xsize == |area| && Window(area, pos0, xb0) && pos0 + len <= |area| ==>
              r == Ok(area[pos0..pos0 + len]) && Window(area, pos, xb)
  {
    hide Holds;
    if |xb0| < len {
      r, pos, xb := ReadValue(img, addr, xsize, pos0, xb0, len, area);
    } else {
      if Window(area, pos0, xb0) {
        WindowDrop(area, pos0, xb0, len);
      }
      r, pos, xb := Ok(xb0[..len]), pos0 + len, xb0[len..];
    }
  }

  /** A field of at most 255 bytes: taken from the window, reloading it once if it is too short. */
  method TakeShort(img: Image, addr: nat, xsize: nat, pos0: nat, xb0: bytes, len: byte, ghost area: bytes)
    returns (r: Result<bytes>, pos: nat, xb: bytes)
    ensures r.Ok? ==> pos == pos0 + len && |r.value| == len
    ensures Holds(img, addr, area) && xsize == |area| && Window(area, pos0, xb0) && pos0 + len <= |area| ==>
              r == Ok(area[pos0..pos0 + len]) && Window(area, pos, xb)
  {
    hide Holds, LoadAt;
    pos, xb := pos0, xb0;
    ghost var good := Holds(img, addr, area) && xsize == |area| && Window(area, pos0, xb0) && pos0 + len <= |area|;
    BlockSizePositive(img, addr, area);
    if |xb| < len {
      if good {
        LoadWindow(img, addr, area, pos);
      }
      var b := LoadAt(img, addr + pos, xsize - pos);
      if b.Err? {
        return Err(b.error), pos, xb;
      }
      xb := b.value;
      if |xb| < len {
        return Err(Invalid), pos, xb;
      }
    }
    if good {
      WindowDrop(area, pos, xb, len);
    }
    r, pos, xb := Ok(xb[..len]), pos + len, xb[len..];
  }

  /** The reader stands at entry k of a stored area, holding a window of it. */
  ghost predicate Standing(img: Image, addr: nat, xsize: nat, es: seq<Attr>, k: nat, pos: nat, xb: bytes) {
    && k <= |es| && IsArea(AreaBytes(es), es) && Holds(img, addr, AreaBytes(es))
    && xsize == |AreaBytes(es)| && pos == EntryStart(es, k) <= xsize
    && Window(AreaBytes(es), pos, xb)
  }

  /**
   loadXattrs, for areas without shared attributes and long prefixes. Through a window of any block
   size from 512 on it returns exactly the attributes of the area.
   */
  method LoadXattrs(img: Image, ino: Inode, ghost es: seq<Attr>) returns (r: Result<map<bytes, bytes>>)
    ensures AllFit(es) && Holds(img, InodeAddr(img, ino.nid) + ino.icsize, AreaBytes(es)) && ino.xsize == |AreaBytes(es)| ==>
              r == Ok(MapOf(es))
  {
    hide AreaBytes, MapOf, EntryStart, AllFit, Holds, LoadAt, Standing, InodeAddr;
    var addr, xsize := InodeAddr(img, ino.nid) + ino.icsize, ino.xsize;
    ghost var good := AllFit(es) && Holds(img, addr, AreaBytes(es)) && xsize == |AreaBytes(es)|;
    var b := LoadAt(img, addr, xsize);
    if good {
      StandingStart(img, addr, xsize, es);
    }
    if b.Err? {
      return Err(b.error);
    }
    if |b.value| < SIZE_XATTR_HEADER {
      return Err(Invalid);
    }
    if b.value[4] != 0 {
      return Err(NotImplemented);
    }
    var xb, pos := b.value[SIZE_XATTR_HEADER..], SIZE_XATTR_HEADER;
    var attrs: map<bytes, bytes> := map[];
    ghost var k := 0;
    while pos < xsize
      invariant good ==> Standing(img, addr, xsize, es, k, pos, xb)
      invariant good ==> k <= |es| && attrs == MapOf(es[..k])
      decreases xsize - pos
    {
      var e;
      e, pos, xb := ReadEntry(img, addr, xsize, pos, xb, es, k);
      if e.Err? {
        return Err(e.error);
      }
      if good {
        MapOfStep(es, k);
      }
      attrs := attrs[e.value.name := e.value.value];
      k := k + 1;
    }
    if good {
      StandingEnd(img, addr, xsize, es, k, pos, xb);
    }
    return Ok(attrs);
  }

  lemma StandingStart(img: Image, addr: nat, xsize: nat, es: seq<Attr>)
    requires AllFit(es) && Holds(img, addr, AreaBytes(es)) && xsize == |AreaBytes(es)|
    ensures var b := LoadAt(img, addr, xsize);
            && b.Ok? && |b.value| >= SIZE_XATTR_HEADER && b.value[4] == 0
            && Standing(img, addr, xsize, es, 0, SIZE_XATTR_HEADER, b.value[SIZE_XATTR_HEADER..])
    ensures MapOf(es[..0]) == map[]
  {
    hide AreaBytes, AllFit, LoadAt, EntryStart, Holds;
    var area := AreaBytes(es);
    BlockSizePositive(img, addr, area);
    AreaStart(area, es);
    LoadWindow(img, addr, area, 0);
    WindowDrop(area, 0, LoadAt(img, addr, xsize).value, SIZE_XATTR_HEADER);
  }

  lemma StandingEnd(img: Image, addr: nat, xsize: nat, es: seq<Attr>, k: nat, pos: nat, xb: bytes)
    requires Standing(img, addr, xsize, es, k, pos, xb) && pos >= xsize
    ensures MapOf(es[..k]) == MapOf(es)
  {
    hide AreaBytes, MapOf;
    AreaDone(AreaBytes(es), es, k, pos);
  }
}
