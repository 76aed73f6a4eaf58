/**
 Extended attributes: the inline area that writeXattrs emits, the sliding-window reader of
 xattr.go and the whole-buffer parser of mkfs_image.go.
 */
module Xattrs {
  import opened Bytes
  import opened Order
  import opened Format
  import opened Reader

  /** xattrIndex.String: the name prefix of an on-disk index; empty for any other index. */
  function Prefix(index: nat): bytes {
    match index
    case 1 => [117, 115, 101, 114, 46]                                // user.
    case 2 => [115, 121, 115, 116, 101, 109, 46, 112, 111, 115, 105, 120, 95, 97, 99, 108, 95,
               97, 99, 99, 101, 115, 115, 46]                         // system.posix_acl_access.
    case 3 => [115, 121, 115, 116, 101, 109, 46, 112, 111, 115, 105, 120, 95, 97, 99, 108, 95,
               100, 101, 102, 97, 117, 108, 116, 46]                  // system.posix_acl_default.
    case 4 => [116, 114, 117, 115, 116, 101, 100, 46]                 // trusted.
    case 5 => [108, 117, 115, 116, 114, 101, 46]                      // lustre.
    case 6 => [115, 101, 99, 117, 114, 105, 116, 121, 46]             // security.
    case _ => []
  }

  /** First matching index of the prefix table, from i on; 0 when none matches. */
  function SplitFrom(name: bytes, i: nat): (r: byte)
    requires 1 <= i <= 7
    ensures r <= 6 && Prefix(r) <= name
    decreases 7 - i
  {
    if i == 7 then 0 else if Prefix(i) <= name then i else SplitFrom(name, i + 1)
  }

  /** xattrSplit */
  function Index(name: bytes): (r: byte)
    ensures r <= 6
  {
    SplitFrom(name, 1)
  }

  function Suffix(name: bytes): (s: bytes)
    ensures Prefix(Index(name)) + s == name
  {
    var p := Prefix(Index(name));
    assert p + name[|p|..] == name;
    name[|p|..]
  }

  /** The prefix that each stored index stands for, and what is stored as it is: the name without it. */
  lemma IndexChosen(name: bytes)
    ensures Index(name) == 1 <==> [117, 115, 101, 114, 46] <= name
    ensures Index(name) == 2 <==>
              [115, 121, 115, 116, 101, 109, 46, 112, 111, 115, 105, 120, 95, 97, 99, 108, 95, 97, 99, 99, 101, 115, 115, 46] <= name
    ensures Index(name) == 3 <==>
              [115, 121, 115, 116, 101, 109, 46, 112, 111, 115, 105, 120, 95, 97, 99, 108, 95, 100, 101, 102, 97, 117, 108, 116, 46] <= name
    ensures Index(name) == 4 <==> [116, 114, 117, 115, 116, 101, 100, 46] <= name
    ensures Index(name) == 5 <==> [108, 117, 115, 116, 114, 101, 46] <= name
    ensures Index(name) == 6 <==> [115, 101, 99, 117, 114, 105, 116, 121, 46] <= name
    ensures Suffix(name) == name[[0, 5, 24, 25, 8, 7, 9][Index(name)]..]
  {
    hide Index, Suffix;
    IndexIs(name, 1);
    IndexIs(name, 2);
    IndexIs(name, 3);
    IndexIs(name, 4);
    IndexIs(name, 5);
    IndexIs(name, 6);
    PrefixLengths();
    SuffixIs(name);
  }

  lemma IndexIs(name: bytes, i: nat)
    requires 1 <= i <= 6
    ensures Index(name) == i <==> Prefix(i) <= name
  {
    hide Prefix, SplitFrom;
    PrefixesApart(name);
    Searched(name);
    assert Prefix(Index(name)) <= name;
  }

  lemma PrefixLengths()
    ensures |Prefix(0)| == 0 && |Prefix(1)| == 5 && |Prefix(2)| == 24 && |Prefix(3)| == 25
    ensures |Prefix(4)| == 8 && |Prefix(5)| == 7 && |Prefix(6)| == 9
  {
  }

  lemma SuffixIs(name: bytes)
    ensures |Prefix(Index(name))| <= |name| && Suffix(name) == name[|Prefix(Index(name))|..]
  {
    hide Prefix, SplitFrom;
  }

  /** No name has two of the prefixes. */
  lemma PrefixesApart(name: bytes)
    ensures forall i, j :: 1 <= i <= 6 && 1 <= j <= 6 && Prefix(i) <= name && Prefix(j) <= name ==> i == j
  {
    forall i, j | 1 <= i <= 6 && 1 <= j <= 6 && Prefix(i) <= name && Prefix(j) <= name
      ensures i == j
    {
      assert Prefix(i)[0] == name[0] == Prefix(j)[0];
      assert Prefix(i)[1] == name[1] == Prefix(j)[1];
      if |Prefix(i)| > 17 && |Prefix(j)| > 17 {
        assert Prefix(i)[17] == name[17] == Prefix(j)[17];
      }
    }
  }

  lemma Searched(name: bytes)
    ensures forall i :: 1 <= i <= 6 && Prefix(i) <= name ==> Index(name) != 0
  {
  }

  datatype Attr = Attr(name: bytes, value: bytes)

  /** The on-disk fields are wide enough for this attribute. */
  predicate FitsEntry(a: Attr) {
    |Suffix(a.name)| <= 255 && |a.value| <= 65535
  }

  predicate AllFit(es: seq<Attr>) {
    forall a <- es :: FitsEntry(a)
  }

  /** xattrEntrySize: header, suffix and value, padded to 4 bytes. */
  function EntrySize(a: Attr): (n: nat)
    ensures n % 4 == 0 && n >= 4
  {
    RoundUp(SIZE_XATTR_ENTRY + |Suffix(a.name)| + |a.value|, 4)
  }

  function EntryHead(a: Attr): (b: bytes)
    ensures |b| == SIZE_XATTR_ENTRY
  {
    [|Suffix(a.name)| % 256, Index(a.name)] + U16(|a.value|)
  }

  function EntryBytes(a: Attr): (b: bytes)
    ensures |b| == EntrySize(a)
  {
    var body := EntryHead(a) + Suffix(a.name) + a.value;
    EntryHolds(a);
    body + Zeros(EntrySize(a) - |body|)
  }

  lemma EntryHolds(a: Attr)
    ensures EntrySize(a) >= SIZE_XATTR_ENTRY + |Suffix(a.name)| + |a.value|
  {
    hide Suffix;
  }

  function EntriesBytes(es: seq<Attr>): bytes {
    if es == [] then [] else EntryBytes(es[0]) + EntriesBytes(es[1..])
  }

  /** Name filter unused (all ones), no shared attributes, seven reserved bytes. */
  function AreaHeader(): (b: bytes)
    ensures |b| == SIZE_XATTR_HEADER
  {
    U32(0xFFFF_FFFF) + Zeros(8)
  }

  function AreaBytes(es: seq<Attr>): bytes {
    AreaHeader() + EntriesBytes(es)
  }

  /** The area starts with an unused name filter, no shared attributes and zeros; then come the entries. */
  lemma AreaStarts(es: seq<Attr>)
    ensures |AreaBytes(es)| >= 12 && Get32(AreaBytes(es), 0) == 0xFFFF_FFFF && AreaBytes(es)[12..] == EntriesBytes(es)
    ensures forall k :: 4 <= k < 12 ==> AreaBytes(es)[k] == 0
  {
    hide U32, Get32, EntriesBytes;
    var rest := Zeros(8) + EntriesBytes(es);
    assert AreaBytes(es) == [] + U32(0xFFFF_FFFF) + rest;
    AtThree([], U32(0xFFFF_FFFF), rest);
    LoadStored32(AreaBytes(es), 0, 0xFFFF_FFFF);
  }

  /** The map that a list of attributes describes. */
  function MapOf(es: seq<Attr>): map<bytes, bytes> {
    if es == [] then map[] else MapOf(es[..|es| - 1])[es[|es| - 1].name := es[|es| - 1].value]
  }

  // ---- The planner's size and the writer's order ----

  /** Some listing of a map's keys, as Go's range over a map yields one. */
  ghost function AnyOrder(s: set<bytes>): seq<bytes> {
    if s == {} then [] else
      var x :| x in s;
      [x] + AnyOrder(s - {x})
  }

  ghost predicate Lists(q: seq<bytes>, s: set<bytes>) {
    (forall x <- q :: x in s) && (forall x <- s :: x in q) && DistinctKeys(Same, q)
  }

  lemma {:induction false} AnyOrderLists(s: set<bytes>)
    ensures Lists(AnyOrder(s), s)
  {
    if s != {} {
      var q := AnyOrder(s);
      var x := q[0];
      assert q == [x] + AnyOrder(s - {x}) && x in s;
      AnyOrderLists(s - {x});
    }
  }

  /** sortedXattrKeys */
  ghost function SortedKeys(s: set<bytes>): seq<bytes> {
    Sort(Same, AnyOrder(s))
  }

  /** Sorting any listing of the keys gives the same order. */
  lemma SortedKeysUnique(q: seq<bytes>, s: set<bytes>)
    requires Lists(q, s)
    ensures Sort(Same, q) == SortedKeys(s)
    ensures Lists(Sort(Same, q), s) && Ascending(Sort(Same, q))
  {
    var a, b := Sort(Same, q), SortedKeys(s);
    AnyOrderLists(s);
    SortedLists(q, s);
    SortedLists(AnyOrder(s), s);
    AscendingUnique(Same, a, b);
  }

  lemma SortedLists(q: seq<bytes>, s: set<bytes>)
    requires Lists(q, s)
    ensures Lists(Sort(Same, q), s) && Ascending(Sort(Same, q)) && Ascending(Map(Same, Sort(Same, q)))
  {
    var a := Sort(Same, q);
    SortElements(Same, q);
    SortAscending(Same, q);
    assert Map(Same, a) == a;
    assert forall x :: x in a <==> x in multiset(a);
    assert forall x :: x in q <==> x in multiset(q);
  }

  ghost function Attrs(m: map<bytes, bytes>, keys: seq<bytes>): (es: seq<Attr>)
    requires forall k <- keys :: k in m
    ensures |es| == |keys|
    ensures forall i :: 0 <= i < |keys| ==> es[i] == Attr(keys[i], m[keys[i]])
  {
    seq(|keys|, i requires 0 <= i < |keys| => Attr(keys[i], m[keys[i]]))
  }

  /** The attributes of a map in on-disk order. */
  ghost function SortedAttrs(m: map<bytes, bytes>): seq<Attr> {
    AnyOrderLists(m.Keys);
    SortedLists(AnyOrder(m.Keys), m.Keys);
    Attrs(m, SortedKeys(m.Keys))
  }

  /** The whole xattr area of an inode; empty without attributes. */
  ghost function XattrArea(m: map<bytes, bytes>): bytes {
    if m == map[] then [] else AreaBytes(SortedAttrs(m))
  }

  /** No attribute is lost or changed by the listing. */
  lemma MapOfSorted(m: map<bytes, bytes>)
    ensures MapOf(SortedAttrs(m)) == m
  {
    hide Sort, AnyOrder, Attrs, MapOf, DistinctKeys;
    AnyOrderLists(m.Keys);
    SortedLists(AnyOrder(m.Keys), m.Keys);
    MapOfAttrs(m, SortedKeys(m.Keys));
    AllKeys(m, SortedKeys(m.Keys));
  }

  lemma AllKeys(m: map<bytes, bytes>, keys: seq<bytes>)
    requires Lists(keys, m.Keys)
    ensures (map k | k in keys :: m[k]) == m
  {
  }

  lemma {:induction false} MapOfAttrs(m: map<bytes, bytes>, keys: seq<bytes>)
    requires forall k <- keys :: k in m
    ensures MapOf(Attrs(m, keys)) == map k | k in keys :: m[k]
  {
    if keys == [] {
    } else {
      var n := |keys| - 1;
      MapOfAttrs(m, keys[..n]);
      assert Attrs(m, keys)[..n] == Attrs(m, keys[..n]);
      assert keys == keys[..n] + [keys[n]];
    }
  }

  function SumSizes(es: seq<Attr>): nat {
    if es == [] then 0 else EntrySize(es[0]) + SumSizes(es[1..])
  }

  /** Planned area size equals written area size. */
  lemma {:induction false} EntriesSize(es: seq<Attr>)
    ensures |EntriesBytes(es)| == SumSizes(es)
  {
    if es != [] {
      EntriesSize(es[1..]);
    }
  }

  ghost function SetSum(m: map<bytes, bytes>, s: set<bytes>): nat
    requires s <= m.Keys
  {
    if s == {} then 0 else
      var x :| x in s;
      EntrySize(Attr(x, m[x])) + SetSum(m, s - {x})
  }

  lemma {:induction false} SetSumRemove(m: map<bytes, bytes>, s: set<bytes>, y: bytes)
    requires s <= m.Keys && y in s
    ensures SetSum(m, s) == EntrySize(Attr(y, m[y])) + SetSum(m, s - {y})
  {
    var x :| x in s && SetSum(m, s) == EntrySize(Attr(x, m[x])) + SetSum(m, s - {x});
    if x != y {
      SetSumRemove(m, s - {x}, y);
      SetSumRemove(m, s - {y}, x);
      assert s - {x} - {y} == s - {y} - {x};
    }
  }

  lemma ListsTail(keys: seq<bytes>, s: set<bytes>)
    requires Lists(keys, s) && keys != []
    ensures Lists(keys[1..], s - {keys[0]}) && keys[0] in s && forall k <- keys :: k in s
  {
    var rest := keys[1..];
    forall i | 0 <= i < |rest|
      ensures rest[i] in s - {keys[0]}
    {
      assert rest[i] == keys[i + 1] && Same(keys[0]) != Same(keys[i + 1]);
    }
    forall i, j | 0 <= i < j < |rest|
      ensures Same(rest[i]) != Same(rest[j])
    {
      assert Same(keys[i + 1]) != Same(keys[j + 1]);
    }
    assert keys == [keys[0]] + rest;
  }

  lemma {:induction false} SumIsSetSum(m: map<bytes, bytes>, keys: seq<bytes>, s: set<bytes>)
    requires Lists(keys, s) && s <= m.Keys
    ensures SumSizes(Attrs(m, keys)) == SetSum(m, s)
  {
    if keys == [] {
      assert s == {};
    } else {
      hide Lists, SetSum, SumSizes, EntrySize, Attrs;
      ListsTail(keys, s);
      SumIsSetSum(m, keys[1..], s - {keys[0]});
      SetSumRemove(m, s, keys[0]);
      SumUnfold(m, keys);
    }
  }

  lemma SumUnfold(m: map<bytes, bytes>, keys: seq<bytes>)
    requires keys != [] && forall k <- keys :: k in m
    ensures SumSizes(Attrs(m, keys)) == EntrySize(Attr(keys[0], m[keys[0]])) + SumSizes(Attrs(m, keys[1..]))
  {
    hide EntrySize;
    assert Attrs(m, keys)[1..] == Attrs(m, keys[1..]);
  }

  /** calcXattrSize: sums in whatever order the map yields; the result is the written size. */
  method CalcXattrSize(m: map<bytes, bytes>) returns (n: nat)
    ensures n == |XattrArea(m)|
  {
    if |m| == 0 {
      return 0;
    }
    var total: nat, left := 0, m.Keys;
    while left != {}
      invariant left <= m.Keys
      invariant total + SetSum(m, left) == SetSum(m, m.Keys)
      decreases |left|
    {
      var k :| k in left;
      SetSumRemove(m, left, k);
      total := total + EntrySize(Attr(k, m[k]));
      left := left - {k};
    }
    AnyOrderLists(m.Keys);
    SortedLists(AnyOrder(m.Keys), m.Keys);
    SumIsSetSum(m, SortedKeys(m.Keys), m.Keys);
    EntriesSize(SortedAttrs(m));
    assert m != map[];
    n := SIZE_XATTR_HEADER + total;
  }

  /** writeXattrs, for an inode that has attributes. */
  method WriteXattrs(m: map<bytes, bytes>) returns (out: bytes)
    requires m != map[]
    ensures out == XattrArea(m)
  {
    var keys := CollectKeys(m);
    SortedKeysUnique(keys, m.Keys);
    keys := Sort(Same, keys);
    out := U32(0xFFFF_FFFF) + Zeros(8);
    var i := 0;
    ghost var es := SortedAttrs(m);
    while i < |keys|
      invariant 0 <= i <= |keys| && es == Attrs(m, keys)
      invariant out + EntriesBytes(es[i..]) == AreaBytes(es)
    {
      var entry := WriteEntry(keys[i], m[keys[i]]);
      EntriesStep(es, i);
      AppendAssoc(out, entry, EntriesBytes(es[i + 1..]));
      out := out + entry;
      i := i + 1;
    }
    NoEntries(es, i);
  }

  /** The keys of a map, in the order its iteration happens to yield. */
  method CollectKeys(m: map<bytes, bytes>) returns (keys: seq<bytes>)
    ensures Lists(keys, m.Keys)
  {
    keys := [];
    var left := m.Keys;
    while left != {}
      invariant left <= m.Keys && Lists(keys, m.Keys - left)
      decreases |left|
    {
      var k :| k in left;
      left := left - {k};
      keys := keys + [k];
    }
    assert m.Keys - {} == m.Keys;
  }

  method WriteEntry(name: bytes, value: bytes) returns (out: bytes)
    ensures out == EntryBytes(Attr(name, value))
  {
    hide Suffix, Index, U16, EntryBytes, RoundUp;
    var suffix := Suffix(name);
    out := [|suffix| % 256, Index(name)] + U16(|value|);
    out := out + suffix;
    out := out + value;
    var entryLen := SIZE_XATTR_ENTRY + |suffix| + |value|;
    PadToFour(entryLen);
    EntryParts(name, value, out);
    if entryLen % 4 != 0 {
      out := out + Zeros(4 - entryLen % 4);
    }
  }

  lemma EntryParts(name: bytes, value: bytes, body: bytes)
    requires body == EntryHead(Attr(name, value)) + Suffix(name) + value
    ensures EntryBytes(Attr(name, value)) == if RoundUp(|body|, 4) > |body| then body + Zeros(RoundUp(|body|, 4) - |body|) else body
  {
    hide Suffix, EntryHead;
    assert body + Zeros(0) == body;
  }

  lemma EntriesStep(es: seq<Attr>, i: nat)
    requires i < |es|
    ensures EntriesBytes(es[i..]) == EntryBytes(es[i]) + EntriesBytes(es[i + 1..])
  {
    assert es[i..][1..] == es[i + 1..];
  }

  lemma NoEntries(es: seq<Attr>, i: nat)
    requires i == |es|
    ensures EntriesBytes(es[i..]) == []
  {
  }

  lemma PadToFour(n: nat)
    ensures RoundUp(n, 4) - n == if n % 4 != 0 then 4 - n % 4 else 0
  {
  }

  lemma AppendAssoc(a: bytes, b: bytes, c: bytes)
    ensures a + (b + c) == a + b + c
  {
  }
}
