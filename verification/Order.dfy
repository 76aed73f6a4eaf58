/** Byte-wise string order (bytes.Compare, Go's < on strings) and sorting by a name. */
module Order {
  import opened Bytes

  /** bytes.Compare: -1, 0 or 1. */
  function Compare(a: bytes, b: bytes): (c: int)
    ensures -1 <= c <= 1
    ensures c == 0 <==> a == b
  {
    if a == [] then (if b == [] then 0 else -1)
    else if b == [] then 1
    else if a[0] < b[0] then -1
    else if a[0] > b[0] then 1
    else
      assert a == [a[0]] + a[1..] && b == [b[0]] + b[1..];
      Compare(a[1..], b[1..])
  }

  predicate Less(a: bytes, b: bytes) {
    Compare(a, b) < 0
  }

  lemma {:induction false} CompareFlip(a: bytes, b: bytes)
    ensures Compare(b, a) == -Compare(a, b)
  {
    if a != [] && b != [] && a[0] == b[0] {
      CompareFlip(a[1..], b[1..]);
    }
  }

  lemma {:induction false} LessTrans(a: bytes, b: bytes, c: bytes)
    requires Compare(a, b) <= 0 && Compare(b, c) <= 0
    ensures Compare(a, c) <= 0
    ensures Less(a, b) || Less(b, c) ==> Less(a, c)
  {
    if a != [] && b != [] && c != [] && a[0] == b[0] == c[0] {
      LessTrans(a[1..], b[1..], c[1..]);
    }
  }

  /** Strictly ascending names. */
  ghost predicate Ascending(names: seq<bytes>) {
    forall i, j :: 0 <= i < j < |names| ==> Less(names[i], names[j])
  }

  function Map<T, U>(f: T -> U, s: seq<T>): (r: seq<U>)
    ensures |r| == |s|
    ensures forall i :: 0 <= i < |s| ==> r[i] == f(s[i])
  {
    seq(|s|, i requires 0 <= i < |s| => f(s[i]))
  }

  function Insert<T>(key: T -> bytes, x: T, s: seq<T>): seq<T> {
    if s == [] || Less(key(x), key(s[0])) then [x] + s
    else [s[0]] + Insert(key, x, s[1..])
  }

  /** sort.Slice by name. */
  function Sort<T>(key: T -> bytes, s: seq<T>): seq<T> {
    if s == [] then [] else Insert(key, s[0], Sort(key, s[1..]))
  }

  lemma {:induction false} InsertElements<T>(key: T -> bytes, x: T, s: seq<T>)
    ensures multiset(Insert(key, x, s)) == multiset(s) + multiset{x}
    ensures |Insert(key, x, s)| == |s| + 1
  {
    if s == [] || Less(key(x), key(s[0])) {
    } else {
      InsertElements(key, x, s[1..]);
      assert s == [s[0]] + s[1..];
    }
  }

  lemma ConsAscending<T>(key: T -> bytes, x: T, s: seq<T>)
    requires Ascending(Map(key, s))
    requires forall y <- s :: Less(key(x), key(y))
    ensures Ascending(Map(key, [x] + s))
  {
    var m := Map(key, [x] + s);
    forall i, j | 0 <= i < j < |m|
      ensures Less(m[i], m[j])
    {
      assert s[j - 1] in s;
      if i > 0 {
        assert Less(Map(key, s)[i - 1], Map(key, s)[j - 1]);
      }
    }
  }

  lemma HeadLess<T>(key: T -> bytes, s: seq<T>, y: T)
    requires s != [] && Ascending(Map(key, s)) && y in s[1..]
    ensures Less(key(s[0]), key(y))
  {
    var k :| 0 <= k < |s[1..]| && s[1..][k] == y;
    assert Less(Map(key, s)[0], Map(key, s)[k + 1]);
  }

  lemma TailAscending<T>(key: T -> bytes, s: seq<T>)
    requires s != [] && Ascending(Map(key, s))
    ensures Ascending(Map(key, s[1..]))
  {
    assert Map(key, s)[1..] == Map(key, s[1..]);
  }

  lemma {:induction false} InsertAscending<T>(key: T -> bytes, x: T, s: seq<T>)
    requires Ascending(Map(key, s))
    requires forall y <- s :: key(y) != key(x)
    ensures Ascending(Map(key, Insert(key, x, s)))
  {
    if s == [] {
    } else if Less(key(x), key(s[0])) {
      forall y <- s
        ensures Less(key(x), key(y))
      {
        if y in s[1..] {
          HeadLess(key, s, y);
          LessTrans(key(x), key(s[0]), key(y));
        }
      }
      ConsAscending(key, x, s);
    } else {
      var t := Insert(key, x, s[1..]);
      TailAscending(key, s);
      InsertAscending(key, x, s[1..]);
      InsertElements(key, x, s[1..]);
      CompareFlip(key(x), key(s[0]));
      forall y <- t
        ensures Less(key(s[0]), key(y))
      {
        assert y in multiset(t);
        if y != x {
          HeadLess(key, s, y);
        }
      }
      ConsAscending(key, s[0], t);
    }
  }

  /** Sorting permutes; with distinct names the result is strictly ascending. */
  lemma {:induction false} SortElements<T>(key: T -> bytes, s: seq<T>)
    ensures multiset(Sort(key, s)) == multiset(s)
    ensures |Sort(key, s)| == |s|
  {
    if s != [] {
      SortElements(key, s[1..]);
      InsertElements(key, s[0], Sort(key, s[1..]));
      assert s == [s[0]] + s[1..];
    }
  }

  ghost predicate DistinctKeys<T>(key: T -> bytes, s: seq<T>) {
    forall i, j :: 0 <= i < j < |s| ==> key(s[i]) != key(s[j])
  }

  lemma {:induction false} SortAscending<T>(key: T -> bytes, s: seq<T>)
    requires DistinctKeys(key, s)
    ensures Ascending(Map(key, Sort(key, s)))
  {
    if s != [] {
      assert DistinctKeys(key, s[1..]);
      SortAscending(key, s[1..]);
      SortElements(key, s[1..]);
      forall y <- Sort(key, s[1..])
        ensures key(y) != key(s[0])
      {
        assert y in multiset(s[1..]);
        var k :| 0 <= k < |s[1..]| && s[1..][k] == y;
        assert key(s[0]) != key(s[k + 1]);
      }
      InsertAscending(key, s[0], Sort(key, s[1..]));
    }
  }

  /** A strictly ascending list is determined by its elements. */
  lemma {:induction false} AscendingUnique<T>(key: T -> bytes, a: seq<T>, b: seq<T>)
    requires Ascending(Map(key, a)) && Ascending(Map(key, b))
    requires forall x <- a :: x in b
    requires forall x <- b :: x in a
    ensures a == b
  {
    assert a == [] <==> b == [] by {
      if a != [] { assert a[0] in b; }
      if b != [] { assert b[0] in a; }
    }
    if a != [] {
      assert a[0] in b && b == [b[0]] + b[1..];
      assert b[0] in a && a == [a[0]] + a[1..];
      if a[0] in b[1..] { HeadLess(key, b, a[0]); }
      if b[0] in a[1..] { HeadLess(key, a, b[0]); }
      CompareFlip(key(a[0]), key(b[0]));
      assert a[0] == b[0];
      TailElements(key, a, b);
      TailElements(key, b, a);
      TailAscending(key, a);
      TailAscending(key, b);
      AscendingUnique(key, a[1..], b[1..]);
    }
  }

  lemma TailElements<T>(key: T -> bytes, a: seq<T>, b: seq<T>)
    requires a != [] && b != [] && a[0] == b[0] && Ascending(Map(key, a))
    requires forall x <- a :: x in b
    ensures forall x <- a[1..] :: x in b[1..]
  {
    forall x <- a[1..]
      ensures x in b[1..]
    {
      HeadLess(key, a, x);
      assert x in a;
    }
  }

  function Same(n: bytes): bytes { n }
}
