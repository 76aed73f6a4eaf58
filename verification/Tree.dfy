/** Positions in the pre-order entry list: subtrees, kids and parents. */
module Tree {
  import opened Bytes
  import opened Format
  import opened Layout

  /** Position of kid k, relative to its directory. */
  function KidIndex(t: Node, k: nat): (i: nat)
    requires k <= |t.kids|
    ensures i > 0
  {
    1 + |PreorderAll(t.kids[..k])|
  }

  lemma {:induction false} PreorderAllSplit(ts: seq<Node>, k: nat)
    requires k <= |ts|
    ensures PreorderAll(ts) == PreorderAll(ts[..k]) + PreorderAll(ts[k..])
    decreases k
  {
    hide Preorder;
    if k > 0 {
      PreorderAllSplit(ts[1..], k - 1);
      assert ts[..k][1..] == ts[1..][..k - 1] && ts[1..][k - 1..] == ts[k..];
      AppendThree(Preorder(ts[0]), PreorderAll(ts[1..][..k - 1]), PreorderAll(ts[k..]));
    } else {
      assert ts[k..] == ts && ts[..k] == [];
    }
  }

  lemma AppendThree<T>(a: seq<T>, b: seq<T>, c: seq<T>)
    ensures a + (b + c) == a + b + c
  {
  }

  /** The list of kid k lies in the list of all, after those of the kids before it. */
  lemma PreorderAllAt(ts: seq<Node>, k: nat)
    requires k < |ts|
    ensures var b := |PreorderAll(ts[..k])|;
            && b + |Preorder(ts[k])| <= |PreorderAll(ts)|
            && PreorderAll(ts)[b..b + |Preorder(ts[k])|] == Preorder(ts[k])
  {
    hide Preorder;
    PreorderAllSplit(ts, k);
    assert ts[k..][0] == ts[k];
    assert PreorderAll(ts[k..]) == Preorder(ts[k]) + PreorderAll(ts[k..][1..]);
  }

  /** A kid of a directory sits at its index. */
  lemma KidAt(t: Node, k: nat)
    requires IsDir(t.info.mode) && k < |t.kids|
    ensures var i := KidIndex(t, k);
            && i + |Preorder(t.kids[k])| <= |Preorder(t)|
            && Preorder(t)[i..i + |Preorder(t.kids[k])|] == Preorder(t.kids[k])
            && Preorder(t)[i] == t.kids[k]
  {
    PreorderAllAt(t.kids, k);
    var all := PreorderAll(t.kids);
    var b := |PreorderAll(t.kids[..k])|;
    assert Preorder(t)[1..] == all;
    SliceOfTail(Preorder(t), b, b + |Preorder(t.kids[k])|);
  }

  lemma SliceOfTail<T>(s: seq<T>, lo: nat, hi: nat)
    requires lo <= hi <= |s| - 1
    ensures s[1..][lo..hi] == s[lo + 1..hi + 1]
  {
  }

  /** Every entry is followed by its own subtree. */
  lemma {:induction false} SubtreeSlice(t: Node, i: nat)
    requires i < |Preorder(t)|
    ensures var n := |Preorder(Preorder(t)[i])|;
            i + n <= |Preorder(t)| && Preorder(t)[i..i + n] == Preorder(Preorder(t)[i])
    decreases t, 1
  {
    if i > 0 {
      assert Preorder(t)[1..] == PreorderAll(t.kids);
      SubtreeSliceAll(t.kids, i - 1);
      var n := |Preorder(Preorder(t)[i])|;
      SliceOfTail(Preorder(t), i - 1, i - 1 + n);
    }
  }

  lemma {:induction false} SubtreeSliceAll(ts: seq<Node>, i: nat)
    requires i < |PreorderAll(ts)|
    ensures var n := |Preorder(PreorderAll(ts)[i])|;
            i + n <= |PreorderAll(ts)| && PreorderAll(ts)[i..i + n] == Preorder(PreorderAll(ts)[i])
    decreases ts, 0
  {
    hide Preorder, PreorderAll;
    NoKids();
    UnfoldList(ts);
    var first, rest := Preorder(ts[0]), PreorderAll(ts[1..]);
    var n := |Preorder(PreorderAll(ts)[i])|;
    if i < |first| {
      SubtreeSlice(ts[0], i);
      SliceOfConcat(first, rest, i, i + n);
    } else {
      SubtreeSliceAll(ts[1..], i - |first|);
      SliceOfConcat(first, rest, i - |first|, i - |first| + n);
    }
  }

  lemma UnfoldList(ts: seq<Node>)
    requires ts != []
    ensures PreorderAll(ts) == Preorder(ts[0]) + PreorderAll(ts[1..])
  {
  }

  lemma SliceOfConcat<T>(a: seq<T>, b: seq<T>, lo: nat, hi: nat)
    requires lo <= hi
    ensures hi <= |a| ==> (a + b)[lo..hi] == a[lo..hi]
    ensures hi <= |b| ==> (a + b)[|a| + lo..|a| + hi] == b[lo..hi]
  {
  }

  /** Position of each entry's parent; the root's is given. */
  function Parents(t: Node, at: nat, parent: nat): (r: seq<nat>)
    ensures |r| == |Preorder(t)| && r[0] == parent
    decreases t, 1
  {
    [parent] + if IsDir(t.info.mode) then ParentsAll(t.kids, at + 1, at) else []
  }

  function ParentsAll(ts: seq<Node>, at: nat, parent: nat): (r: seq<nat>)
    ensures |r| == |PreorderAll(ts)|
    decreases ts, 0
  {
    if ts == [] then []
    else Parents(ts[0], at, parent) + ParentsAll(ts[1..], at + |Preorder(ts[0])|, parent)
  }

  lemma UnfoldTree(t: Node, at: nat, parent: nat)
    ensures IsDir(t.info.mode) ==>
              && Preorder(t)[1..] == PreorderAll(t.kids)
              && Parents(t, at, parent)[1..] == ParentsAll(t.kids, at + 1, at)
    ensures !IsDir(t.info.mode) ==> |Preorder(t)| == 1
  {
  }

  lemma UnfoldKids(ts: seq<Node>, at: nat, parent: nat)
    requires ts != []
    ensures PreorderAll(ts) == Preorder(ts[0]) + PreorderAll(ts[1..])
    ensures ParentsAll(ts, at, parent) == Parents(ts[0], at, parent) + ParentsAll(ts[1..], at + |Preorder(ts[0])|, parent)
  {
  }

  lemma NoKids()
    ensures PreorderAll([]) == []
  {
  }

  /** Kid k of the entry at position i has i as its parent. */
  lemma {:induction false} ParentOfKid(t: Node, at: nat, parent: nat, i: nat, k: nat)
    requires i < |Preorder(t)| && IsDir(Preorder(t)[i].info.mode) && k < |Preorder(t)[i].kids|
    ensures var j := i + KidIndex(Preorder(t)[i], k);
            j < |Preorder(t)| && Parents(t, at, parent)[j] == at + i
    decreases t, 1
  {
    hide Preorder, PreorderAll, Parents, ParentsAll;
    var e := Preorder(t)[i];
    UnfoldTree(t, at, parent);
    SubtreeSlice(t, i);
    KidAt(e, k);
    assert |Preorder(e.kids[k])| > 0;
    if i == 0 {
      ParentsAllAt(t.kids, at + 1, at, k);
    } else {
      ParentOfKidAll(t.kids, at + 1, at, i - 1, k);
    }
  }

  lemma {:induction false} ParentsAllAt(ts: seq<Node>, at: nat, parent: nat, k: nat)
    requires k < |ts|
    ensures |PreorderAll(ts[..k])| < |PreorderAll(ts)|
    ensures ParentsAll(ts, at, parent)[|PreorderAll(ts[..k])|] == parent
    decreases k
  {
    if k > 0 {
      ParentsAllAt(ts[1..], at + |Preorder(ts[0])|, parent, k - 1);
      assert ts[..k][1..] == ts[1..][..k - 1];
    }
  }

  lemma {:induction false} ParentOfKidAll(ts: seq<Node>, at: nat, parent: nat, i: nat, k: nat)
    requires i < |PreorderAll(ts)| && IsDir(PreorderAll(ts)[i].info.mode) && k < |PreorderAll(ts)[i].kids|
    ensures var j := i + KidIndex(PreorderAll(ts)[i], k);
            j < |PreorderAll(ts)| && ParentsAll(ts, at, parent)[j] == at + i
    decreases ts, 0
  {
    hide Preorder, PreorderAll, Parents, ParentsAll, KidIndex;
    NoKids();
    UnfoldKids(ts, at, parent);
    var first := |Preorder(ts[0])|;
    if i < first {
      ParentOfKid(ts[0], at, parent, i, k);
    } else {
      ParentOfKidAll(ts[1..], at + first, parent, i - first, k);
    }
  }

  /** A parent comes earlier in the list, is a directory, and has the entry among its kids. */
  lemma {:induction false} ParentHasKid(t: Node, at: nat, parent: nat, j: nat) returns (k: nat)
    requires 0 < j < |Preorder(t)|
    ensures var p := Parents(t, at, parent)[j];
            && at <= p < at + j
            && IsDir(Preorder(t)[p - at].info.mode)
            && k < |Preorder(t)[p - at].kids|
            && j == p - at + KidIndex(Preorder(t)[p - at], k)
    decreases t, 1
  {
    hide Preorder, PreorderAll, Parents, ParentsAll;
    UnfoldTree(t, at, parent);
    k := ParentHasKidAll(t, t.kids, at + 1, at, j - 1, 0);
  }

  /** The same inside the tail ts of t's kids, which starts at list position 1 + before. */
  lemma {:induction false} ParentHasKidAll(t: Node, ts: seq<Node>, at: nat, parent: nat, j: nat, n: nat) returns (k: nat)
    requires n <= |t.kids| && ts == t.kids[n..] && j < |PreorderAll(ts)|
    ensures var p := ParentsAll(ts, at, parent)[j];
            if p == parent then
              k < |t.kids| && n <= k && j == |PreorderAll(t.kids[n..k])|
            else
              && at <= p < at + j
              && IsDir(PreorderAll(ts)[p - at].info.mode)
              && k < |PreorderAll(ts)[p - at].kids|
              && j == p - at + KidIndex(PreorderAll(ts)[p - at], k)
    requires parent < at
    decreases ts, 0
  {
    hide Preorder, Parents, KidIndex, PreorderAll, ParentsAll;
    NoKids();
    UnfoldKids(ts, at, parent);
    var first := |Preorder(ts[0])|;
    if j == 0 {
      k := n;
      assert t.kids[n..n] == [];
    } else if j < first {
      k := ParentHasKid(ts[0], at, parent, j);
    } else {
      k := ParentHasKidAll(t, t.kids[n + 1..], at + first, parent, j - first, n + 1);
      assert ts[1..] == t.kids[n + 1..];
      var p := ParentsAll(ts, at, parent)[j];
      if p == parent {
        UnfoldKids(t.kids[n..k], 0, 0);
        assert t.kids[n..k][1..] == t.kids[n + 1..k];
      }
    }
  }
}
