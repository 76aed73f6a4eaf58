/** Byte strings: little-endian fields, zero filling, and "these bytes sit at that offset". */
module Bytes {

  datatype Option<+T> = None | Some(value: T)

  /** Go's error values, by the class a caller can tell apart. */
  datatype Error = EOF | NotExist | Invalid | NotImplemented | NotDirectory | IsDirectory | Loop | ShortRead

  datatype Result<+T> = Ok(value: T) | Err(error: Error)

  type byte = b: nat | b < 256
  type bytes = seq<byte>

  type u16 = n: nat | n < 0x1_0000
  type u32 = n: nat | n < 0x1_0000_0000
  type u64 = n: nat | n < 0x1_0000_0000_0000_0000

  function Min(a: int, b: int): int { if a <= b then a else b }

  function Zeros(n: nat): (z: bytes)
    ensures |z| == n
    ensures forall i :: 0 <= i < n ==> z[i] == 0
  {
    seq(n, _ => 0)
  }

  /** The truncating little-endian stores of encoding/binary. */
  function U16(v: nat): (b: bytes)
    ensures |b| == 2
  {
    [v % 256, v / 256 % 256]
  }

  function U32(v: nat): (b: bytes)
    ensures |b| == 4
  {
    U16(v) + U16(v / 0x1_0000)
  }

  function U64(v: nat): (b: bytes)
    ensures |b| == 8
  {
    U32(v) + U32(v / 0x1_0000_0000)
  }

  function Get16(b: bytes, o: nat): u16
    requires o + 2 <= |b|
  {
    var lo: nat, hi: nat := b[o], b[o + 1];
    lo + 256 * hi
  }

  function Get32(b: bytes, o: nat): u32
    requires o + 4 <= |b|
  {
    var lo: nat, hi: nat := Get16(b, o), Get16(b, o + 2);
    lo + 0x1_0000 * hi
  }

  function Get64(b: bytes, o: nat): u64
    requires o + 8 <= |b|
  {
    var lo: nat, hi: nat := Get32(b, o), Get32(b, o + 4);
    lo + 0x1_0000_0000 * hi
  }

  /** p occurs in b at offset o. */
  ghost predicate At(b: bytes, o: nat, p: bytes) {
    o + |p| <= |b| && b[o..o + |p|] == p
  }

  /** Loads from a slice are loads from the whole. */
  lemma Window(b: bytes, a: nat, n: nat, k: nat)
    requires a + n <= |b| && k < n
    ensures b[a..a + n][k] == b[a + k]
    ensures k + 2 <= n ==> Get16(b[a..a + n], k) == Get16(b, a + k)
    ensures k + 4 <= n ==> Get32(b[a..a + n], k) == Get32(b, a + k)
    ensures k + 8 <= n ==> Get64(b[a..a + n], k) == Get64(b, a + k)
  {
  }

  lemma AtConcat(a: bytes, p: bytes, c: bytes)
    ensures At(a + p + c, |a|, p)
    ensures At(a + (p + c), |a|, p)
  {
    assert (a + p + c)[|a|..|a| + |p|] == p;
    assert a + (p + c) == a + p + c;
  }

  lemma AtThree(a: bytes, p: bytes, c: bytes)
    ensures At(a + p + c, 0, a) && At(a + p + c, |a|, p) && At(a + p + c, |a| + |p|, c)
  {
  }

  lemma AtParts(b: bytes, o: nat, x: bytes, y: bytes, z: bytes)
    requires At(b, o, x + y + z)
    ensures At(b, o, x) && At(b, o + |x|, y) && At(b, o + |x| + |y|, z)
  {
    AtThree(x, y, z);
    AtSub(b, o, x + y + z, 0, x);
    AtSub(b, o, x + y + z, |x|, y);
    AtSub(b, o, x + y + z, |x| + |y|, z);
  }

  lemma AtSub(b: bytes, o: nat, p: bytes, q: nat, r: bytes)
    requires At(b, o, p) && At(p, q, r)
    ensures At(b, o + q, r)
  {
    var w := b[o..o + |p|];
    forall i | 0 <= i < |r|
      ensures b[o + q + i] == r[i]
    {
      assert w[q..q + |r|][i] == w[q + i] == b[o + (q + i)];
    }
    assert b[o + q..o + q + |r|] == r;
  }

  lemma AtIndex(b: bytes, o: nat, p: bytes, i: nat)
    requires At(b, o, p) && i < |p|
    ensures b[o + i] == p[i]
  {
    assert b[o..o + |p|][i] == b[o + i];
  }

  /** What a little-endian store wrote, the load returns, modulo the field's width. */
  lemma LoadStored16(b: bytes, o: nat, v: nat)
    requires At(b, o, U16(v))
    ensures Get16(b, o) == v % 0x1_0000
  {
    AtIndex(b, o, U16(v), 0);
    AtIndex(b, o, U16(v), 1);
  }

  lemma LoadStored32(b: bytes, o: nat, v: nat)
    requires At(b, o, U32(v))
    ensures Get32(b, o) == v % 0x1_0000_0000
  {
    AtConcat([], U16(v), U16(v / 0x1_0000));
    AtConcat(U16(v), U16(v / 0x1_0000), []);
    assert U16(v) + U16(v / 0x1_0000) + [] == U32(v) == [] + U16(v) + U16(v / 0x1_0000);
    AtSub(b, o, U32(v), 0, U16(v));
    AtSub(b, o, U32(v), 2, U16(v / 0x1_0000));
    LoadStored16(b, o, v);
    LoadStored16(b, o + 2, v / 0x1_0000);
    SplitHalf(v);
  }

  lemma SplitHalf(v: nat)
    ensures v % 0x1_0000 + 0x1_0000 * (v / 0x1_0000 % 0x1_0000) == v % 0x1_0000_0000
  {
    TwoDigits(v, 0x1_0000, 0x1_0000);
  }

  lemma LoadStored64(b: bytes, o: nat, v: nat)
    requires At(b, o, U64(v))
    ensures Get64(b, o) == v % 0x1_0000_0000_0000_0000
  {
    var hi := v / 0x1_0000_0000;
    AtConcat([], U32(v), U32(hi));
    AtConcat(U32(v), U32(hi), []);
    assert U32(v) + U32(hi) + [] == U64(v) == [] + U32(v) + U32(hi);
    AtSub(b, o, U64(v), 0, U32(v));
    AtSub(b, o, U64(v), 4, U32(hi));
    LoadStored32(b, o, v);
    LoadStored32(b, o + 4, hi);
    SplitWord(v);
  }

  lemma SplitWord(v: nat)
    ensures v % 0x1_0000_0000 + 0x1_0000_0000 * (v / 0x1_0000_0000 % 0x1_0000_0000) == v % 0x1_0000_0000_0000_0000
  {
    TwoDigits(v, 0x1_0000_0000, 0x1_0000_0000);
  }

  /** The two low digits of v, base m and base n, from the uniqueness of division. */
  lemma TwoDigits(v: nat, m: nat, n: nat)
    requires m > 0 && n > 0
    ensures m * n > 0 && v % (m * n) == v % m + m * (v / m % n)
    ensures v / (m * n) == v / m / n
  {
    var q, r := Quo(v, m), Rem(v, m);
    var a, b := Quo(q, n), Rem(q, n);
    DigitsBelow(m, n, r, b);
    Regroup(v, m, n, q, r, a, b);
    DivUnique(v, m * n, a, r + m * b);
  }

  lemma DigitsBelow(m: nat, n: nat, r: nat, b: nat)
    requires r < m && b < n
    ensures 0 <= m * b && r + m * b < m * n
  {
    MulMono(b + 1, n, m);
    MulStep(b, m);
  }

  lemma Regroup(v: nat, m: nat, n: nat, q: nat, r: nat, a: nat, b: nat)
    requires v == q * m + r && q == a * n + b
    ensures v == a * (m * n) + (r + m * b)
  {
    assert (a * n + b) * m == a * n * m + b * m;
    assert a * n * m == a * (m * n);
  }

  /** x rounded up to a multiple of m: the source's (x + m-1) &^ (m-1) for a power of two m. */
  function RoundUp(x: nat, m: nat): (r: nat)
    requires m > 0
    ensures x <= r < x + m
    ensures r % m == 0
    ensures x % m == 0 ==> r == x
  {
    var q := (x + m - 1) / m;
    DivMod(x + m - 1, m);
    MulMod(q, m);
    if x % m == 0 then
      RoundUpAligned(x, m);
      q * m
    else
      q * m
  }

  lemma DivMod(x: nat, m: nat)
    requires m > 0
    ensures x == x / m * m + x % m
  {
  }

  /** x / m and x % m with the facts that division by a variable needs spelled out. */
  function Quo(x: nat, m: nat): (q: nat)
    requires m > 0
    ensures q * m <= x < q * m + m
  {
    DivMod(x, m);
    x / m
  }

  function Rem(x: nat, m: nat): (r: nat)
    requires m > 0
    ensures r < m && r <= x
    ensures x == Quo(x, m) * m + r
  {
    DivMod(x, m);
    x % m
  }

  lemma MulMod(q: nat, m: nat)
    requires m > 0
    ensures q * m % m == 0
    ensures q * m / m == q
  {
    DivUnique(q * m, m, q, 0);
  }

  lemma DivUnique(x: nat, m: nat, q: nat, r: nat)
    requires m > 0 && x == q * m + r && r < m
    ensures x / m == q && x % m == r
  {
    var q' := x / m;
    DivMod(x, m);
    MulStep(q, m);
    MulStep(q', m);
    MulMono(q' + 1, q, m);
    MulMono(q + 1, q', m);
  }

  lemma MulStep(q: nat, m: nat)
    ensures (q + 1) * m == q * m + m
  {
  }

  lemma RoundUpAligned(x: nat, m: nat)
    requires m > 0 && x % m == 0
    ensures (x + m - 1) / m * m == x
  {
    DivMod(x, m);
    DivUnique(x + m - 1, m, x / m, m - 1);
  }

  lemma MulMono(a: nat, b: nat, m: nat)
    ensures a <= b ==> a * m <= b * m
  {
  }

  /** Number of m-sized pieces that cover x: (x + m-1) / m, counted piece by piece. */
  function CeilDiv(x: nat, m: nat): nat
    requires m > 0
  {
    if x == 0 then 0 else if x <= m then 1 else 1 + CeilDiv(x - m, m)
  }

  lemma {:induction false} CeilDivIsDivision(x: nat, m: nat)
    requires m > 0
    ensures CeilDiv(x, m) == (x + m - 1) / m
  {
    if x == 0 {
      DivUnique(m - 1, m, 0, m - 1);
    } else if x <= m {
      DivUnique(x + m - 1, m, 1, x - 1);
    } else {
      CeilDivIsDivision(x - m, m);
      var y := x - 1;
      MulStep(Quo(y, m), m);
      DivUnique(x + m - 1, m, Quo(y, m) + 1, Rem(y, m));
    }
  }

  lemma CeilDivStep(x: nat, m: nat)
    requires m > 0
    ensures CeilDiv(x + m, m) == CeilDiv(x, m) + 1
  {
  }

  lemma SliceOfSlice<T>(s: seq<T>, a: nat, b: nat, c: nat, d: nat)
    requires a <= b <= |s| && c <= d <= b - a
    ensures s[a..b][c..d] == s[a + c..a + d]
  {
    forall i | 0 <= i < d - c
      ensures s[a..b][c..d][i] == s[a + c..a + d][i]
    {
      assert s[a..b][c + i] == s[a + (c + i)];
    }
  }
}
