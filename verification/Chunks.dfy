/**
 Chunk maps: run-length chunk lists, the per-chunk indexes written for them, the reader's
 resolution of a block, and the parser that coalesces indexes back into runs.
 */
module Chunks {
  import opened Bytes
  import opened Format

  /** A physical block on a device. */
  datatype Loc = Loc(phys: nat, dev: u16)

  /** Logical block b of the expanded chunk list; None past its end. */
  function Locate(chunks: seq<Chunk>, b: nat): Option<Loc> {
    if chunks == [] then None
    else if b < chunks[0].count then Some(Loc(chunks[0].phys + b, chunks[0].dev))
    else Locate(chunks[1..], b - chunks[0].count)
  }

  function Total(chunks: seq<Chunk>): nat {
    if chunks == [] then 0 else chunks[0].count + Total(chunks[1..])
  }

  lemma {:induction false} LocateDomain(chunks: seq<Chunk>, b: nat)
    ensures Locate(chunks, b).Some? <==> b < Total(chunks)
  {
    if chunks != [] && b >= chunks[0].count {
      LocateDomain(chunks[1..], b - chunks[0].count);
    }
  }

  function Shift(l: Option<Loc>, k: nat): Option<Loc> {
    match l
    case None => None
    case Some(Loc(p, d)) => Some(Loc(p + k, d))
  }

  /** On-disk index: high and low block address and device; all ones for a hole. */
  function IndexBytes(l: Option<Loc>): (b: bytes)
    ensures |b| == SIZE_CHUNK_INDEX
  {
    match l
    case None => U16(0xFFFF) + U16(0) + U32(NULL_ADDR)
    case Some(Loc(p, d)) => U16(p / 0x1_0000_0000) + U16(d) + U32(p)
  }

  /** Index i locates logical block i * bpc. */
  function ChunkIndexes(chunks: seq<Chunk>, bpc: nat, n: nat): (b: bytes)
    ensures |b| == SIZE_CHUNK_INDEX * n
  {
    if n == 0 then [] else ChunkIndexes(chunks, bpc, n - 1) + IndexBytes(Locate(chunks, (n - 1) * bpc))
  }

  lemma {:induction false} IndexAt(chunks: seq<Chunk>, bpc: nat, n: nat, i: nat)
    requires i < n
    ensures At(ChunkIndexes(chunks, bpc, n), SIZE_CHUNK_INDEX * i, IndexBytes(Locate(chunks, i * bpc)))
  {
    hide IndexBytes, Locate, At;
    var before, last := ChunkIndexes(chunks, bpc, n - 1), IndexBytes(Locate(chunks, (n - 1) * bpc));
    AtThree(before, last, []);
    assert before + last + [] == ChunkIndexes(chunks, bpc, n);
    if i < n - 1 {
      IndexAt(chunks, bpc, n - 1, i);
      AtSub(ChunkIndexes(chunks, bpc, n), 0, before, SIZE_CHUNK_INDEX * i, IndexBytes(Locate(chunks, i * bpc)));
    }
  }

  lemma {:induction false} LocateDrop(chunks: seq<Chunk>, ci: nat, b: nat)
    requires ci <= |chunks|
    ensures Locate(chunks, Total(chunks[..ci]) + b) == Locate(chunks[ci..], b)
    decreases ci
  {
    if ci > 0 {
      assert chunks[..ci][1..] == chunks[1..][..ci - 1];
      assert chunks[1..][ci - 1..] == chunks[ci..];
      LocateDrop(chunks[1..], ci - 1, b);
    } else {
      assert chunks[..0] == [] && chunks[0..] == chunks;
    }
  }

  lemma {:induction false} TotalStep(chunks: seq<Chunk>, ci: nat)
    requires ci < |chunks|
    ensures Total(chunks[..ci + 1]) == Total(chunks[..ci]) + chunks[ci].count
    decreases ci
  {
    assert chunks[..ci + 1][1..] == chunks[1..][..ci];
    if ci > 0 {
      assert chunks[..ci][1..] == chunks[1..][..ci - 1];
      TotalStep(chunks[1..], ci - 1);
    } else {
      assert chunks[..0] == [] && chunks[1..][..0] == [];
    }
  }

  /**
   writeChunkIndexes. A walk over the runs, one step of bpc blocks per index, emits for index n the
   place of logical block n * bpc. (An empty first run would be emitted as if it held a block.)
   */
  method WriteChunkIndexes(chunks: seq<Chunk>, bpc: nat, nchunks: nat) returns (out: bytes)
    ensures |out| == SIZE_CHUNK_INDEX * nchunks
    ensures chunks == [] || chunks[0].count > 0 ==> out == ChunkIndexes(chunks, bpc, nchunks)
  {
    hide IndexBytes, Locate;
    out := [];
    var ci: nat, coff: nat, n: nat := 0, 0, 0;
    ghost var good := chunks == [] || chunks[0].count > 0;
    NoneBefore(chunks);
    while n < nchunks
      invariant n <= nchunks && ci <= |chunks| && |out| == SIZE_CHUNK_INDEX * n
      invariant good ==> out == ChunkIndexes(chunks, bpc, n)
      invariant good ==> AtBlock(chunks, ci, coff, n * bpc)
    {
      MulStep(n, bpc);
      if good {
        EmittedIndex(chunks, ci, coff, n * bpc);
      }
      if ci >= |chunks| {
        out := out + IndexBytes(None);
      } else {
        out := out + IndexBytes(Some(Loc(chunks[ci].phys + coff, chunks[ci].dev)));
        coff := coff + bpc;
        while ci < |chunks| && coff >= chunks[ci].count
          invariant ci <= |chunks|
          invariant good ==> Total(chunks[..ci]) + coff == n * bpc + bpc
          decreases |chunks| - ci
        {
          TotalStep(chunks, ci);
          coff := coff - chunks[ci].count;
          ci := ci + 1;
        }
      }
      n := n + 1;
    }
  }

  /** The walk stands at logical block b: inside run ci, or past all runs. */
  ghost predicate AtBlock(chunks: seq<Chunk>, ci: nat, coff: nat, b: nat)
    requires ci <= |chunks|
  {
    if ci < |chunks| then Total(chunks[..ci]) + coff == b && coff < chunks[ci].count
    else Total(chunks[..ci]) <= b
  }

  lemma NoneBefore(chunks: seq<Chunk>)
    ensures Total(chunks[..0]) == 0
  {
  }

  lemma EmittedIndex(chunks: seq<Chunk>, ci: nat, coff: nat, b: nat)
    requires ci <= |chunks| && AtBlock(chunks, ci, coff, b)
    ensures Locate(chunks, b)
         == if ci < |chunks| then Some(Loc(chunks[ci].phys + coff, chunks[ci].dev)) else None
  {
    if ci < |chunks| {
      LocateDrop(chunks, ci, coff);
    } else {
      assert chunks[..ci] == chunks;
      LocateDomain(chunks, b);
    }
  }

  /** Each run starts where the one before it ends, on the same device. */
  ghost predicate Contiguous(chunks: seq<Chunk>) {
    forall i :: 0 < i < |chunks| ==>
      chunks[i].phys == chunks[i - 1].phys + chunks[i - 1].count && chunks[i].dev == chunks[i - 1].dev
  }

  lemma {:induction false} LocateContiguous(chunks: seq<Chunk>, b: nat)
    requires Contiguous(chunks) && b < Total(chunks)
    ensures Locate(chunks, b) == Some(Loc(chunks[0].phys + b, chunks[0].dev))
  {
    if b >= chunks[0].count {
      var rest := chunks[1..];
      assert rest != [];
      assert forall i :: 0 < i < |rest| ==> rest[i] == chunks[i + 1] && rest[i - 1] == chunks[i];
      LocateContiguous(rest, b - chunks[0].count);
      assert rest[0] == chunks[1];
    }
  }

  /** What the reader makes of block b: the place of its chunk's first block, plus the distance. */
  function Resolve(chunks: seq<Chunk>, bpc: nat, b: nat): Option<Loc>
    requires bpc > 0
  {
    Shift(Locate(chunks, Quo(b, bpc) * bpc), Rem(b, bpc))
  }

  /**
   Chunk-granular resolution is right for the first n blocks exactly when, inside each chunk,
   neighbouring logical blocks are neighbours on the device.
   */
  ghost predicate ChunkAligned(chunks: seq<Chunk>, bpc: nat, n: nat)
    requires bpc > 0
  {
    forall b: nat :: 0 < b < n && Rem(b, bpc) != 0 ==> Locate(chunks, b) == Shift(Locate(chunks, b - 1), 1)
  }

  ghost predicate ResolvesAll(chunks: seq<Chunk>, bpc: nat, n: nat)
    requires bpc > 0
  {
    forall b: nat :: b < n ==> Resolve(chunks, bpc, b) == Locate(chunks, b)
  }

  lemma ResolveIffAligned(chunks: seq<Chunk>, bpc: nat, n: nat)
    requires bpc > 0
    ensures ResolvesAll(chunks, bpc, n) <==> ChunkAligned(chunks, bpc, n)
  {
    if ResolvesAll(chunks, bpc, n) {
      forall b: nat | 0 < b < n && Rem(b, bpc) != 0
        ensures Locate(chunks, b) == Shift(Locate(chunks, b - 1), 1)
      {
        PreviousBlock(b, bpc);
        assert Resolve(chunks, bpc, b) == Locate(chunks, b);
        assert Resolve(chunks, bpc, b - 1) == Locate(chunks, b - 1);
      }
    }
    if ChunkAligned(chunks, bpc, n) {
      forall b: nat | b < n
        ensures Resolve(chunks, bpc, b) == Locate(chunks, b)
      {
        AlignedResolves(chunks, bpc, n, b);
      }
    }
  }

  lemma PreviousBlock(b: nat, bpc: nat)
    requires bpc > 0 && b > 0 && Rem(b, bpc) != 0
    ensures Quo(b - 1, bpc) == Quo(b, bpc) && Rem(b - 1, bpc) == Rem(b, bpc) - 1
  {
    DivUnique(b - 1, bpc, Quo(b, bpc), Rem(b, bpc) - 1);
  }

  lemma {:induction false} AlignedResolves(chunks: seq<Chunk>, bpc: nat, n: nat, b: nat)
    requires bpc > 0 && ChunkAligned(chunks, bpc, n) && b < n
    ensures Resolve(chunks, bpc, b) == Locate(chunks, b)
    decreases b
  {
    if Rem(b, bpc) == 0 {
      assert Shift(Locate(chunks, b), 0) == Locate(chunks, b);
    } else {
      PreviousBlock(b, bpc);
      AlignedResolves(chunks, bpc, n, b - 1);
    }
  }

  /** A contiguous list resolves right for all its blocks, whatever the chunk size. */
  lemma ContiguousResolves(chunks: seq<Chunk>, bpc: nat)
    requires bpc > 0 && Contiguous(chunks)
    ensures ResolvesAll(chunks, bpc, Total(chunks))
  {
    hide Locate, Total, Contiguous, Resolve;
    forall b: nat | b < Total(chunks)
      ensures Resolve(chunks, bpc, b) == Locate(chunks, b)
    {
      BlockResolves(chunks, bpc, b);
    }
  }

  lemma BlockResolves(chunks: seq<Chunk>, bpc: nat, b: nat)
    requires bpc > 0 && Contiguous(chunks) && b < Total(chunks)
    ensures Resolve(chunks, bpc, b) == Locate(chunks, b)
  {
    hide *;
    ResolveIs(chunks, bpc, b);
    FurtherIn(chunks, Quo(b, bpc) * bpc, Rem(b, bpc));
  }

  lemma ResolveIs(chunks: seq<Chunk>, bpc: nat, b: nat)
    requires bpc > 0
    ensures Resolve(chunks, bpc, b) == Shift(Locate(chunks, Quo(b, bpc) * bpc), Rem(b, bpc))
    ensures Quo(b, bpc) * bpc + Rem(b, bpc) == b
  {
    hide Locate, Quo, Rem;
  }

  lemma FurtherIn(chunks: seq<Chunk>, b: nat, k: nat)
    requires Contiguous(chunks) && b + k < Total(chunks)
    ensures Shift(Locate(chunks, b), k) == Locate(chunks, b + k)
  {
    hide Locate, Total, Contiguous;
    LocateContiguous(chunks, b);
    LocateContiguous(chunks, b + k);
  }

  /** One block per chunk resolves any list. */
  lemma SingleBlockResolves(chunks: seq<Chunk>, n: nat)
    ensures ResolvesAll(chunks, 1, n)
  {
    forall b: nat | b < n
      ensures Resolve(chunks, 1, b) == Locate(chunks, b)
    {
      assert Shift(Locate(chunks, b), 0) == Locate(chunks, b);
    }
  }

  /** A list of two scattered blocks under two-block chunks: block 1 is looked up at the wrong place. */
  lemma ScatteredCounterexample()
    ensures var chunks := [Chunk(10, 1, 0), Chunk(20, 1, 0)];
            Resolve(chunks, 2, 1) == Some(Loc(11, 0)) && Locate(chunks, 1) == Some(Loc(20, 0))
  {
    var chunks := [Chunk(10, 1, 0), Chunk(20, 1, 0)];
    assert chunks[1..] == [Chunk(20, 1, 0)];
  }

  /** minChunkBits: the least number of bits from `bits` on whose chunk holds the file, at most 31. */
  method MinChunkBits(bs: nat, chunkBits: nat, size: u64) returns (bits: nat)
    requires chunkBits <= 31
    ensures bits == ChunkBitsFor(bs, chunkBits, size)
  {
    bits := chunkBits;
    while bs * Pow2(bits) < size && bits < 31
      invariant chunkBits <= bits <= 31
      invariant ChunkBitsFor(bs, bits, size) == ChunkBitsFor(bs, chunkBits, size)
      decreases 31 - bits
    {
      bits := bits + 1;
    }
  }

  function ChunkBitsFor(bs: nat, bits: nat, size: nat): (r: nat)
    requires bits <= 31
    ensures bits <= r <= 31
    decreases 31 - bits
  {
    if bs * Pow2(bits) < size && bits < 31 then ChunkBitsFor(bs, bits + 1, size) else bits
  }

  /** The chosen size holds the file in one chunk unless capped, and no smaller choice would. */
  lemma {:induction false} ChunkBitsMinimal(bs: nat, bits: nat, size: nat)
    requires bits <= 31
    ensures var r := ChunkBitsFor(bs, bits, size);
            && (r < 31 ==> bs * Pow2(r) >= size)
            && (forall k :: bits <= k < r ==> bs * Pow2(k) < size)
    decreases 31 - bits
  {
    if bs * Pow2(bits) < size && bits < 31 {
      ChunkBitsMinimal(bs, bits + 1, size);
    }
  }

  /** A decoded index entry that is no hole. */
  datatype Index = Index(phys: u64, dev: u16)

  /** Entry i of an index array; None for a hole. Its device is reduced by the mask. */
  function ParseIndex(data: bytes, i: nat, mask: nat): Option<Index>
    requires SIZE_CHUNK_INDEX * (i + 1) <= |data|
  {
    var o: nat := SIZE_CHUNK_INDEX * i;
    var hi: nat, lo := Get16(data, o), Get32(data, o + 4);
    if lo == NULL_ADDR then None
    else Some(Index(hi * 0x1_0000_0000 + lo, Get16(data, o + 2) % (mask + 1)))
  }

  ghost predicate HoleFree(data: bytes, n: nat, mask: nat) {
    && SIZE_CHUNK_INDEX * n <= |data|
    && forall i :: 0 <= i < n ==> ParseIndex(data, i, mask).Some?
  }

  function LocOf(x: Index): Loc { Loc(x.phys, x.dev) }

  /** uint16(blocksPerChunk) */
  function Count16(bpc: nat): u16 { bpc % 0x1_0000 }

  /** Where an index puts the first block of its chunk; a hole puts it nowhere. */
  function PlaceOf(x: Option<Index>): Option<Loc> {
    match x
    case None => None
    case Some(x) => Some(LocOf(x))
  }

  /** The runs put every block of chunk i where its index says. */
  ghost predicate ChunkRight(chunks: seq<Chunk>, data: bytes, bpc: nat, i: nat, mask: nat)
    requires SIZE_CHUNK_INDEX * (i + 1) <= |data|
  {
    forall o: nat :: o < bpc ==> Locate(chunks, i * bpc + o) == Shift(PlaceOf(ParseIndex(data, i, mask)), o)
  }

  lemma RightAt(chunks: seq<Chunk>, data: bytes, bpc: nat, i: nat, mask: nat, o: nat)
    requires SIZE_CHUNK_INDEX * (i + 1) <= |data| && o < bpc && ChunkRight(chunks, data, bpc, i, mask)
    ensures Locate(chunks, i * bpc + o) == Shift(PlaceOf(ParseIndex(data, i, mask)), o)
    ensures o == 0 ==> Locate(chunks, i * bpc) == PlaceOf(ParseIndex(data, i, mask))
  {
    hide ParseIndex, Locate;
  }

  /** They do so for all n chunks of the file. */
  ghost predicate Faithful(chunks: seq<Chunk>, data: bytes, bpc: nat, n: nat, mask: nat)
    requires SIZE_CHUNK_INDEX * n <= |data|
  {
    forall i :: 0 <= i < n ==> ChunkRight(chunks, data, bpc, i, mask)
  }

  /** The first k indexes are no holes, all others up to n are. */
  ghost predicate HolesFrom(data: bytes, k: nat, n: nat, mask: nat) {
    && k <= n && SIZE_CHUNK_INDEX * n <= |data| && HoleFree(data, k, mask)
    && forall i :: k <= i < n ==> ParseIndex(data, i, mask) == None
  }

  /** The runs so far describe the first n indexes, bpc blocks each, and nothing else. */
  ghost predicate Describes(chunks: seq<Chunk>, data: bytes, bpc: nat, n: nat, mask: nat)
    requires HoleFree(data, n, mask)
  {
    Total(chunks) == n * bpc && Faithful(chunks, data, bpc, n, mask)
  }

  /** The runs of the first n indexes: holes are dropped, neighbours coalesced. */
  function ParsedChunks(data: bytes, n: nat, bpc: nat, mask: nat): seq<Chunk>
    requires SIZE_CHUNK_INDEX * n <= |data|
  {
    if n == 0 then []
    else
      match ParseIndex(data, n - 1, mask)
      case None => ParsedChunks(data, n - 1, bpc, mask)
      case Some(x) => Coalesce(ParsedChunks(data, n - 1, bpc, mask), x, bpc)
  }

  /** parseChunks: grows the last run in place, index by index. */
  method ParseChunks(data: bytes, n: nat, bpc: nat, mask: nat) returns (chunks: seq<Chunk>)
    ensures chunks == if |data| < SIZE_CHUNK_INDEX * n then [] else ParsedChunks(data, n, bpc, mask)
  {
    hide ParseIndex, Coalesce;
    chunks := [];
    if |data| < SIZE_CHUNK_INDEX * n {
      return;
    }
    var i := 0;
    while i < n
      invariant i <= n && chunks == ParsedChunks(data, i, bpc, mask)
    {
      var e := ParseIndex(data, i, mask);
      match e {
        case None =>
        case Some(x) => chunks := Coalesce(chunks, x, bpc);
      }
      i := i + 1;
    }
  }

  /** On a hole-free array with fewer than 65536 blocks per chunk the runs say what the indexes said. */
  lemma {:induction false} ParsedDescribes(data: bytes, n: nat, bpc: nat, mask: nat)
    requires HoleFree(data, n, mask) && 0 < bpc <= 65535
    ensures var r := ParsedChunks(data, n, bpc, mask);
            Describes(r, data, bpc, n, mask) && (forall c <- r :: c.count > 0) && (n > 0 ==> r != [])
  {
    hide ParseIndex, Coalesce, Locate;
    if n > 0 {
      ParsedDescribes(data, n - 1, bpc, mask);
      CoalesceDescribes(ParsedChunks(data, n - 1, bpc, mask), data, ParseIndex(data, n - 1, mask).value, bpc, n - 1, mask);
    }
  }

  /**
   The runs are as long as their 16-bit counts allow: where one goes on from the one before on the same device,
   another chunk would not have fitted its count.
   */
  lemma {:induction false} ParsedLongest(data: bytes, n: nat, bpc: nat, mask: nat)
    requires SIZE_CHUNK_INDEX * n <= |data| && 0 < bpc <= 65535
    ensures NoneGrows(ParsedChunks(data, n, bpc, mask), bpc)
  {
    hide ParseIndex, NoneGrows, Coalesce;
    NoRuns(bpc);
    if n > 0 {
      ParsedLongest(data, n - 1, bpc, mask);
      match ParseIndex(data, n - 1, mask)
      case None =>
      case Some(x) => CoalesceLongest(ParsedChunks(data, n - 1, bpc, mask), x, bpc);
    }
  }

  /** The run goes on from the one before, which has room for another chunk. */
  predicate MayGrow(prev: Chunk, run: Chunk, bpc: nat) {
    run.dev == prev.dev && run.phys == prev.phys + prev.count && prev.count + bpc <= 65535
  }

  ghost predicate NoneGrows(r: seq<Chunk>, bpc: nat) {
    forall i :: 0 < i < |r| ==> !MayGrow(r[i - 1], r[i], bpc)
  }

  lemma NoRuns(bpc: nat)
    ensures NoneGrows([], bpc)
  {
  }

  lemma CoalesceLongest(chunks: seq<Chunk>, x: Index, bpc: nat)
    requires NoneGrows(chunks, bpc)
    ensures NoneGrows(Coalesce(chunks, x, bpc), bpc)
  {
    var r := Coalesce(chunks, x, bpc);
    forall i | 0 < i < |r|
      ensures !MayGrow(r[i - 1], r[i], bpc)
    {
      assert r[i - 1] == chunks[i - 1];
      assert i < |chunks| ==> r[i].phys == chunks[i].phys && r[i].dev == chunks[i].dev;
      assert i < |chunks| ==> !MayGrow(chunks[i - 1], chunks[i], bpc);
    }
  }

  /** Larger chunks lose blocks: the 16-bit count keeps only the low part of each chunk's length. */
  lemma {:induction false} ParsedTotal(data: bytes, n: nat, bpc: nat, mask: nat)
    requires HoleFree(data, n, mask) && bpc > 65535
    ensures Total(ParsedChunks(data, n, bpc, mask)) == n * Count16(bpc)
  {
    hide ParseIndex;
    if n > 0 {
      ParsedTotal(data, n - 1, bpc, mask);
      var x := ParseIndex(data, n - 1, mask).value;
      AppendRun(ParsedChunks(data, n - 1, bpc, mask), Chunk(x.phys, Count16(bpc), x.dev), 0);
      MulStep(n - 1, Count16(bpc));
    }
  }

  /**
   The runs of any array put every block where its index says, and no block of a hole anywhere, exactly
   when the holes are all at the end and a chunk that is no hole has fewer than 65536 blocks.
   */
  lemma ParsedExact(data: bytes, n: nat, bpc: nat, mask: nat)
    requires SIZE_CHUNK_INDEX * n <= |data| && bpc > 0
    ensures Faithful(ParsedChunks(data, n, bpc, mask), data, bpc, n, mask)
            <==> exists k: nat :: HolesFrom(data, k, n, mask) && (k == 0 || bpc <= 65535)
  {
    hide ParsedChunks, ParseIndex, Faithful;
    var r := ParsedChunks(data, n, bpc, mask);
    if k: nat :| HolesFrom(data, k, n, mask) && (k == 0 || bpc <= 65535) {
      HolesIgnored(data, k, n, bpc, mask);
      FrontFaithful(data, k, n, bpc, mask);
    }
    if Faithful(r, data, bpc, n, mask) {
      var k := FirstHole(data, n, mask);
      AfterHole(r, data, bpc, k, n, mask);
      if k > 0 && bpc > 65535 {
        HolesIgnored(data, k, n, bpc, mask);
        ParsedTotal(data, k, bpc, mask);
        LessEach(k, Count16(bpc), bpc);
        LastBlock(r, data, bpc, k - 1, n, mask);
        MulStep(k - 1, bpc);
        assert HolesFrom(data, k, n, mask);
      }
      assert HolesFrom(data, k, n, mask);
    }
  }

  lemma {:induction false} FirstHole(data: bytes, n: nat, mask: nat) returns (k: nat)
    requires SIZE_CHUNK_INDEX * n <= |data|
    ensures k <= n && HoleFree(data, k, mask) && (k < n ==> ParseIndex(data, k, mask) == None)
  {
    hide ParseIndex;
    k := 0;
    while k < n && ParseIndex(data, k, mask).Some?
      invariant k <= n && HoleFree(data, k, mask)
    {
      k := k + 1;
    }
  }

  /** A faithful list ends with the first hole, so nothing but holes may follow. */
  lemma AfterHole(r: seq<Chunk>, data: bytes, bpc: nat, k: nat, n: nat, mask: nat)
    requires SIZE_CHUNK_INDEX * n <= |data| && bpc > 0 && Faithful(r, data, bpc, n, mask)
    requires k <= n && HoleFree(data, k, mask) && (k < n ==> ParseIndex(data, k, mask) == None)
    ensures HolesFrom(data, k, n, mask)
  {
    hide ParseIndex, Locate;
    forall i | k <= i < n
      ensures ParseIndex(data, i, mask) == None
    {
      assert ChunkRight(r, data, bpc, k, mask) && ChunkRight(r, data, bpc, i, mask);
      RightAt(r, data, bpc, k, mask, 0);
      RightAt(r, data, bpc, i, mask, 0);
      LocateDomain(r, k * bpc);
      LocateDomain(r, i * bpc);
      MulMono(k, i, bpc);
    }
  }

  /** The last block of a chunk that is no hole lies inside a faithful list. */
  lemma LastBlock(r: seq<Chunk>, data: bytes, bpc: nat, i: nat, n: nat, mask: nat)
    requires SIZE_CHUNK_INDEX * n <= |data| && bpc > 0 && Faithful(r, data, bpc, n, mask)
    requires i < n && ParseIndex(data, i, mask).Some?
    ensures i * bpc + bpc <= Total(r)
  {
    hide ParseIndex, Locate;
    assert ChunkRight(r, data, bpc, i, mask);
    RightAt(r, data, bpc, i, mask, bpc - 1);
    LocateDomain(r, i * bpc + (bpc - 1));
  }

  lemma {:induction false} HolesIgnored(data: bytes, k: nat, n: nat, bpc: nat, mask: nat)
    requires HolesFrom(data, k, n, mask)
    ensures ParsedChunks(data, n, bpc, mask) == ParsedChunks(data, k, bpc, mask)
    decreases n
  {
    hide ParseIndex, Coalesce;
    if k < n {
      HolesIgnored(data, k, n - 1, bpc, mask);
    }
  }

  lemma FrontFaithful(data: bytes, k: nat, n: nat, bpc: nat, mask: nat)
    requires HolesFrom(data, k, n, mask) && bpc > 0 && (k == 0 || bpc <= 65535)
    ensures Faithful(ParsedChunks(data, k, bpc, mask), data, bpc, n, mask)
  {
    hide ParseIndex, Locate, ParsedChunks;
    var r := ParsedChunks(data, k, bpc, mask);
    if k > 0 {
      ParsedDescribes(data, k, bpc, mask);
    } else {
      NothingParsed(data, bpc, mask);
    }
    forall i | k <= i < n
      ensures ChunkRight(r, data, bpc, i, mask)
    {
      forall o: nat | o < bpc
        ensures Locate(r, i * bpc + o) == Shift(PlaceOf(ParseIndex(data, i, mask)), o)
      {
        MulMono(k, i, bpc);
        LocateDomain(r, i * bpc + o);
      }
    }
  }

  lemma NothingParsed(data: bytes, bpc: nat, mask: nat)
    ensures ParsedChunks(data, 0, bpc, mask) == [] && Total([]) == 0
  {
  }

  lemma LessEach(n: nat, a: nat, b: nat)
    requires n > 0 && a < b
    ensures n * a < n * b
  {
  }

  lemma CoalesceDescribes(chunks: seq<Chunk>, data: bytes, x: Index, bpc: nat, i: nat, mask: nat)
    requires 0 < bpc <= 65535
    requires HoleFree(data, i + 1, mask) && Describes(chunks, data, bpc, i, mask)
    requires ParseIndex(data, i, mask) == Some(x)
    ensures Describes(Coalesce(chunks, x, bpc), data, bpc, i + 1, mask)
    ensures (forall c <- chunks :: c.count > 0) ==> forall c <- Coalesce(chunks, x, bpc) :: c.count > 0
    ensures Coalesce(chunks, x, bpc) != []
  {
    hide ParseIndex, Locate;
    MulStep(i, bpc);
    var r := Coalesce(chunks, x, bpc);
    CoalesceLocates(chunks, x, bpc, 0);
    forall j | 0 <= j <= i
      ensures ChunkRight(r, data, bpc, j, mask)
    {
      assert j < i ==> ChunkRight(chunks, data, bpc, j, mask);
      forall o: nat | o < bpc
        ensures Locate(r, j * bpc + o) == Shift(PlaceOf(ParseIndex(data, j, mask)), o)
      {
        if j < i {
          MulStep(j, bpc);
          MulMono(j + 1, i, bpc);
        }
        CoalesceLocates(chunks, x, bpc, j * bpc + o);
      }
    }
  }

  /** One step of parseChunks: extend the last run or start a new one. */
  function Coalesce(chunks: seq<Chunk>, x: Index, bpc: nat): seq<Chunk> {
    if chunks != [] && Extends(chunks[|chunks| - 1], x, bpc) then
      var prev := chunks[|chunks| - 1];
      chunks[..|chunks| - 1] + [Chunk(prev.phys, (prev.count + Count16(bpc)) % 0x1_0000, prev.dev)]
    else
      chunks + [Chunk(x.phys, Count16(bpc), x.dev)]
  }

  predicate Extends(prev: Chunk, x: Index, bpc: nat) {
    prev.dev == x.dev && prev.phys + prev.count == x.phys && prev.count + bpc <= 65535
  }

  /** Coalescing keeps the old blocks where they were and puts bpc new ones at the index's place. */
  lemma CoalesceLocates(chunks: seq<Chunk>, x: Index, bpc: nat, b: nat)
    requires 0 < bpc <= 65535
    ensures var r := Coalesce(chunks, x, bpc);
            && Total(r) == Total(chunks) + bpc
            && (b < Total(chunks) ==> Locate(r, b) == Locate(chunks, b))
            && (Total(chunks) <= b < Total(chunks) + bpc ==> Locate(r, b) == Some(Loc(x.phys + (b - Total(chunks)), x.dev)))
  {
    hide Locate, Total;
    if chunks != [] && Extends(chunks[|chunks| - 1], x, bpc) {
      var front, prev := chunks[..|chunks| - 1], chunks[|chunks| - 1];
      assert chunks == front + [prev];
      AppendRun(front, prev, b);
      AppendRun(front, Chunk(prev.phys, prev.count + bpc, prev.dev), b);
    } else {
      AppendRun(chunks, Chunk(x.phys, bpc, x.dev), b);
    }
  }

  lemma {:induction false} AppendRun(chunks: seq<Chunk>, c: Chunk, b: nat)
    ensures Total(chunks + [c]) == Total(chunks) + c.count
    ensures Locate(chunks + [c], b)
         == if b < Total(chunks) then Locate(chunks, b)
            else if b - Total(chunks) < c.count then Some(Loc(c.phys + (b - Total(chunks)), c.dev))
            else None
  {
    if chunks == [] {
      assert chunks + [c] == [c];
    } else {
      assert (chunks + [c])[1..] == chunks[1..] + [c];
      AppendRun(chunks[1..], c, if b < chunks[0].count then 0 else b - chunks[0].count);
    }
  }

  /** Parsing a hole-free array and writing it at the same chunk size gives it back, devices masked. */
  lemma ParseWriteRoundTrip(data: bytes, n: nat, bpc: nat, mask: nat)
    requires HoleFree(data, n, mask) && 0 < bpc <= 65535
    ensures ChunkIndexes(ParsedChunks(data, n, bpc, mask), bpc, n) == MaskedIndexes(data, n, mask)
  {
    hide Describes, ParsedChunks, ChunkIndexes, MaskedIndexes, ParseIndex;
    ParsedDescribes(data, n, bpc, mask);
    ExpandInvertsCoalesce(ParsedChunks(data, n, bpc, mask), data, bpc, n, mask);
  }

  lemma {:induction false} ExpandInvertsCoalesce(chunks: seq<Chunk>, data: bytes, bpc: nat, n: nat, mask: nat)
    requires HoleFree(data, n, mask) && bpc > 0 && Describes(chunks, data, bpc, n, mask)
    ensures ChunkIndexes(chunks, bpc, n) == MaskedIndexes(data, n, mask)
  {
    if n > 0 {
      LocateInPrefix(chunks, data, bpc, n, mask, n - 1);
    }
  }

  /** The first n index entries with their device ids masked. */
  function MaskedIndexes(data: bytes, n: nat, mask: nat): (b: bytes)
    requires SIZE_CHUNK_INDEX * n <= |data|
  {
    if n == 0 then []
    else MaskedIndexes(data, n - 1, mask) + MaskedIndex(data, n - 1, mask)
  }

  function MaskedIndex(data: bytes, i: nat, mask: nat): bytes
    requires SIZE_CHUNK_INDEX * (i + 1) <= |data|
  {
    var o := SIZE_CHUNK_INDEX * i;
    data[o..o + 2] + U16(Get16(data, o + 2) % (mask + 1)) + data[o + 4..o + 8]
  }

  /** Every index of the prefix is written back as the masked entry. */
  lemma {:induction false} LocateInPrefix(chunks: seq<Chunk>, data: bytes, bpc: nat, n: nat, mask: nat, k: nat)
    requires HoleFree(data, n, mask) && bpc > 0 && Describes(chunks, data, bpc, n, mask) && k < n
    ensures ChunkIndexes(chunks, bpc, k + 1) == MaskedIndexes(data, k + 1, mask)
    decreases k
  {
    hide Locate, IndexBytes, ParseIndex, MaskedIndex;
    if k > 0 {
      LocateInPrefix(chunks, data, bpc, n, mask, k - 1);
    }
    ReencodeIndex(data, k, mask);
    assert ChunkRight(chunks, data, bpc, k, mask);
    RightAt(chunks, data, bpc, k, mask, 0);
  }

  lemma ReencodeIndex(data: bytes, i: nat, mask: nat)
    requires SIZE_CHUNK_INDEX * (i + 1) <= |data| && ParseIndex(data, i, mask).Some?
    ensures IndexBytes(Some(LocOf(ParseIndex(data, i, mask).value))) == MaskedIndex(data, i, mask)
  {
    var o := SIZE_CHUNK_INDEX * i;
    var x := ParseIndex(data, i, mask).value;
    var hi, lo := Get16(data, o), Get32(data, o + 4);
    HighLow(hi, lo);
    Restore16(data, o);
    Restore32(data, o + 4);
  }

  lemma HighLow(hi: u16, lo: u32)
    ensures var p := hi * 0x1_0000_0000 + lo;
            p / 0x1_0000_0000 == hi && U32(p) == U32(lo)
  {
    var p: nat := hi * 0x1_0000_0000 + lo;
    var q: nat, r: nat := lo / 0x1_0000, lo % 0x1_0000;
    assert p == (hi * 0x1_0000 + q) * 0x1_0000 + r;
    DivUnique(p, 0x1_0000, hi * 0x1_0000 + q, r);
    DivUnique(hi * 0x1_0000 + q, 0x1_0000, hi, q);
    Low16(p, lo);
    Low16(p / 0x1_0000, lo / 0x1_0000);
  }

  lemma Low16(a: nat, b: nat)
    requires a % 0x1_0000 == b % 0x1_0000
    ensures U16(a) == U16(b)
  {
    hide U16;
    TwoDigits(a, 256, 256);
    TwoDigits(b, 256, 256);
    SameDigits(a % 256, a / 256 % 256, b % 256, b / 256 % 256);
    Digits16(a);
    Digits16(b);
  }

  lemma SameDigits(x0: nat, x1: nat, y0: nat, y1: nat)
    requires x0 < 256 && y0 < 256 && x0 + 256 * x1 == y0 + 256 * y1
    ensures x0 == y0 && x1 == y1
  {
  }

  lemma Digits16(v: nat)
    ensures U16(v) == [(v % 256) as byte, (v / 256 % 256) as byte]
  {
  }

  lemma Restore16(b: bytes, o: nat)
    requires o + 2 <= |b|
    ensures U16(Get16(b, o)) == b[o..o + 2]
  {
  }

  lemma Restore32(b: bytes, o: nat)
    requires o + 4 <= |b|
    ensures U32(Get32(b, o)) == b[o..o + 4]
  {
    Restore16(b, o);
    Restore16(b, o + 2);
    var lo: nat, hi: nat := Get16(b, o), Get16(b, o + 2);
    assert Get32(b, o) == lo + 0x1_0000 * hi;
    Low16(Get32(b, o), lo);
    assert Get32(b, o) / 0x1_0000 == hi;
    assert b[o..o + 4] == b[o..o + 2] + b[o + 2..o + 4];
  }
}
