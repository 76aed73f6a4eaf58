/**
 The external data file (mkfs.go): files appended one after the other at block-aligned offsets, their
 chunk lists, and the block count of the device.
 */
module DataFile {
  import opened Bytes
  import opened Format
  import opened Chunks
  import opened Placement

  /** Runs of at most 65535 blocks that cover `total` blocks from `start` on, on device 1. */
  function RunsFor(start: nat, total: nat): (r: seq<Chunk>)
    requires start + total < 0x1_0000_0000_0000_0000
    decreases total
  {
    if total == 0 then []
    else
      var n := Min(total, 65535);
      [Chunk(start, n, 1)] + RunsFor(start + n, total - n)
  }

  lemma {:induction false} RunsShape(start: nat, total: nat)
    requires start + total < 0x1_0000_0000_0000_0000
    ensures var r := RunsFor(start, total);
            && Total(r) == total && Contiguous(r)
            && (r != [] ==> r[0].phys == start && r[0].dev == 1) && (total > 0 ==> r != [])
    decreases total
  {
    if total > 0 {
      var n := Min(total, 65535);
      RunsShape(start + n, total - n);
      var r, rest := RunsFor(start, total), RunsFor(start + n, total - n);
      assert r[1..] == rest;
      forall i | 0 < i < |r|
        ensures r[i].phys == r[i - 1].phys + r[i - 1].count && r[i].dev == r[i - 1].dev
      {
        assert r[i] == rest[i - 1];
        assert i > 1 ==> r[i - 1] == rest[i - 2];
      }
    }
  }

  lemma {:induction false} RunCounts(start: nat, total: nat)
    requires start + total < 0x1_0000_0000_0000_0000
    ensures forall c <- RunsFor(start, total) :: 1 <= c.count <= 65535 && c.dev == 1
    decreases total
  {
    if total > 0 {
      RunCounts(start + Min(total, 65535), total - Min(total, 65535));
    }
  }

  /** The runs are contiguous, none is empty or over-long, and logical block b is block start + b. */
  lemma RunsCover(start: nat, total: nat)
    requires start + total < 0x1_0000_0000_0000_0000
    ensures var r := RunsFor(start, total);
            && Total(r) == total && Contiguous(r)
            && (forall c <- r :: 1 <= c.count <= 65535 && c.dev == 1)
            && forall b: nat :: Locate(r, b) == if b < total then Some(Loc(start + b, 1)) else None
  {
    hide RunsFor, Contiguous, Locate, Total;
    RunsShape(start, total);
    RunCounts(start, total);
    var r := RunsFor(start, total);
    forall b: nat
      ensures Locate(r, b) == if b < total then Some(Loc(start + b, 1)) else None
    {
      LocateDomain(r, b);
      if b < total {
        LocateContiguous(r, b);
      }
    }
  }

  /** Writer fields of data-file mode: the file's bytes and the offset it is at. */
  class DataWriter {
    const bs: nat
    var data: bytes
    var dataOff: nat

    constructor (bs: nat, existing: bytes)
      requires BlockSize(bs)
      ensures Valid() && this.bs == bs && data == existing
    {
      this.bs, data, dataOff := bs, existing, |existing|;
    }

    ghost predicate Valid()
      reads this
    {
      BlockSize(bs) && dataOff == |data|
    }

    method Append(p: bytes)
      requires Valid()
      modifies this
      ensures Valid() && data == old(data) + p
    {
      data := data + p;
      dataOff := dataOff + |p|;
    }

    /** The block count that Close puts into device slot 0. */
    method DeviceBlocks() returns (n: nat)
      requires Valid()
      ensures n == CeilDiv(|data|, bs)
    {
      CeilDivIsDivision(dataOff, bs);
      return (dataOff + bs - 1) / bs;
    }
  }

  /** Offsets are int64 in the source. */
  const MAX_OFFSET: nat := 0x7FFF_FFFF_FFFF_0000

  /** File: an entry open for writing. Creating one takes the current offset as its start. */
  class OpenFile {
    const fs: DataWriter
    const dataStartOff: nat
    var written: nat
    var closed: bool
    var size: nat
    var chunks: seq<Chunk>

    constructor (fs: DataWriter)
      requires fs.Valid()
      ensures this.fs == fs && dataStartOff == fs.dataOff && written == 0 && !closed && chunks == [] && size == 0
    {
      this.fs, dataStartOff, written, closed, size, chunks := fs, fs.dataOff, 0, false, 0, [];
    }

    method Write(p: bytes) returns (ok: bool)
      requires fs.Valid()
      modifies fs, this`written
      ensures fs.Valid() && ok == !closed
      ensures fs.data == if ok then old(fs.data) + p else old(fs.data)
      ensures written == if ok then old(written) + |p| else old(written)
    {
      if closed {
        return false;
      }
      fs.Append(p);
      written := written + |p|;
      return true;
    }

    /** Close and closeDataFile: records the size, pads to a block, emits the chunk list. */
    method Close() returns (ok: bool)
      requires fs.Valid() && |fs.data| <= MAX_OFFSET && dataStartOff + written <= MAX_OFFSET
      modifies fs, this
      ensures fs.Valid() && ok == !old(closed) && closed && written == old(written)
      ensures !ok ==> fs.data == old(fs.data) && chunks == old(chunks) && size == old(size)
      ensures ok ==>
                && size == written
                && StartBlock(dataStartOff, fs.bs) + CeilDiv(written, fs.bs) < 0x1_0000_0000_0000_0000
                && chunks == old(chunks) + RunsFor(StartBlock(dataStartOff, fs.bs), CeilDiv(written, fs.bs))
                && fs.data == old(fs.data) + if written == 0 then [] else Zeros(RoundUp(|old(fs.data)|, fs.bs) - |old(fs.data)|)
    {
      if closed {
        return false;
      }
      closed, size := true, written;
      BlocksFit(dataStartOff, written, fs.bs);
      if written == 0 {
        assert fs.data + [] == fs.data;
        assert chunks + [] == chunks;
        return true;
      }
      PadToBlock();
      EmitRuns();
      return true;
    }

    method PadToBlock()
      requires fs.Valid()
      modifies fs
      ensures fs.Valid() && fs.data == old(fs.data) + Zeros(RoundUp(|old(fs.data)|, fs.bs) - |old(fs.data)|)
    {
      hide RoundUp, PowerOfTwo;
      PadLength(fs.dataOff, fs.bs);
      var rem := fs.dataOff % fs.bs;
      if rem != 0 {
        fs.Append(Zeros(fs.bs - rem));
      } else {
        assert fs.data + Zeros(0) == fs.data;
      }
    }

    /** The run loop of closeDataFile. */
    method EmitRuns()
      requires fs.bs > 0 && StartBlock(dataStartOff, fs.bs) + CeilDiv(written, fs.bs) < 0x1_0000_0000_0000_0000
      modifies this`chunks
      ensures chunks == old(chunks) + RunsFor(StartBlock(dataStartOff, fs.bs), CeilDiv(written, fs.bs))
    {
      hide CeilDiv;
      var startBlock: nat := StartBlock(dataStartOff, fs.bs);
      CeilDivIsDivision(written, fs.bs);
      var totalBlocks: nat := (written + fs.bs - 1) / fs.bs;
      ghost var before, goal := chunks, RunsFor(startBlock, totalBlocks);
      while totalBlocks > 0
        invariant startBlock + totalBlocks < 0x1_0000_0000_0000_0000
        invariant chunks + RunsFor(startBlock, totalBlocks) == before + goal
      {
        var count := totalBlocks;
        if count > 65535 {
          count := 65535;
        }
        ghost var rest := RunsFor(startBlock + count, totalBlocks - count);
        assert chunks + ([Chunk(startBlock, count, 1)] + rest) == chunks + [Chunk(startBlock, count, 1)] + rest;
        chunks := chunks + [Chunk(startBlock, count, 1)];
        startBlock := startBlock + count;
        totalBlocks := totalBlocks - count;
      }
      assert chunks + [] == chunks;
    }
  }

  function StartBlock(off: nat, bs: nat): nat
    requires bs > 0
  {
    Quo(off, bs)
  }

  lemma BlocksFit(off: nat, written: nat, bs: nat)
    requires BlockSize(bs) && off + written <= MAX_OFFSET
    ensures StartBlock(off, bs) + CeilDiv(written, bs) < 0x1_0000_0000_0000_0000
  {
    MulMono(1, bs, StartBlock(off, bs));
    CeilDivAtMost(written, bs);
  }

  lemma {:induction false} CeilDivAtMost(x: nat, m: nat)
    requires m > 0
    ensures CeilDiv(x, m) <= x
  {
    if x > m {
      CeilDivAtMost(x - m, m);
    }
  }

  lemma PadLength(x: nat, bs: nat)
    requires bs > 0
    ensures RoundUp(x, bs) - x == if x % bs == 0 then 0 else bs - x % bs
  {
    var q, r := Quo(x, bs), Rem(x, bs);
    if r > 0 {
      MulStep(q, bs);
      DivUnique(x + bs - 1, bs, q + 1, r - 1);
    }
  }

  /** The first chunk points at the file's first byte exactly when the file starts on a block. */
  lemma StartsAtChunk(off: nat, bs: nat)
    requires bs > 0
    ensures StartBlock(off, bs) * bs == off <==> off % bs == 0
  {
    assert off == Quo(off, bs) * bs + Rem(off, bs);
  }

  // ---- Runs of files, one open at a time ----

  function Flat(parts: seq<bytes>): bytes {
    if parts == [] then [] else parts[0] + Flat(parts[1..])
  }

  /** A closed file: its bytes lie at its start, its chunks cover as many blocks as it needs from its start's block on. */
  ghost predicate Holds(f: OpenFile, content: bytes, data: bytes, bs: nat)
    requires bs > 0
    reads f
  {
    && f.closed && f.size == |content| && At(data, f.dataStartOff, content)
    && StartBlock(f.dataStartOff, bs) + CeilDiv(|content|, bs) < 0x1_0000_0000_0000_0000
    && f.chunks == RunsFor(StartBlock(f.dataStartOff, bs), CeilDiv(|content|, bs))
  }

  /** Create, any number of writes, Close, on a data file of any length. */
  method StoreFile(fs: DataWriter, parts: seq<bytes>) returns (f: OpenFile)
    requires fs.Valid() && |fs.data| + |Flat(parts)| <= MAX_OFFSET
    modifies fs
    ensures fs.Valid() && fresh(f) && Holds(f, Flat(parts), fs.data, fs.bs) && f.dataStartOff == |old(fs.data)|
    ensures fs.bs > 0 && |fs.data| == if Flat(parts) == [] then |old(fs.data)| else RoundUp(|old(fs.data)| + |Flat(parts)|, fs.bs)
    ensures old(fs.data) <= fs.data
  {
    hide PowerOfTwo, CeilDiv, RoundUp, RunsFor, Flat, At;
    ghost var before, content := fs.data, Flat(parts);
    f := new OpenFile(fs);
    WriteParts(fs, f, parts);
    var ok := f.Close();
    assert [] + f.chunks == f.chunks;
    Placed(before, content, fs.data, fs.bs);
  }

  /** Any number of writes. */
  method WriteParts(fs: DataWriter, f: OpenFile, parts: seq<bytes>)
    requires fs.Valid() && f.fs == fs && !f.closed
    modifies fs, f`written
    ensures fs.Valid() && fs.data == old(fs.data) + Flat(parts) && f.written == old(f.written) + |Flat(parts)|
  {
    hide PowerOfTwo;
    var i := 0;
    ghost var before, had := fs.data, f.written;
    assert parts[..0] == [];
    assert before + Flat([]) == before;
    while i < |parts|
      invariant i <= |parts| && fs.Valid()
      invariant fs.data == before + Flat(parts[..i]) && f.written == had + |Flat(parts[..i])|
    {
      assert parts[..i + 1] == parts[..i] + [parts[i]];
      FlatMore(parts[..i], parts[i]);
      assert before + Flat(parts[..i]) + parts[i] == before + (Flat(parts[..i]) + parts[i]);
      var ok := f.Write(parts[i]);
      i := i + 1;
    }
    assert parts[..i] == parts;
  }

  lemma {:induction false} FlatMore(parts: seq<bytes>, p: bytes)
    ensures Flat(parts + [p]) == Flat(parts) + p
  {
    if parts == [] {
      assert parts + [p] == [p] && [p][1..] == [];
      assert p + [] == p == [] + p;
    } else {
      assert (parts + [p])[1..] == parts[1..] + [p];
      FlatMore(parts[1..], p);
      assert parts[0] + (Flat(parts[1..]) + p) == parts[0] + Flat(parts[1..]) + p;
    }
  }

  /** What was appended lies where the data file ended, padding behind it. */
  lemma Placed(before: bytes, content: bytes, after: bytes, bs: nat)
    requires bs > 0
    requires after == before + content + if content == [] then [] else Zeros(RoundUp(|before + content|, bs) - |before + content|)
    ensures At(after, |before|, content) && before <= after
    ensures |after| == if content == [] then |before| else RoundUp(|before| + |content|, bs)
  {
    hide RoundUp;
    AtThree(before, content, if content == [] then [] else Zeros(RoundUp(|before + content|, bs) - |before + content|));
  }

  lemma RoundUpShift(a: nat, x: nat, bs: nat)
    requires bs > 0 && a % bs == 0
    ensures RoundUp(a + x, bs) == a + RoundUp(x, bs)
  {
    var q := Quo(a, bs);
    var k := Quo(x + bs - 1, bs);
    Distribute(q, k, bs);
    DivUnique(a + x + bs - 1, bs, q + k, Rem(x + bs - 1, bs));
    DivUnique(x + bs - 1, bs, k, Rem(x + bs - 1, bs));
  }

  /** Room for some files in whole blocks. */
  function BlocksOf(files: seq<seq<bytes>>, bs: nat): nat
    requires bs > 0
  {
    if files == [] then 0 else CeilDiv(|Flat(files[0])|, bs) * bs + BlocksOf(files[1..], bs)
  }

  /** A file takes no more than its blocks once the data file is on a block boundary. */
  lemma TakesBlocks(before: nat, size: nat, bs: nat)
    requires bs > 0
    ensures RoundUp(before + size, bs) <= RoundUp(before, bs) + CeilDiv(size, bs) * bs
    ensures before + size <= RoundUp(before, bs) + CeilDiv(size, bs) * bs
    ensures RoundUp(RoundUp(before + size, bs), bs) == RoundUp(before + size, bs)
  {
    hide CeilDiv;
    RoundUpShift(RoundUp(before, bs), size, bs);
    RoundUpBlocks(size, bs);
    RoundUpMono(before + size, RoundUp(before, bs) + size, bs);
  }

  lemma RoundUpMono(x: nat, y: nat, bs: nat)
    requires bs > 0 && x <= y
    ensures RoundUp(x, bs) <= RoundUp(y, bs)
  {
    var q, p := Quo(x + bs - 1, bs), Quo(y + bs - 1, bs);
    MulStep(p, bs);
    MulMono(p + 1, q, bs);
    MulMono(q, p, bs);
  }

  /** Files before i that are not empty have left the data file on a block boundary. */
  ghost predicate Begun(files: seq<seq<bytes>>, i: nat)
    requires i <= |files|
  {
    exists k: nat :: k < i && Flat(files[k]) != []
  }

  lemma BegunNext(files: seq<seq<bytes>>, i: nat)
    requires i < |files|
    ensures Begun(files, i + 1) <==> Begun(files, i) || Flat(files[i]) != []
  {
    hide Flat;
  }

  /**
   Any run of files, each opened, written and closed before the next: every file keeps its bytes and
   its chunk list, the files lie one after the other, and the device block count covers them all. A
   file that is not empty starts on a block exactly when the data file did or an earlier one was not
   empty.
   */
  method StoreFiles(fs: DataWriter, files: seq<seq<bytes>>) returns (done: seq<OpenFile>, blocks: nat)
    requires fs.Valid() && fs.bs > 0 && RoundUp(|fs.data|, fs.bs) + BlocksOf(files, fs.bs) <= MAX_OFFSET
    modifies fs
    ensures fs.Valid() && old(fs.data) <= fs.data
    ensures |done| == |files| && forall i :: 0 <= i < |files| ==> Holds(done[i], Flat(files[i]), fs.data, fs.bs)
    ensures forall i, j :: 0 <= i < j < |files| ==> done[i].dataStartOff + |Flat(files[i])| <= done[j].dataStartOff
    ensures forall i :: 0 <= i < |files| ==> |old(fs.data)| <= done[i].dataStartOff
    ensures forall i :: 0 <= i < |files| ==>
              (done[i].dataStartOff % fs.bs == 0 <==> |old(fs.data)| % fs.bs == 0 || Begun(files, i))
    ensures blocks * fs.bs == RoundUp(|fs.data|, fs.bs)
  {
    hide PowerOfTwo, CeilDiv, Flat, Holds, RoundUp, Begun, Lined;
    done := [];
    var i := 0;
    ghost var bs, existing := fs.bs, fs.data;
    assert files[0..] == files;
    NoneLined(files, |existing|, bs);
    while i < |files|
      invariant i <= |files| && |done| == i && fs.Valid() && existing <= fs.data
      invariant RoundUp(|fs.data|, bs) + BlocksOf(files[i..], bs) <= MAX_OFFSET
      invariant forall k :: 0 <= k < i ==> Holds(done[k], Flat(files[k]), fs.data, bs)
      invariant Lined(done, files, |existing|, |fs.data|, bs)
    {
      assert files[i..][0] == files[i] && files[i..][1..] == files[i + 1..];
      TakesBlocks(|fs.data|, |Flat(files[i])|, bs);
      EmptyBlocks(bs);
      ghost var was := fs.data;
      var f := StoreFile(fs, files[i]);
      forall k | 0 <= k < i
        ensures Holds(done[k], Flat(files[k]), fs.data, bs)
      {
        StillHolds(done[k], Flat(files[k]), was, fs.data, bs);
      }
      HoldsInside(f, Flat(files[i]), fs.data, bs);
      LinedNext(done, files, |existing|, |was|, |fs.data|, bs, f);
      done := done + [f];
      i := i + 1;
    }
    blocks := fs.DeviceBlocks();
    RoundUpBlocks(|fs.data|, bs);
    LinedFacts(done, files, |existing|, |fs.data|, bs);
  }

  /** The first |done| files lie one after the other between the two lengths, aligned as they should be. */
  ghost predicate Lined(done: seq<OpenFile>, files: seq<seq<bytes>>, before: nat, now: nat, bs: nat)
    requires bs > 0
  {
    && |done| <= |files| && (now % bs == 0 <==> before % bs == 0 || Begun(files, |done|))
    && (forall k :: 0 <= k < |done| ==> before <= done[k].dataStartOff && done[k].dataStartOff + |Flat(files[k])| <= now)
    && (forall k, l :: 0 <= k < l < |done| ==> done[k].dataStartOff + |Flat(files[k])| <= done[l].dataStartOff)
    && (forall k :: 0 <= k < |done| ==> (done[k].dataStartOff % bs == 0 <==> before % bs == 0 || Begun(files, k)))
  }

  lemma LinedFacts(done: seq<OpenFile>, files: seq<seq<bytes>>, before: nat, now: nat, bs: nat)
    requires bs > 0 && Lined(done, files, before, now, bs) && |done| == |files|
    ensures forall k, l :: 0 <= k < l < |files| ==> done[k].dataStartOff + |Flat(files[k])| <= done[l].dataStartOff
    ensures forall k :: 0 <= k < |files| ==> before <= done[k].dataStartOff
    ensures forall k :: 0 <= k < |files| ==> (done[k].dataStartOff % bs == 0 <==> before % bs == 0 || Begun(files, k))
  {
    hide Flat, Begun;
  }

  lemma NoneLined(files: seq<seq<bytes>>, before: nat, bs: nat)
    requires bs > 0
    ensures Lined([], files, before, before, bs)
  {
    hide Flat;
  }

  lemma LinedNext(done: seq<OpenFile>, files: seq<seq<bytes>>, before: nat, was: nat, now: nat, bs: nat, f: OpenFile)
    requires bs > 0 && Lined(done, files, before, was, bs) && |done| < |files| && before <= was && f.dataStartOff == was
    requires now == if Flat(files[|done|]) == [] then was else RoundUp(was + |Flat(files[|done|])|, bs)
    requires was + |Flat(files[|done|])| <= now
    ensures Lined(done + [f], files, before, now, bs)
  {
    hide Flat, Begun, RoundUp;
    BegunNext(files, |done|);
    var more := done + [f];
    forall k, l | 0 <= k < l < |more|
      ensures more[k].dataStartOff + |Flat(files[k])| <= more[l].dataStartOff
    {
      assert more[k] == done[k];
      assert l < |done| ==> more[l] == done[l];
    }
  }

  lemma EmptyBlocks(bs: nat)
    requires bs > 0
    ensures CeilDiv(0, bs) * bs == 0
  {
  }

  lemma HoldsInside(f: OpenFile, content: bytes, data: bytes, bs: nat)
    requires bs > 0 && Holds(f, content, data, bs)
    ensures f.dataStartOff + |content| <= |data|
  {
  }

  lemma CeilCovers(x: nat, bs: nat)
    requires bs > 0
    ensures CeilDiv(x, bs) * bs >= x
  {
    RoundUpBlocks(x, bs);
  }

  /** Appending does not disturb a closed file. */
  lemma StillHolds(f: OpenFile, content: bytes, data: bytes, more: bytes, bs: nat)
    requires bs > 0 && Holds(f, content, data, bs) && data <= more
    ensures Holds(f, content, more, bs)
  {
    hide RunsFor, CeilDiv;
  }

  /**
   One at a time is needed: of two files that are open together, both start at the same block, so
   the second one's chunk holds the first one's byte.
   */
  method Interleaved(bs: nat, a: byte, b: byte) returns (fs: DataWriter, first: OpenFile, second: OpenFile)
    requires BlockSize(bs)
    ensures first.chunks == second.chunks == [Chunk(0, 1, 1)] && second.size == 1
    ensures |fs.data| >= 2 && fs.data[..2] == [a, b] && (a != b ==> fs.data[0] != b)
  {
    hide PowerOfTwo;
    fs := new DataWriter(bs, []);
    first := new OpenFile(fs);
    second := new OpenFile(fs);
    var ok := first.Write([a]);
    ok := second.Write([b]);
    assert fs.data == [a, b];
    ok := first.Close();
    ok := second.Close();
    OneBlockRun(bs);
  }

  lemma OneBlockRun(bs: nat)
    requires bs > 1
    ensures CeilDiv(1, bs) == 1 && StartBlock(0, bs) == 0 && RunsFor(0, 1) == [Chunk(0, 1, 1)]
  {
    DivUnique(0, bs, 0, 0);
    assert RunsFor(1, 0) == [];
  }
}
