/** A file as a flat byte array: what reading and writing whole sectors comes to. */
module ByteArray {
  import opened Arithmetic
  import opened Machine
  import opened Storage
  import opened Layout

  /** A request that passes the check starts in the file, and its end is an int. */
  predicate InInts(length: int, numBytes: int, position: int) {
    numBytes > 0 && position < length ==> 0 <= position && position + numBytes <= MAX_INT
  }

  /** How many bytes a request really transfers. */
  function Clipped(length: int, numBytes: int, position: int): (n: nat)
    requires numBytes > 0 && position < length ==> 0 <= position
  {
    if numBytes <= 0 || position >= length then 0
    else if position + numBytes > length then length - position
    else numBytes
  }

  /** What a read of a flat byte array gives. */
  function Requested(bs: seq<byte>, numBytes: int, position: nat): (r: seq<byte>)
    ensures |r| == Clipped(|bs|, numBytes, position)
  {
    if numBytes <= 0 || position >= |bs| then []
    else bs[position..position + Clipped(|bs|, numBytes, position)]
  }

  /** bs with the bytes from position on replaced. */
  function Splice(bs: seq<byte>, position: nat, bytes: seq<byte>): seq<byte>
    requires position + |bytes| <= |bs|
  {
    bs[..position] + bytes + bs[position + |bytes|..]
  }

  /** The byte offset block k starts at. */
  function StartOf(g: Geometry, k: int): int {
    k * g.SectorSize()
  }

  lemma StartSum(g: Geometry, i: int, j: int)
    ensures StartOf(g, i + j) == StartOf(g, i) + StartOf(g, j)
    ensures StartOf(g, i - j) == StartOf(g, i) - StartOf(g, j)
  {}

  lemma StartOrder(g: Geometry, i: int, j: int)
    ensures i <= j ==> StartOf(g, i) <= StartOf(g, j)
    ensures StartOf(g, 0) == 0 && StartOf(g, 1) == g.SectorSize()
    ensures StartOf(g, i + 1) == StartOf(g, i) + g.SectorSize()
  {
    MulOrder(i, j, g.SectorSize());
  }

  lemma ByteInBlock(g: Geometry, k: nat, o: nat)
    requires g.Valid() && o < g.SectorSize()
    ensures BlockOf(g, StartOf(g, k) + o) == k && OffsetOf(g, StartOf(g, k) + o) == o
  {
    DivUnique(StartOf(g, k) + o, g.SectorSize(), k, o);
  }

  /** Sectors of the blocks lo .. hi - 1. */
  function BlockSet(g: Geometry, d: Image, h: Header, lo: nat, hi: nat): set<int>
    requires g.Valid() && ImageOk(g, d) && |h.direct| == g.numDirect
  {
    set k | lo <= k < hi :: Block(g, d, h, k) as int
  }

  // ---- Writing blocks -----------------------------------------------------------------

  /** Writing a data block moves nothing. */
  lemma WriteBlockKeeps(g: Geometry, d: Image, h: Header, k: nat, b: Sector)
    requires WellFormed(g, d, h) && k < h.numSectors && |b| == g.SectorSize()
    ensures 0 <= Block(g, d, h, k) < |d|
    ensures WellFormed(g, d[Block(g, d, h, k) := b], h)
    ensures FileSectors(g, d[Block(g, d, h, k) := b], h) == FileSectors(g, d, h)
  {
    BlockInFile(g, d, h, k);
    var d' := d[Block(g, d, h, k) := b];
    var s := FileSectors(g, d, h);
    forall p | 0 <= p < |s| && IsIndexPos(g, p) ensures d'[s[p]] == d[s[p]] {
      BlockIsNoIndex(g, d, h, k, p);
    }
    SameLayout(g, d, d', h);
  }

  lemma SameBlock(g: Geometry, d: Image, d': Image, h: Header, k: nat)
    requires WellFormed(g, d, h) && WellFormed(g, d', h) && FileSectors(g, d', h) == FileSectors(g, d, h)
    requires k < h.numSectors
    ensures Block(g, d', h, k) == Block(g, d, h, k)
    ensures 0 <= Block(g, d, h, k) < |d|
  {
    BlockInFile(g, d, h, k);
    BlockInFile(g, d', h, k);
  }

  predicate Sectors(g: Geometry, bs: seq<Sector>) {
    forall j :: 0 <= j < |bs| ==> |bs[j]| == g.SectorSize()
  }

  /** The image after blocks first, first + 1, ... have been overwritten by bs. */
  function {:induction false} PutBlocks(g: Geometry, d: Image, h: Header, first: nat, bs: seq<Sector>): (d': Image)
    requires WellFormed(g, d, h) && first + |bs| <= h.numSectors && Sectors(g, bs)
    ensures ImageOk(g, d')
  {
    if bs == [] then d
    else
      var n := |bs| - 1;
      BlockInFile(g, d, h, first + n);
      PutBlocks(g, d, h, first, bs[..n])[Block(g, d, h, first + n) := bs[n]]
  }

  lemma {:induction false} PutBlocksKeeps(g: Geometry, d: Image, h: Header, first: nat, bs: seq<Sector>)
    requires WellFormed(g, d, h) && first + |bs| <= h.numSectors && Sectors(g, bs)
    ensures WellFormed(g, PutBlocks(g, d, h, first, bs), h)
    ensures FileSectors(g, PutBlocks(g, d, h, first, bs), h) == FileSectors(g, d, h)
  {
    FileFacts(g, d, h);
    hide WellFormed, FileSectors, Block, Sized, InRange;
    if bs != [] {
      var n := |bs| - 1;
      PutBlocksKeeps(g, d, h, first, bs[..n]);
      var d1 := PutBlocks(g, d, h, first, bs[..n]);
      SameBlock(g, d, d1, h, first + n);
      WriteBlockKeeps(g, d1, h, first + n, bs[n]);
    }
  }

  lemma {:induction false} PutBlocksAt(g: Geometry, d: Image, h: Header, first: nat, bs: seq<Sector>, k: nat)
    requires WellFormed(g, d, h) && first + |bs| <= h.numSectors && Sectors(g, bs) && k < h.numSectors
    ensures 0 <= Block(g, d, h, k) < |d|
    ensures PutBlocks(g, d, h, first, bs)[Block(g, d, h, k)] ==
      if first <= k < first + |bs| then bs[k - first] else d[Block(g, d, h, k)]
  {
    BlockInFile(g, d, h, k);
    if bs != [] {
      var n := |bs| - 1;
      PutBlocksAt(g, d, h, first, bs[..n], k);
      BlocksDiffer(g, d, h, k, first + n);
    }
  }

  lemma BlocksDiffer(g: Geometry, d: Image, h: Header, j: nat, k: nat)
    requires WellFormed(g, d, h) && j < h.numSectors && k < h.numSectors
    ensures j != k ==> Block(g, d, h, j) != Block(g, d, h, k)
  {
    if j < k { BlocksIncrease(g, d, h, j, k); }
    if k < j { BlocksIncrease(g, d, h, k, j); }
  }

  lemma {:induction false} PutBlocksElsewhere(g: Geometry, d: Image, h: Header, first: nat, bs: seq<Sector>, x: int)
    requires WellFormed(g, d, h) && first + |bs| <= h.numSectors && Sectors(g, bs)
    requires 0 <= x < |d| && x !in BlockSet(g, d, h, first, first + |bs|)
    ensures PutBlocks(g, d, h, first, bs)[x] == d[x]
  {
    if bs != [] {
      var n := |bs| - 1;
      assert x !in BlockSet(g, d, h, first, first + n);
      PutBlocksElsewhere(g, d, h, first, bs[..n], x);
    }
  }

  // ---- Buffers of whole sectors -----------------------------------------------------------

  /** Sector j of a buffer. */
  function Chunk(g: Geometry, buf: seq<byte>, j: nat): (b: Sector)
    requires StartOf(g, j + 1) <= |buf|
    ensures |b| == g.SectorSize()
  {
    StartOrder(g, 0, j);
    StartOrder(g, j, j + 1);
    buf[StartOf(g, j)..StartOf(g, j) + g.SectorSize()]
  }

  function Chunks(g: Geometry, buf: seq<byte>, n: nat): (bs: seq<Sector>)
    requires |buf| == StartOf(g, n)
    ensures |bs| == n && Sectors(g, bs)
  {
    seq(n, j requires 0 <= j < n => StartOrder(g, j + 1, n); Chunk(g, buf, j))
  }

  /** Byte o of the file, when block o's sector was overwritten from a buffer that starts at
      block first. */
  lemma ByteFromChunk(g: Geometry, buf: seq<byte>, first: nat, n: nat, o: nat)
    requires g.Valid() && |buf| == StartOf(g, n) && first <= BlockOf(g, o) < first + n
    ensures StartOf(g, first) <= o < StartOf(g, first + n) == StartOf(g, first) + |buf|
    ensures Chunks(g, buf, n)[BlockOf(g, o) - first][OffsetOf(g, o)] == buf[o - StartOf(g, first)]
  {
    var j := BlockOf(g, o) - first;
    BlockStart(g, o);
    StartSum(g, first, n);
    StartSum(g, first, j);
    StartOrder(g, j + 1, n);
    StartOrder(g, 0, j);
    StartOrder(g, j, j);
    hide StartOf, BlockOf, OffsetOf;
  }

  lemma BlockStart(g: Geometry, o: nat)
    requires g.Valid()
    ensures o == StartOf(g, BlockOf(g, o)) + OffsetOf(g, o)
  {
    DivMod(o, g.SectorSize());
  }

  /** The buffer of a write: the new bytes, around them what the file holds; past the end of
      the file, anything. */
  predicate Assembled(g: Geometry, d: Image, h: Header, first: nat, position: nat, bytes: seq<byte>, buf: seq<byte>)
    requires g.Valid() && ImageOk(g, d) && |h.direct| == g.numDirect
  {
    forall o: nat :: StartOf(g, first) <= o < StartOf(g, first) + |buf| && o < FileLength(h) ==>
      AssembledByte(g, d, h, first, position, bytes, buf, o)
  }

  predicate AssembledByte(g: Geometry, d: Image, h: Header, first: nat, position: nat, bytes: seq<byte>, buf: seq<byte>,
                          o: nat)
    requires g.Valid() && ImageOk(g, d) && |h.direct| == g.numDirect
    requires StartOf(g, first) <= o < StartOf(g, first) + |buf|
  {
    buf[o - StartOf(g, first)] == if position <= o < position + |bytes| then bytes[o - position] else ByteAt(g, d, h, o)
  }

  /** The effect of a write on the disk and on the file. */
  ghost predicate Wrote(g: Geometry, d: Image, d': Image, h: Header, position: nat, bytes: seq<byte>)
    requires WellFormed(g, d, h)
  {
    && position + |bytes| <= FileLength(h)
    && WellFormed(g, d', h)
    && FileSectors(g, d', h) == FileSectors(g, d, h)
    && FileBytes(g, d', h) == Splice(FileBytes(g, d, h), position, bytes)
    && (forall x :: 0 <= x < |d| && x !in BlockSet(g, d, h, 0, h.numSectors) ==> d'[x] == d[x])
  }

  /** Whatever is read after a write: the new bytes where they were written, the old elsewhere. */
  lemma ReadAfterWrite(g: Geometry, d: Image, d': Image, h: Header, position: nat, bytes: seq<byte>, from: nat, n: nat)
    requires WellFormed(g, d, h) && Wrote(g, d, d', h, position, bytes) && from + n <= FileLength(h)
    ensures forall i :: from <= i < from + n ==>
      FileBytes(g, d', h)[from..from + n][i - from] ==
        if position <= i < position + |bytes| then bytes[i - position] else FileBytes(g, d, h)[i]
    ensures position == from && |bytes| == n ==> FileBytes(g, d', h)[from..from + n] == bytes
  {
    hide WellFormed, FileSectors, FileBytes;
  }

  /** Overwriting whole blocks from an assembled buffer splices the bytes into the file. */
  lemma PutAssembled(g: Geometry, d: Image, h: Header, first: nat, n: nat, position: nat, bytes: seq<byte>,
                     buf: seq<byte>)
    requires WellFormed(g, d, h) && first + n <= h.numSectors && |buf| == StartOf(g, n)
    requires StartOf(g, first) <= position && position + |bytes| <= StartOf(g, first + n)
    requires position + |bytes| <= FileLength(h)
    requires Assembled(g, d, h, first, position, bytes, buf)
    ensures Wrote(g, d, PutBlocks(g, d, h, first, Chunks(g, buf, n)), h, position, bytes)
  {
    var bs := Chunks(g, buf, n);
    var d' := PutBlocks(g, d, h, first, bs);
    PutBlocksKeeps(g, d, h, first, bs);
    forall o: nat | o < FileLength(h)
      ensures ByteAt(g, d', h, o)
        == if position <= o < position + |bytes| then bytes[o - position] else ByteAt(g, d, h, o)
    {
      PutByte(g, d, h, first, n, position, bytes, buf, o);
    }
    hide ByteAt, Block, PutBlocks, WellFormed, Assembled, Chunks, FileSectors;
    assert FileBytes(g, d', h) == Splice(FileBytes(g, d, h), position, bytes);
    forall x | 0 <= x < |d| && x !in BlockSet(g, d, h, 0, h.numSectors) ensures d'[x] == d[x] {
      BlockSetPart(g, d, h, first, first + n);
      PutBlocksElsewhere(g, d, h, first, bs, x);
    }
  }

  lemma BlockSetPart(g: Geometry, d: Image, h: Header, lo: nat, hi: nat)
    requires WellFormed(g, d, h) && lo <= hi <= h.numSectors
    ensures BlockSet(g, d, h, lo, hi) <= BlockSet(g, d, h, 0, h.numSectors)
  {}

  lemma PutByte(g: Geometry, d: Image, h: Header, first: nat, n: nat, position: nat, bytes: seq<byte>,
                buf: seq<byte>, o: nat)
    requires WellFormed(g, d, h) && first + n <= h.numSectors && |buf| == StartOf(g, n)
    requires StartOf(g, first) <= position && position + |bytes| <= StartOf(g, first + n)
    requires Assembled(g, d, h, first, position, bytes, buf) && o < FileLength(h)
    ensures ByteAt(g, PutBlocks(g, d, h, first, Chunks(g, buf, n)), h, o) ==
      if position <= o < position + |bytes| then bytes[o - position] else ByteAt(g, d, h, o)
  {
    PutByteFrom(g, d, h, first, Chunks(g, buf, n), o);
    InsideBlocks(g, first, n, o);
    hide *;
    if first <= BlockOf(g, o) < first + n {
      ByteFromChunk(g, buf, first, n, o);
      AssembledAt(g, d, h, first, position, bytes, buf, o);
    }
  }

  lemma AssembledAt(g: Geometry, d: Image, h: Header, first: nat, position: nat, bytes: seq<byte>, buf: seq<byte>,
                    o: nat)
    requires g.Valid() && ImageOk(g, d) && |h.direct| == g.numDirect
    requires Assembled(g, d, h, first, position, bytes, buf) && o < FileLength(h)
    requires StartOf(g, first) <= o < StartOf(g, first) + |buf|
    ensures buf[o - StartOf(g, first)] ==
      if position <= o < position + |bytes| then bytes[o - position] else ByteAt(g, d, h, o)
  {
    hide ByteAt;
    var copied := AssembledByte(g, d, h, first, position, bytes, buf, o);
  }

  lemma PutByteFrom(g: Geometry, d: Image, h: Header, first: nat, bs: seq<Sector>, o: nat)
    requires WellFormed(g, d, h) && first + |bs| <= h.numSectors && Sectors(g, bs) && o < FileLength(h)
    ensures ByteAt(g, PutBlocks(g, d, h, first, bs), h, o) ==
      if first <= BlockOf(g, o) < first + |bs| then bs[BlockOf(g, o) - first][OffsetOf(g, o)] else ByteAt(g, d, h, o)
  {
    var d' := PutBlocks(g, d, h, first, bs);
    BlockOfByte(g, h, o);
    PutBlocksKeeps(g, d, h, first, bs);
    SameBlock(g, d, d', h, BlockOf(g, o));
    PutBlocksAt(g, d, h, first, bs, BlockOf(g, o));
    hide WellFormed, FileSectors, PutBlocks, Block, BlockOf, OffsetOf;
  }

  lemma InsideBlocks(g: Geometry, first: nat, n: nat, o: nat)
    requires g.Valid()
    ensures first <= BlockOf(g, o) < first + n <==> StartOf(g, first) <= o < StartOf(g, first + n)
  {
    DivBound(o, g.SectorSize(), first);
    DivBound(o, g.SectorSize(), first + n);
  }
}
