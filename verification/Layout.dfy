/** Where a file lies on a disk image: what filehdr.cc builds and walks. */
module Layout {
  import opened Arithmetic
  import opened Machine
  import opened Bitmap
  import opened Storage

  /** Entry i of the index block in a sector, or -1 outside the disk or the block. */
  function Entry(g: Geometry, d: Image, sector: int, i: int): int32
    requires ImageOk(g, d)
  {
    if 0 <= sector < |d| && 0 <= i < g.l1Num then IntAt(d[sector], i) else -1
  }

  /** The sector at a position of the file, found through the index blocks on the disk. */
  function SectorAt(g: Geometry, d: Image, h: Header, p: nat): int32
    requires g.Valid() && ImageOk(g, d) && |h.direct| == g.numDirect
  {
    if p < L1Pos(g) then h.direct[p]
    else if p == L1Pos(g) then h.l1Index
    else if p < L2Pos(g) then Entry(g, d, h.l1Index, p - L1Pos(g) - 1)
    else if p == L2Pos(g) then h.l2Index
    else
      var sub := Entry(g, d, h.l2Index, SubOf(g, p));
      if SubOff(g, p) == 0 then sub else Entry(g, d, sub, SubOff(g, p) - 1)
  }

  /** The fields agree with each other. */
  predicate Sized(g: Geometry, h: Header)
    requires g.Valid()
  {
    && |h.direct| == g.numDirect
    && h.numSectors == DivRoundUp(h.numBytes, g.SectorSize())
    && 0 <= h.numSectors <= g.MaxSectors()
  }

  lemma NeedBounds(g: Geometry, ns: int)
    requires g.Valid() && 0 <= ns <= g.MaxSectors()
    ensures ns <= Need(g, ns)
    ensures ns > g.numDirect <==> Need(g, ns) > L1Pos(g)
    ensures ns > g.numDirect + g.l1Num <==> Need(g, ns) > L2Pos(g)
  {
    if ns > g.numDirect + g.l1Num { SubBlocksBounds(g, ns); }
  }

  /** All the file's sectors, index blocks included, in the order they were taken. */
  function FileSectors(g: Geometry, d: Image, h: Header): (s: seq<int32>)
    requires g.Valid() && ImageOk(g, d) && Sized(g, h)
    ensures |s| == Need(g, h.numSectors)
  {
    NeedBounds(g, h.numSectors);
    seq(Need(g, h.numSectors), p requires 0 <= p => SectorAt(g, d, h, p))
  }

  predicate InRange(g: Geometry, s: seq<int>) {
    forall p :: 0 <= p < |s| ==> 0 <= s[p] < g.numSectors
  }

  /** A file laid out as Allocate lays it out. */
  predicate WellFormed(g: Geometry, d: Image, h: Header) {
    && g.Valid() && ImageOk(g, d) && Sized(g, h)
    && InRange(g, FileSectors(g, d, h))
    && Ascending(FileSectors(g, d, h))
  }

  /** The block byte i is in, and where in it. */
  function BlockOf(g: Geometry, i: nat): (k: nat)
    requires g.Valid()
  {
    DivMod(i, g.SectorSize());
    MulOrder(i / g.SectorSize(), -1, g.SectorSize());
    i / g.SectorSize()
  }

  function OffsetOf(g: Geometry, i: nat): (o: nat)
    requires g.Valid()
    ensures o < g.SectorSize()
  {
    DivMod(i, g.SectorSize());
    i % g.SectorSize()
  }

  lemma FileFacts(g: Geometry, d: Image, h: Header)
    requires WellFormed(g, d, h)
    ensures g.Valid() && ImageOk(g, d) && Sized(g, h) && |h.direct| == g.numDirect
    ensures 0 <= h.numSectors <= g.MaxSectors()
    ensures var s := FileSectors(g, d, h); |s| == Need(g, h.numSectors) && InRange(g, s) && Ascending(s)
  {}

  /** Byte i of the file. */
  function ByteAt(g: Geometry, d: Image, h: Header, i: nat): byte
    requires g.Valid() && ImageOk(g, d) && |h.direct| == g.numDirect
  {
    var sector := Block(g, d, h, BlockOf(g, i));
    if 0 <= sector < |d| then d[sector][OffsetOf(g, i)] else 0
  }

  /** Byte i is in sector i / SectorSize of the file, i % SectorSize bytes in. */
  lemma ByteInSector(g: Geometry, d: Image, h: Header, i: nat)
    requires WellFormed(g, d, h) && i < h.numBytes
    ensures 0 <= i / (4 * g.l1Num) < h.numSectors && 0 <= i % (4 * g.l1Num)
    ensures 0 <= Block(g, d, h, i / (4 * g.l1Num)) < |d| && |d[Block(g, d, h, i / (4 * g.l1Num))]| == 4 * g.l1Num
    ensures |FileBytes(g, d, h)| == h.numBytes
    ensures FileBytes(g, d, h)[i] == d[Block(g, d, h, i / (4 * g.l1Num))][i % (4 * g.l1Num)]
  {
    BlockOfByte(g, h, i);
    BlockInFile(g, d, h, BlockOf(g, i));
    hide Block, InRange, Ascending;
  }

  function FileLength(h: Header): nat {
    if h.numBytes < 0 then 0 else h.numBytes
  }

  /** The file as a flat byte array. */
  function FileBytes(g: Geometry, d: Image, h: Header): (bs: seq<byte>)
    requires g.Valid() && ImageOk(g, d) && |h.direct| == g.numDirect
    ensures |bs| == FileLength(h)
  {
    seq(FileLength(h), i requires 0 <= i => ByteAt(g, d, h, i))
  }

  /** Byte i < FileLength lies in one of the file's blocks. */
  lemma BlockOfByte(g: Geometry, h: Header, i: nat)
    requires g.Valid() && Sized(g, h) && i < FileLength(h)
    ensures BlockOf(g, i) < h.numSectors
  {
    DivRoundUpBounds(h.numBytes, g.SectorSize());
    DivBound(i, g.SectorSize(), h.numSectors);
  }

  /** The sector of data block k. */
  function Block(g: Geometry, d: Image, h: Header, k: nat): int32
    requires g.Valid() && ImageOk(g, d) && |h.direct| == g.numDirect
  {
    SectorAt(g, d, h, BlockPos(g, k))
  }

  lemma BlockInFile(g: Geometry, d: Image, h: Header, k: nat)
    requires WellFormed(g, d, h) && k < h.numSectors
    ensures BlockPos(g, k) < |FileSectors(g, d, h)|
    ensures FileSectors(g, d, h)[BlockPos(g, k)] == Block(g, d, h, k)
    ensures 0 <= Block(g, d, h, k) < |d|
    ensures Block(g, d, h, k) in FileSectors(g, d, h)
  {
    BlockPosInNeed(g, h.numSectors, k);
    assert FileSectors(g, d, h)[BlockPos(g, k)] == Block(g, d, h, k);
  }

  /** Blocks are in different sectors, in increasing order, and none is an index block. */
  lemma BlocksIncrease(g: Geometry, d: Image, h: Header, j: nat, k: nat)
    requires WellFormed(g, d, h) && j < k < h.numSectors
    ensures Block(g, d, h, j) < Block(g, d, h, k)
  {
    BlockInFile(g, d, h, j);
    BlockInFile(g, d, h, k);
    BlockPosOrder(g, j, k);
  }

  lemma BlockIsNoIndex(g: Geometry, d: Image, h: Header, k: nat, p: nat)
    requires WellFormed(g, d, h) && k < h.numSectors
    requires p < Need(g, h.numSectors) && IsIndexPos(g, p)
    ensures Block(g, d, h, k) != SectorAt(g, d, h, p)
  {
    BlockInFile(g, d, h, k);
    BlockPosOrder(g, k, k + 1);
    var s := FileSectors(g, d, h);
    assert s[p] == SectorAt(g, d, h, p);
    assert p != BlockPos(g, k);
  }

  // ---- Framing ------------------------------------------------------------------------

  /** The index blocks of the file hold the same words on both images. */
  predicate SameIndex(g: Geometry, d: Image, d': Image, h: Header)
    requires WellFormed(g, d, h) && ImageOk(g, d')
  {
    var s := FileSectors(g, d, h);
    forall p :: 0 <= p < |s| && IsIndexPos(g, p) ==> d'[s[p]] == d[s[p]]
  }

  lemma SameSectorAt(g: Geometry, d: Image, d': Image, h: Header, p: nat)
    requires WellFormed(g, d, h) && ImageOk(g, d') && SameIndex(g, d, d', h)
    requires p < Need(g, h.numSectors)
    ensures SectorAt(g, d', h, p) == SectorAt(g, d, h, p)
  {
    var s := FileSectors(g, d, h);
    if L1Pos(g) < p < L2Pos(g) {
      assert IsIndexPos(g, L1Pos(g)) && s[L1Pos(g)] == h.l1Index;
    } else if p > L2Pos(g) {
      assert IsIndexPos(g, L2Pos(g)) && s[L2Pos(g)] == h.l2Index;
      SubSplit(g, p);
      var q := SubPos(g, SubOf(g, p));
      SubAt(g, SubOf(g, p), 0);
      assert IsIndexPos(g, q) && s[q] == SectorAt(g, d, h, q);
    }
  }

  /** The layout depends on the index blocks only. */
  lemma SameLayout(g: Geometry, d: Image, d': Image, h: Header)
    requires WellFormed(g, d, h) && ImageOk(g, d') && SameIndex(g, d, d', h)
    ensures WellFormed(g, d', h)
    ensures FileSectors(g, d', h) == FileSectors(g, d, h)
  {
    forall p | 0 <= p < Need(g, h.numSectors)
      ensures FileSectors(g, d', h)[p] == FileSectors(g, d, h)[p]
    {
      SameSectorAt(g, d, d', h, p);
    }
    assert FileSectors(g, d', h) == FileSectors(g, d, h);
  }

  /** A file none of whose sectors changed is unchanged. */
  lemma SameFile(g: Geometry, d: Image, d': Image, h: Header)
    requires WellFormed(g, d, h) && ImageOk(g, d')
    requires forall x :: x in FileSectors(g, d, h) ==> d'[x] == d[x]
    ensures WellFormed(g, d', h)
    ensures FileSectors(g, d', h) == FileSectors(g, d, h)
    ensures FileBytes(g, d', h) == FileBytes(g, d, h)
  {
    var s := FileSectors(g, d, h);
    assert forall p :: 0 <= p < |s| ==> s[p] in s;
    SameLayout(g, d, d', h);
    forall i | 0 <= i < FileLength(h) ensures ByteAt(g, d', h, i) == ByteAt(g, d, h, i) {
      BlockOfByte(g, h, i);
      BlockInFile(g, d, h, BlockOf(g, i));
      SameByte(g, d, d', h, i);
    }
  }

  lemma SameByte(g: Geometry, d: Image, d': Image, h: Header, i: nat)
    requires WellFormed(g, d, h) && WellFormed(g, d', h) && i < FileLength(h)
    requires FileSectors(g, d', h) == FileSectors(g, d, h)
    requires var x := Block(g, d, h, BlockOf(g, i)); 0 <= x < |d| ==> d'[x] == d[x]
    ensures ByteAt(g, d', h, i) == ByteAt(g, d, h, i)
  {
    BlockOfByte(g, h, i);
    BlockInFile(g, d, h, BlockOf(g, i));
    BlockInFile(g, d', h, BlockOf(g, i));
  }

  // ---- What Allocate writes -------------------------------------------------------------

  /** An index block: the given sectors, then -1. */
  function IndexBlock(g: Geometry, xs: seq<int32>): (b: Sector)
    requires |xs| <= g.l1Num
    ensures |b| == g.SectorSize()
  {
    EncodeInts(xs + seq(g.l1Num - |xs|, _ => -1))
  }

  lemma IndexBlockAt(g: Geometry, xs: seq<int32>, i: nat)
    requires |xs| <= g.l1Num && i < g.l1Num
    ensures IntAt(IndexBlock(g, xs), i) == if i < |xs| then xs[i] else -1
  {
    EncodeIntAt(xs + seq(g.l1Num - |xs|, _ => -1), i);
  }

  /** The entries of the index block at position p, when the file's sectors are s. */
  function EntriesAfter(g: Geometry, s: seq<int32>, p: nat): (xs: seq<int32>)
    requires p < |s|
    ensures |xs| <= g.l1Num
  {
    s[p + 1..if p + 1 + g.l1Num < |s| then p + 1 + g.l1Num else |s|]
  }

  function SubIndexes(g: Geometry, ns: int, s: seq<int32>): (xs: seq<int32>)
    requires g.Valid() && g.numDirect + g.l1Num < ns <= g.MaxSectors() && |s| == Need(g, ns)
    ensures |xs| == SubBlocks(g, ns) <= g.l1Num
  {
    SubBlocksBounds(g, ns);
    seq(SubBlocks(g, ns), j requires 0 <= j < SubBlocks(g, ns) => SubInNeed(g, ns, j); s[SubPos(g, j)])
  }

  lemma SubInNeed(g: Geometry, ns: int, j: nat)
    requires g.Valid() && g.numDirect + g.l1Num < ns <= g.MaxSectors() && j < SubBlocks(g, ns)
    ensures SubPos(g, j) < Need(g, ns)
  {
    SubBlocksBounds(g, ns);
    MulOrder(j, SubBlocks(g, ns) - 1, g.l1Num + 1);
    assert (SubBlocks(g, ns) - 1) * (g.l1Num + 1) == (SubBlocks(g, ns) - 1) * g.l1Num + SubBlocks(g, ns) - 1;
    assert SubBlocks(g, ns) * (g.l1Num + 1) == SubBlocks(g, ns) * g.l1Num + SubBlocks(g, ns);
  }

  /** The sector at position p after Allocate: a zeroed data block or a filled index block. */
  function ContentAt(g: Geometry, ns: int, s: seq<int32>, p: nat): (b: Sector)
    requires g.Valid() && 0 <= ns <= g.MaxSectors() && |s| == Need(g, ns) && p < |s|
    ensures |b| == g.SectorSize()
  {
    if !IsIndexPos(g, p) then ZeroSector(g)
    else if p == L2Pos(g) then
      NeedBounds(g, ns);
      IndexBlock(g, SubIndexes(g, ns, s))
    else IndexBlock(g, EntriesAfter(g, s, p))
  }

  /** The header's own pointers are the file's first sectors. */
  predicate Points(g: Geometry, h: Header, s: seq<int32>) {
    && |h.direct| == g.numDirect
    && (forall p :: 0 <= p < g.numDirect && p < |s| ==> h.direct[p] == s[p])
    && (L1Pos(g) < |s| ==> h.l1Index == s[L1Pos(g)])
    && (L2Pos(g) < |s| ==> h.l2Index == s[L2Pos(g)])
  }

  /** Every index block of the file has been written. */
  predicate IndexWritten(g: Geometry, d: Image, ns: int, s: seq<int32>)
    requires g.Valid() && ImageOk(g, d) && 0 <= ns <= g.MaxSectors() && |s| == Need(g, ns) && InRange(g, s)
  {
    forall q :: 0 <= q < |s| && IsIndexPos(g, q) ==> d[s[q]] == ContentAt(g, ns, s, q)
  }

  lemma WrittenL1(g: Geometry, d: Image, ns: int, s: seq<int32>, p: nat)
    requires g.Valid() && ImageOk(g, d) && 0 <= ns <= g.MaxSectors() && |s| == Need(g, ns) && InRange(g, s)
    requires IndexWritten(g, d, ns, s) && L1Pos(g) < p < L2Pos(g) && p < |s|
    ensures Entry(g, d, s[L1Pos(g)], p - L1Pos(g) - 1) == s[p]
  {
    hide Need, SubBlocks, SubIndexes, IndexBlock, IntAt, SubOff;
    var q := L1Pos(g);
    assert IsIndexPos(g, q) && d[s[q]] == IndexBlock(g, EntriesAfter(g, s, q));
    IndexBlockAt(g, EntriesAfter(g, s, q), p - q - 1);
  }

  lemma WrittenL2(g: Geometry, d: Image, ns: int, s: seq<int32>, j: nat)
    requires g.Valid() && ImageOk(g, d) && g.numDirect + g.l1Num < ns <= g.MaxSectors()
    requires |s| == Need(g, ns) && InRange(g, s)
    requires IndexWritten(g, d, ns, s) && j < SubBlocks(g, ns)
    ensures L2Pos(g) < |s| && SubPos(g, j) < |s|
    ensures Entry(g, d, s[L2Pos(g)], j) == s[SubPos(g, j)]
  {
    NeedBounds(g, ns);
    SubInNeed(g, ns, j);
    var q := L2Pos(g);
    assert IsIndexPos(g, q) && d[s[q]] == IndexBlock(g, SubIndexes(g, ns, s));
    IndexBlockAt(g, SubIndexes(g, ns, s), j);
  }

  lemma WrittenSub(g: Geometry, d: Image, ns: int, s: seq<int32>, j: nat, r: nat)
    requires g.Valid() && ImageOk(g, d) && 0 <= ns <= g.MaxSectors() && |s| == Need(g, ns) && InRange(g, s)
    requires IndexWritten(g, d, ns, s) && r < g.l1Num && SubPos(g, j) + 1 + r < |s|
    ensures Entry(g, d, s[SubPos(g, j)], r) == s[SubPos(g, j) + 1 + r]
  {
    var q := SubPos(g, j);
    SubAt(g, j, 0);
    assert IsIndexPos(g, q) && d[s[q]] == IndexBlock(g, EntriesAfter(g, s, q));
    IndexBlockAt(g, EntriesAfter(g, s, q), r);
  }

  lemma AllocatedDeep(g: Geometry, d: Image, ns: int, s: seq<int32>, j: nat, r: nat)
    requires g.Valid() && ImageOk(g, d) && g.numDirect + g.l1Num < ns <= g.MaxSectors()
    requires |s| == Need(g, ns) && InRange(g, s) && IndexWritten(g, d, ns, s)
    requires j < SubBlocks(g, ns) && r <= g.l1Num && SubPos(g, j) + r < |s|
    ensures L2Pos(g) < |s|
    ensures var sub := Entry(g, d, s[L2Pos(g)], j);
      s[SubPos(g, j) + r] == if r == 0 then sub else Entry(g, d, sub, r - 1)
  {
    hide *;
    WrittenL2(g, d, ns, s, j);
    if r > 0 {
      WrittenSub(g, d, ns, s, j, r - 1);
    }
  }

  lemma AllocatedPastL2(g: Geometry, d: Image, ns: int, s: seq<int32>, p: nat)
    requires g.Valid() && ImageOk(g, d) && 0 <= ns <= g.MaxSectors() && |s| == Need(g, ns)
    requires InRange(g, s) && IndexWritten(g, d, ns, s) && L2Pos(g) < p < |s|
    ensures var sub := Entry(g, d, s[L2Pos(g)], SubOf(g, p));
      s[p] == if SubOff(g, p) == 0 then sub else Entry(g, d, sub, SubOff(g, p) - 1)
  {
    hide *;
    SubOfInNeed(g, ns, p);
    SubSplit(g, p);
    AllocatedDeep(g, d, ns, s, SubOf(g, p), SubOff(g, p));
  }

  lemma AllocatedAt(g: Geometry, d: Image, h: Header, s: seq<int32>, p: nat)
    requires g.Valid() && ImageOk(g, d) && Sized(g, h)
    requires |s| == Need(g, h.numSectors) && InRange(g, s) && Points(g, h, s)
    requires IndexWritten(g, d, h.numSectors, s)
    requires p < |s|
    ensures SectorAt(g, d, h, p) == s[p]
  {
    hide SubOf, SubOff, SubPos, IndexWritten, Need;
    if L1Pos(g) < p < L2Pos(g) {
      WrittenL1(g, d, h.numSectors, s, p);
    } else if p > L2Pos(g) {
      AllocatedPastL2(g, d, h.numSectors, s, p);
    }
  }

  /** Reading the index back gives exactly the sectors that were taken. */
  lemma AllocatedLayout(g: Geometry, d: Image, h: Header, s: seq<int32>)
    requires g.Valid() && ImageOk(g, d) && Sized(g, h)
    requires |s| == Need(g, h.numSectors) && InRange(g, s) && Points(g, h, s)
    requires IndexWritten(g, d, h.numSectors, s)
    ensures FileSectors(g, d, h) == s
    ensures Ascending(s) ==> WellFormed(g, d, h)
  {
    forall p | 0 <= p < |s| ensures FileSectors(g, d, h)[p] == s[p] {
      AllocatedAt(g, d, h, s, p);
    }
    assert FileSectors(g, d, h) == s;
  }
}
