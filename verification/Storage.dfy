/** The disk as the file system sees it, the shape of a file header, and where a header's
    two-level index says the file lies.

    The constants of machine/disk.h and filesys/filehdr.h are parameters: l1Num is
    L1_INDEX_NUM, the words of a sector, so SectorSize is 4 * l1Num. */
module Storage {
  import opened Arithmetic
  import opened Machine

  datatype Geometry = Geometry(l1Num: nat, numDirect: nat, numSectors: nat, numDirEntries: nat) {
    function SectorSize(): nat { 4 * l1Num }

    /** The longest file the two-level index can describe, in sectors. */
    function MaxSectors(): nat { numDirect + l1Num + l1Num * l1Num }

    /** The room filehdr.cc gives sectorsGet. */
    function GetCapacity(): nat { numDirect + l1Num * l1Num }

    /** The direct table fits in a sector; the header, seven words longer than that table,
        never leaves part of a sector unset; sector numbers are ints; the free map has no
        spare bits. */
    predicate Valid() {
      && 2 + numDirect <= l1Num <= 7 + numDirect
      && 2 <= numSectors <= MAX_INT
      && numSectors % 32 == 0
    }

    /** Offsets into the longest file are ints. */
    predicate OffsetsFit() {
      MaxSectors() * SectorSize() <= MAX_INT
    }
  }

  /** The constants the repository is compiled with. */
  const NACHOS := Geometry(32, 30, 1024, 10)

  type Sector = seq<byte>
  type Image = seq<Sector>

  predicate ImageOk(g: Geometry, d: Image) {
    |d| == g.numSectors && forall x :: 0 <= x < |d| ==> |d[x]| == g.SectorSize()
  }

  function ZeroSector(g: Geometry): (s: Sector)
    ensures |s| == g.SectorSize()
  {
    seq(g.SectorSize(), _ => 0)
  }

  /** The synchronous disk: whole sectors, in range, one at a time. */
  class Disk {
    const g: Geometry
    var data: Image

    ghost predicate Valid()
      reads this
    {
      g.Valid() && ImageOk(g, data)
    }

    constructor (g: Geometry, contents: Image)
      requires g.Valid() && ImageOk(g, contents)
      ensures Valid() && this.g == g && data == contents
    {
      this.g := g;
      data := contents;
    }

    method ReadSector(sectorNumber: int) returns (buf: Sector)
      requires Valid() && 0 <= sectorNumber < g.numSectors
      ensures buf == data[sectorNumber] && |buf| == g.SectorSize()
    {
      buf := data[sectorNumber];
    }

    method WriteSector(sectorNumber: int, buf: Sector)
      requires Valid() && 0 <= sectorNumber < g.numSectors && |buf| == g.SectorSize()
      modifies this
      ensures Valid() && data == old(data)[sectorNumber := buf]
    {
      data := data[sectorNumber := buf];
    }
  }

  // ---- Headers ------------------------------------------------------------------------

  /** The fields of a FileHeader, in the order the class declares them. */
  datatype Header = Header(
    numBytes: int32,
    numSectors: int32,
    direct: seq<int32>,
    createTime: int32,
    lastModifyTime: int32,
    lastUseTime: int32,
    l1Index: int32,
    l2Index: int32)

  /** The header as the words it occupies in memory. */
  function HeaderInts(h: Header): (xs: seq<int32>)
    ensures |xs| == |h.direct| + 7
  {
    [h.numBytes, h.numSectors] + h.direct
      + [h.createTime, h.lastModifyTime, h.lastUseTime, h.l1Index, h.l2Index]
  }

  function HeaderOf(g: Geometry, xs: seq<int32>): (h: Header)
    requires |xs| == g.numDirect + 7
    ensures |h.direct| == g.numDirect
  {
    var n := g.numDirect;
    Header(xs[0], xs[1], xs[2..n + 2], xs[n + 2], xs[n + 3], xs[n + 4], xs[n + 5], xs[n + 6])
  }

  lemma IntsOfHeader(g: Geometry, xs: seq<int32>)
    requires |xs| == g.numDirect + 7
    ensures HeaderInts(HeaderOf(g, xs)) == xs
  {}

  // ---- How many sectors a file takes ----------------------------------------------------

  /** Second-level index blocks of a file of ns sectors. */
  function SubBlocks(g: Geometry, ns: int): int
    requires g.Valid()
  {
    DivRoundUp(ns - g.numDirect - g.l1Num, g.l1Num)
  }

  /** Data and index sectors together. */
  function Need(g: Geometry, ns: int): int
    requires g.Valid()
  {
    if ns <= g.numDirect then ns
    else if ns <= g.numDirect + g.l1Num then ns + 1
    else ns + SubBlocks(g, ns) + 2
  }

  // ---- Positions: a file's sectors in the order Allocate takes them ---------------------
  //
  //   direct blocks | L1 index | its blocks | L2 index | (sub-index | its blocks) ...

  function L1Pos(g: Geometry): nat { g.numDirect }

  function L2Pos(g: Geometry): nat { g.numDirect + g.l1Num + 1 }

  function SubPos(g: Geometry, j: nat): nat { L2Pos(g) + 1 + j * (g.l1Num + 1) }

  /** Which second-level group a position past the L2 index is in, and where in it. */
  function SubOf(g: Geometry, p: nat): nat
    requires g.Valid() && p > L2Pos(g)
  {
    (p - L2Pos(g) - 1) / (g.l1Num + 1)
  }

  function SubOff(g: Geometry, p: nat): (r: nat)
    requires g.Valid() && p > L2Pos(g)
    ensures r <= g.l1Num
  {
    (p - L2Pos(g) - 1) % (g.l1Num + 1)
  }

  predicate IsIndexPos(g: Geometry, p: nat)
    requires g.Valid()
  {
    p == L1Pos(g) || p == L2Pos(g) || (p > L2Pos(g) && SubOff(g, p) == 0)
  }

  /** The position of data block k. */
  function BlockPos(g: Geometry, k: nat): nat
    requires g.Valid()
  {
    if k < g.numDirect then k
    else if k < g.numDirect + g.l1Num then k + 1
    else k + 3 + (k - g.numDirect - g.l1Num) / g.l1Num
  }

  lemma SubAt(g: Geometry, j: nat, r: nat)
    requires g.Valid() && r <= g.l1Num
    ensures SubPos(g, j) + r > L2Pos(g)
    ensures SubOf(g, SubPos(g, j) + r) == j && SubOff(g, SubPos(g, j) + r) == r
  {
    assert j * (g.l1Num + 1) >= 0;
    DivUnique(SubPos(g, j) + r - L2Pos(g) - 1, g.l1Num + 1, j, r);
  }

  lemma SubSplit(g: Geometry, p: nat)
    requires g.Valid() && p > L2Pos(g)
    ensures p == SubPos(g, SubOf(g, p)) + SubOff(g, p)
  {}

  /** Block k past the L1 range is entry (k - base) % l1Num of group (k - base) / l1Num. */
  lemma BlockPosDeep(g: Geometry, k: nat)
    requires g.Valid() && k >= g.numDirect + g.l1Num
    ensures 0 <= DeepGroup(g, k) && 0 <= DeepEntry(g, k) < g.l1Num
    ensures BlockPos(g, k) == SubPos(g, DeepGroup(g, k)) + 1 + DeepEntry(g, k)
    ensures BlockPos(g, k) > L2Pos(g)
    ensures SubOf(g, BlockPos(g, k)) == DeepGroup(g, k) && SubOff(g, BlockPos(g, k)) == 1 + DeepEntry(g, k)
  {
    var b := k - g.numDirect - g.l1Num;
    DivMod(b, g.l1Num);
    DivBound(b, g.l1Num, 0);
    var j, r := DeepGroup(g, k), DeepEntry(g, k);
    assert j * (g.l1Num + 1) == j * g.l1Num + j;
    assert BlockPos(g, k) == SubPos(g, j) + 1 + r;
    hide SubPos, SubOf, SubOff, BlockPos;
    SubAt(g, j, 1 + r);
  }

  /** The second-level group of a block past the L1 range, and its entry there. */
  function DeepGroup(g: Geometry, k: nat): int
    requires g.Valid()
  {
    (k - g.numDirect - g.l1Num) / g.l1Num
  }

  function DeepEntry(g: Geometry, k: nat): int
    requires g.Valid()
  {
    (k - g.numDirect - g.l1Num) % g.l1Num
  }

  /** Blocks keep their order, and no block is at an index position. */
  lemma BlockPosOrder(g: Geometry, j: nat, k: nat)
    requires g.Valid() && j < k
    ensures BlockPos(g, j) < BlockPos(g, k)
    ensures !IsIndexPos(g, BlockPos(g, k)) && !IsIndexPos(g, BlockPos(g, j))
  {
    if k >= g.numDirect + g.l1Num { BlockPosDeep(g, k); }
    if j >= g.numDirect + g.l1Num {
      BlockPosDeep(g, j);
      DivOrder(j - g.numDirect - g.l1Num, k - g.numDirect - g.l1Num, g.l1Num);
    }
  }

  lemma SubBlocksBounds(g: Geometry, ns: int)
    requires g.Valid() && g.numDirect + g.l1Num < ns <= g.MaxSectors()
    ensures var m := ns - g.numDirect - g.l1Num; var ad := SubBlocks(g, ns);
      1 <= ad <= g.l1Num && (ad - 1) * g.l1Num < m <= ad * g.l1Num
    ensures Need(g, ns) > L2Pos(g) + 1
    ensures Need(g, ns) == SubPos(g, SubBlocks(g, ns)) - (SubBlocks(g, ns) * g.l1Num - (ns - g.numDirect - g.l1Num))
  {
    RoundUpSquare(ns - g.numDirect - g.l1Num, g.l1Num);
    hide DivRoundUp;
    assert SubBlocks(g, ns) * (g.l1Num + 1) == SubBlocks(g, ns) * g.l1Num + SubBlocks(g, ns);
  }

  lemma RoundUpSquare(m: int, s: int)
    requires s > 0 && 0 < m <= s * s
    ensures var q := DivRoundUp(m, s); 1 <= q <= s && (q - 1) * s < m <= q * s
  {
    DivRoundUpBounds(m, s);
    hide DivRoundUp;
    var q := DivRoundUp(m, s);
    MulOrder(s, q - 1, s);
    MulOrder(q, 0, s);
    assert s * q == q * s && s * (q - 1) == (q - 1) * s;
  }

  /** Positions of a file: the last block is in reach, and so is every block before it. */
  lemma BlockPosInNeed(g: Geometry, ns: int, k: nat)
    requires g.Valid() && k < ns <= g.MaxSectors()
    ensures BlockPos(g, k) < Need(g, ns)
  {
    if ns > g.numDirect + g.l1Num {
      SubBlocksBounds(g, ns);
      if k >= g.numDirect + g.l1Num {
        DivBound(k - g.numDirect - g.l1Num, g.l1Num, SubBlocks(g, ns));
      }
    }
  }

  /** A second-level group that has a position in the file is one of its SubBlocks. */
  lemma SubOfInNeed(g: Geometry, ns: int, p: nat)
    requires g.Valid() && ns <= g.MaxSectors() && L2Pos(g) < p < Need(g, ns)
    ensures ns > g.numDirect + g.l1Num
    ensures SubOf(g, p) < SubBlocks(g, ns) <= g.l1Num
  {
    SubBlocksBounds(g, ns);
    DivBound(p - L2Pos(g) - 1, g.l1Num + 1, SubBlocks(g, ns));
  }
}
