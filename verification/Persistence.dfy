/** What of a file header reaches the disk, and what kind of file Allocate makes. */
module Persistence {
  import opened Machine
  import opened Bitmap
  import opened Storage
  import opened Layout
  import opened Allocation

  // ---- Persistence ----------------------------------------------------------------------

  /** What WriteBack puts in a sector: the first SectorSize bytes of the header. */
  function Stored(g: Geometry, h: Header): (sector: Sector)
    requires g.Valid() && |h.direct| == g.numDirect
    ensures |sector| == g.SectorSize()
  {
    EncodeInts(HeaderInts(h)[..g.l1Num])
  }

  /** A header in memory after FetchFrom has laid a sector over its first bytes. */
  function Fetched(g: Geometry, h: Header, sector: Sector): (h': Header)
    requires g.Valid() && |h.direct| == g.numDirect && |sector| == g.SectorSize()
    ensures |h'.direct| == g.numDirect
  {
    HeaderOf(g, DecodeInts(sector) + HeaderInts(h)[g.l1Num..])
  }

  /** The pointers a file of ns sectors needs lie in the part that reaches the disk. */
  predicate Persists(g: Geometry, ns: int) {
    && (ns > g.numDirect ==> g.l1Num >= g.numDirect + 6)
    && (ns > g.numDirect + g.l1Num ==> g.l1Num >= g.numDirect + 7)
  }

  /** Write then fetch: the words that fit in the sector come back, the rest is what memory
      held. */
  lemma FetchedWords(g: Geometry, h: Header, h0: Header)
    requires g.Valid() && |h.direct| == g.numDirect && |h0.direct| == g.numDirect
    ensures HeaderInts(Fetched(g, h0, Stored(g, h))) == HeaderInts(h)[..g.l1Num] + HeaderInts(h0)[g.l1Num..]
  {
    var xs := HeaderInts(h)[..g.l1Num] + HeaderInts(h0)[g.l1Num..];
    DecodeEncodeInts(HeaderInts(h)[..g.l1Num]);
    hide HeaderInts, EncodeInts, DecodeInts, HeaderOf;
    IntsOfHeader(g, xs);
  }

  /** Field by field. */
  lemma FetchedStored(g: Geometry, h: Header, h0: Header)
    requires g.Valid() && |h.direct| == g.numDirect && |h0.direct| == g.numDirect
    ensures var r := Fetched(g, h0, Stored(g, h));
      && r.numBytes == h.numBytes && r.numSectors == h.numSectors && r.direct == h.direct
      && r.l1Index == (if g.l1Num >= g.numDirect + 6 then h.l1Index else h0.l1Index)
      && r.l2Index == (if g.l1Num >= g.numDirect + 7 then h.l2Index else h0.l2Index)
  {
    hide Fetched, Stored, HeaderInts;
    var r := Fetched(g, h0, Stored(g, h));
    FetchedWords(g, h, h0);
    IntsAt(h);
    IntsAt(h0);
    IntsAt(r);
    assert forall i :: 0 <= i < |r.direct| ==> r.direct[i] == HeaderInts(r)[2 + i] == HeaderInts(h)[2 + i];
  }

  lemma IntsAt(h: Header)
    ensures HeaderInts(h)[0] == h.numBytes && HeaderInts(h)[1] == h.numSectors
    ensures forall i :: 0 <= i < |h.direct| ==> HeaderInts(h)[2 + i] == h.direct[i]
    ensures HeaderInts(h)[|h.direct| + 5] == h.l1Index && HeaderInts(h)[|h.direct| + 6] == h.l2Index
  {}

  /** The fields of a header, as far as they fit, on the bytes of a sector. */
  predicate HeaderLies(g: Geometry, sector: Sector, h: Header)
    requires g.Valid() && |sector| == g.SectorSize() && |h.direct| == g.numDirect
  {
    && WordLies(sector, 0, h.numBytes) && WordLies(sector, 4, h.numSectors)
    && (forall i :: 0 <= i < g.numDirect ==> WordLies(sector, 8 + 4 * i, h.direct[i]))
    && (g.l1Num >= g.numDirect + 3 ==> WordLies(sector, 4 * g.numDirect + 8, h.createTime))
    && (g.l1Num >= g.numDirect + 4 ==> WordLies(sector, 4 * g.numDirect + 12, h.lastModifyTime))
    && (g.l1Num >= g.numDirect + 5 ==> WordLies(sector, 4 * g.numDirect + 16, h.lastUseTime))
    && (g.l1Num >= g.numDirect + 6 ==> WordLies(sector, 4 * g.numDirect + 20, h.l1Index))
    && (g.l1Num >= g.numDirect + 7 ==> WordLies(sector, 4 * g.numDirect + 24, h.l2Index))
  }

  /** A sector whose words are the first words of a header. */
  lemma WordsLie(g: Geometry, sector: Sector, h: Header)
    requires g.Valid() && |sector| == g.SectorSize() && |h.direct| == g.numDirect
    requires forall i :: 0 <= i < g.l1Num ==> WordLies(sector, 4 * i, HeaderInts(h)[i])
    ensures HeaderLies(g, sector, h)
  {
    hide WordLies;
    var n := g.numDirect;
    assert WordLies(sector, 4 * 0, HeaderInts(h)[0]) && WordLies(sector, 4 * 1, HeaderInts(h)[1]);
    forall i | 0 <= i < n ensures WordLies(sector, 8 + 4 * i, h.direct[i]) {
      assert WordLies(sector, 4 * (i + 2), HeaderInts(h)[i + 2]);
    }
    forall j | n + 2 <= j < g.l1Num ensures WordLies(sector, 4 * n + 8 + 4 * (j - n - 2), HeaderInts(h)[j]) {
      assert WordLies(sector, 4 * j, HeaderInts(h)[j]);
    }
    if g.l1Num >= n + 3 { assert WordLies(sector, 4 * n + 8 + 4 * (n + 2 - n - 2), HeaderInts(h)[n + 2]); }
    if g.l1Num >= n + 4 { assert WordLies(sector, 4 * n + 8 + 4 * (n + 3 - n - 2), HeaderInts(h)[n + 3]); }
    if g.l1Num >= n + 5 { assert WordLies(sector, 4 * n + 8 + 4 * (n + 4 - n - 2), HeaderInts(h)[n + 4]); }
    if g.l1Num >= n + 6 { assert WordLies(sector, 4 * n + 8 + 4 * (n + 5 - n - 2), HeaderInts(h)[n + 5]); }
    if g.l1Num >= n + 7 { assert WordLies(sector, 4 * n + 8 + 4 * (n + 6 - n - 2), HeaderInts(h)[n + 6]); }
  }

  lemma StoredLies(g: Geometry, h: Header)
    requires g.Valid() && |h.direct| == g.numDirect
    ensures HeaderLies(g, Stored(g, h), h)
  {
    hide HeaderInts, EncodeInts, WordLies, HeaderLies;
    var xs := HeaderInts(h)[..g.l1Num];
    forall i | 0 <= i < g.l1Num ensures WordLies(Stored(g, h), 4 * i, HeaderInts(h)[i]) { EncodedLies(xs, i); }
    WordsLie(g, Stored(g, h), h);
  }

  /** What is fetched lies in the sector; what does not fit there is what it was. */
  lemma FetchedLies(g: Geometry, h: Header, sector: Sector)
    requires g.Valid() && |h.direct| == g.numDirect && |sector| == g.SectorSize()
    ensures HeaderLies(g, sector, Fetched(g, h, sector))
    ensures g.l1Num < g.numDirect + 6 ==> Fetched(g, h, sector).l1Index == h.l1Index
    ensures g.l1Num < g.numDirect + 7 ==> Fetched(g, h, sector).l2Index == h.l2Index
  {
    hide DecodeInts, WordLies, HeaderLies, IntAt;
    var r := Fetched(g, h, sector);
    IntsOfHeader(g, DecodeInts(sector) + HeaderInts(h)[g.l1Num..]);
    forall i | 0 <= i < g.l1Num ensures WordLies(sector, 4 * i, HeaderInts(r)[i]) { DecodedLies(sector, i); }
    WordsLie(g, sector, r);
  }

  lemma DecodedLies(sector: Sector, i: nat)
    requires i < |sector| / 4
    ensures WordLies(sector, 4 * i, DecodeInts(sector)[i])
  {
    IntLies(sector, i);
  }

  /** Equal in every field a file of this size uses. */
  predicate SamePointers(g: Geometry, h: Header, h': Header) {
    && h'.numBytes == h.numBytes && h'.numSectors == h.numSectors && h'.direct == h.direct
    && (h.numSectors > g.numDirect ==> h'.l1Index == h.l1Index)
    && (h.numSectors > g.numDirect + g.l1Num ==> h'.l2Index == h.l2Index)
  }

  /** The header read back from disk points where the one written did, whatever memory held,
      exactly when the pointers the file needs fit in the sector. */
  lemma PersistsExactly(g: Geometry, h: Header)
    requires g.Valid() && |h.direct| == g.numDirect
    ensures Persists(g, h.numSectors) <==>
      forall h0: Header :: |h0.direct| == g.numDirect ==> SamePointers(g, h, Fetched(g, h0, Stored(g, h)))
  {
    forall h0: Header | |h0.direct| == g.numDirect && Persists(g, h.numSectors)
      ensures SamePointers(g, h, Fetched(g, h0, Stored(g, h)))
    {
      FetchedStored(g, h, h0);
    }
    if !Persists(g, h.numSectors) {
      var h0 := h.(l1Index := if h.l1Index == 0 then 1 else 0, l2Index := if h.l2Index == 0 then 1 else 0);
      FetchedStored(g, h, h0);
      assert !SamePointers(g, h, Fetched(g, h0, Stored(g, h)));
    }
  }

  /** With the repository's own constants the header does not fit: only files of at most
      NumDirect sectors survive being written and read back. */
  lemma NachosPersistsDirectOnly(ns: int)
    ensures Persists(NACHOS, ns) <==> ns <= NACHOS.numDirect
  {}

  lemma SamePointersSameFile(g: Geometry, d: Image, h: Header, h': Header)
    requires WellFormed(g, d, h) && SamePointers(g, h, h')
    ensures WellFormed(g, d, h')
    ensures FileSectors(g, d, h') == FileSectors(g, d, h)
    ensures FileBytes(g, d, h') == FileBytes(g, d, h)
  {
    NeedBounds(g, h.numSectors);
    forall p: nat | p < Need(g, h.numSectors) ensures SectorAt(g, d, h', p) == SectorAt(g, d, h, p) {
    }
    assert FileSectors(g, d, h') == FileSectors(g, d, h);
    forall i | 0 <= i < FileLength(h) ensures ByteAt(g, d, h', i) == ByteAt(g, d, h, i) {
      BlockOfByte(g, h, i);
      BlockPosInNeed(g, h.numSectors, BlockOf(g, i));
    }
  }

  // ---- The file Allocate makes ------------------------------------------------------------

  /** A fresh file: laid out over exactly the sectors taken, and all zero. */
  lemma AllocatedFile(g: Geometry, d: Image, h: Header, s: seq<int32>)
    requires g.Valid() && ImageOk(g, d) && Sized(g, h)
    requires |s| == Need(g, h.numSectors) && InRange(g, s) && Ascending(s) && Points(g, h, s)
    ensures var d' := AllocImage(g, d, h.numSectors, s);
      && WellFormed(g, d', h)
      && FileSectors(g, d', h) == s
      && FileBytes(g, d', h) == seq(FileLength(h), _ => 0)
  {
    var d' := AllocImage(g, d, h.numSectors, s);
    AllocImageExact(g, d, h.numSectors, s);
    assert IndexWritten(g, d', h.numSectors, s) by { hide ContentAt, AllocImage; }
    AllocatedLayout(g, d', h, s);
    forall i | 0 <= i < FileLength(h) ensures ByteAt(g, d', h, i) == 0 {
      ZeroByte(g, d', h, s, i);
    }
  }

  lemma ZeroByte(g: Geometry, d: Image, h: Header, s: seq<int32>, i: nat)
    requires WellFormed(g, d, h) && FileSectors(g, d, h) == s && i < FileLength(h)
    requires forall p :: 0 <= p < |s| ==> d[s[p]] == ContentAt(g, h.numSectors, s, p)
    ensures ByteAt(g, d, h, i) == 0
  {
    BlockOfByte(g, h, i);
    BlockInFile(g, d, h, BlockOf(g, i));
    BlockPosOrder(g, BlockOf(g, i), BlockOf(g, i) + 1);
    assert d[s[BlockPos(g, BlockOf(g, i))]] == ZeroSector(g);
  }
}
