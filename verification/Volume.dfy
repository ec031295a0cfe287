/** The whole disk as filesys.cc keeps it: a free map and a directory stored as files on the
    disk they describe. Values only; FileSystem.dfy has the operations. */
module Volume {
  import opened Machine
  import opened Bitmap
  import opened Storage
  import opened Layout
  import opened Persistence
  import opened ByteArray
  import opened OpenFiles
  import opened Directories

  const FREE_MAP_SECTOR := 0
  const DIRECTORY_SECTOR := 1

  function FreeMapFileSize(g: Geometry): nat { g.numSectors / 8 }

  function DirectoryFileSize(g: Geometry): nat { ENTRY_SIZE * g.numDirEntries }

  // ---- Files by the sector of their header --------------------------------------------------

  /** The header stored in a sector; what does not fit there reads as zero. */
  function HeaderAt(g: Geometry, d: Image, x: int): (h: Header)
    requires g.Valid() && ImageOk(g, d) && 0 <= x < g.numSectors
    ensures |h.direct| == g.numDirect
  {
    Fetched(g, Header(0, 0, seq(g.numDirect, _ => 0), 0, 0, 0, 0, 0), d[x])
  }

  /** The header in sector x, fetched over this memory, describes a file, and the same one as
      over zeros. */
  predicate ReadsBack(g: Geometry, d: Image, x: int, memory: Header)
    requires g.Valid() && ImageOk(g, d) && 0 <= x < g.numSectors && |memory.direct| == g.numDirect
    requires WellFormed(g, d, HeaderAt(g, d, x))
  {
    && WellFormed(g, d, Fetched(g, memory, d[x]))
    && FileSectors(g, d, Fetched(g, memory, d[x])) == FileSectors(g, d, HeaderAt(g, d, x))
  }

  /** Whatever memory holds, reading the header in sector x gives one and the same file. */
  ghost predicate Readable(g: Geometry, d: Image, x: int)
    requires g.Valid() && ImageOk(g, d) && 0 <= x < g.numSectors && WellFormed(g, d, HeaderAt(g, d, x))
  {
    forall memory: Header {:trigger ReadsBack(g, d, x, memory)} ::
      |memory.direct| == g.numDirect ==> ReadsBack(g, d, x, memory)
  }

  /** A file with its header in sector x. */
  ghost predicate HeadOk(g: Geometry, d: Image, x: int) {
    && g.Valid() && ImageOk(g, d) && 0 <= x < g.numSectors
    && WellFormed(g, d, HeaderAt(g, d, x))
    && Readable(g, d, x)
    && x !in FileSectors(g, d, HeaderAt(g, d, x))
  }

  /** Everything the file at x occupies: header, data and index blocks. */
  function Region(g: Geometry, d: Image, x: int): (r: set<int>)
    requires HeadOk(g, d, x)
    ensures x in r && forall s :: s in r ==> 0 <= s < g.numSectors
  {
    {x} + Elements(FileSectors(g, d, HeaderAt(g, d, x)))
  }

  function Content(g: Geometry, d: Image, x: int): seq<byte>
    requires HeadOk(g, d, x)
  {
    FileBytes(g, d, HeaderAt(g, d, x))
  }

  /** An in-memory header of the file at x: a handle. */
  ghost predicate Handle(g: Geometry, d: Image, x: int, h: Header)
    requires HeadOk(g, d, x)
  {
    |h.direct| == g.numDirect && SamePointers(g, HeaderAt(g, d, x), h)
  }

  /** Two fetches of the same sector agree in every pointer that fits there; the others are
      what memory held. */
  lemma FetchedPrefix(g: Geometry, h0: Header, h1: Header, sector: Sector)
    requires g.Valid() && |h0.direct| == |h1.direct| == g.numDirect && |sector| == g.SectorSize()
    ensures var a, b := Fetched(g, h0, sector), Fetched(g, h1, sector);
      && a.numBytes == b.numBytes && a.numSectors == b.numSectors && a.direct == b.direct
      && (if g.l1Num >= g.numDirect + 6 then a.l1Index == b.l1Index else b.l1Index == h1.l1Index)
      && (if g.l1Num >= g.numDirect + 7 then a.l2Index == b.l2Index else b.l2Index == h1.l2Index)
  {
    var n := g.numDirect;
    var xs := DecodeInts(sector);
    hide DecodeInts;
    var p, q := xs + HeaderInts(h0)[g.l1Num..], xs + HeaderInts(h1)[g.l1Num..];
    assert p[2..n + 2] == q[2..n + 2];
  }

  /** The header in sector x against another fetch of it. */
  lemma FetchedAt(g: Geometry, d: Image, x: int, memory: Header)
    requires g.Valid() && ImageOk(g, d) && 0 <= x < g.numSectors && |memory.direct| == g.numDirect
    ensures var a, b := HeaderAt(g, d, x), Fetched(g, memory, d[x]);
      && a.numSectors == b.numSectors
      && (Persists(g, a.numSectors) ==> SamePointers(g, a, b))
      && (g.l1Num < g.numDirect + 6 ==> b.l1Index == memory.l1Index)
      && (g.l1Num < g.numDirect + 7 ==> b.l2Index == memory.l2Index)
  {
    var blank := Header(0, 0, seq(g.numDirect, _ => 0), 0, 0, 0, 0, 0);
    assert HeaderAt(g, d, x) == Fetched(g, blank, d[x]);
    hide Fetched, HeaderAt;
    FetchedPrefix(g, blank, memory, d[x]);
  }

  /** The index pointers of a file are among its sectors. */
  lemma PointersInRange(g: Geometry, d: Image, h: Header)
    requires WellFormed(g, d, h)
    ensures h.numSectors > g.numDirect ==> h.l1Index != -1
    ensures h.numSectors > g.numDirect + g.l1Num ==> h.l2Index != -1
  {
    NeedBounds(g, h.numSectors);
    var s := FileSectors(g, d, h);
    if h.numSectors > g.numDirect { assert s[L1Pos(g)] == SectorAt(g, d, h, L1Pos(g)); }
    if h.numSectors > g.numDirect + g.l1Num { assert s[L2Pos(g)] == SectorAt(g, d, h, L2Pos(g)); }
  }

  /** A header can be read back whatever memory holds exactly when the pointers its file needs
      fit in the sector. */
  lemma ReadableExactly(g: Geometry, d: Image, x: int)
    requires g.Valid() && ImageOk(g, d) && 0 <= x < g.numSectors && WellFormed(g, d, HeaderAt(g, d, x))
    ensures Readable(g, d, x) <==> Persists(g, HeaderAt(g, d, x).numSectors)
  {
    var h := HeaderAt(g, d, x);
    hide WellFormed, FileSectors, Fetched, HeaderAt;
    if Persists(g, h.numSectors) {
      forall memory: Header | |memory.direct| == g.numDirect ensures ReadsBack(g, d, x, memory) {
        FetchedAt(g, d, x, memory);
        SamePointersSameFile(g, d, h, Fetched(g, memory, d[x]));
      }
    } else if Readable(g, d, x) {
      var memory := h.(l1Index := -1, l2Index := -1);
      FetchedAt(g, d, x, memory);
      assert ReadsBack(g, d, x, memory);
      PointersInRange(g, d, Fetched(g, memory, d[x]));
      assert false;
    }
  }

  /** Opening the file at x gives a handle, whatever memory held. */
  lemma FetchedHandle(g: Geometry, d: Image, x: int, memory: Header)
    requires HeadOk(g, d, x) && |memory.direct| == g.numDirect
    ensures Handle(g, d, x, Fetched(g, memory, d[x]))
  {
    ReadableExactly(g, d, x);
    FetchedAt(g, d, x, memory);
    hide WellFormed, FileSectors, Fetched, HeaderAt;
  }

  lemma HandleFile(g: Geometry, d: Image, x: int, h: Header)
    requires HeadOk(g, d, x) && Handle(g, d, x, h)
    ensures WellFormed(g, d, h)
    ensures FileSectors(g, d, h) == FileSectors(g, d, HeaderAt(g, d, x))
    ensures FileBytes(g, d, h) == Content(g, d, x)
    ensures Region(g, d, x) == {x} + Elements(FileSectors(g, d, h))
  {
    hide WellFormed, FileSectors, HeaderAt;
    SamePointersSameFile(g, d, HeaderAt(g, d, x), h);
  }

  // ---- Framing ----------------------------------------------------------------------------

  /** The file at x is where it was. */
  ghost predicate Kept(g: Geometry, d: Image, d': Image, x: int)
    requires HeadOk(g, d, x)
  {
    HeadOk(g, d', x) && HeaderAt(g, d', x) == HeaderAt(g, d, x) && Region(g, d', x) == Region(g, d, x)
  }

  lemma Untouched(g: Geometry, d: Image, d': Image, x: int)
    requires HeadOk(g, d, x) && ImageOk(g, d')
    requires forall s :: s in Region(g, d, x) ==> d'[s] == d[s]
    ensures Kept(g, d, d', x) && Content(g, d', x) == Content(g, d, x)
  {
    var h := HeaderAt(g, d, x);
    assert x in Region(g, d, x);
    assert HeaderAt(g, d', x) == h;
    assert forall s :: s in FileSectors(g, d, h) ==> s as int in Region(g, d, x);
    hide HeaderAt, Readable;
    SameFile(g, d, d', h);
    ReadableExactly(g, d, x);
    ReadableExactly(g, d', x);
  }

  /** A write to the file at z, seen by the file at y. */
  lemma WroteOther(g: Geometry, d: Image, d': Image, z: int, h: Header, position: nat, bytes: seq<byte>, y: int)
    requires HeadOk(g, d, z) && HeadOk(g, d, y) && Region(g, d, y) !! Region(g, d, z)
    requires Handle(g, d, z, h) && WellFormed(g, d, h) && Wrote(g, d, d', h, position, bytes)
    ensures Kept(g, d, d', y) && Content(g, d', y) == Content(g, d, y)
  {
    hide *;
    HandleFile(g, d, z, h);
    WroteImage(g, d, d', h, position, bytes);
    ImageSize(g, d, y);
    ImageLength(g, d');
    forall s | s in Region(g, d, y) ensures d'[s] == d[s] {
      OutsideFile(g, d, z, h, y, s);
      WroteOutside(g, d, d', h, position, bytes, s);
    }
    Untouched(g, d, d', y);
  }

  lemma ImageSize(g: Geometry, d: Image, x: int)
    requires HeadOk(g, d, x)
    ensures g.Valid() && ImageOk(g, d) && |d| == g.numSectors && 0 <= x < g.numSectors
  {}

  lemma ImageLength(g: Geometry, d: Image)
    requires ImageOk(g, d)
    ensures |d| == g.numSectors
  {}

  lemma WroteImage(g: Geometry, d: Image, d': Image, h: Header, position: nat, bytes: seq<byte>)
    requires WellFormed(g, d, h) && Wrote(g, d, d', h, position, bytes)
    ensures ImageOk(g, d') && WellFormed(g, d', h) && FileSectors(g, d', h) == FileSectors(g, d, h)
    ensures position + |bytes| <= FileLength(h)
    ensures FileBytes(g, d', h) == Splice(FileBytes(g, d, h), position, bytes)
  {
    hide FileSectors, FileBytes;
  }

  lemma OutsideFile(g: Geometry, d: Image, z: int, h: Header, y: int, s: int)
    requires HeadOk(g, d, z) && HeadOk(g, d, y) && Region(g, d, y) !! Region(g, d, z) && WellFormed(g, d, h)
    requires Region(g, d, z) == {z} + Elements(FileSectors(g, d, h)) && s in Region(g, d, y)
    ensures 0 <= s < |d| && s !in Elements(FileSectors(g, d, h))
  {
    hide WellFormed, FileSectors, HeaderAt;
    assert s !in Region(g, d, z);
  }

  lemma WroteOutside(g: Geometry, d: Image, d': Image, h: Header, position: nat, bytes: seq<byte>, s: int)
    requires WellFormed(g, d, h) && Wrote(g, d, d', h, position, bytes)
    requires 0 <= s < |d| && s !in Elements(FileSectors(g, d, h))
    ensures d'[s] == d[s]
  {
    forall k: nat | k < h.numSectors ensures Block(g, d, h, k) != s {
      BlockInFile(g, d, h, k);
    }
    hide FileSectors, Block, FileBytes;
  }

  /** A write to the file at z, seen by that file. */
  lemma WroteOwn(g: Geometry, d: Image, d': Image, z: int, h: Header, position: nat, bytes: seq<byte>)
    requires HeadOk(g, d, z) && Handle(g, d, z, h)
    requires WellFormed(g, d, h) && Wrote(g, d, d', h, position, bytes)
    ensures Kept(g, d, d', z) && Handle(g, d', z, h)
    ensures position + |bytes| <= |Content(g, d, z)|
    ensures Content(g, d', z) == Splice(Content(g, d, z), position, bytes)
  {
    hide *;
    HandleFile(g, d, z, h);
    WroteImage(g, d, d', h, position, bytes);
    HeaderOutside(g, d, z, h);
    WroteOutside(g, d, d', h, position, bytes, z);
    SameHeader(g, d, d', z);
    SameFileHandle(g, d, d', z, h);
    HandleFile(g, d', z, h);
    ContentLength(g, d, z, h);
  }

  lemma ContentLength(g: Geometry, d: Image, z: int, h: Header)
    requires HeadOk(g, d, z) && Handle(g, d, z, h)
    ensures |Content(g, d, z)| == FileLength(h)
  {
    hide WellFormed, FileSectors, HeaderAt;
  }

  lemma HeaderOutside(g: Geometry, d: Image, z: int, h: Header)
    requires HeadOk(g, d, z) && WellFormed(g, d, h)
    requires FileSectors(g, d, h) == FileSectors(g, d, HeaderAt(g, d, z))
    ensures 0 <= z < |d| && z !in Elements(FileSectors(g, d, h))
  {
    hide WellFormed, FileSectors, HeaderAt;
  }

  lemma SameHeader(g: Geometry, d: Image, d': Image, z: int)
    requires HeadOk(g, d, z) && ImageOk(g, d') && d'[z] == d[z]
    ensures HeaderAt(g, d', z) == HeaderAt(g, d, z)
  {}

  lemma SameFileHandle(g: Geometry, d: Image, d': Image, z: int, h: Header)
    requires HeadOk(g, d, z) && Handle(g, d, z, h) && ImageOk(g, d') && HeaderAt(g, d', z) == HeaderAt(g, d, z)
    requires WellFormed(g, d, h) && WellFormed(g, d', h)
    requires FileSectors(g, d', h) == FileSectors(g, d, h) == FileSectors(g, d, HeaderAt(g, d, z))
    ensures HeadOk(g, d', z) && Kept(g, d, d', z) && Handle(g, d', z, h)
  {
    var h0 := HeaderAt(g, d, z);
    hide WellFormed, FileSectors, HeaderAt, Readable;
    SamePointersBack(g, h0, h);
    SamePointersSameFile(g, d', h, h0);
    ReadableExactly(g, d, z);
    ReadableExactly(g, d', z);
  }

  lemma SamePointersBack(g: Geometry, h: Header, h': Header)
    requires SamePointers(g, h, h')
    ensures SamePointers(g, h', h)
  {}

  // ---- Disjoint files ---------------------------------------------------------------------

  /** The files at these sectors share nothing. */
  ghost predicate Disjoint(g: Geometry, d: Image, heads: set<int>) {
    && (forall x :: x in heads ==> HeadOk(g, d, x))
    && (forall x, y :: x in heads && y in heads && x != y ==> Region(g, d, x) !! Region(g, d, y))
  }

  /** All they occupy. */
  function Occupied(g: Geometry, d: Image, heads: set<int>): set<int>
    requires forall x :: x in heads ==> HeadOk(g, d, x)
  {
    set x, s | x in heads && s in Region(g, d, x) :: s
  }

  /** Every file of the set is where it was. */
  ghost predicate AllKept(g: Geometry, d: Image, d': Image, heads: set<int>)
    requires forall x :: x in heads ==> HeadOk(g, d, x)
  {
    forall x :: x in heads ==> Kept(g, d, d', x)
  }

  lemma KeptDisjoint(g: Geometry, d: Image, d': Image, heads: set<int>)
    requires Disjoint(g, d, heads) && AllKept(g, d, d', heads)
    ensures Disjoint(g, d', heads)
    ensures Occupied(g, d', heads) == Occupied(g, d, heads)
  {
    hide HeadOk, HeaderAt, Region;
    forall x | x in heads ensures HeadOk(g, d', x) && Region(g, d', x) == Region(g, d, x) {
      assert Kept(g, d, d', x);
    }
    forall s ensures s in Occupied(g, d', heads) <==> s in Occupied(g, d, heads) {
      if s in Occupied(g, d', heads) {
        var x :| x in heads && s in Region(g, d', x);
        assert s in Region(g, d, x);
      }
      if s in Occupied(g, d, heads) {
        var x :| x in heads && s in Region(g, d, x);
        assert s in Region(g, d', x);
      }
    }
  }

  /** The other files see the same bytes. */
  predicate SameContents(g: Geometry, d: Image, d': Image, heads: set<int>)
    requires forall x :: x in heads ==> HeadOk(g, d, x) && HeadOk(g, d', x)
  {
    forall x :: x in heads ==> Content(g, d', x) == Content(g, d, x)
  }

  /** A write through a handle of one of the files. */
  lemma WroteOne(g: Geometry, d: Image, d': Image, heads: set<int>, z: int, h: Header, position: nat, bytes: seq<byte>)
    requires Disjoint(g, d, heads) && z in heads && Handle(g, d, z, h)
    requires WellFormed(g, d, h) && Wrote(g, d, d', h, position, bytes)
    ensures AllKept(g, d, d', heads) && Disjoint(g, d', heads)
    ensures Occupied(g, d', heads) == Occupied(g, d, heads)
    ensures HeadOk(g, d', z)
    ensures SameContents(g, d, d', heads - {z})
    ensures Handle(g, d', z, h)
    ensures position + |bytes| <= |Content(g, d, z)| && Content(g, d', z) == Splice(Content(g, d, z), position, bytes)
  {
    hide HeadOk, HeaderAt, Region, Content, Kept, Wrote, Handle, Occupied, WellFormed;
    WroteOwn(g, d, d', z, h, position, bytes);
    forall y | y in heads && y != z
      ensures HeadOk(g, d', y) && Kept(g, d, d', y) && Content(g, d', y) == Content(g, d, y) {
      WroteOther(g, d, d', z, h, position, bytes, y);
      KeptFacts(g, d, d', y);
    }
    KeptDisjoint(g, d, d', heads);
  }

  lemma NewFileOther(g: Geometry, d: Image, d': Image, heads: set<int>, x: int, y: int)
    requires Disjoint(g, d, heads) && HeadOk(g, d', x) && y in heads
    requires Region(g, d', x) !! Occupied(g, d, heads)
    requires forall s :: 0 <= s < |d| && s < |d'| && s !in Region(g, d', x) ==> d'[s] == d[s]
    ensures HeadOk(g, d, y) && HeadOk(g, d', y) && Kept(g, d, d', y) && Content(g, d', y) == Content(g, d, y)
    ensures Region(g, d', y) !! Region(g, d', x) && y != x
  {
    ImageSize(g, d', x);
    ImageSize(g, d, y);
    hide HeadOk, HeaderAt, Content, Kept, Region, ImageOk;
    forall s | s in Region(g, d, y) ensures s !in Region(g, d', x) && d'[s] == d[s] {
      assert s in Occupied(g, d, heads);
    }
    Untouched(g, d, d', y);
    KeptFacts(g, d, d', y);
  }

  lemma KeptFacts(g: Geometry, d: Image, d': Image, x: int)
    requires HeadOk(g, d, x) && Kept(g, d, d', x)
    ensures HeadOk(g, d', x) && Region(g, d', x) == Region(g, d, x) && HeaderAt(g, d', x) == HeaderAt(g, d, x)
  {}

  /** A new file over sectors nobody had. */
  lemma NewFile(g: Geometry, d: Image, d': Image, heads: set<int>, x: int)
    requires Disjoint(g, d, heads) && HeadOk(g, d', x)
    requires Region(g, d', x) !! Occupied(g, d, heads)
    requires forall s :: 0 <= s < |d| && s < |d'| && s !in Region(g, d', x) ==> d'[s] == d[s]
    ensures AllKept(g, d, d', heads)
    ensures Disjoint(g, d', heads + {x}) && x !in heads
    ensures SameContents(g, d, d', heads)
    ensures Occupied(g, d', heads + {x}) == Occupied(g, d, heads) + Region(g, d', x)
  {
    hide HeadOk, HeaderAt, Content, Kept, Region, ImageOk, Occupied;
    forall y | y in heads
      ensures HeadOk(g, d', y) && Kept(g, d, d', y) && Content(g, d', y) == Content(g, d, y)
      ensures Region(g, d', y) !! Region(g, d', x) && y != x
    {
      NewFileOther(g, d, d', heads, x, y);
    }
    KeptDisjoint(g, d, d', heads);
    OccupiedGrows(g, d', heads, x);
  }

  lemma OccupiedGrows(g: Geometry, d: Image, heads: set<int>, x: int)
    requires (forall y :: y in heads ==> HeadOk(g, d, y)) && HeadOk(g, d, x)
    ensures Occupied(g, d, heads + {x}) == Occupied(g, d, heads) + Region(g, d, x)
  {
    hide HeadOk, Region;
    forall s ensures s in Occupied(g, d, heads + {x}) <==> s in Occupied(g, d, heads) + Region(g, d, x) {
      if s in Occupied(g, d, heads + {x}) {
        var y :| y in heads + {x} && s in Region(g, d, y);
      }
    }
  }

  lemma OccupiedShrinks(g: Geometry, d: Image, heads: set<int>, x: int)
    requires Disjoint(g, d, heads) && x in heads
    ensures Disjoint(g, d, heads - {x})
    ensures Occupied(g, d, heads - {x}) == Occupied(g, d, heads) - Region(g, d, x)
  {
    hide HeadOk, Region;
    forall s ensures s in Occupied(g, d, heads - {x}) <==> s in Occupied(g, d, heads) - Region(g, d, x) {
      if s in Occupied(g, d, heads) {
        var y :| y in heads && s in Region(g, d, y);
        assert y != x ==> s !in Region(g, d, x);
      }
    }
  }

  // ---- The file system ----------------------------------------------------------------------

  function MapBytes(ws: seq<bv32>): (bs: seq<byte>)
    ensures |bs| == 4 * |ws|
  {
    EncodeWords(seq(|ws|, i requires 0 <= i < |ws| => ws[i] as int))
  }

  function MapWords(bs: seq<byte>): (ws: seq<bv32>)
    ensures |ws| == |bs| / 4
  {
    seq(|bs| / 4, i requires 0 <= i < |bs| / 4 => WordAt(bs, i) as bv32)
  }

  lemma MapWordsOfBytes(ws: seq<bv32>)
    ensures MapWords(MapBytes(ws)) == ws
  {
    forall i | 0 <= i < |ws| ensures MapWords(MapBytes(ws))[i] == ws[i] {
      EncodeWordAt(seq(|ws|, i requires 0 <= i < |ws| => ws[i] as int), i);
      WordTwice(ws[i]);
    }
  }

  lemma WordTwice(w: bv32)
    ensures (w as int) as bv32 == w
  {}

  /** A word array on its bytes: bit i is bit i % 8 of byte i / 8, as many as there are bytes. */
  predicate MapLies(bs: seq<byte>, ws: seq<bv32>) {
    forall i: nat {:trigger BitSet(ws, i)} :: i < BITS_IN_WORD * |ws| && i / 8 < |bs| ==>
      (BitSet(ws, i) <==> NumberBit(bs[i / 8], i % 8))
  }

  lemma MapBit(bs: seq<byte>, i: nat)
    requires i < BITS_IN_WORD * (|bs| / 4)
    ensures BitSet(MapWords(bs), i) <==> NumberBit(bs[i / 8], i % 8)
  {
    hide NumberBit, WordBit, WordOf;
    var j, k := i / BITS_IN_WORD, i % BITS_IN_WORD;
    var b0, b1, b2, b3 := bs[4 * j], bs[4 * j + 1], bs[4 * j + 2], bs[4 * j + 3];
    BitOfWord(b0, b1, b2, b3, MapWords(bs)[j], k);
    assert i / 8 == 4 * j + k / 8 && i % 8 == k % 8;
  }

  lemma WordsLieInMap(bs: seq<byte>)
    ensures MapLies(bs, MapWords(bs))
  {
    hide MapWords, NumberBit, BitSet;
    forall i: nat {:trigger BitSet(MapWords(bs), i)} | i < BITS_IN_WORD * |MapWords(bs)| && i / 8 < |bs|
      ensures BitSet(MapWords(bs), i) <==> NumberBit(bs[i / 8], i % 8)
    {
      MapBit(bs, i);
    }
  }

  lemma MapLiesIn(bs: seq<byte>, file: seq<byte>, ws: seq<bv32>)
    requires MapLies(bs, ws) && |bs| == 4 * |ws|
    requires Begins(file, bs)
    ensures MapLies(file, ws)
  {
    hide NumberBit, BitSet;
    forall i: nat {:trigger BitSet(ws, i)} | i < BITS_IN_WORD * |ws| && i / 8 < |file|
      ensures BitSet(ws, i) <==> NumberBit(file[i / 8], i % 8)
    {
      assert file[i / 8] == bs[i / 8];
    }
  }

  lemma OverlaidMapLies(bytes: seq<byte>, file: seq<byte>)
    requires |bytes| % 4 == 0
    ensures MapLies(file, MapWords(Overlay(bytes, file)))
  {
    hide MapWords, MapLies;
    WordsLieInMap(Overlay(bytes, file));
    MapLiesIn(Overlay(bytes, file), file, MapWords(Overlay(bytes, file)));
  }

  lemma WrittenMapLies(g: Geometry, d: Image, d': Image, h: Header, ws: seq<bv32>)
    requires WroteTo(g, d, d', h, MapBytes(ws))
    ensures WellFormed(g, d', h) && MapLies(FileBytes(g, d', h), ws)
  {
    hide WellFormed, FileBytes, MapBytes, MapLies;
    MapWordsOfBytes(ws);
    WordsLieInMap(MapBytes(ws));
    WrittenPrefix(g, d, d', h, MapBytes(ws));
    FileFacts(g, d', h);
    MapLiesIn(MapBytes(ws), FileBytes(g, d', h), ws);
  }

  /** The root files are there and have the sizes the format gave them. */
  ghost predicate RootOk(g: Geometry, d: Image) {
    && HeadOk(g, d, FREE_MAP_SECTOR) && HeadOk(g, d, DIRECTORY_SECTOR)
    && HeaderAt(g, d, FREE_MAP_SECTOR).numBytes == FreeMapFileSize(g)
    && HeaderAt(g, d, DIRECTORY_SECTOR).numBytes == DirectoryFileSize(g)
  }

  lemma WholeWords(n: nat)
    requires n % 32 == 0
    ensures BITS_IN_WORD * (n / 8 / 4) == n
  {}

  lemma WholeEntries(k: nat)
    ensures ENTRY_SIZE * k / ENTRY_SIZE == k
  {}

  lemma HeadSize(g: Geometry, d: Image, x: int)
    requires HeadOk(g, d, x) && HeaderAt(g, d, x).numBytes >= 0
    ensures |Content(g, d, x)| == HeaderAt(g, d, x).numBytes && g.numSectors % 32 == 0
  {
    hide WellFormed, FileSectors, HeaderAt;
  }

  lemma RootSizes(g: Geometry, d: Image)
    requires RootOk(g, d)
    ensures HeadOk(g, d, FREE_MAP_SECTOR) && HeadOk(g, d, DIRECTORY_SECTOR)
    ensures |Content(g, d, FREE_MAP_SECTOR)| == FreeMapFileSize(g)
    ensures |Content(g, d, DIRECTORY_SECTOR)| == DirectoryFileSize(g)
    ensures BITS_IN_WORD * (FreeMapFileSize(g) / 4) == g.numSectors
    ensures DirectoryFileSize(g) / ENTRY_SIZE == g.numDirEntries
  {
    hide HeadOk, HeaderAt, Content;
    HeadSize(g, d, FREE_MAP_SECTOR);
    HeadSize(g, d, DIRECTORY_SECTOR);
    WholeWords(g.numSectors);
    WholeEntries(g.numDirEntries);
  }

  /** The free map as stored in its file. */
  function StoredWords(g: Geometry, d: Image): (ws: seq<bv32>)
    requires RootOk(g, d)
    ensures BITS_IN_WORD * |ws| == g.numSectors
  {
    RootSizes(g, d);
    hide HeadOk, HeaderAt, MapWords;
    MapWords(Content(g, d, FREE_MAP_SECTOR))
  }

  function StoredMarks(g: Geometry, d: Image): (m: set<int>)
    requires RootOk(g, d)
  {
    Marked(StoredWords(g, d), g.numSectors)
  }

  /** The directory as stored in its file. */
  function StoredTable(g: Geometry, d: Image): (t: seq<DirEntry>)
    requires RootOk(g, d)
    ensures |t| == g.numDirEntries
  {
    RootSizes(g, d);
    hide HeadOk, HeaderAt, DecodeTable;
    DecodeTable(Content(g, d, DIRECTORY_SECTOR))
  }

  function StoredNames(g: Geometry, d: Image): map<CString, int32>
    requires RootOk(g, d)
  {
    NameMap(StoredTable(g, d))
  }

  function Heads(names: map<CString, int32>): set<int> {
    {FREE_MAP_SECTOR, DIRECTORY_SECTOR} + set k | k in names :: names[k] as int
  }

  /** No two names share a header, and none has a root header. */
  predicate OwnHeads(names: map<CString, int32>) {
    && (forall k :: k in names ==> names[k] != FREE_MAP_SECTOR && names[k] != DIRECTORY_SECTOR)
    && (forall j, k :: j in names && k in names && j != k ==> names[j] != names[k])
  }

  /** The invariant of the file system, on the disk alone. */
  ghost predicate Consistent(g: Geometry, d: Image) {
    && RootOk(g, d)
    && UniqueNames(StoredTable(g, d))
    && OwnHeads(StoredNames(g, d))
    && Disjoint(g, d, Heads(StoredNames(g, d)))
    && StoredMarks(g, d) == Occupied(g, d, Heads(StoredNames(g, d)))
  }

  /** What the user sees: names to byte arrays. */
  function Files(g: Geometry, d: Image): map<CString, seq<byte>>
    requires Consistent(g, d)
  {
    var names := StoredNames(g, d);
    map k | k in names :: NamedHead(g, d, k); Content(g, d, names[k])
  }

  /** On the bytes of the free-map file of a consistent disk: a bit is 1 exactly when some file,
      its header, its blocks or its index blocks, occupies that sector. */
  lemma FreeMapOnDisk(g: Geometry, d: Image, i: nat)
    requires Consistent(g, d) && i < g.numSectors
    ensures RootOk(g, d) && HeadOk(g, d, 0) && i / 8 < |Content(g, d, 0)|
    ensures NumberBit(Content(g, d, 0)[i / 8], i % 8) <==>
      exists x :: x in Heads(StoredNames(g, d)) && HeadOk(g, d, x) && i in Region(g, d, x)
  {
    hide HeadOk, HeaderAt, Content, MapWords, NumberBit, StoredNames, StoredTable, Region;
    RootSizes(g, d);
    MapBit(Content(g, d, 0), i);
    assert i in StoredMarks(g, d) <==> BitSet(MapWords(Content(g, d, 0)), i);
    assert i in Occupied(g, d, Heads(StoredNames(g, d))) <==>
      exists x :: x in Heads(StoredNames(g, d)) && HeadOk(g, d, x) && i in Region(g, d, x);
  }

  /** On the bytes of the directory file: whose entries are in use, where their headers are, and
      under what name. */
  lemma DirectoryOnDisk(g: Geometry, d: Image)
    requires RootOk(g, d)
    ensures HeadOk(g, d, 1) && |Content(g, d, 1)| == ENTRY_SIZE * |StoredTable(g, d)|
    ensures TableLies(Content(g, d, 1), StoredTable(g, d))
  {
    hide HeadOk, HeaderAt, Content, DecodeTable, TableLies;
    RootSizes(g, d);
    DecodedTableLies(Content(g, d, 1));
  }

  lemma NamedHead(g: Geometry, d: Image, k: CString)
    requires Consistent(g, d) && k in StoredNames(g, d)
    ensures HeadOk(g, d, StoredNames(g, d)[k])
  {
    hide HeadOk, RootOk, StoredTable;
    assert StoredNames(g, d)[k] in Heads(StoredNames(g, d));
  }
}
