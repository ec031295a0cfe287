/** What Create, Remove and WriteAt do to the disk, and what every run of them keeps. */
module FsSteps {
  import opened Machine
  import opened Bitmap
  import opened Storage
  import opened Layout
  import opened Allocation
  import opened Persistence
  import opened FileHdr
  import opened ByteArray
  import opened OpenFiles
  import opened Directories
  import opened Volume

  // ---- Writing the two root files back ------------------------------------------------------

  ghost predicate Rooted(g: Geometry, d: Image, heads: set<int>) {
    RootOk(g, d) && Disjoint(g, d, heads) && FREE_MAP_SECTOR in heads && DIRECTORY_SECTOR in heads
  }

  lemma KeptRoot(g: Geometry, d: Image, d': Image, heads: set<int>)
    requires Rooted(g, d, heads) && AllKept(g, d, d', heads)
    ensures RootOk(g, d')
  {
    hide HeadOk, HeaderAt, Region, Disjoint;
    KeptFacts(g, d, d', FREE_MAP_SECTOR);
    KeptFacts(g, d, d', DIRECTORY_SECTOR);
  }

  /** One root file is written over; everything else stays. */
  lemma WriteRoot(g: Geometry, d: Image, d': Image, heads: set<int>, z: int, h: Header, bytes: seq<byte>)
    requires Rooted(g, d, heads) && (z == FREE_MAP_SECTOR || z == DIRECTORY_SECTOR)
    requires Handle(g, d, z, h) && WroteTo(g, d, d', h, bytes) && |bytes| == |Content(g, d, z)|
    ensures AllKept(g, d, d', heads) && Rooted(g, d', heads)
    ensures Occupied(g, d', heads) == Occupied(g, d, heads)
    ensures SameContents(g, d, d', heads - {z})
    ensures Content(g, d', z) == bytes
  {
    hide HeadOk, HeaderAt, Content, Handle, WellFormed, Wrote, Region, Occupied;
    ContentLength(g, d, z, h);
    var part := bytes[..Least(|bytes|, FileLength(h))];
    assert part == bytes;
    WroteOne(g, d, d', heads, z, h, 0, part);
    KeptRoot(g, d, d', heads);
    assert Splice(Content(g, d, z), 0, part) == bytes;
  }

  lemma KeptHandle(g: Geometry, d: Image, d': Image, x: int, h: Header)
    requires HeadOk(g, d, x) && Kept(g, d, d', x) && Handle(g, d, x, h)
    ensures HeadOk(g, d', x) && Handle(g, d', x, h)
  {
    hide HeaderAt;
  }

  /** Both root files written: the stored structures are the ones that were written. */
  lemma Committed(g: Geometry, d: Image, heads: set<int>, t: seq<DirEntry>, ws: seq<bv32>)
    requires Rooted(g, d, heads) && |t| == g.numDirEntries && BITS_IN_WORD * |ws| == g.numSectors
    requires Content(g, d, FREE_MAP_SECTOR) == MapBytes(ws) && Content(g, d, DIRECTORY_SECTOR) == EncodeTable(t)
    requires UniqueNames(t) && OwnHeads(NameMap(t)) && heads == Heads(NameMap(t))
    requires Marked(ws, g.numSectors) == Occupied(g, d, heads)
    ensures Consistent(g, d) && StoredTable(g, d) == t && StoredWords(g, d) == ws
  {
    hide HeadOk, MapBytes, MapWords, EncodeTable, DecodeTable, Marked, NameMap, Occupied, UniqueNames;
    MapWordsOfBytes(ws);
    DecodeEncodeTable(t);
  }

  /** Both root files written, in either order. */
  lemma BothWritten(g: Geometry, d: Image, d1: Image, d2: Image, heads: set<int>,
                    y: int, hy: Header, bytesY: seq<byte>, z: int, hz: Header, bytesZ: seq<byte>)
    requires Rooted(g, d, heads) && {y, z} == {FREE_MAP_SECTOR, DIRECTORY_SECTOR}
    requires Handle(g, d, y, hy) && Handle(g, d, z, hz)
    requires |bytesY| == |Content(g, d, y)| && |bytesZ| == |Content(g, d, z)|
    requires WroteTo(g, d, d1, hy, bytesY) && WroteTo(g, d1, d2, hz, bytesZ)
    ensures Rooted(g, d2, heads) && AllKept(g, d, d2, heads)
    ensures Occupied(g, d2, heads) == Occupied(g, d, heads)
    ensures SameContents(g, d, d2, heads - {y, z})
    ensures Content(g, d2, y) == bytesY && Content(g, d2, z) == bytesZ
  {
    hide HeadOk, HeaderAt, Content, Handle, WroteTo, Region, Occupied, RootOk;
    BothRoots(y, z);
    WriteRoot(g, d, d1, heads, y, hy, bytesY);
    KeptHandle(g, d, d1, z, hz);
    assert SameContents(g, d, d1, heads - {y}) && z in heads - {y};
    WriteRoot(g, d1, d2, heads, z, hz, bytesZ);
    forall x | x in heads ensures HeadOk(g, d2, x) && Kept(g, d, d2, x) { KeptTwice(g, d, d1, d2, x); }
  }

  lemma BothRoots(y: int, z: int)
    requires {y, z} == {FREE_MAP_SECTOR, DIRECTORY_SECTOR}
    ensures y != z
    ensures y == FREE_MAP_SECTOR || y == DIRECTORY_SECTOR
    ensures z == FREE_MAP_SECTOR || z == DIRECTORY_SECTOR
  {
    assert y in {y, z} && z in {y, z} && FREE_MAP_SECTOR in {y, z} && DIRECTORY_SECTOR in {y, z};
  }

  lemma KeptTwice(g: Geometry, d: Image, d1: Image, d2: Image, x: int)
    requires HeadOk(g, d, x) && Kept(g, d, d1, x) && HeadOk(g, d1, x) && Kept(g, d1, d2, x)
    ensures HeadOk(g, d2, x) && Kept(g, d, d2, x)
  {
    hide HeaderAt;
  }

  // ---- Create -------------------------------------------------------------------------------

  /** What Create answers, from the stored structures. */
  function CreateAnswer(g: Geometry, d: Image, name: CString, size: int32): Outcome
    requires Consistent(g, d)
  {
    var clear := |FreeSectors(g, StoredMarks(g, d))|;
    if NameKey(name) in StoredNames(g, d) then Refused
    else if clear == 0 || FreeSlot(StoredTable(g, d)) == -1 then Refused
    else Answer(g, DivRoundUp(size, g.SectorSize()), clear - 1)
  }

  /** Create answers TRUE exactly when the name is new, an entry is free, and besides the header's
      sector there is room for blocks and index blocks together, no more than sectorsGet holds. */
  lemma CreateAnswerExact(g: Geometry, d: Image, name: CString, size: int32)
    requires Consistent(g, d)
    ensures RootOk(g, d) && g.Valid() && g.SectorSize() == 4 * g.l1Num > 0
    ensures var ns := DivRoundUp(size, g.SectorSize());
      CreateAnswer(g, d, name, size) == Granted <==>
        && NameKey(name) !in StoredNames(g, d)
        && (exists i :: 0 <= i < |StoredTable(g, d)| && !StoredTable(g, d)[i].inUse)
        && 0 <= ns <= g.numDirect + g.l1Num + g.l1Num * g.l1Num
        && 1 + Need(g, ns) <= |FreeSectors(g, StoredMarks(g, d))|
        && (ns > g.numDirect + g.l1Num ==> Need(g, ns) <= g.numDirect + g.l1Num * g.l1Num)
  {
    hide Consistent, RootOk, Need, Answer, StoredNames, StoredTable, StoredMarks, FreeSectors, DivRoundUp, NameKey,
         SubBlocks, FreeSlot;
    NamesStored(g, d);
    RootImage(g, d);
    var ns, clear := DivRoundUp(size, g.SectorSize()), |FreeSectors(g, StoredMarks(g, d))|;
    if clear > 0 { AnswerExact(g, ns, clear - 1); }
    if 0 <= ns <= g.MaxSectors() { NeedBounds(g, ns); }
  }

  /** The sector Create takes for the header. */
  function HeaderSector(g: Geometry, d: Image): (x: int32)
    requires Consistent(g, d) && FreeSectors(g, StoredMarks(g, d)) != []
    ensures 0 <= x < g.numSectors && x !in StoredMarks(g, d)
  {
    FreeListExact(StoredMarks(g, d), g.numSectors);
    FreeSectors(g, StoredMarks(g, d))[0]
  }

  /** The intermediate states of a Create: the header in memory; the image once the blocks are
      allocated, once the header is written, once the directory is; the map; the two open root
      files. */
  datatype Trace = Trace(hdr: Header, filled: Image, laid: Image, flushed: Image, words: seq<bv32>,
                         mapHdr: Header, dirHdr: Header)

  ghost predicate Creates(g: Geometry, d: Image, name: CString, size: int32, c: Trace, d': Image)
    requires Consistent(g, d)
  {
    && CreateAnswer(g, d, name, size) == Granted
    && Handle(g, d, FREE_MAP_SECTOR, c.mapHdr) && Handle(g, d, DIRECTORY_SECTOR, c.dirHdr)
    && |c.hdr.direct| == g.numDirect && BITS_IN_WORD * |c.words| == g.numSectors
    && var x, t := HeaderSector(g, d), StoredTable(g, d);
      && Granting(g, d, StoredMarks(g, d) + {x}, size, c.filled, Marked(c.words, g.numSectors), c.hdr)
      && ImageOk(g, c.filled) && c.laid == c.filled[x := Stored(g, c.hdr)]
      && WroteTo(g, c.laid, c.flushed, c.dirHdr, EncodeTable(Added(t, FreeSlot(t), name, x)))
      && WroteTo(g, c.flushed, d', c.mapHdr, MapBytes(c.words))
  }

  /** The new file, before the root files are written. */
  lemma FreshFile(g: Geometry, d: Image, m: set<int>, x: int, size: int32, d1: Image, m1: set<int>, h: Header)
    requires g.Valid() && ImageOk(g, d) && ImageOk(g, d1) && |h.direct| == g.numDirect
    requires 0 <= x < g.numSectors && x !in m
    requires Granting(g, d, m + {x}, size, d1, m1, h) && Persists(g, h.numSectors)
    ensures var d2 := d1[x := Stored(g, h)];
      && HeadOk(g, d2, x)
      && Region(g, d2, x) !! m
      && m1 == m + Region(g, d2, x)
      && Content(g, d2, x) == seq(FileLength(h), _ => 0)
      && (forall s :: 0 <= s < |d| && s < |d2| && s !in Region(g, d2, x) ==> d2[s] == d[s])
  {
    var d2 := d1[x := Stored(g, h)];
    GrantedFile(g, d, m + {x}, size, d1, m1, h);
    GrantedMarks(g, d, m + {x}, size, d1, m1, h);
    hide Granting, FileSectors, FileBytes, WellFormed, Stored, FreeSectors;
    assert x !in Elements(FileSectors(g, d1, h));
    ImageSized(g, d1, h);
    SectorsInRange(g, d1, h);
    SameFile(g, d1, d2, h);
    StoredHead(g, d2, h, x);
  }

  lemma ImageSized(g: Geometry, d: Image, h: Header)
    requires WellFormed(g, d, h)
    ensures |d| == g.numSectors && ImageOk(g, d)
  {}

  lemma SectorsInRange(g: Geometry, d: Image, h: Header)
    requires WellFormed(g, d, h)
    ensures forall s :: s in FileSectors(g, d, h) ==> 0 <= s < |d|
  {
    hide FileSectors;
  }

  lemma GrantedMarks(g: Geometry, d: Image, m: set<int>, size: int32, d': Image, m': set<int>, h: Header)
    requires g.Valid() && ImageOk(g, d) && |h.direct| == g.numDirect
    requires Granting(g, d, m, size, d', m', h)
    ensures WellFormed(g, d', h) && m' == m + Elements(FileSectors(g, d', h))
    ensures h.numBytes == size && h.numSectors == DivRoundUp(size, g.SectorSize())
  {
    GrantedFile(g, d, m, size, d', m', h);
    hide FileSectors, WellFormed, AllocImage;
  }

  /** A header written to a sector of its own, in a size that fits, makes a file there. */
  lemma StoredHead(g: Geometry, d: Image, h: Header, x: int)
    requires WellFormed(g, d, h) && Persists(g, h.numSectors)
    requires 0 <= x < |d| && d[x] == Stored(g, h) && x !in FileSectors(g, d, h)
    ensures HeadOk(g, d, x) && Region(g, d, x) == {x} + Elements(FileSectors(g, d, h))
    ensures Content(g, d, x) == FileBytes(g, d, h)
    ensures HeaderAt(g, d, x).numBytes == h.numBytes
  {
    hide *;
    StoredPointers(g, d, h, x);
    SamePointersSameFile(g, d, h, HeaderAt(g, d, x));
    ImageSized(g, d, h);
    HeadFrom(g, d, h, x);
  }

  lemma StoredPointers(g: Geometry, d: Image, h: Header, x: int)
    requires WellFormed(g, d, h) && Persists(g, h.numSectors) && 0 <= x < |d| && d[x] == Stored(g, h)
    ensures g.Valid() && ImageOk(g, d) && |d| == g.numSectors && |h.direct| == g.numDirect
    ensures SamePointers(g, h, HeaderAt(g, d, x)) && HeaderAt(g, d, x).numSectors == h.numSectors
  {
    hide FileSectors, Fetched, Stored;
    FetchedStored(g, h, Header(0, 0, seq(g.numDirect, _ => 0), 0, 0, 0, 0, 0));
  }

  lemma HeadFrom(g: Geometry, d: Image, h: Header, x: int)
    requires WellFormed(g, d, h) && Persists(g, h.numSectors) && ImageOk(g, d) && 0 <= x < g.numSectors
    requires g.Valid() && SamePointers(g, h, HeaderAt(g, d, x)) && WellFormed(g, d, HeaderAt(g, d, x))
    requires FileSectors(g, d, HeaderAt(g, d, x)) == FileSectors(g, d, h)
    requires FileBytes(g, d, HeaderAt(g, d, x)) == FileBytes(g, d, h)
    requires x !in FileSectors(g, d, h)
    ensures HeadOk(g, d, x) && Region(g, d, x) == {x} + Elements(FileSectors(g, d, h))
    ensures Content(g, d, x) == FileBytes(g, d, h)
    ensures HeaderAt(g, d, x).numBytes == h.numBytes
  {
    ReadableExactly(g, d, x);
    hide WellFormed, FileSectors, FileBytes, HeaderAt, Readable;
  }

  /** After the blocks and the header are on the disk, before the root files are. */
  lemma CreateLaid(g: Geometry, d: Image, name: CString, size: int32, c: Trace, d': Image)
    requires Consistent(g, d) && Creates(g, d, name, size, c, d') && Persists(g, DivRoundUp(size, g.SectorSize()))
    ensures var x := HeaderSector(g, d);
      var heads := Heads(StoredNames(g, d));
      && AllKept(g, d, c.laid, heads) && SameContents(g, d, c.laid, heads)
      && Rooted(g, c.laid, heads + {x}) && x !in heads
      && Occupied(g, c.laid, heads + {x}) == Marked(c.words, g.numSectors)
      && Content(g, c.laid, x) == seq(if size < 0 then 0 else size, _ => 0)
  {
    var x := HeaderSector(g, d);
    var heads := Heads(StoredNames(g, d));
    var m := StoredMarks(g, d);
    var m1 := Marked(c.words, g.numSectors);
    RootImage(g, d);
    hide RootOk, HeadOk, Disjoint, Occupied, StoredMarks, StoredNames, StoredTable, Stored, Granting, HeaderSector,
         UniqueNames, CreateAnswer, WroteTo, AllKept, SameContents, Marked, Persists;
    GrantedMarks(g, d, m + {x}, size, c.filled, m1, c.hdr);
    FreshFile(g, d, m, x, size, c.filled, m1, c.hdr);
    NewFile(g, d, c.laid, heads, x);
    RootedAfter(g, d, c.laid, heads, x);
  }

  lemma RootImage(g: Geometry, d: Image)
    requires RootOk(g, d)
    ensures g.Valid() && ImageOk(g, d) && |d| == g.numSectors
  {}

  lemma RootedAfter(g: Geometry, d: Image, d': Image, heads: set<int>, x: int)
    requires Rooted(g, d, heads) && AllKept(g, d, d', heads) && Disjoint(g, d', heads + {x})
    ensures Rooted(g, d', heads + {x})
  {
    KeptRoot(g, d, d', heads);
    hide RootOk, Disjoint, AllKept;
  }

  lemma GrowNames(names: map<CString, int32>, k: CString, x: int32)
    requires OwnHeads(names) && k !in names && x !in Heads(names)
    ensures OwnHeads(names[k := x]) && Heads(names[k := x]) == Heads(names) + {x}
  {
    assert forall j :: j in names ==> names[j] as int in Heads(names);
    var more := names[k := x];
    forall s ensures s in Heads(more) <==> s in Heads(names) + {x} {
      if s == x { assert more[k] == x && k in more; }
      if j :| j in names && names[j] == s { assert j in more && more[j] == s; }
    }
  }

  lemma ShrinkNames(names: map<CString, int32>, k: CString)
    requires OwnHeads(names) && k in names
    ensures OwnHeads(names - {k}) && Heads(names - {k}) == Heads(names) - {names[k] as int}
  {
    var less := names - {k};
    forall s ensures s in Heads(less) <==> s in Heads(names) - {names[k] as int} {
      if j :| j in names && names[j] == s { assert j != k ==> j in less && less[j] == s; }
    }
  }

  lemma HeadMarked(g: Geometry, d: Image, x: int)
    requires Consistent(g, d)
    ensures x in Heads(StoredNames(g, d)) ==> x in StoredMarks(g, d)
  {
    hide RootOk, HeadOk, UniqueNames, StoredTable, StoredNames, Heads;
    if x in Heads(StoredNames(g, d)) { assert x in Region(g, d, x); }
  }

  lemma CreateNames(g: Geometry, d: Image, name: CString, size: int32, x: int32)
    requires Consistent(g, d) && CreateAnswer(g, d, name, size) == Granted && x !in StoredMarks(g, d)
    ensures FreeSlot(StoredTable(g, d)) >= 0 && NameKey(name) !in StoredNames(g, d)
    ensures var t' := Added(StoredTable(g, d), FreeSlot(StoredTable(g, d)), name, x);
      && UniqueNames(t') && NameMap(t') == StoredNames(g, d)[NameKey(name) := x] && OwnHeads(NameMap(t'))
      && Heads(NameMap(t')) == Heads(StoredNames(g, d)) + {x as int}
  {
    var t, names := StoredTable(g, d), StoredNames(g, d);
    hide RootOk, HeadOk, NameMap, Added, UniqueNames, Region, StoredTable;
    NameMapAt(t, NameKey(name));
    AddedMap(t, FreeSlot(t), name, x);
    HeadMarked(g, d, x);
    GrowNames(names, NameKey(name), x);
  }

  lemma CreateFacts(g: Geometry, d: Image, name: CString, size: int32, c: Trace, d': Image)
    requires Consistent(g, d) && Creates(g, d, name, size, c, d')
    ensures RootOk(g, d) && CreateAnswer(g, d, name, size) == Granted
    ensures FreeSectors(g, StoredMarks(g, d)) != [] && HeaderSector(g, d) !in StoredMarks(g, d)
    ensures Handle(g, d, FREE_MAP_SECTOR, c.mapHdr) && Handle(g, d, DIRECTORY_SECTOR, c.dirHdr)
    ensures BITS_IN_WORD * |c.words| == g.numSectors && 0 <= FreeSlot(StoredTable(g, d))
    ensures FREE_MAP_SECTOR in Heads(StoredNames(g, d)) && DIRECTORY_SECTOR in Heads(StoredNames(g, d))
    ensures var t := StoredTable(g, d);
      && WroteTo(g, c.laid, c.flushed, c.dirHdr, EncodeTable(Added(t, FreeSlot(t), name, HeaderSector(g, d))))
      && WroteTo(g, c.flushed, d', c.mapHdr, MapBytes(c.words))
  {
    hide RootOk, HeadOk, Granting, WroteTo, Handle, EncodeTable, MapBytes, Disjoint, Occupied, OwnHeads, UniqueNames;
  }

  /** The open root files are still handles, and the objects as long as their files. */
  lemma RootsReady(g: Geometry, d: Image, d': Image, heads: set<int>, mapHdr: Header, dirHdr: Header,
                   t: seq<DirEntry>, ws: seq<bv32>)
    requires RootOk(g, d) && (forall x :: x in heads ==> HeadOk(g, d, x)) && AllKept(g, d, d', heads)
    requires Handle(g, d, FREE_MAP_SECTOR, mapHdr) && Handle(g, d, DIRECTORY_SECTOR, dirHdr)
    requires FREE_MAP_SECTOR in heads && DIRECTORY_SECTOR in heads
    requires |t| == g.numDirEntries && BITS_IN_WORD * |ws| == g.numSectors
    ensures HeadOk(g, d', FREE_MAP_SECTOR) && Handle(g, d', FREE_MAP_SECTOR, mapHdr)
    ensures HeadOk(g, d', DIRECTORY_SECTOR) && Handle(g, d', DIRECTORY_SECTOR, dirHdr)
    ensures |EncodeTable(t)| == |Content(g, d', DIRECTORY_SECTOR)|
    ensures |MapBytes(ws)| == |Content(g, d', FREE_MAP_SECTOR)|
  {
    hide HeadOk, HeaderAt, Handle, Kept, EncodeTable, MapBytes, Content;
    KeptHandle(g, d, d', FREE_MAP_SECTOR, mapHdr);
    KeptHandle(g, d, d', DIRECTORY_SECTOR, dirHdr);
    KeptRoots(g, d, d');
    RootSizes(g, d');
  }

  lemma KeptRoots(g: Geometry, d: Image, d': Image)
    requires RootOk(g, d) && Kept(g, d, d', FREE_MAP_SECTOR) && Kept(g, d, d', DIRECTORY_SECTOR)
    ensures RootOk(g, d')
  {
    hide HeadOk, HeaderAt, Region;
    KeptFacts(g, d, d', FREE_MAP_SECTOR);
    KeptFacts(g, d, d', DIRECTORY_SECTOR);
  }

  lemma KeptOverall(g: Geometry, d: Image, d0: Image, d': Image, heads: set<int>, x: int)
    requires (forall y :: y in heads ==> HeadOk(g, d, y)) && AllKept(g, d, d0, heads)
    requires forall y :: y in heads + {x} ==> HeadOk(g, d0, y)
    requires AllKept(g, d0, d', heads + {x}) && x !in heads && FREE_MAP_SECTOR in heads && DIRECTORY_SECTOR in heads
    requires forall y :: y in heads + {x} ==> HeadOk(g, d', y)
    requires SameContents(g, d, d0, heads) && SameContents(g, d0, d', heads + {x} - {DIRECTORY_SECTOR, FREE_MAP_SECTOR})
    ensures AllKept(g, d, d', heads)
    ensures SameContents(g, d, d', heads - {FREE_MAP_SECTOR, DIRECTORY_SECTOR})
    ensures Content(g, d', x) == Content(g, d0, x)
  {
    hide HeadOk, HeaderAt, Content, Kept;
    forall y | y in heads ensures HeadOk(g, d', y) && Kept(g, d, d', y) { KeptTwice(g, d, d0, d', y); }
    assert x in heads + {x} - {DIRECTORY_SECTOR, FREE_MAP_SECTOR};
  }

  lemma NamesStored(g: Geometry, d: Image)
    requires Consistent(g, d)
    ensures RootOk(g, d) && StoredNames(g, d) == NameMap(StoredTable(g, d))
  {
    hide RootOk, StoredTable, NameMap;
  }

  lemma RootedHeads(g: Geometry, d: Image, heads: set<int>)
    requires Rooted(g, d, heads)
    ensures forall y :: y in heads ==> HeadOk(g, d, y)
  {
    hide HeadOk, Region;
  }

  lemma ConsistentHeads(g: Geometry, d: Image)
    requires Consistent(g, d)
    ensures Rooted(g, d, Heads(StoredNames(g, d)))
    ensures forall y :: y in Heads(StoredNames(g, d)) ==> HeadOk(g, d, y)
  {
    hide HeadOk, Region, RootOk, StoredNames, StoredTable;
  }

  /** A created file: the invariant is kept, the names and the user's files grow by one
      binding, the new file is all zero, and the map grows by what the file occupies. */
  lemma CreateKeeps(g: Geometry, d: Image, name: CString, size: int32, c: Trace, d': Image)
    requires Consistent(g, d) && Creates(g, d, name, size, c, d') && Persists(g, DivRoundUp(size, g.SectorSize()))
    ensures Consistent(g, d')
    ensures NameKey(name) !in StoredNames(g, d)
    ensures StoredTable(g, d') == Added(StoredTable(g, d), FreeSlot(StoredTable(g, d)), name, HeaderSector(g, d))
    ensures StoredNames(g, d') == StoredNames(g, d)[NameKey(name) := HeaderSector(g, d)]
    ensures StoredWords(g, d') == c.words
    ensures AllKept(g, d, d', Heads(StoredNames(g, d)))
    ensures SameContents(g, d, d', Heads(StoredNames(g, d)) - {FREE_MAP_SECTOR, DIRECTORY_SECTOR})
    ensures HeadOk(g, d', HeaderSector(g, d))
    ensures Content(g, d', HeaderSector(g, d)) == seq(if size < 0 then 0 else size, _ => 0)
  {
    hide *;
    CreateFacts(g, d, name, size, c, d');
    var x, t, names := HeaderSector(g, d), StoredTable(g, d), StoredNames(g, d);
    var heads := Heads(names);
    var t' := Added(t, FreeSlot(t), name, x);
    CreateNames(g, d, name, size, x);
    CreateLaid(g, d, name, size, c, d');
    ConsistentHeads(g, d);
    RootsReady(g, d, c.laid, heads, c.mapHdr, c.dirHdr, t', c.words);
    BothWritten(g, c.laid, c.flushed, d', heads + {x}, DIRECTORY_SECTOR, c.dirHdr, EncodeTable(t'),
                FREE_MAP_SECTOR, c.mapHdr, MapBytes(c.words));
    RootedHeads(g, c.laid, heads + {x});
    RootedHeads(g, d', heads + {x});
    Committed(g, d', heads + {x}, t', c.words);
    NamesStored(g, d');
    KeptOverall(g, d, c.laid, d', heads, x);
  }

  // ---- What the user sees -------------------------------------------------------------------

  lemma FilesAt(g: Geometry, d: Image, k: CString)
    requires Consistent(g, d)
    ensures k in Files(g, d) <==> k in StoredNames(g, d)
    ensures k in StoredNames(g, d) ==>
      HeadOk(g, d, StoredNames(g, d)[k]) && Files(g, d)[k] == Content(g, d, StoredNames(g, d)[k])
  {
    if k in StoredNames(g, d) { NamedHead(g, d, k); }
    hide HeadOk, Consistent, Content, StoredNames, RootOk;
  }

  /** User files are not root files. */
  lemma UserHead(g: Geometry, d: Image, k: CString)
    requires Consistent(g, d)
    ensures RootOk(g, d)
    ensures k in StoredNames(g, d) ==>
      (StoredNames(g, d)[k] as int in Heads(StoredNames(g, d)) - {FREE_MAP_SECTOR, DIRECTORY_SECTOR})
  {
    hide HeadOk, RootOk, StoredNames, Disjoint, Occupied, UniqueNames, StoredMarks;
  }

  /** A file two images have in the same place with the same content. */
  lemma SameNamed(g: Geometry, d: Image, d': Image, heads: set<int>, k: CString)
    requires Consistent(g, d) && Consistent(g, d')
    requires heads <= Heads(StoredNames(g, d)) && (forall x :: x in heads ==> HeadOk(g, d, x) && HeadOk(g, d', x))
    requires SameContents(g, d, d', heads)
    requires k in StoredNames(g, d) && k in StoredNames(g, d') && StoredNames(g, d')[k] == StoredNames(g, d)[k]
    requires StoredNames(g, d)[k] as int in heads
    ensures k in Files(g, d) && k in Files(g, d') && Files(g, d')[k] == Files(g, d)[k]
  {
    hide HeadOk, Content, StoredNames, Consistent, Files, Heads;
    FilesAt(g, d, k);
    FilesAt(g, d', k);
  }

  /** The created file appears, empty of anything but zeros; no other file changes. */
  lemma CreateFiles(g: Geometry, d: Image, name: CString, size: int32, c: Trace, d': Image)
    requires Consistent(g, d) && Creates(g, d, name, size, c, d') && Persists(g, DivRoundUp(size, g.SectorSize()))
    ensures Consistent(g, d') && NameKey(name) !in Files(g, d)
    ensures Files(g, d') == Files(g, d)[NameKey(name) := seq(if size < 0 then 0 else size, _ => 0)]
  {
    hide *;
    CreateFacts(g, d, name, size, c, d');
    CreateKeeps(g, d, name, size, c, d');
    ConsistentHeads(g, d);
    ConsistentHeads(g, d');
    var x := HeaderSector(g, d);
    var heads := Heads(StoredNames(g, d)) - {FREE_MAP_SECTOR, DIRECTORY_SECTOR};
    KeptHeads(g, d, d', heads);
    forall k: CString
      ensures k in Files(g, d') <==> k == NameKey(name) || k in Files(g, d)
      ensures k in Files(g, d') ==>
        Files(g, d')[k] == if k == NameKey(name) then seq(if size < 0 then 0 else size, _ => 0) else Files(g, d)[k]
    {
      FilesAt(g, d, k);
      FilesAt(g, d', k);
      UserHead(g, d, k);
      if k in Files(g, d) { SameNamed(g, d, d', heads, k); }
    }
    FilesAt(g, d, NameKey(name));
  }

  lemma KeptHeads(g: Geometry, d: Image, d': Image, heads: set<int>)
    requires Consistent(g, d) && heads <= Heads(StoredNames(g, d))
    requires forall x :: x in Heads(StoredNames(g, d)) ==> HeadOk(g, d, x)
    requires AllKept(g, d, d', Heads(StoredNames(g, d)))
    ensures forall x :: x in heads ==> HeadOk(g, d, x) && HeadOk(g, d', x)
  {
    hide HeadOk, HeaderAt, Region, Consistent, StoredNames;
  }

  // ---- Remove -------------------------------------------------------------------------------

  /** The intermediate states of a Remove: the image once the map is written, the map, the two
      open root files. */
  datatype RemoveTrace = RemoveTrace(flushed: Image, words: seq<bv32>, mapHdr: Header, dirHdr: Header)

  ghost predicate Removes(g: Geometry, d: Image, name: CString, c: RemoveTrace, d': Image)
    requires Consistent(g, d)
  {
    && NameKey(name) in StoredNames(g, d)
    && Handle(g, d, FREE_MAP_SECTOR, c.mapHdr) && Handle(g, d, DIRECTORY_SECTOR, c.dirHdr)
    && BITS_IN_WORD * |c.words| == g.numSectors
    && var x, t := StoredNames(g, d)[NameKey(name)], StoredTable(g, d);
      && HeadOk(g, d, x) && Marked(c.words, g.numSectors) == StoredMarks(g, d) - Region(g, d, x)
      && WroteTo(g, d, c.flushed, c.mapHdr, MapBytes(c.words))
      && IndexOf(t, NameKey(name)) >= 0
      && WroteTo(g, c.flushed, d', c.dirHdr, EncodeTable(Removed(t, IndexOf(t, NameKey(name)))))
  }

  lemma RemoveFacts(g: Geometry, d: Image, name: CString, c: RemoveTrace, d': Image)
    requires Consistent(g, d) && Removes(g, d, name, c, d')
    ensures RootOk(g, d) && NameKey(name) in StoredNames(g, d) && HeadOk(g, d, StoredNames(g, d)[NameKey(name)])
    ensures Handle(g, d, FREE_MAP_SECTOR, c.mapHdr) && Handle(g, d, DIRECTORY_SECTOR, c.dirHdr)
    ensures BITS_IN_WORD * |c.words| == g.numSectors
    ensures Marked(c.words, g.numSectors) == StoredMarks(g, d) - Region(g, d, StoredNames(g, d)[NameKey(name)])
    ensures StoredMarks(g, d) == Occupied(g, d, Heads(StoredNames(g, d)))
    ensures IndexOf(StoredTable(g, d), NameKey(name)) >= 0
    ensures var t := StoredTable(g, d);
      && WroteTo(g, d, c.flushed, c.mapHdr, MapBytes(c.words))
      && WroteTo(g, c.flushed, d', c.dirHdr, EncodeTable(Removed(t, IndexOf(t, NameKey(name)))))
  {
    hide RootOk, HeadOk, WroteTo, Handle, EncodeTable, MapBytes, Disjoint, Occupied, OwnHeads, UniqueNames, Region,
         StoredNames, StoredTable, StoredMarks, IndexOf, NameKey;
  }

  lemma RemoveNames(g: Geometry, d: Image, k: CString)
    requires Consistent(g, d) && k in StoredNames(g, d) && IndexOf(StoredTable(g, d), k) >= 0
    ensures var t', x := Removed(StoredTable(g, d), IndexOf(StoredTable(g, d), k)), StoredNames(g, d)[k];
      && UniqueNames(t') && NameMap(t') == StoredNames(g, d) - {k} && OwnHeads(NameMap(t'))
      && Heads(NameMap(t')) == Heads(StoredNames(g, d)) - {x as int}
  {
    hide RootOk, HeadOk, NameMap, Removed, Region, StoredTable, IndexOf, UniqueNames, Heads, OwnHeads, Disjoint,
         Occupied;
    RemovedMap(StoredTable(g, d), k);
    ShrinkNames(StoredNames(g, d), k);
  }

  /** What is left when one file's sectors are given back. */
  lemma Shrunk(g: Geometry, d: Image, heads: set<int>, x: int)
    requires Rooted(g, d, heads) && x in heads - {FREE_MAP_SECTOR, DIRECTORY_SECTOR}
    ensures Rooted(g, d, heads - {x}) && (forall y :: y in heads ==> HeadOk(g, d, y))
    ensures Occupied(g, d, heads - {x}) == Occupied(g, d, heads) - Region(g, d, x)
  {
    hide RootOk, HeadOk, Region, Occupied;
    OccupiedShrinks(g, d, heads, x);
  }

  /** A removed file: the invariant is kept, its binding goes, its sectors are free again. */
  lemma RemoveKeeps(g: Geometry, d: Image, name: CString, c: RemoveTrace, d': Image)
    requires Consistent(g, d) && Removes(g, d, name, c, d')
    ensures Consistent(g, d') && NameKey(name) in StoredNames(g, d)
    ensures StoredNames(g, d') == StoredNames(g, d) - {NameKey(name)}
    ensures StoredWords(g, d') == c.words
    ensures var x := StoredNames(g, d)[NameKey(name)] as int;
      var heads := Heads(StoredNames(g, d)) - {x};
      && (forall y :: y in heads ==> HeadOk(g, d, y))
      && AllKept(g, d, d', heads)
      && SameContents(g, d, d', heads - {FREE_MAP_SECTOR, DIRECTORY_SECTOR})
  {
    hide *;
    RemoveFacts(g, d, name, c, d');
    var k, t, names := NameKey(name), StoredTable(g, d), StoredNames(g, d);
    var x := names[k] as int;
    var heads := Heads(names) - {x};
    var t' := Removed(t, IndexOf(t, k));
    RemoveNames(g, d, k);
    ConsistentHeads(g, d);
    UserHead(g, d, k);
    Shrunk(g, d, Heads(names), x);
    KeptSelf(g, d, heads);
    RootsReady(g, d, d, heads, c.mapHdr, c.dirHdr, t', c.words);
    BothWritten(g, d, c.flushed, d', heads, FREE_MAP_SECTOR, c.mapHdr, MapBytes(c.words),
                DIRECTORY_SECTOR, c.dirHdr, EncodeTable(t'));
    Committed(g, d', heads, t', c.words);
    NamesStored(g, d');
  }

  lemma KeptSelf(g: Geometry, d: Image, heads: set<int>)
    requires Rooted(g, d, heads)
    ensures (forall y :: y in heads ==> HeadOk(g, d, y)) && AllKept(g, d, d, heads)
    ensures FREE_MAP_SECTOR in heads && DIRECTORY_SECTOR in heads
  {
    hide HeadOk, Region, HeaderAt;
  }

  /** The removed file disappears; no other file changes. */
  lemma RemoveFiles(g: Geometry, d: Image, name: CString, c: RemoveTrace, d': Image)
    requires Consistent(g, d) && Removes(g, d, name, c, d')
    ensures Consistent(g, d') && NameKey(name) in Files(g, d)
    ensures Files(g, d') == Files(g, d) - {NameKey(name)}
  {
    hide *;
    RemoveKeeps(g, d, name, c, d');
    ConsistentHeads(g, d);
    NamesStored(g, d);
    var x := StoredNames(g, d)[NameKey(name)] as int;
    var heads := Heads(StoredNames(g, d)) - {x} - {FREE_MAP_SECTOR, DIRECTORY_SECTOR};
    KeptPart(g, d, d', Heads(StoredNames(g, d)) - {x}, heads);
    forall k: CString
      ensures k in Files(g, d') <==> k != NameKey(name) && k in Files(g, d)
      ensures k in Files(g, d') ==> Files(g, d')[k] == Files(g, d)[k]
    {
      FilesAt(g, d, k);
      FilesAt(g, d', k);
      UserHead(g, d, k);
      OtherHead(g, d, k, NameKey(name));
      if k in Files(g, d') { SameNamed(g, d, d', heads, k); }
    }
    FilesAt(g, d, NameKey(name));
  }

  lemma OtherHead(g: Geometry, d: Image, j: CString, k: CString)
    requires Consistent(g, d)
    ensures j in StoredNames(g, d) && k in StoredNames(g, d) && j != k ==> StoredNames(g, d)[j] != StoredNames(g, d)[k]
  {
    hide HeadOk, RootOk, StoredNames, Disjoint, Occupied, UniqueNames, StoredMarks;
  }

  lemma KeptPart(g: Geometry, d: Image, d': Image, heads: set<int>, part: set<int>)
    requires part <= heads && (forall x :: x in heads ==> HeadOk(g, d, x)) && AllKept(g, d, d', heads)
    ensures forall x :: x in part ==> HeadOk(g, d, x) && HeadOk(g, d', x)
  {
    hide HeadOk, HeaderAt, Region;
  }

  // ---- WriteAt ------------------------------------------------------------------------------

  /** A header in memory of the file a name stands for. */
  ghost predicate NamedHandle(g: Geometry, d: Image, k: CString, h: Header)
    requires Consistent(g, d)
  {
    k in StoredNames(g, d) && HeadOk(g, d, StoredNames(g, d)[k]) && Handle(g, d, StoredNames(g, d)[k], h)
  }

  /** Bytes written through a handle of a file in the directory. */
  ghost predicate Writes(g: Geometry, d: Image, k: CString, h: Header, position: nat, bytes: seq<byte>, d': Image)
    requires Consistent(g, d)
  {
    NamedHandle(g, d, k, h) && WellFormed(g, d, h) && Wrote(g, d, d', h, position, bytes)
  }

  /** Writing to a user's file changes neither the directory nor the map. */
  lemma WriteKeeps(g: Geometry, d: Image, k: CString, h: Header, position: nat, bytes: seq<byte>, d': Image)
    requires Consistent(g, d) && Writes(g, d, k, h, position, bytes, d')
    ensures Consistent(g, d') && StoredTable(g, d') == StoredTable(g, d) && StoredWords(g, d') == StoredWords(g, d)
    ensures k in StoredNames(g, d) && StoredNames(g, d') == StoredNames(g, d)
    ensures var heads := Heads(StoredNames(g, d));
      && (forall y :: y in heads ==> HeadOk(g, d, y))
      && AllKept(g, d, d', heads)
      && SameContents(g, d, d', heads - {StoredNames(g, d)[k] as int})
    ensures HeadOk(g, d, StoredNames(g, d)[k]) && HeadOk(g, d', StoredNames(g, d)[k])
    ensures position + |bytes| <= |Content(g, d, StoredNames(g, d)[k])|
    ensures Content(g, d', StoredNames(g, d)[k]) == Splice(Content(g, d, StoredNames(g, d)[k]), position, bytes)
  {
    var x, heads := StoredNames(g, d)[k] as int, Heads(StoredNames(g, d));
    hide *;
    WriteFacts(g, d, k, h, position, bytes, d');
    ConsistentHeads(g, d);
    UserHead(g, d, k);
    RootedFacts(g, d, heads);
    WroteOne(g, d, d', heads, x, h, position, bytes);
    KeptRoot(g, d, d', heads);
    RestStored(g, d, d', heads, x);
  }

  lemma WriteFacts(g: Geometry, d: Image, k: CString, h: Header, position: nat, bytes: seq<byte>, d': Image)
    requires Consistent(g, d) && Writes(g, d, k, h, position, bytes, d')
    ensures RootOk(g, d) && k in StoredNames(g, d)
    ensures HeadOk(g, d, StoredNames(g, d)[k]) && Handle(g, d, StoredNames(g, d)[k], h)
    ensures WellFormed(g, d, h) && Wrote(g, d, d', h, position, bytes)
  {
    hide HeadOk, Handle, WellFormed, Wrote, RootOk, StoredNames;
  }

  lemma RootedFacts(g: Geometry, d: Image, heads: set<int>)
    requires Rooted(g, d, heads)
    ensures RootOk(g, d) && Disjoint(g, d, heads) && FREE_MAP_SECTOR in heads && DIRECTORY_SECTOR in heads
  {}

  lemma RestStored(g: Geometry, d: Image, d': Image, heads: set<int>, x: int)
    requires Consistent(g, d) && heads == Heads(StoredNames(g, d)) && x in heads - {FREE_MAP_SECTOR, DIRECTORY_SECTOR}
    requires RootOk(g, d') && Disjoint(g, d', heads) && Occupied(g, d', heads) == Occupied(g, d, heads)
    requires (forall y :: y in heads - {x} ==> HeadOk(g, d, y)) && SameContents(g, d, d', heads - {x})
    requires FREE_MAP_SECTOR in heads && DIRECTORY_SECTOR in heads
    ensures Consistent(g, d') && StoredTable(g, d') == StoredTable(g, d) && StoredWords(g, d') == StoredWords(g, d)
    ensures StoredNames(g, d') == StoredNames(g, d)
  {
    SameRoots(g, d, d', heads - {x});
    hide HeadOk, Content, Occupied, Heads, StoredWords, StoredTable, NameMap, UniqueNames, OwnHeads, Disjoint, RootOk,
         Marked;
  }

  lemma SameRoots(g: Geometry, d: Image, d': Image, heads: set<int>)
    requires RootOk(g, d) && RootOk(g, d') && FREE_MAP_SECTOR in heads && DIRECTORY_SECTOR in heads
    requires (forall y :: y in heads ==> HeadOk(g, d, y) && HeadOk(g, d', y)) && SameContents(g, d, d', heads)
    ensures StoredTable(g, d') == StoredTable(g, d) && StoredWords(g, d') == StoredWords(g, d)
  {
    hide HeadOk, Content, MapWords, DecodeTable;
    assert Content(g, d', FREE_MAP_SECTOR) == Content(g, d, FREE_MAP_SECTOR);
    assert Content(g, d', DIRECTORY_SECTOR) == Content(g, d, DIRECTORY_SECTOR);
  }

  /** Exactly the bytes written change, in that one file. */
  lemma WriteFiles(g: Geometry, d: Image, k: CString, h: Header, position: nat, bytes: seq<byte>, d': Image)
    requires Consistent(g, d) && Writes(g, d, k, h, position, bytes, d')
    ensures Consistent(g, d') && k in Files(g, d) && position + |bytes| <= |Files(g, d)[k]|
    ensures Files(g, d') == Files(g, d)[k := Splice(Files(g, d)[k], position, bytes)]
  {
    hide *;
    WriteKeeps(g, d, k, h, position, bytes, d');
    ConsistentHeads(g, d);
    NamesStored(g, d);
    var heads := Heads(StoredNames(g, d)) - {StoredNames(g, d)[k] as int};
    KeptPart(g, d, d', Heads(StoredNames(g, d)), heads);
    FilesAt(g, d, k);
    FilesAt(g, d', k);
    forall j: CString
      ensures j in Files(g, d') <==> j in Files(g, d)
      ensures j in Files(g, d') && j != k ==> Files(g, d')[j] == Files(g, d)[j]
    {
      FilesAt(g, d, j);
      FilesAt(g, d', j);
      UserHead(g, d, j);
      OtherHead(g, d, j, k);
      if j in Files(g, d') && j != k { SameNamed(g, d, d', heads, j); }
    }
  }

  // ---- Handles and round trips ----------------------------------------------------------------

  /** A handle outlives every operation that keeps its file. */
  lemma HandleKept(g: Geometry, d: Image, d': Image, heads: set<int>, x: int, h: Header)
    requires (forall y :: y in heads ==> HeadOk(g, d, y)) && AllKept(g, d, d', heads)
    requires x in heads && Handle(g, d, x, h)
    ensures HeadOk(g, d', x) && Handle(g, d', x, h)
  {
    hide HeadOk, HeaderAt, Region, Handle;
    KeptHandle(g, d, d', x, h);
  }

  lemma CreateKeepsHandles(g: Geometry, d: Image, name: CString, size: int32, c: Trace, d': Image, k: CString,
                           h: Header)
    requires Consistent(g, d) && Creates(g, d, name, size, c, d') && Persists(g, DivRoundUp(size, g.SectorSize()))
    requires NamedHandle(g, d, k, h)
    ensures Consistent(g, d') && NamedHandle(g, d', k, h)
  {
    hide *;
    HandleParts(g, d, k, h);
    CreateKeeps(g, d, name, size, c, d');
    ConsistentHeads(g, d);
    UserHead(g, d, k);
    HandleKept(g, d, d', Heads(StoredNames(g, d)), StoredNames(g, d)[k], h);
    NamesStored(g, d');
    HandleWhole(g, d', k, h);
  }

  lemma RemoveKeepsHandles(g: Geometry, d: Image, name: CString, c: RemoveTrace, d': Image, k: CString, h: Header)
    requires Consistent(g, d) && Removes(g, d, name, c, d') && k != NameKey(name)
    requires NamedHandle(g, d, k, h)
    ensures Consistent(g, d') && NamedHandle(g, d', k, h)
  {
    hide *;
    HandleParts(g, d, k, h);
    RemoveKeeps(g, d, name, c, d');
    UserHead(g, d, k);
    OtherHead(g, d, k, NameKey(name));
    HandleKept(g, d, d', Heads(StoredNames(g, d)) - {StoredNames(g, d)[NameKey(name)] as int}, StoredNames(g, d)[k], h);
    NamesStored(g, d');
    HandleWhole(g, d', k, h);
  }

  /** Writing to one file, through one handle, keeps every handle, of that file too. */
  lemma WriteKeepsHandles(g: Geometry, d: Image, j: CString, hj: Header, position: nat, bytes: seq<byte>, d': Image,
                          k: CString, h: Header)
    requires Consistent(g, d) && Writes(g, d, j, hj, position, bytes, d')
    requires NamedHandle(g, d, k, h)
    ensures Consistent(g, d') && NamedHandle(g, d', k, h)
  {
    hide *;
    HandleParts(g, d, k, h);
    WriteKeeps(g, d, j, hj, position, bytes, d');
    ConsistentHeads(g, d);
    UserHead(g, d, k);
    HandleKept(g, d, d', Heads(StoredNames(g, d)), StoredNames(g, d)[k], h);
    NamesStored(g, d');
    HandleWhole(g, d', k, h);
  }

  lemma HandleParts(g: Geometry, d: Image, k: CString, h: Header)
    requires Consistent(g, d) && NamedHandle(g, d, k, h)
    ensures RootOk(g, d) && k in StoredNames(g, d) && HeadOk(g, d, StoredNames(g, d)[k])
    ensures Handle(g, d, StoredNames(g, d)[k], h)
  {
    hide HeadOk, RootOk, StoredNames, Handle;
  }

  lemma HandleWhole(g: Geometry, d: Image, k: CString, h: Header)
    requires Consistent(g, d) && RootOk(g, d) && k in StoredNames(g, d) && HeadOk(g, d, StoredNames(g, d)[k])
    requires Handle(g, d, StoredNames(g, d)[k], h)
    ensures NamedHandle(g, d, k, h)
  {
    hide HeadOk, RootOk, StoredNames, Handle, Consistent;
  }

  /** What an open file reads is the file its name stands for. */
  lemma HandleReads(g: Geometry, d: Image, k: CString, h: Header)
    requires Consistent(g, d) && NamedHandle(g, d, k, h)
    ensures WellFormed(g, d, h) && k in Files(g, d) && FileBytes(g, d, h) == Files(g, d)[k]
  {
    hide *;
    HandleParts(g, d, k, h);
    FilesAt(g, d, k);
    HandleFile(g, d, StoredNames(g, d)[k], h);
  }

  /** The map is determined by where the named files lie. */
  lemma SameNamesSameMap(g: Geometry, d: Image, d': Image)
    requires Consistent(g, d) && Consistent(g, d') && StoredNames(g, d') == StoredNames(g, d)
    requires var heads := Heads(StoredNames(g, d));
      (forall y :: y in heads ==> HeadOk(g, d, y)) && AllKept(g, d, d', heads)
    ensures StoredWords(g, d') == StoredWords(g, d)
  {
    var heads := Heads(StoredNames(g, d));
    hide HeadOk, Region, RootOk, StoredNames, StoredWords, Heads, OwnHeads, UniqueNames, Occupied;
    KeptDisjoint(g, d, d', heads);
    SameSetSameWords(StoredWords(g, d'), StoredWords(g, d));
  }

  lemma KeptTwiceAll(g: Geometry, d: Image, d1: Image, d2: Image, heads: set<int>)
    requires (forall y :: y in heads ==> HeadOk(g, d, y)) && AllKept(g, d, d1, heads)
    requires (forall y :: y in heads ==> HeadOk(g, d1, y)) && AllKept(g, d1, d2, heads)
    ensures AllKept(g, d, d2, heads)
  {
    hide HeadOk, Kept;
    forall y | y in heads ensures HeadOk(g, d2, y) && Kept(g, d, d2, y) { KeptTwice(g, d, d1, d2, y); }
  }

  /** Create then Remove of the same name: the stored free map comes back bit for bit, and so
      do the names and every file. */
  lemma RemoveUndoesCreate(g: Geometry, d: Image, name: CString, name': CString, size: int32, c: Trace, d1: Image,
                           r: RemoveTrace, d2: Image)
    requires Consistent(g, d) && Creates(g, d, name, size, c, d1) && Persists(g, DivRoundUp(size, g.SectorSize()))
    requires NameKey(name') == NameKey(name) && Consistent(g, d1) && Removes(g, d1, name', r, d2)
    ensures Consistent(g, d2)
    ensures StoredWords(g, d2) == StoredWords(g, d)
    ensures StoredNames(g, d2) == StoredNames(g, d)
    ensures Files(g, d2) == Files(g, d)
  {
    hide *;
    var k := NameKey(name);
    CreateFacts(g, d, name, size, c, d1);
    CreateKeeps(g, d, name, size, c, d1);
    CreateFiles(g, d, name, size, c, d1);
    RemoveKeeps(g, d1, name', r, d2);
    RemoveFiles(g, d1, name', r, d2);
    ConsistentHeads(g, d);
    ConsistentHeads(g, d1);
    NamesStored(g, d);
    NamesStored(g, d1);
    NamesStored(g, d2);
    assert StoredNames(g, d2) == StoredNames(g, d);
    assert Files(g, d2) == Files(g, d);
    var heads := Heads(StoredNames(g, d));
    CreateNames(g, d, name, size, HeaderSector(g, d));
    HeadMarked(g, d, HeaderSector(g, d));
    assert Heads(StoredNames(g, d1)) - {HeaderSector(g, d) as int} == heads;
    KeptTwiceAll(g, d, d1, d2, heads);
    SameNamesSameMap(g, d, d2);
  }

  // ---- Files whose header does not fit ----------------------------------------------------------

  /** The files there before are where they were, whatever the size of the new one. */
  lemma CreateLeaves(g: Geometry, d: Image, name: CString, size: int32, c: Trace, d': Image)
    requires Consistent(g, d) && Creates(g, d, name, size, c, d')
    ensures RootOk(g, d) && 0 <= HeaderSector(g, d) < |c.laid| == g.numSectors
    ensures c.laid[HeaderSector(g, d)] == Stored(g, c.hdr) && |c.hdr.direct| == g.numDirect
    ensures c.hdr.numSectors == DivRoundUp(size, g.SectorSize())
    ensures forall s :: s in StoredMarks(g, d) ==> 0 <= s < |d| && s < |c.laid| && c.laid[s] == d[s]
  {
    LaidFacts(g, d, name, size, c, d');
    hide *;
    GrantedLeaves(g, d, StoredMarks(g, d) + {HeaderSector(g, d)}, size, c.filled, Marked(c.words, g.numSectors), c.hdr);
    LaidAgrees(g, d, c.filled, StoredMarks(g, d), HeaderSector(g, d), c.hdr);
  }

  lemma LaidFacts(g: Geometry, d: Image, name: CString, size: int32, c: Trace, d': Image)
    requires Consistent(g, d) && Creates(g, d, name, size, c, d')
    ensures RootOk(g, d) && g.Valid() && ImageOk(g, d) && ImageOk(g, c.filled) && |c.hdr.direct| == g.numDirect
    ensures |c.laid| == g.numSectors && c.laid == c.filled[HeaderSector(g, d) := Stored(g, c.hdr)]
    ensures Granting(g, d, StoredMarks(g, d) + {HeaderSector(g, d)}, size,
                     c.filled, Marked(c.words, g.numSectors), c.hdr)
    ensures forall s :: s in StoredMarks(g, d) ==> 0 <= s < g.numSectors
  {
    RootImage(g, d);
    MarksInRange(g, d);
    hide RootOk, HeadOk, Disjoint, Occupied, StoredMarks, StoredNames, StoredTable, Stored, Granting, HeaderSector,
         UniqueNames, CreateAnswer, WroteTo, Marked, DivRoundUp;
  }

  lemma LaidAgrees(g: Geometry, d: Image, filled: Image, m: set<int>, x: int, h: Header)
    requires g.Valid() && ImageOk(g, d) && ImageOk(g, filled) && |h.direct| == g.numDirect
    requires 0 <= x < g.numSectors && x !in m
    requires forall s :: s in m ==> 0 <= s < g.numSectors
    requires forall s :: s in m + {x} && 0 <= s < g.numSectors ==> filled[s] == d[s]
    ensures forall s :: s in m ==> 0 <= s < |d| && s < |filled| && filled[x := Stored(g, h)][s] == d[s]
  {
    hide Stored;
  }

  lemma GrantedLeaves(g: Geometry, d: Image, m: set<int>, size: int32, d': Image, m': set<int>, h: Header)
    requires g.Valid() && ImageOk(g, d) && ImageOk(g, d') && |h.direct| == g.numDirect
    requires Granting(g, d, m, size, d', m', h)
    ensures h.numSectors == DivRoundUp(size, g.SectorSize())
    ensures forall s :: s in m && 0 <= s < g.numSectors ==> d'[s] == d[s]
  {
    GrantedMarks(g, d, m, size, d', m', h);
    GrantedFile(g, d, m, size, d', m', h);
    hide FileSectors, WellFormed, Granting, FreeSectors, FileBytes;
    forall s | s in m ensures s !in FileSectors(g, d', h) {
      assert s !in Elements(FileSectors(g, d', h));
    }
  }

  lemma MarksInRange(g: Geometry, d: Image)
    requires RootOk(g, d)
    ensures forall s :: s in StoredMarks(g, d) ==> 0 <= s < g.numSectors
  {
    hide StoredWords;
  }

  lemma MarkedKept(g: Geometry, d: Image, d': Image)
    requires Consistent(g, d) && ImageOk(g, d')
    requires forall s :: s in StoredMarks(g, d) ==> 0 <= s < |d| && s < |d'| && d'[s] == d[s]
    ensures RootOk(g, d) && (forall y :: y in Heads(StoredNames(g, d)) ==> HeadOk(g, d, y))
    ensures AllKept(g, d, d', Heads(StoredNames(g, d))) && Rooted(g, d', Heads(StoredNames(g, d)))
    ensures SameContents(g, d, d', Heads(StoredNames(g, d)))
  {
    ConsistentHeads(g, d);
    var heads := Heads(StoredNames(g, d));
    hide RootOk, HeadOk, Region, StoredNames, StoredMarks, UniqueNames, OwnHeads;
    forall y | y in heads
      ensures HeadOk(g, d', y) && Kept(g, d, d', y) && Content(g, d', y) == Content(g, d, y)
    {
      forall s | s in Region(g, d, y) ensures d'[s] == d[s] {
        assert s in Occupied(g, d, heads);
      }
      Untouched(g, d, d', y);
    }
    KeptDisjoint(g, d, d', heads);
    KeptRoot(g, d, d', heads);
  }

  lemma WroteToOutside(g: Geometry, d: Image, d': Image, z: int, h: Header, bytes: seq<byte>, s: int)
    requires HeadOk(g, d, z) && Handle(g, d, z, h) && WroteTo(g, d, d', h, bytes)
    requires 0 <= s < |d| && s !in Region(g, d, z)
    ensures |d'| == |d| && d'[s] == d[s]
  {
    hide WellFormed, Wrote, FileSectors, HeaderAt;
    HandleFile(g, d, z, h);
    var part := bytes[..Least(|bytes|, FileLength(h))];
    WroteImage(g, d, d', h, 0, part);
    WroteOutside(g, d, d', h, 0, part, s);
  }

  lemma OutsideMarked(g: Geometry, d: Image, d': Image, y: int, x: int)
    requires Consistent(g, d) && y in Heads(StoredNames(g, d)) && x !in StoredMarks(g, d)
    requires HeadOk(g, d, y) && Kept(g, d, d', y)
    ensures HeadOk(g, d', y) && x !in Region(g, d', y)
  {
    KeptFacts(g, d, d', y);
    hide HeadOk, RootOk, Region, StoredNames, UniqueNames, StoredMarks, Kept, Heads;
    assert Region(g, d, y) <= Occupied(g, d, Heads(StoredNames(g, d)));
  }

  /** The header sector is still what Create wrote when the root files have been written. */
  lemma HeaderSurvives(g: Geometry, d: Image, d1: Image, d2: Image, heads: set<int>, x: int,
                       dirHdr: Header, dirBytes: seq<byte>, mapHdr: Header, mapBytes: seq<byte>)
    requires Rooted(g, d, heads) && 0 <= x < |d|
    requires HeadOk(g, d, FREE_MAP_SECTOR) && Handle(g, d, FREE_MAP_SECTOR, mapHdr)
    requires x !in Region(g, d, FREE_MAP_SECTOR)
    requires HeadOk(g, d, DIRECTORY_SECTOR) && Handle(g, d, DIRECTORY_SECTOR, dirHdr)
    requires x !in Region(g, d, DIRECTORY_SECTOR)
    requires |dirBytes| == |Content(g, d, DIRECTORY_SECTOR)|
    requires WroteTo(g, d, d1, dirHdr, dirBytes) && WroteTo(g, d1, d2, mapHdr, mapBytes)
    ensures |d2| == |d| && d2[x] == d[x]
  {
    hide *;
    RootedFacts(g, d, heads);
    RootedHeads(g, d, heads);
    WriteRoot(g, d, d1, heads, DIRECTORY_SECTOR, dirHdr, dirBytes);
    WroteToOutside(g, d, d1, DIRECTORY_SECTOR, dirHdr, dirBytes, x);
    OneKept(g, d, d1, heads, FREE_MAP_SECTOR);
    KeptHandle(g, d, d1, FREE_MAP_SECTOR, mapHdr);
    KeptFacts(g, d, d1, FREE_MAP_SECTOR);
    WroteToOutside(g, d1, d2, FREE_MAP_SECTOR, mapHdr, mapBytes, x);
  }

  lemma OneKept(g: Geometry, d: Image, d': Image, heads: set<int>, x: int)
    requires (forall y :: y in heads ==> HeadOk(g, d, y)) && AllKept(g, d, d', heads) && x in heads
    ensures HeadOk(g, d, x) && Kept(g, d, d', x)
  {
    hide HeadOk, Kept;
  }

  lemma TableStored(g: Geometry, d: Image, t: seq<DirEntry>)
    requires Consistent(g, d) && HeadOk(g, d, DIRECTORY_SECTOR) && Content(g, d, DIRECTORY_SECTOR) == EncodeTable(t)
    ensures RootOk(g, d) && StoredNames(g, d) == NameMap(t)
    ensures forall x :: x in Heads(NameMap(t)) ==> HeadOk(g, d, x)
  {
    ConsistentHeads(g, d);
    DecodeEncodeTable(t);
    hide HeadOk, Content, DecodeTable, EncodeTable, NameMap, UniqueNames, OwnHeads, Disjoint;
  }

  lemma StoredCount(g: Geometry, d: Image, h: Header, x: int)
    requires HeadOk(g, d, x) && |h.direct| == g.numDirect && d[x] == Stored(g, h)
    ensures Persists(g, h.numSectors)
  {
    ReadableExactly(g, d, x);
    hide WellFormed, FileSectors, Fetched, Stored, Persists, Readable;
    FetchedStored(g, h, Header(0, 0, seq(g.numDirect, _ => 0), 0, 0, 0, 0, 0));
  }

  lemma LaidImage(g: Geometry, d: Image, d': Image, h: Header, bytes: seq<byte>)
    requires WroteTo(g, d, d', h, bytes)
    ensures ImageOk(g, d)
  {
    hide FileSectors, Wrote;
  }

  /** What every granted Create leaves of what was there, whatever the size: every named file, in
      place and with its content; and the names, with one more. */
  lemma CreateSpares(g: Geometry, d: Image, name: CString, size: int32, c: Trace, d': Image)
    requires Consistent(g, d) && Creates(g, d, name, size, c, d')
    ensures RootOk(g, d) && RootOk(g, d') && FreeSectors(g, StoredMarks(g, d)) != []
    ensures NameKey(name) !in StoredNames(g, d)
    ensures StoredNames(g, d') == StoredNames(g, d)[NameKey(name) := HeaderSector(g, d)]
    ensures StoredWords(g, d') == c.words
    ensures forall y :: y in Heads(StoredNames(g, d)) ==> HeadOk(g, d, y) && HeadOk(g, d', y)
    ensures AllKept(g, d, d', Heads(StoredNames(g, d)))
    ensures SameContents(g, d, d', Heads(StoredNames(g, d)) - {FREE_MAP_SECTOR, DIRECTORY_SECTOR})
  {
    hide *;
    CreateFacts(g, d, name, size, c, d');
    var x, t, heads := HeaderSector(g, d), StoredTable(g, d), Heads(StoredNames(g, d));
    var t' := Added(t, FreeSlot(t), name, x);
    CreateNames(g, d, name, size, x);
    CreateLeaves(g, d, name, size, c, d');
    LaidImage(g, c.laid, c.flushed, c.dirHdr, EncodeTable(t'));
    MarkedKept(g, d, c.laid);
    RootsReady(g, d, c.laid, heads, c.mapHdr, c.dirHdr, t', c.words);
    BothWritten(g, c.laid, c.flushed, d', heads, DIRECTORY_SECTOR, c.dirHdr, EncodeTable(t'),
                FREE_MAP_SECTOR, c.mapHdr, MapBytes(c.words));
    RootedHeads(g, c.laid, heads);
    RootedHeads(g, d', heads);
    StoredAgain(g, d', heads, t', c.words);
    SparedTwice(g, d, c.laid, d', heads);
  }

  lemma StoredAgain(g: Geometry, d: Image, heads: set<int>, t: seq<DirEntry>, ws: seq<bv32>)
    requires Rooted(g, d, heads) && |t| == g.numDirEntries && BITS_IN_WORD * |ws| == g.numSectors
    requires HeadOk(g, d, FREE_MAP_SECTOR) && Content(g, d, FREE_MAP_SECTOR) == MapBytes(ws)
    requires HeadOk(g, d, DIRECTORY_SECTOR) && Content(g, d, DIRECTORY_SECTOR) == EncodeTable(t)
    ensures RootOk(g, d) && StoredNames(g, d) == NameMap(t) && StoredWords(g, d) == ws
  {
    hide HeadOk, MapBytes, MapWords, EncodeTable, DecodeTable, NameMap, Disjoint, Content;
    MapWordsOfBytes(ws);
    DecodeEncodeTable(t);
  }

  lemma SparedTwice(g: Geometry, d: Image, d1: Image, d2: Image, heads: set<int>)
    requires (forall y :: y in heads ==> HeadOk(g, d, y)) && AllKept(g, d, d1, heads)
    requires (forall y :: y in heads ==> HeadOk(g, d1, y)) && AllKept(g, d1, d2, heads)
    requires forall y :: y in heads ==> HeadOk(g, d2, y)
    requires SameContents(g, d, d1, heads)
    requires SameContents(g, d1, d2, heads - {DIRECTORY_SECTOR, FREE_MAP_SECTOR})
    ensures AllKept(g, d, d2, heads)
    ensures SameContents(g, d, d2, heads - {FREE_MAP_SECTOR, DIRECTORY_SECTOR})
  {
    KeptTwiceAll(g, d, d1, d2, heads);
    hide HeadOk, Kept, Content;
  }

  /** A header through which these bytes are read. */
  predicate ReadsAs(g: Geometry, d: Image, h: Header, bytes: seq<byte>) {
    WellFormed(g, d, h) && FileBytes(g, d, h) == bytes
  }

  lemma HandleReadsAs(g: Geometry, d: Image, x: int, h: Header)
    requires HeadOk(g, d, x) && Handle(g, d, x, h)
    ensures ReadsAs(g, d, h, Content(g, d, x))
  {
    hide HeadOk, Handle, Content, FileBytes;
    HandleFile(g, d, x, h);
  }

  /** So after any granted Create, also one that loses its own file, a file named before is
      still named, opens over whatever memory, and reads what it read, through handles opened
      before and after. */
  lemma CreateSparesFile(g: Geometry, d: Image, name: CString, size: int32, c: Trace, d': Image, k: CString)
    requires Consistent(g, d) && Creates(g, d, name, size, c, d') && k in Files(g, d)
    ensures RootOk(g, d') && k in StoredNames(g, d') && HeadOk(g, d', StoredNames(g, d')[k])
    ensures Content(g, d', StoredNames(g, d')[k]) == Files(g, d)[k]
    ensures forall h :: NamedHandle(g, d, k, h) ==> ReadsAs(g, d', h, Files(g, d)[k])
    ensures forall memory: Header :: |memory.direct| == g.numDirect ==>
      ReadsAs(g, d', Fetched(g, memory, d'[StoredNames(g, d')[k]]), Files(g, d)[k])
  {
    hide *;
    CreateSpares(g, d, name, size, c, d');
    FilesAt(g, d, k);
    UserHead(g, d, k);
    var x, heads := StoredNames(g, d)[k], Heads(StoredNames(g, d));
    OneKept(g, d, d', heads, x);
    SameAt(g, d, d', heads - {FREE_MAP_SECTOR, DIRECTORY_SECTOR}, x);
    HeadFacts(g, d', x);
    forall h | NamedHandle(g, d, k, h) ensures ReadsAs(g, d', h, Files(g, d)[k]) {
      HandleParts(g, d, k, h);
      HandleKept(g, d, d', heads, x, h);
      HandleReadsAs(g, d', x, h);
    }
    forall memory: Header | |memory.direct| == g.numDirect
      ensures ReadsAs(g, d', Fetched(g, memory, d'[x]), Files(g, d)[k])
    {
      FetchedHandle(g, d', x, memory);
      HandleReadsAs(g, d', x, Fetched(g, memory, d'[x]));
    }
  }

  lemma SameAt(g: Geometry, d: Image, d': Image, heads: set<int>, x: int)
    requires forall y :: y in heads ==> HeadOk(g, d, y) && HeadOk(g, d', y)
    requires SameContents(g, d, d', heads) && x in heads
    ensures Content(g, d', x) == Content(g, d, x)
  {
    hide HeadOk, Content;
  }

  lemma HeadFacts(g: Geometry, d: Image, x: int)
    requires HeadOk(g, d, x)
    ensures g.Valid() && 0 <= x < |d| == g.numSectors && |d[x]| == g.SectorSize()
  {}

  /** What every granted Create leaves, whatever the size: the header's words in its sector, and
      the directory with its entry. */
  lemma CreateStores(g: Geometry, d: Image, name: CString, size: int32, c: Trace, d': Image)
    requires Consistent(g, d) && Creates(g, d, name, size, c, d')
    ensures RootOk(g, d) && FreeSectors(g, StoredMarks(g, d)) != [] && 0 <= FreeSlot(StoredTable(g, d))
    ensures 0 <= HeaderSector(g, d) < |d'| && |c.hdr.direct| == g.numDirect && g.Valid()
    ensures c.hdr.numSectors == DivRoundUp(size, g.SectorSize())
    ensures d'[HeaderSector(g, d)] == Stored(g, c.hdr)
    ensures var t := Added(StoredTable(g, d), FreeSlot(StoredTable(g, d)), name, HeaderSector(g, d));
      && HeadOk(g, d', DIRECTORY_SECTOR) && Content(g, d', DIRECTORY_SECTOR) == EncodeTable(t)
      && HeaderSector(g, d) as int in Heads(NameMap(t))
  {
    hide *;
    CreateFacts(g, d, name, size, c, d');
    var x, t := HeaderSector(g, d), StoredTable(g, d);
    var heads := Heads(StoredNames(g, d));
    var t' := Added(t, FreeSlot(t), name, x);
    CreateNames(g, d, name, size, x);
    CreateLeaves(g, d, name, size, c, d');
    LaidImage(g, c.laid, c.flushed, c.dirHdr, EncodeTable(t'));
    MarkedKept(g, d, c.laid);
    RootsReady(g, d, c.laid, heads, c.mapHdr, c.dirHdr, t', c.words);
    OneKept(g, d, c.laid, heads, FREE_MAP_SECTOR);
    OneKept(g, d, c.laid, heads, DIRECTORY_SECTOR);
    OutsideMarked(g, d, c.laid, FREE_MAP_SECTOR, x);
    OutsideMarked(g, d, c.laid, DIRECTORY_SECTOR, x);
    BothWritten(g, c.laid, c.flushed, d', heads, DIRECTORY_SECTOR, c.dirHdr, EncodeTable(t'),
                FREE_MAP_SECTOR, c.mapHdr, MapBytes(c.words));
    HeaderSurvives(g, c.laid, c.flushed, d', heads, x, c.dirHdr, EncodeTable(t'), c.mapHdr, MapBytes(c.words));
    RootedHeads(g, d', heads);
    RootImage(g, d);
  }

  /** A consistent disk after a Create: the new header reads back, so its pointers fit. */
  lemma CreatePersists(g: Geometry, d: Image, name: CString, size: int32, c: Trace, d': Image)
    requires Consistent(g, d) && Creates(g, d, name, size, c, d') && Consistent(g, d')
    ensures Persists(g, DivRoundUp(size, g.SectorSize()))
  {
    hide *;
    CreateStores(g, d, name, size, c, d');
    TableStored(g, d', Added(StoredTable(g, d), FreeSlot(StoredTable(g, d)), name, HeaderSector(g, d)));
    StoredCount(g, d', c.hdr, HeaderSector(g, d));
  }

  /** The header in its sector on a later disk, fetched over some memory, is not the one that
      was made. */
  ghost predicate Loses(g: Geometry, h: Header, sector: Sector)
    requires g.Valid() && |sector| == g.SectorSize()
  {
    exists memory: Header {:trigger Fetched(g, memory, sector)} ::
      |memory.direct| == g.numDirect && !SamePointers(g, h, Fetched(g, memory, sector))
  }

  /** Create, told to make a file whose pointers do not fit in the header's sector, answers TRUE
      and leaves a disk from which the file cannot be read back. */
  lemma CreateLoses(g: Geometry, d: Image, name: CString, size: int32, c: Trace, d': Image)
    requires Consistent(g, d) && Creates(g, d, name, size, c, d')
    ensures FreeSectors(g, StoredMarks(g, d)) != [] && 0 <= HeaderSector(g, d) < |d'| && g.Valid()
    ensures |d'[HeaderSector(g, d)]| == g.SectorSize()
    ensures Loses(g, c.hdr, d'[HeaderSector(g, d)]) <==> !Persists(g, DivRoundUp(size, g.SectorSize()))
  {
    hide *;
    CreateStores(g, d, name, size, c, d');
    LosesExactly(g, c.hdr);
  }

  lemma LosesExactly(g: Geometry, h: Header)
    requires g.Valid() && |h.direct| == g.numDirect
    ensures Loses(g, h, Stored(g, h)) <==> !Persists(g, h.numSectors)
  {
    hide Fetched, Stored, SamePointers, Persists;
    PersistsExactly(g, h);
  }

  /** A Create that answers TRUE leaves a consistent disk exactly when the pointers of the new
      file fit in its header's sector; when they do not, the file is lost. */
  lemma CreateExact(g: Geometry, d: Image, name: CString, size: int32, c: Trace, d': Image)
    requires Consistent(g, d) && Creates(g, d, name, size, c, d')
    ensures FreeSectors(g, StoredMarks(g, d)) != [] && 0 <= HeaderSector(g, d) < |d'|
    ensures Consistent(g, d') <==> Persists(g, DivRoundUp(size, g.SectorSize()))
    ensures |d'[HeaderSector(g, d)]| == g.SectorSize()
    ensures Consistent(g, d') <==> !Loses(g, c.hdr, d'[HeaderSector(g, d)])
  {
    var fits := Persists(g, DivRoundUp(size, g.SectorSize()));
    hide *;
    CreateLoses(g, d, name, size, c, d');
    if Consistent(g, d') {
      CreatePersists(g, d, name, size, c, d');
    } else if fits {
      CreateKeeps(g, d, name, size, c, d');
    }
  }

  /** With the compiled constants: on any disk with room, a file of 31 sectors is granted under
      any new name, and lost. */
  lemma NachosOversized(d: Image, name: CString, c: Trace, d': Image)
    requires Consistent(NACHOS, d) && |FreeSectors(NACHOS, StoredMarks(NACHOS, d))| >= 33
    requires NameKey(name) !in StoredNames(NACHOS, d) && FreeSlot(StoredTable(NACHOS, d)) != -1
    ensures CreateAnswer(NACHOS, d, name, 31 * 128) == Granted
    ensures Creates(NACHOS, d, name, 31 * 128, c, d') ==>
      !Consistent(NACHOS, d') && Loses(NACHOS, c.hdr, d'[HeaderSector(NACHOS, d)])
  {
    hide Consistent, Creates, StoredMarks, StoredNames, StoredTable, FreeSlot, NameKey, FreeSectors, Loses, RootOk;
    assert DivRoundUp(31 * 128, NACHOS.SectorSize()) == 31 && !Persists(NACHOS, 31);
    if Creates(NACHOS, d, name, 31 * 128, c, d') { CreateExact(NACHOS, d, name, 31 * 128, c, d'); }
  }

  // ---- Runs -----------------------------------------------------------------------------------

  ghost predicate CreatesFitting(g: Geometry, d: Image, name: CString, size: int32, c: Trace, d': Image)
    requires Consistent(g, d)
  {
    Creates(g, d, name, size, c, d') && Persists(g, DivRoundUp(size, g.SectorSize()))
  }

  /** What a user calls, and what the call answers. A file is read and written through the number
      Open gave it; memory is what lay where the opened header was put; result holds the bytes
      read. */
  datatype Call =
    | CreateCall(name: CString, size: int32, ok: bool)
    | RemoveCall(name: CString, ok: bool)
    | OpenCall(name: CString, memory: Header, ok: bool)
    | ReadCall(file: nat, position: nat, numBytes: int, result: seq<byte>)
    | WriteCall(file: nat, position: nat, numBytes: int, from: seq<byte>)

  /** A file opened earlier; live until its name is removed. */
  datatype Opened = Opened(name: CString, hdr: Header, live: bool)

  datatype FsWorld = FsWorld(disk: Image, open: seq<Opened>)

  function Closed(open: seq<Opened>, k: CString): (r: seq<Opened>)
    ensures |r| == |open|
  {
    seq(|open|, i requires 0 <= i < |open| => open[i].(live := open[i].live && open[i].name != k))
  }

  /** One call by a user who creates only files whose header fits, and reads and writes only
      files that are still there. */
  ghost predicate FsStep(g: Geometry, w: FsWorld, call: Call, w': FsWorld)
    requires Consistent(g, w.disk)
  {
    match call
    case CreateCall(name, size, ok) =>
      if ok then w'.open == w.open && exists c: Trace :: CreatesFitting(g, w.disk, name, size, c, w'.disk)
      else w' == w && CreateAnswer(g, w.disk, name, size) == Refused
    case RemoveCall(name, ok) =>
      if ok then
        w'.open == Closed(w.open, NameKey(name)) && exists c: RemoveTrace :: Removes(g, w.disk, name, c, w'.disk)
      else w' == w && NameKey(name) !in StoredNames(g, w.disk)
    case OpenCall(name, memory, ok) =>
      if ok then OpensFile(g, w, NameKey(name), memory, w')
      else w' == w && NameKey(name) !in StoredNames(g, w.disk)
    case ReadCall(file, position, numBytes, result) =>
      && MayUse(g, w, file) && InInts(w.open[file].hdr.numBytes, numBytes, position) && w' == w
      && result == Requested(FileBytes(g, w.disk, w.open[file].hdr), numBytes, position)
    case WriteCall(file, position, numBytes, from) =>
      && MayUse(g, w, file) && InInts(w.open[file].hdr.numBytes, numBytes, position)
      && var n := Clipped(w.open[file].hdr.numBytes, numBytes, position);
        && n <= |from|
        && if n == 0 then w' == w
           else w'.open == w.open && Wrote(g, w.disk, w'.disk, w.open[file].hdr, position, from[..n])
  }

  ghost predicate MayUse(g: Geometry, w: FsWorld, file: nat) {
    file < |w.open| && w.open[file].live && WellFormed(g, w.disk, w.open[file].hdr)
  }

  ghost predicate OpensFile(g: Geometry, w: FsWorld, k: CString, memory: Header, w': FsWorld)
    requires Consistent(g, w.disk)
  {
    && |memory.direct| == g.numDirect && k in StoredNames(g, w.disk)
    && var x := StoredNames(g, w.disk)[k];
      HeadOk(g, w.disk, x) && w' == FsWorld(w.disk, w.open + [Opened(k, Fetched(g, memory, w.disk[x]), true)])
  }

  /** The files open after a call, but for the one it opens. */
  function StillOpen(open: seq<Opened>, call: Call): seq<Opened> {
    if call.RemoveCall? && call.ok then Closed(open, NameKey(call.name)) else open
  }

  /** Whatever files are open, going from one image to the other with these files newly open is
      this call. */
  ghost predicate Performs(g: Geometry, d: Image, call: Call, d': Image, more: seq<Opened>)
    requires Consistent(g, d)
  {
    forall open: seq<Opened> {:trigger StillOpen(open, call)} ::
      FsStep(g, FsWorld(d, open), call, FsWorld(d', StillOpen(open, call) + more))
  }

  // The same calls on a map from names to byte arrays.

  type FileMap = map<CString, seq<byte>>

  predicate FlatCreate(f: FileMap, k: CString, size: nat, ok: bool, f': FileMap) {
    if ok then k !in f && f' == f[k := seq(size, _ => 0)] else f' == f
  }

  predicate FlatRemove(f: FileMap, k: CString, ok: bool, f': FileMap) {
    ok == (k in f) && f' == f - {k}
  }

  predicate FlatRead(f: FileMap, k: CString, position: nat, numBytes: int, result: seq<byte>) {
    k in f && result == Requested(f[k], numBytes, position)
  }

  predicate FlatWrite(f: FileMap, k: CString, position: nat, numBytes: int, from: seq<byte>, f': FileMap) {
    && k in f
    && var n := Clipped(|f[k]|, numBytes, position);
      n <= |from| && f' == if n == 0 then f else f[k := Splice(f[k], position, from[..n])]
  }

  /** The call, with its own arguments and its own answer; a file read or written is the one
      opened under that number. */
  predicate FlatStep(f: FileMap, open: seq<Opened>, call: Call, f': FileMap) {
    match call
    case CreateCall(name, size, ok) => FlatCreate(f, NameKey(name), if size < 0 then 0 else size, ok, f')
    case RemoveCall(name, ok) => FlatRemove(f, NameKey(name), ok, f')
    case OpenCall(name, memory, ok) => ok == (NameKey(name) in f) && f' == f
    case ReadCall(file, position, numBytes, result) =>
      file < |open| && FlatRead(f, open[file].name, position, numBytes, result) && f' == f
    case WriteCall(file, position, numBytes, from) =>
      file < |open| && FlatWrite(f, open[file].name, position, numBytes, from, f')
  }

  /** The disk is consistent, and every live open file is a handle of the file of its name. */
  ghost predicate WorldInv(g: Geometry, w: FsWorld) {
    && Consistent(g, w.disk)
    && forall i :: 0 <= i < |w.open| && w.open[i].live ==> NamedHandle(g, w.disk, w.open[i].name, w.open[i].hdr)
  }

  /** A call keeps the invariant and is the same call, with the same answer, on what the user
      sees. */
  lemma StepRefines(g: Geometry, w: FsWorld, call: Call, w': FsWorld)
    requires WorldInv(g, w) && FsStep(g, w, call, w')
    ensures WorldInv(g, w')
    ensures FlatStep(Files(g, w.disk), w.open, call, Files(g, w'.disk))
  {
    hide Consistent, Creates, Removes, NamedHandle, Files, Persists, NameKey, Fetched, HeadOk, StoredNames, Wrote,
         WellFormed, FileBytes, FileLength, Requested, Clipped, Splice, CreateAnswer;
    match call
    case CreateCall(name, size, ok) =>
      if ok {
        var c: Trace :| CreatesFitting(g, w.disk, name, size, c, w'.disk);
        CreateFiles(g, w.disk, name, size, c, w'.disk);
        forall i | 0 <= i < |w.open| && w.open[i].live ensures NamedHandle(g, w'.disk, w.open[i].name, w.open[i].hdr) {
          CreateKeepsHandles(g, w.disk, name, size, c, w'.disk, w.open[i].name, w.open[i].hdr);
        }
      }
    case RemoveCall(name, ok) =>
      FilesAt(g, w.disk, NameKey(name));
      if ok {
        var c: RemoveTrace :| Removes(g, w.disk, name, c, w'.disk);
        RemoveFiles(g, w.disk, name, c, w'.disk);
        forall i | 0 <= i < |w.open| && w'.open[i].live ensures NamedHandle(g, w'.disk, w.open[i].name, w.open[i].hdr) {
          RemoveKeepsHandles(g, w.disk, name, c, w'.disk, w.open[i].name, w.open[i].hdr);
        }
      }
    case OpenCall(name, memory, ok) =>
      FilesAt(g, w.disk, NameKey(name));
      if ok { OpenGives(g, w, NameKey(name), memory, w'); }
    case ReadCall(file, position, numBytes, result) =>
      HandleReads(g, w.disk, w.open[file].name, w.open[file].hdr);
    case WriteCall(file, position, numBytes, from) =>
      HandleReads(g, w.disk, w.open[file].name, w.open[file].hdr);
      var n := Clipped(w.open[file].hdr.numBytes, numBytes, position);
      ClippedLength(w.open[file].hdr, numBytes, position);
      if n > 0 { WriteRefines(g, w, file, position, from[..n], w'); }
  }

  lemma ClippedLength(h: Header, numBytes: int, position: nat)
    ensures Clipped(h.numBytes, numBytes, position) == Clipped(FileLength(h), numBytes, position)
  {}

  lemma WriteRefines(g: Geometry, w: FsWorld, file: nat, position: nat, bytes: seq<byte>, w': FsWorld)
    requires WorldInv(g, w) && MayUse(g, w, file) && w'.open == w.open
    requires Wrote(g, w.disk, w'.disk, w.open[file].hdr, position, bytes)
    ensures WorldInv(g, w')
    ensures var f, k := Files(g, w.disk), w.open[file].name;
      k in f && position + |bytes| <= |f[k]| && Files(g, w'.disk) == f[k := Splice(f[k], position, bytes)]
  {
    hide Consistent, NamedHandle, Files, Wrote, WellFormed, Splice;
    var k, h := w.open[file].name, w.open[file].hdr;
    assert Writes(g, w.disk, k, h, position, bytes, w'.disk);
    WriteFiles(g, w.disk, k, h, position, bytes, w'.disk);
    forall i | 0 <= i < |w.open| && w.open[i].live ensures NamedHandle(g, w'.disk, w.open[i].name, w.open[i].hdr) {
      WriteKeepsHandles(g, w.disk, k, h, position, bytes, w'.disk, w.open[i].name, w.open[i].hdr);
    }
  }

  lemma OpenGives(g: Geometry, w: FsWorld, k: CString, memory: Header, w': FsWorld)
    requires Consistent(g, w.disk) && OpensFile(g, w, k, memory, w')
    ensures w'.disk == w.disk && |w'.open| == |w.open| + 1 && w'.open[..|w.open|] == w.open
    ensures NamedHandle(g, w.disk, k, w'.open[|w.open|].hdr) && w'.open[|w.open|].name == k && k in Files(g, w.disk)
  {
    hide Consistent, Fetched, HeadOk, StoredNames, Files, Handle;
    FilesAt(g, w.disk, k);
    NamesStored(g, w.disk);
    FetchedHandle(g, w.disk, StoredNames(g, w.disk)[k], memory);
  }

  ghost predicate FsRun(g: Geometry, ws: seq<FsWorld>, calls: seq<Call>) {
    && |ws| == |calls| + 1
    && forall i :: 0 <= i < |calls| && Consistent(g, ws[i].disk) ==> FsStep(g, ws[i], calls[i], ws[i + 1])
  }

  /** Every run from a consistent disk, with nothing open yet, stays consistent; each of its
      calls is that call, with that answer, on a map from names to byte arrays; and a file opened
      at any point is a handle of its name's file at every later point until the name is
      removed. */
  lemma {:induction false} RunRefines(g: Geometry, ws: seq<FsWorld>, calls: seq<Call>, n: nat)
    requires FsRun(g, ws, calls) && n <= |calls| && Consistent(g, ws[0].disk) && ws[0].open == []
    ensures WorldInv(g, ws[n])
    ensures n < |calls| ==> WorldInv(g, ws[n + 1])
    ensures n < |calls| ==> FlatStep(Files(g, ws[n].disk), ws[n].open, calls[n], Files(g, ws[n + 1].disk))
  {
    hide Consistent, FsStep, FlatStep, Files, NamedHandle;
    if n > 0 { RunRefines(g, ws, calls, n - 1); }
    if n < |calls| { StepRefines(g, ws[n], calls[n], ws[n + 1]); }
  }

  /** No call of a stretch removes this name. */
  predicate NeverRemoved(calls: seq<Call>, k: CString) {
    forall i :: 0 <= i < |calls| && calls[i].RemoveCall? ==> NameKey(calls[i].name) != k
  }

  /** An open file stays open, and reads what its name stands for, for as long as no call
      removes that name. */
  lemma {:induction false} HandleOutlives(g: Geometry, ws: seq<FsWorld>, calls: seq<Call>, i: nat, j: nat, file: nat)
    requires FsRun(g, ws, calls) && i <= j <= |calls| && Consistent(g, ws[0].disk) && ws[0].open == []
    requires file < |ws[i].open| && ws[i].open[file].live && NeverRemoved(calls[i..j], ws[i].open[file].name)
    ensures file < |ws[j].open| && ws[j].open[file] == ws[i].open[file]
    ensures Consistent(g, ws[j].disk) && WellFormed(g, ws[j].disk, ws[i].open[file].hdr)
    ensures ws[i].open[file].name in Files(g, ws[j].disk)
    ensures FileBytes(g, ws[j].disk, ws[i].open[file].hdr) == Files(g, ws[j].disk)[ws[i].open[file].name]
  {
    hide Consistent, Files, NamedHandle, WellFormed, FileBytes, FsStep, FlatStep;
    RunRefines(g, ws, calls, j);
    if i < j {
      assert calls[i..j][..j - 1 - i] == calls[i..j - 1];
      HandleOutlives(g, ws, calls, i, j - 1, file);
      assert calls[i..j][j - 1 - i] == calls[j - 1];
      StaysOpen(g, ws[j - 1], calls[j - 1], ws[j], file);
    }
    HandleReads(g, ws[j].disk, ws[i].open[file].name, ws[i].open[file].hdr);
  }

  lemma StaysOpen(g: Geometry, w: FsWorld, call: Call, w': FsWorld, file: nat)
    requires Consistent(g, w.disk) && FsStep(g, w, call, w') && file < |w.open| && w.open[file].live
    requires call.RemoveCall? ==> NameKey(call.name) != w.open[file].name
    ensures file < |w'.open| && w'.open[file] == w.open[file]
  {
    hide Consistent, CreatesFitting, Removes, HeadOk, WellFormed, Wrote, Fetched, NameKey, FileBytes, FileLength,
         Requested, Clipped, CreateAnswer, StoredNames;
  }
}
