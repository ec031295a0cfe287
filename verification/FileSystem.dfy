/** filesys/filesys.cc: the operations that keep the free map, the directory and the files of
    the disk together. */
module FileSystems {
  import opened Machine
  import opened Bitmap
  import opened Storage
  import opened Layout
  import opened Allocation
  import opened Persistence
  import opened FileHdr
  import opened ByteArray
  import opened OpenFiles
  import opened Directories
  import opened Volume
  import opened FsSteps

  // ---- The free map in its file (userprog/bitmap.cc) ----------------------------------------

  method FetchMap(freeMap: BitMap, disk: Disk, file: OpenFile)
    requires freeMap.Valid() && 4 * freeMap.words.Length <= MAX_INT
    requires file.Valid() && disk.Valid() && disk.g == file.g && WellFormed(file.g, disk.data, file.hdr.View())
    requires freeMap.words as object != file.hdr.dataSectors
    modifies freeMap.words
    ensures freeMap.words[..] ==
      MapWords(Overlay(MapBytes(old(freeMap.words[..])), FileBytes(file.g, disk.data, file.hdr.View())))
    ensures MapLies(FileBytes(file.g, disk.data, file.hdr.View()), freeMap.words[..])
  {
    hide WellFormed, FileBytes, MapBytes, MapWords, Overlay, MapLies;
    OverlaidMapLies(MapBytes(freeMap.words[..]), FileBytes(file.g, disk.data, file.hdr.View()));
    var bytes := ReadOver(disk, file, MapBytes(freeMap.words[..]));
    var ws := MapWords(bytes);
    forall i | 0 <= i < freeMap.words.Length { freeMap.words[i] := ws[i]; }
    assert freeMap.words[..] == ws;
  }

  method WriteBackMap(freeMap: BitMap, disk: Disk, file: OpenFile)
    requires freeMap.Valid() && 4 * freeMap.words.Length <= MAX_INT
    requires file.Valid() && disk.Valid() && disk.g == file.g && WellFormed(file.g, disk.data, file.hdr.View())
    requires file.g.OffsetsFit()
    modifies disk
    ensures disk.Valid()
    ensures WroteTo(file.g, old(disk.data), disk.data, file.hdr.View(), MapBytes(freeMap.words[..]))
    ensures WellFormed(file.g, disk.data, file.hdr.View())
    ensures MapLies(FileBytes(file.g, disk.data, file.hdr.View()), freeMap.words[..])
  {
    hide WellFormed, MapBytes, WroteTo, MapLies, FileBytes;
    ghost var d, h := disk.data, file.hdr.View();
    WriteOver(disk, file, MapBytes(freeMap.words[..]));
    assert file.hdr.View() == h;
    WrittenMapLies(file.g, d, disk.data, h, freeMap.words[..]);
  }

  // ---- Format -------------------------------------------------------------------------------

  /** The assertions of the format hold: there is room for both root files, and their headers
      fit in their sectors. */
  predicate FormatFits(g: Geometry)
    requires g.Valid()
  {
    var ns0 := DivRoundUp(FreeMapFileSize(g), g.SectorSize());
    var ns1 := DivRoundUp(DirectoryFileSize(g), g.SectorSize());
    && DirectoryFileSize(g) <= MAX_INT
    && Answer(g, ns0, g.numSectors - 2) == Granted
    && Persists(g, ns0) && Persists(g, ns1)
    && 0 <= Need(g, ns0) <= g.numSectors - 2
    && Answer(g, ns1, g.numSectors - 2 - Need(g, ns0)) == Granted
  }

  lemma NachosFormats()
    ensures NACHOS.Valid() && NACHOS.OffsetsFit() && FormatFits(NACHOS)
  {}

  lemma {:induction false} ClearCount(n: nat)
    requires n >= 2
    ensures |FreeList({FREE_MAP_SECTOR, DIRECTORY_SECTOR}, n)| == n - 2
  {
    if n > 2 { ClearCount(n - 1); }
    else { assert FreeList({FREE_MAP_SECTOR, DIRECTORY_SECTOR}, 1) == []; }
  }

  /** The intermediate states of the format. */
  datatype FormatTrace = FormatTrace(mapHdr: Header, dirHdr: Header, d1: Image, m1: set<int>, d2: Image, laid: Image)

  ghost predicate Formats(g: Geometry, d: Image, c: FormatTrace, words: seq<bv32>)
    requires g.Valid()
  {
    var roots := {FREE_MAP_SECTOR, DIRECTORY_SECTOR};
    && ImageOk(g, d) && ImageOk(g, c.d1) && ImageOk(g, c.d2)
    && |c.mapHdr.direct| == g.numDirect && |c.dirHdr.direct| == g.numDirect
    && FreeMapFileSize(g) <= MAX_INT && DirectoryFileSize(g) <= MAX_INT
    && Persists(g, c.mapHdr.numSectors) && Persists(g, c.dirHdr.numSectors)
    && BITS_IN_WORD * |words| == g.numSectors
    && Granting(g, d, roots, FreeMapFileSize(g), c.d1, c.m1, c.mapHdr)
    && Granting(g, c.d1, c.m1, DirectoryFileSize(g), c.d2, Marked(words, g.numSectors), c.dirHdr)
    && c.laid == c.d2[FREE_MAP_SECTOR := Stored(g, c.mapHdr)][DIRECTORY_SECTOR := Stored(g, c.dirHdr)]
  }

  /** A file one allocation made is still there after the next. */
  lemma LaidBefore(g: Geometry, d1: Image, m1: set<int>, size: int32, d2: Image, m2: set<int>, h: Header, h2: Header)
    requires g.Valid() && ImageOk(g, d1) && ImageOk(g, d2) && |h2.direct| == g.numDirect
    requires WellFormed(g, d1, h) && Elements(FileSectors(g, d1, h)) <= m1
    requires Granting(g, d1, m1, size, d2, m2, h2)
    ensures WellFormed(g, d2, h) && FileSectors(g, d2, h) == FileSectors(g, d1, h)
  {
    GrantedLeaves(g, d1, m1, size, d2, m2, h2);
    SectorsInRange(g, d1, h);
    hide FileSectors, WellFormed, Granting, FileBytes;
    assert forall x :: x in FileSectors(g, d1, h) ==> x as int in Elements(FileSectors(g, d1, h));
    SameFile(g, d1, d2, h);
  }

  /** Writing the two header sectors moves no file that does not use them. */
  lemma LaidHeaders(g: Geometry, d: Image, d': Image, h: Header)
    requires WellFormed(g, d, h) && ImageOk(g, d')
    requires FREE_MAP_SECTOR !in FileSectors(g, d, h) && DIRECTORY_SECTOR !in FileSectors(g, d, h)
    requires forall x :: 2 <= x < |d| && x < |d'| ==> d'[x] == d[x]
    ensures WellFormed(g, d', h) && FileSectors(g, d', h) == FileSectors(g, d, h)
  {
    SectorsInRange(g, d, h);
    ImageSized(g, d, h);
    hide FileSectors, WellFormed, FileBytes;
    SameFile(g, d, d', h);
  }

  /** The root files lie where the format put them. */
  lemma FormatLaid(g: Geometry, d: Image, c: FormatTrace, words: seq<bv32>)
    requires g.Valid() && Formats(g, d, c, words)
    ensures ImageOk(g, c.laid)
    ensures WellFormed(g, c.laid, c.mapHdr) && WellFormed(g, c.laid, c.dirHdr)
    ensures c.laid[FREE_MAP_SECTOR] == Stored(g, c.mapHdr) && c.laid[DIRECTORY_SECTOR] == Stored(g, c.dirHdr)
    ensures var s0, s1 := Elements(FileSectors(g, c.laid, c.mapHdr)), Elements(FileSectors(g, c.laid, c.dirHdr));
      && s0 !! {FREE_MAP_SECTOR, DIRECTORY_SECTOR} && s1 !! {FREE_MAP_SECTOR, DIRECTORY_SECTOR} && s0 !! s1
      && Marked(words, g.numSectors) == {FREE_MAP_SECTOR, DIRECTORY_SECTOR} + s0 + s1
    ensures c.mapHdr.numBytes == FreeMapFileSize(g) && c.dirHdr.numBytes == DirectoryFileSize(g)
    ensures Persists(g, c.mapHdr.numSectors) && Persists(g, c.dirHdr.numSectors)
    ensures BITS_IN_WORD * |words| == g.numSectors
  {
    var roots, m2 := {FREE_MAP_SECTOR, DIRECTORY_SECTOR}, Marked(words, g.numSectors);
    var size0, size1 := FreeMapFileSize(g), DirectoryFileSize(g);
    hide Granting, FileSectors, WellFormed, FileBytes, FreeSectors, Stored, Marked, Persists;
    GrantedMarks(g, d, roots, size0, c.d1, c.m1, c.mapHdr);
    GrantedFile(g, d, roots, size0, c.d1, c.m1, c.mapHdr);
    GrantedMarks(g, c.d1, c.m1, size1, c.d2, m2, c.dirHdr);
    GrantedFile(g, c.d1, c.m1, size1, c.d2, m2, c.dirHdr);
    LaidBefore(g, c.d1, c.m1, size1, c.d2, m2, c.mapHdr, c.dirHdr);
    NotElement(FileSectors(g, c.d2, c.mapHdr), roots);
    NotElement(FileSectors(g, c.d2, c.dirHdr), roots);
    LaidHeaders(g, c.d2, c.laid, c.mapHdr);
    LaidHeaders(g, c.d2, c.laid, c.dirHdr);
  }

  lemma NotElement(s: seq<int>, m: set<int>)
    requires Elements(s) !! m
    ensures forall x :: x in m ==> x !in s
  {
    assert forall x :: x in s ==> x in Elements(s);
  }

  lemma RootHead(g: Geometry, d: Image, h: Header, x: int, size: int)
    requires WellFormed(g, d, h) && Persists(g, h.numSectors) && h.numBytes == size
    requires 0 <= x < |d| && d[x] == Stored(g, h) && x !in Elements(FileSectors(g, d, h))
    ensures HeadOk(g, d, x) && Region(g, d, x) == {x} + Elements(FileSectors(g, d, h))
    ensures HeaderAt(g, d, x).numBytes == size
  {
    hide WellFormed, FileSectors, HeaderAt, Stored, Persists;
    StoredHead(g, d, h, x);
  }

  lemma FormatRooted(g: Geometry, d: Image, c: FormatTrace, words: seq<bv32>)
    requires g.Valid() && Formats(g, d, c, words)
    ensures Rooted(g, c.laid, {FREE_MAP_SECTOR, DIRECTORY_SECTOR})
    ensures Occupied(g, c.laid, {FREE_MAP_SECTOR, DIRECTORY_SECTOR}) == Marked(words, g.numSectors)
  {
    hide WellFormed, FileSectors, HeaderAt, Stored, Persists, Granting, Marked, HeadOk, Region, Formats, Rooted,
         Occupied, Elements, Need, SubBlocks;
    FormatLaid(g, d, c, words);
    ImageSized(g, c.laid, c.mapHdr);
    SomeSectors(g, c.laid, c.mapHdr);
    RootHead(g, c.laid, c.mapHdr, FREE_MAP_SECTOR, FreeMapFileSize(g));
    RootHead(g, c.laid, c.dirHdr, DIRECTORY_SECTOR, DirectoryFileSize(g));
    RootedFrom(g, c.laid);
  }

  lemma SomeSectors(g: Geometry, d: Image, h: Header)
    requires WellFormed(g, d, h)
    ensures |d| >= 2
  {}

  lemma RootedFrom(g: Geometry, d: Image)
    requires HeadOk(g, d, FREE_MAP_SECTOR) && HeadOk(g, d, DIRECTORY_SECTOR)
    requires Region(g, d, FREE_MAP_SECTOR) !! Region(g, d, DIRECTORY_SECTOR)
    requires HeaderAt(g, d, FREE_MAP_SECTOR).numBytes == FreeMapFileSize(g)
    requires HeaderAt(g, d, DIRECTORY_SECTOR).numBytes == DirectoryFileSize(g)
    ensures Rooted(g, d, {FREE_MAP_SECTOR, DIRECTORY_SECTOR})
    ensures Occupied(g, d, {FREE_MAP_SECTOR, DIRECTORY_SECTOR}) ==
      Region(g, d, FREE_MAP_SECTOR) + Region(g, d, DIRECTORY_SECTOR)
  {
    hide HeadOk, Region, HeaderAt;
    OccupiedBy(g, d);
  }

  lemma OccupiedBy(g: Geometry, d: Image)
    requires HeadOk(g, d, FREE_MAP_SECTOR) && HeadOk(g, d, DIRECTORY_SECTOR)
    ensures Occupied(g, d, {FREE_MAP_SECTOR, DIRECTORY_SECTOR}) ==
      Region(g, d, FREE_MAP_SECTOR) + Region(g, d, DIRECTORY_SECTOR)
  {
    hide HeadOk, Region;
    var roots := {FREE_MAP_SECTOR, DIRECTORY_SECTOR};
    assert FREE_MAP_SECTOR in roots && DIRECTORY_SECTOR in roots;
  }

  /** A formatted disk: consistent, no files, and exactly the root files' sectors marked. */
  lemma FormatKeeps(g: Geometry, d: Image, c: FormatTrace, words: seq<bv32>, mapHdr: Header, dirHdr: Header,
                    d1: Image, t: seq<DirEntry>, d': Image)
    requires g.Valid() && Formats(g, d, c, words)
    requires HeadOk(g, c.laid, FREE_MAP_SECTOR) && Handle(g, c.laid, FREE_MAP_SECTOR, mapHdr)
    requires HeadOk(g, c.laid, DIRECTORY_SECTOR) && Handle(g, c.laid, DIRECTORY_SECTOR, dirHdr)
    requires |t| == g.numDirEntries && forall i :: 0 <= i < |t| ==> !t[i].inUse
    requires WroteTo(g, c.laid, d1, mapHdr, MapBytes(words)) && WroteTo(g, d1, d', dirHdr, EncodeTable(t))
    ensures Consistent(g, d') && Files(g, d') == map[]
    ensures HeadOk(g, d', FREE_MAP_SECTOR) && Handle(g, d', FREE_MAP_SECTOR, mapHdr)
    ensures HeadOk(g, d', DIRECTORY_SECTOR) && Handle(g, d', DIRECTORY_SECTOR, dirHdr)
  {
    hide *;
    var heads := {FREE_MAP_SECTOR, DIRECTORY_SECTOR};
    EmptyNames(t);
    FormatLaid(g, d, c, words);
    FormatRooted(g, d, c, words);
    RootedFacts(g, c.laid, heads);
    RootedHeads(g, c.laid, heads);
    KeptSelf(g, c.laid, heads);
    RootsReady(g, c.laid, c.laid, heads, mapHdr, dirHdr, t, words);
    BothWritten(g, c.laid, d1, d', heads, FREE_MAP_SECTOR, mapHdr, MapBytes(words),
                DIRECTORY_SECTOR, dirHdr, EncodeTable(t));
    RootedHeads(g, d', heads);
    Committed(g, d', heads, t, words);
    NamesStored(g, d');
    forall k: CString ensures k !in Files(g, d') { FilesAt(g, d', k); }
    HandleKept(g, c.laid, d', heads, FREE_MAP_SECTOR, mapHdr);
    HandleKept(g, c.laid, d', heads, DIRECTORY_SECTOR, dirHdr);
  }

  lemma EmptyNames(t: seq<DirEntry>)
    requires forall i :: 0 <= i < |t| ==> !t[i].inUse
    ensures UniqueNames(t) && NameMap(t) == map[] && OwnHeads(NameMap(t))
    ensures Heads(NameMap(t)) == {FREE_MAP_SECTOR, DIRECTORY_SECTOR}
  {
    assert KeysIn(t) == {};
  }

  // ---- Loading the root files -----------------------------------------------------------------

  lemma LoadedWords(g: Geometry, d: Image, h: Header, before: seq<bv32>)
    requires RootOk(g, d) && Handle(g, d, FREE_MAP_SECTOR, h) && BITS_IN_WORD * |before| == g.numSectors
    ensures WellFormed(g, d, h) && MapWords(Overlay(MapBytes(before), FileBytes(g, d, h))) == StoredWords(g, d)
    ensures 4 * |before| <= MAX_INT
  {
    RootImage(g, d);
    RootSizes(g, d);
    hide HeadOk, WellFormed, HeaderAt, Content, MapWords, MapBytes, Handle, FileBytes;
    HandleFile(g, d, FREE_MAP_SECTOR, h);
  }

  lemma LoadedTable(g: Geometry, d: Image, h: Header, before: seq<DirEntry>)
    requires RootOk(g, d) && Handle(g, d, DIRECTORY_SECTOR, h) && |before| == g.numDirEntries
    ensures WellFormed(g, d, h) && DecodeTable(Overlay(EncodeTable(before), FileBytes(g, d, h))) == StoredTable(g, d)
    ensures ENTRY_SIZE * |before| <= MAX_INT
  {
    DirectorySize(g, d);
    RootSizes(g, d);
    hide HeadOk, WellFormed, HeaderAt, Content, DecodeTable, EncodeTable, Handle, FileBytes;
    HandleFile(g, d, DIRECTORY_SECTOR, h);
  }

  lemma DirectorySize(g: Geometry, d: Image)
    requires RootOk(g, d)
    ensures ENTRY_SIZE * g.numDirEntries <= MAX_INT
  {
    hide HeadOk;
  }

  /** ASSERT(hdr->Allocate(freeMap, size)) */
  method AllocateRoot(disk: Disk, freeMap: BitMap, hdr: FileHeader, size: int32)
    requires hdr.Valid() && disk.Valid() && hdr.g == disk.g && freeMap.Valid() && freeMap.numBits == disk.g.numSectors
    requires freeMap.words as object != hdr.dataSectors
    requires Answer(disk.g, DivRoundUp(size, disk.g.SectorSize()), |FreeSectors(disk.g, freeMap.Bits())|) == Granted
    modifies hdr, hdr.dataSectors, freeMap.words, disk
    ensures disk.Valid()
    ensures Granting(disk.g, old(disk.data), old(freeMap.Bits()), size, disk.data, freeMap.Bits(), hdr.View())
  {
    hide Granting, Answer, FreeSectors, Marked;
    var granted := hdr.Allocate(freeMap, disk, size);
    assert granted == Granted;
  }

  method AllocateRoots(disk: Disk, freeMap: BitMap, mapHdr: FileHeader, dirHdr: FileHeader)
    returns (ghost d1: Image, ghost m1: set<int>)
    requires disk.Valid() && FormatFits(disk.g) && freeMap.Valid() && freeMap.numBits == disk.g.numSectors
    requires freeMap.Bits() == {FREE_MAP_SECTOR, DIRECTORY_SECTOR}
    requires mapHdr.Valid() && mapHdr.g == disk.g && dirHdr.Valid() && dirHdr.g == disk.g && mapHdr != dirHdr
    requires freeMap.words as object != mapHdr.dataSectors && freeMap.words as object != dirHdr.dataSectors
    requires mapHdr.dataSectors != dirHdr.dataSectors
    modifies mapHdr, mapHdr.dataSectors, dirHdr, dirHdr.dataSectors, freeMap.words, disk
    ensures disk.Valid() && ImageOk(disk.g, d1)
    ensures 0 <= FreeMapFileSize(disk.g) <= MAX_INT && 0 <= DirectoryFileSize(disk.g) <= MAX_INT
    ensures Granting(disk.g, old(disk.data), {FREE_MAP_SECTOR, DIRECTORY_SECTOR}, FreeMapFileSize(disk.g),
                     d1, m1, mapHdr.View())
    ensures Granting(disk.g, d1, m1, DirectoryFileSize(disk.g), disk.data, freeMap.Bits(), dirHdr.View())
  {
    hide FormatFits, Granting, Answer, FreeSectors, Marked, FreeMapFileSize, DirectoryFileSize;
    ghost var g, d := disk.g, disk.data;
    FormatSizes(disk.g);
    AllocateRoot(disk, freeMap, mapHdr, FreeMapFileSize(disk.g));
    d1, m1 := disk.data, freeMap.Bits();
    ghost var h := mapHdr.View();
    SecondFits(g, d, d1, m1, h);
    AllocateRoot(disk, freeMap, dirHdr, DirectoryFileSize(disk.g));
    assert mapHdr.View() == h;
  }

  /** Mark the root sectors, allocate both root files, write their headers: the first half of
      the format. */
  method LayRoots(disk: Disk) returns (freeMap: BitMap, ghost c: FormatTrace)
    requires disk.Valid() && FormatFits(disk.g)
    modifies disk
    ensures disk.Valid() && fresh(freeMap) && fresh(freeMap.words)
    ensures freeMap.Valid() && freeMap.numBits == disk.g.numSectors
    ensures Formats(disk.g, old(disk.data), c, freeMap.words[..]) && disk.data == c.laid
  {
    hide FormatFits, Granting, Answer, FreeSectors, Marked, Formats, FreeMapFileSize, DirectoryFileSize, Stored;
    ghost var g, d := disk.g, disk.data;
    freeMap := new BitMap(disk.g.numSectors);
    var mapHdr := new FileHeader(disk.g);
    var dirHdr := new FileHeader(disk.g);
    freeMap.Mark(FREE_MAP_SECTOR);
    freeMap.Mark(DIRECTORY_SECTOR);
    ghost var d1, m1;
    d1, m1 := AllocateRoots(disk, freeMap, mapHdr, dirHdr);
    ghost var d2, h0, h1 := disk.data, mapHdr.View(), dirHdr.View();
    mapHdr.WriteBack(disk, FREE_MAP_SECTOR);
    dirHdr.WriteBack(disk, DIRECTORY_SECTOR);
    c := FormatTrace(h0, h1, d1, m1, d2, disk.data);
    FormatsSo(g, d, c, freeMap.words[..]);
  }

  lemma FormatsSo(g: Geometry, d: Image, c: FormatTrace, words: seq<bv32>)
    requires g.Valid() && FormatFits(g) && ImageOk(g, d) && ImageOk(g, c.d1) && ImageOk(g, c.d2)
    requires |c.mapHdr.direct| == g.numDirect && |c.dirHdr.direct| == g.numDirect
    requires g.numSectors <= BITS_IN_WORD * |words| < g.numSectors + BITS_IN_WORD
    requires 0 <= FreeMapFileSize(g) <= MAX_INT && 0 <= DirectoryFileSize(g) <= MAX_INT
    requires Granting(g, d, {FREE_MAP_SECTOR, DIRECTORY_SECTOR}, FreeMapFileSize(g), c.d1, c.m1, c.mapHdr)
    requires Granting(g, c.d1, c.m1, DirectoryFileSize(g), c.d2, Marked(words, g.numSectors), c.dirHdr)
    requires c.laid == c.d2[FREE_MAP_SECTOR := Stored(g, c.mapHdr)][DIRECTORY_SECTOR := Stored(g, c.dirHdr)]
    ensures Formats(g, d, c, words)
  {
    hide Granting, Marked, Answer, Need, DivRoundUp, Persists, Stored;
    GrantedSize(g, d, {FREE_MAP_SECTOR, DIRECTORY_SECTOR}, FreeMapFileSize(g), c.d1, c.m1, c.mapHdr);
    GrantedSize(g, c.d1, c.m1, DirectoryFileSize(g), c.d2, Marked(words, g.numSectors), c.dirHdr);
  }

  /** The count the first allocation starts from, and the one it leaves to the second. */
  lemma SecondFits(g: Geometry, d: Image, d1: Image, m1: set<int>, h: Header)
    requires g.Valid() && FormatFits(g) && ImageOk(g, d) && |h.direct| == g.numDirect
    requires 0 <= FreeMapFileSize(g) <= MAX_INT && 0 <= DirectoryFileSize(g) <= MAX_INT
    requires Granting(g, d, {FREE_MAP_SECTOR, DIRECTORY_SECTOR}, FreeMapFileSize(g), d1, m1, h)
    ensures Answer(g, DivRoundUp(DirectoryFileSize(g), g.SectorSize()), |FreeSectors(g, m1)|) == Granted
  {
    hide Granting, Answer, Need, DivRoundUp, Persists, FreeList;
    ClearCount(g.numSectors);
    ClearAfter(g, d, {FREE_MAP_SECTOR, DIRECTORY_SECTOR}, FreeMapFileSize(g), d1, m1, h);
  }

  lemma FormatSizes(g: Geometry)
    requires g.Valid() && FormatFits(g)
    ensures 0 <= FreeMapFileSize(g) <= MAX_INT && 0 <= DirectoryFileSize(g) <= MAX_INT
    ensures Answer(g, DivRoundUp(FreeMapFileSize(g), g.SectorSize()),
                   |FreeSectors(g, {FREE_MAP_SECTOR, DIRECTORY_SECTOR})|) == Granted
  {
    hide Answer, Need, DivRoundUp, Persists, FreeList;
    ClearCount(g.numSectors);
  }

  lemma ClearAfter(g: Geometry, d: Image, m: set<int>, size: int32, d': Image, m': set<int>, h: Header)
    requires g.Valid() && ImageOk(g, d) && |h.direct| == g.numDirect && Granting(g, d, m, size, d', m', h)
    ensures |FreeSectors(g, m')| == |FreeSectors(g, m)| - Need(g, DivRoundUp(size, g.SectorSize()))
  {
    hide AllocImage, Points, FreeList;
    FreeListTakeMany(m, g.numSectors, Need(g, DivRoundUp(size, g.SectorSize())));
  }

  lemma GrantedSize(g: Geometry, d: Image, m: set<int>, size: int32, d': Image, m': set<int>, h: Header)
    requires g.Valid() && ImageOk(g, d) && |h.direct| == g.numDirect && Granting(g, d, m, size, d', m', h)
    ensures h.numSectors == DivRoundUp(size, g.SectorSize())
  {
    hide AllocImage, Points, FreeSectors;
  }

  lemma RootsThere(g: Geometry, d: Image)
    requires Consistent(g, d)
    ensures RootOk(g, d) && HeadOk(g, d, FREE_MAP_SECTOR) && HeadOk(g, d, DIRECTORY_SECTOR)
  {
    hide HeadOk;
  }

  /** Opening a file of the disk. */
  method OpenHead(disk: Disk, sector: int) returns (file: OpenFile, ghost memory: Header)
    requires disk.Valid() && HeadOk(disk.g, disk.data, sector)
    ensures file.Valid() && file.g == disk.g && fresh(file) && fresh(file.hdr) && fresh(file.hdr.dataSectors)
    ensures Handle(disk.g, disk.data, sector, file.hdr.View())
    ensures file.seekPosition == 0
    ensures |memory.direct| == disk.g.numDirect && 0 <= sector < |disk.data| && disk.g.Valid()
    ensures |disk.data[sector]| == disk.g.SectorSize() && |file.hdr.View().direct| == disk.g.numDirect
    ensures file.hdr.View() == Fetched(disk.g, memory, disk.data[sector])
  {
    ImageSize(disk.g, disk.data, sector);
    hide HeadOk, Handle, Fetched;
    file := new OpenFile(disk, sector);
    memory :| |memory.direct| == disk.g.numDirect && file.hdr.View() == Fetched(disk.g, memory, disk.data[sector]);
    FetchedHandle(disk.g, disk.data, sector, memory);
  }

  method FormatDisk(disk: Disk) returns (openMap: OpenFile, openDirectory: OpenFile)
    requires disk.Valid() && disk.g.OffsetsFit() && FormatFits(disk.g)
    modifies disk
    ensures disk.Valid()
    ensures openMap.Valid() && openMap.g == disk.g && openDirectory.Valid() && openDirectory.g == disk.g
    ensures fresh(openMap) && fresh(openMap.hdr) && fresh(openMap.hdr.dataSectors)
    ensures fresh(openDirectory) && fresh(openDirectory.hdr) && fresh(openDirectory.hdr.dataSectors)
    ensures Consistent(disk.g, disk.data) && Files(disk.g, disk.data) == map[]
    ensures Handle(disk.g, disk.data, FREE_MAP_SECTOR, openMap.hdr.View())
    ensures Handle(disk.g, disk.data, DIRECTORY_SECTOR, openDirectory.hdr.View())
  {
    hide FormatFits, Granting, Marked, Formats, FreeMapFileSize, DirectoryFileSize, Stored, HeadOk, Handle,
         Consistent, Files, WellFormed, EncodeTable, MapBytes, Rooted, Wrote, Occupied;
    ghost var g, d := disk.g, disk.data;
    var freeMap;
    ghost var c;
    freeMap, c := LayRoots(disk);
    FormatReady(g, d, c, freeMap.words[..]);
    var directory := new Directory(disk.g.numDirEntries);
    ghost var memory;
    openMap, memory := OpenHead(disk, FREE_MAP_SECTOR);
    openDirectory, memory := OpenHead(disk, DIRECTORY_SECTOR);
    ghost var h0, h1 := openMap.hdr.View(), openDirectory.hdr.View();
    HandleFile(g, disk.data, FREE_MAP_SECTOR, h0);
    ghost var words, t := freeMap.words[..], directory.table[..];
    WriteBackMap(freeMap, disk, openMap);
    ghost var d1 := disk.data;
    FormatMiddle(g, d, c, words, h0, h1, d1);
    directory.WriteBack(disk, openDirectory);
    FormatKeeps(g, d, c, words, h0, h1, d1, t, disk.data);
  }

  lemma FormatReady(g: Geometry, d: Image, c: FormatTrace, words: seq<bv32>)
    requires g.Valid() && Formats(g, d, c, words)
    ensures HeadOk(g, c.laid, FREE_MAP_SECTOR) && HeadOk(g, c.laid, DIRECTORY_SECTOR)
    ensures 4 * |words| <= MAX_INT && ENTRY_SIZE * g.numDirEntries <= MAX_INT
  {
    FormatRooted(g, d, c, words);
    RootedFacts(g, c.laid, {FREE_MAP_SECTOR, DIRECTORY_SECTOR});
    DirectorySize(g, c.laid);
    hide HeadOk, Granting, Marked;
  }

  /** Once the map is written, the directory is still where its handle says. */
  lemma FormatMiddle(g: Geometry, d: Image, c: FormatTrace, words: seq<bv32>, mapHdr: Header, dirHdr: Header, d1: Image)
    requires g.Valid() && Formats(g, d, c, words)
    requires HeadOk(g, c.laid, FREE_MAP_SECTOR) && Handle(g, c.laid, FREE_MAP_SECTOR, mapHdr)
    requires HeadOk(g, c.laid, DIRECTORY_SECTOR) && Handle(g, c.laid, DIRECTORY_SECTOR, dirHdr)
    requires WroteTo(g, c.laid, d1, mapHdr, MapBytes(words))
    ensures WellFormed(g, d1, dirHdr)
  {
    hide WellFormed, Formats, HeadOk, Handle, WroteTo, Rooted, HeaderAt, Region, Occupied, Content, RootOk, FileSectors;
    FormatLaid(g, d, c, words);
    FormatRooted(g, d, c, words);
    RootWritten(g, c.laid, d1, {FREE_MAP_SECTOR, DIRECTORY_SECTOR}, mapHdr, dirHdr, words);
  }

  /** With the map written, the directory can be. */
  lemma RootWritten(g: Geometry, d: Image, d1: Image, heads: set<int>, mapHdr: Header, dirHdr: Header, words: seq<bv32>)
    requires Rooted(g, d, heads) && BITS_IN_WORD * |words| == g.numSectors
    requires HeadOk(g, d, FREE_MAP_SECTOR) && Handle(g, d, FREE_MAP_SECTOR, mapHdr)
    requires HeadOk(g, d, DIRECTORY_SECTOR) && Handle(g, d, DIRECTORY_SECTOR, dirHdr)
    requires WroteTo(g, d, d1, mapHdr, MapBytes(words))
    ensures WellFormed(g, d1, dirHdr)
  {
    RootSizes(g, d);
    hide WellFormed, HeadOk, Handle, WroteTo, HeaderAt, Region, Occupied, Content, FileSectors, MapBytes;
    WriteRoot(g, d, d1, heads, FREE_MAP_SECTOR, mapHdr, MapBytes(words));
    OneKept(g, d, d1, heads, DIRECTORY_SECTOR);
    KeptHandle(g, d, d1, DIRECTORY_SECTOR, dirHdr);
    HandleFile(g, d1, DIRECTORY_SECTOR, dirHdr);
  }

  class FileSystem {
    const g: Geometry
    const disk: Disk
    const freeMapFile: OpenFile
    const directoryFile: OpenFile

    /** The disk is consistent and the two root files are open on it. */
    ghost predicate Valid()
      reads disk, freeMapFile, freeMapFile.hdr, freeMapFile.hdr.dataSectors,
        directoryFile, directoryFile.hdr, directoryFile.hdr.dataSectors
    {
      && Wired()
      && Consistent(g, disk.data)
      && Handle(g, disk.data, FREE_MAP_SECTOR, freeMapFile.hdr.View())
      && Handle(g, disk.data, DIRECTORY_SECTOR, directoryFile.hdr.View())
    }

    ghost predicate Wired()
      reads disk, freeMapFile, freeMapFile.hdr, directoryFile, directoryFile.hdr
    {
      && disk.Valid() && disk.g == g && g.OffsetsFit()
      && freeMapFile.Valid() && freeMapFile.g == g && directoryFile.Valid() && directoryFile.g == g
    }

    /** Format an arbitrary disk, or open the root files of one that was formatted before. */
    constructor (disk: Disk, format: bool)
      requires disk.Valid() && disk.g.OffsetsFit()
      requires format ==> FormatFits(disk.g)
      requires !format ==> Consistent(disk.g, disk.data)
      modifies disk
      ensures Valid() && this.disk == disk
      ensures fresh(freeMapFile) && fresh(freeMapFile.hdr) && fresh(freeMapFile.hdr.dataSectors)
      ensures fresh(directoryFile) && fresh(directoryFile.hdr) && fresh(directoryFile.hdr.dataSectors)
      ensures format ==> Files(g, disk.data) == map[]
      ensures !format ==> disk.data == old(disk.data)
    {
      hide Handle, Consistent, Files, FormatFits, HeadOk;
      var openMap, openDirectory;
      if format {
        openMap, openDirectory := FormatDisk(disk);
      } else {
        RootsThere(disk.g, disk.data);
        ghost var memory;
        openMap, memory := OpenHead(disk, FREE_MAP_SECTOR);
        openDirectory, memory := OpenHead(disk, DIRECTORY_SECTOR);
      }
      g, this.disk := disk.g, disk;
      freeMapFile, directoryFile := openMap, openDirectory;
    }

    method LoadMap() returns (freeMap: BitMap)
      requires Valid()
      ensures fresh(freeMap) && fresh(freeMap.words) && freeMap.Valid() && freeMap.numBits == g.numSectors
      ensures freeMap.words[..] == StoredWords(g, disk.data) && freeMap.Bits() == StoredMarks(g, disk.data)
    {
      hide Handle, StoredWords, StoredTable, UniqueNames, OwnHeads, Disjoint, Occupied, StoredNames, RootOk, MapWords,
           MapBytes, Overlay, FileBytes, WellFormed, Marked;
      ghost var d, h := disk.data, freeMapFile.hdr.View();
      freeMap := new BitMap(g.numSectors);
      LoadedWords(g, d, h, freeMap.words[..]);
      FetchMap(freeMap, disk, freeMapFile);
    }

    method LoadDirectory() returns (directory: Directory)
      requires Valid()
      ensures fresh(directory) && fresh(directory.table) && directory.Valid() && directory.tableSize == g.numDirEntries
      ensures directory.table[..] == StoredTable(g, disk.data) && ENTRY_SIZE * directory.tableSize <= MAX_INT
    {
      hide Handle, StoredWords, StoredTable, UniqueNames, OwnHeads, Disjoint, Occupied, StoredNames, RootOk,
           DecodeTable, EncodeTable, Overlay, FileBytes, WellFormed, Marked;
      ghost var d, h := disk.data, directoryFile.hdr.View();
      directory := new Directory(g.numDirEntries);
      LoadedTable(g, d, h, directory.table[..]);
      directory.FetchFrom(disk, directoryFile);
    }

    /** The second half of a Create that got its sectors: the header, the directory and the map
        go to the disk. */
    method FlushCreate(name: CString, size: int32, hdr: FileHeader, sector: int32, directory: Directory,
                       freeMap: BitMap, ghost d: Image)
      returns (ghost c: Trace)
      requires Wired() && Consistent(g, d)
      requires Handle(g, d, FREE_MAP_SECTOR, freeMapFile.hdr.View())
      requires Handle(g, d, DIRECTORY_SECTOR, directoryFile.hdr.View())
      requires CreateAnswer(g, d, name, size) == Granted && sector == HeaderSector(g, d)
      requires hdr.Valid() && hdr.g == g && freeMap.Valid() && freeMap.numBits == g.numSectors
      requires directory.Valid() && directory.tableSize == g.numDirEntries && FreeSlot(StoredTable(g, d)) >= 0
      requires directory.table[..] == Added(StoredTable(g, d), FreeSlot(StoredTable(g, d)), name, sector)
      requires Granting(g, d, StoredMarks(g, d) + {sector}, size, disk.data, freeMap.Bits(), hdr.View())
      modifies disk
      ensures Wired() && Creates(g, d, name, size, c, disk.data)
    {
      hide Handle, StoredWords, StoredTable, StoredMarks, StoredNames, Consistent, RootOk, HeadOk, FreeSlot, Added,
           EncodeTable, MapBytes, Granting, WellFormed, Wrote, Marked, Stored, CreateAnswer, HeaderSector, WroteTo,
           Creates;
      ghost var filled, h, h0, h1 := disk.data, hdr.View(), freeMapFile.hdr.View(), directoryFile.hdr.View();
      ghost var words, t := freeMap.words[..], directory.table[..];
      hdr.WriteBack(disk, sector);
      ghost var laid := disk.data;
      RootsThere(g, d);
      LaidReady(g, d, sector, size, filled, freeMap.Bits(), h, h0, h1);
      directory.WriteBack(disk, directoryFile);
      ghost var flushed := disk.data;
      FlushReady(g, laid, flushed, Heads(StoredNames(g, d)), h0, h1, t);
      WriteBackMap(freeMap, disk, freeMapFile);
      c := Trace(h, filled, laid, flushed, words, h0, h1);
      CreatesSo(g, d, name, size, c, disk.data, sector, t);
    }

    /** A file of the given size, all zero, under a name of its own. Refused is FALSE; Fault is
        the abort inside Allocate. */
    method Create(name: CString, initialSize: int32) returns (outcome: Outcome)
      requires Valid()
      modifies disk
      ensures Wired()
      ensures outcome == CreateAnswer(g, old(disk.data), name, initialSize)
      ensures NameKey(name) in old(Files(g, disk.data)) ==> outcome == Refused
      ensures outcome == Refused ==> disk.data == old(disk.data) && Valid()
      ensures outcome == Granted ==> exists c: Trace :: Creates(g, old(disk.data), name, initialSize, c, disk.data)
      ensures outcome == Granted ==>
        (Consistent(g, disk.data) <==> Persists(g, DivRoundUp(initialSize, g.SectorSize())))
      ensures outcome == Granted && Consistent(g, disk.data) ==> Valid()
      ensures outcome == Refused || (outcome == Granted && Consistent(g, disk.data)) ==>
        Performs(g, old(disk.data), CreateCall(name, initialSize, outcome == Granted), disk.data, [])
      ensures outcome == Granted && Consistent(g, disk.data) ==>
        Files(g, disk.data) ==
        old(Files(g, disk.data))[NameKey(name) := seq(if initialSize < 0 then 0 else initialSize, _ => 0)]
    {
      hide Handle, StoredWords, StoredTable, StoredMarks, StoredNames, Consistent, RootOk, HeadOk, FreeSlot, Added,
           Granting, Marked, CreateAnswer, HeaderSector, Creates, Files, Answer, NameKey, FreeList, FreeSectors,
           Persists, IndexOf, NameMap, DivRoundUp;
      ghost var d := disk.data;
      CreateCases(g, d, name, initialSize);
      FilesAt(g, d, NameKey(name));
      RootsThere(g, d);
      var directory := LoadDirectory();
      var found := directory.Find(name);
      ghost var refused := CreateCall(name, initialSize, false);
      if found != -1 {
        Unchanged(g, d, refused);
        return Refused;
      }
      var freeMap := LoadMap();
      var ok, sector := Reserve(name, directory, freeMap);
      if !ok {
        Unchanged(g, d, refused);
        return Refused;
      }
      var hdr := new FileHeader(g);
      outcome := hdr.Allocate(freeMap, disk, initialSize);
      if outcome == Granted {
        ghost var c := FlushCreate(name, initialSize, hdr, sector, directory, freeMap, d);
        Created(g, d, name, initialSize, c, disk.data, freeMapFile.hdr.View(), directoryFile.hdr.View());
        if Consistent(g, disk.data) { CreatePerformed(g, d, name, initialSize, c, disk.data); }
      } else if outcome == Refused {
        Unchanged(g, d, refused);
      }
    }

    /** An open file for the name, or null when the directory does not have it; memory is what
        lay where its header was put. */
    method Open(name: CString) returns (openFile: OpenFile?, ghost memory: Header)
      requires Valid()
      ensures openFile == null <==> NameKey(name) !in Files(g, disk.data)
      ensures openFile != null ==>
        && fresh(openFile) && fresh(openFile.hdr) && fresh(openFile.hdr.dataSectors)
        && openFile.Valid() && openFile.g == g && openFile.seekPosition == 0
        && NamedHandle(g, disk.data, NameKey(name), openFile.hdr.View())
        && WellFormed(g, disk.data, openFile.hdr.View())
        && FileBytes(g, disk.data, openFile.hdr.View()) == Files(g, disk.data)[NameKey(name)]
      ensures Performs(g, disk.data, OpenCall(name, memory, openFile != null), disk.data,
                       if openFile == null then [] else [Opened(NameKey(name), openFile.hdr.View(), true)])
    {
      hide Handle, StoredWords, StoredTable, StoredMarks, StoredNames, Consistent, RootOk, HeadOk, Files, NameKey,
           NameMap, WellFormed, FileBytes, NamedHandle;
      NamedFile(g, disk.data, NameKey(name));
      var directory := LoadDirectory();
      var sector := directory.Find(name);
      if sector < 0 {
        memory := HeaderAt(g, disk.data, FREE_MAP_SECTOR);
        Unchanged(g, disk.data, OpenCall(name, memory, false));
        return null, memory;
      }
      var file;
      file, memory := OpenHead(disk, sector);
      NamedHandleFile(g, disk.data, NameKey(name), file.hdr.View());
      OpenPerformed(g, disk.data, name, memory);
      return file, memory;
    }

    /** The map and the directory go to the disk without the file at sector x. */
    method FlushRemove(name: CString, directory: Directory, freeMap: BitMap, ghost x: int)
      returns (ghost c: RemoveTrace)
      requires Valid() && RootOk(g, disk.data) && NameKey(name) in StoredNames(g, disk.data)
      requires x == StoredNames(g, disk.data)[NameKey(name)] && HeadOk(g, disk.data, x)
      requires freeMap.Valid() && freeMap.numBits == g.numSectors
      requires directory.Valid() && directory.tableSize == g.numDirEntries
      requires freeMap.Bits() == StoredMarks(g, disk.data) - Region(g, disk.data, x)
      requires IndexOf(StoredTable(g, disk.data), NameKey(name)) >= 0
      requires var t := StoredTable(g, disk.data); directory.table[..] == Removed(t, IndexOf(t, NameKey(name)))
      requires WellFormed(g, disk.data, freeMapFile.hdr.View())
      modifies disk
      ensures Wired() && Removes(g, old(disk.data), name, c, disk.data)
      ensures c.mapHdr == freeMapFile.hdr.View() && c.dirHdr == directoryFile.hdr.View()
    {
      hide Handle, StoredWords, StoredTable, StoredMarks, StoredNames, Consistent, RootOk, HeadOk, NameKey,
           WellFormed, Removed, IndexOf, Marked, Removes, EncodeTable, MapBytes, WroteTo, Region;
      ghost var d, h0, h1 := disk.data, freeMapFile.hdr.View(), directoryFile.hdr.View();
      RootsThere(g, d);
      ghost var words, t := freeMap.words[..], directory.table[..];
      RemoveSizes(g, d, words);
      WriteBackMap(freeMap, disk, freeMapFile);
      ghost var flushed := disk.data;
      RemoveMiddle(g, d, flushed, h0, h1, words);
      directory.WriteBack(disk, directoryFile);
      c := RemoveTrace(flushed, words, h0, h1);
      RemovesSo(g, d, name, c, disk.data, x, t);
    }

    /** The free map in memory, without the sectors of the file at sector and without its header. */
    method FreeFile(name: CString, sector: int) returns (freeMap: BitMap)
      requires Valid() && RootOk(g, disk.data) && NameKey(name) in StoredNames(g, disk.data)
      requires sector == StoredNames(g, disk.data)[NameKey(name)] && HeadOk(g, disk.data, sector)
      ensures fresh(freeMap) && fresh(freeMap.words) && freeMap.Valid() && freeMap.numBits == g.numSectors
      ensures freeMap.Bits() == StoredMarks(g, disk.data) - Region(g, disk.data, sector)
    {
      hide Handle, StoredWords, StoredTable, StoredMarks, StoredNames, Consistent, RootOk, HeadOk, NameKey, WellFormed,
           FileSectors, Fetched, Marked, Region;
      ghost var d := disk.data;
      RootsThere(g, d);
      ImageSize(g, d, sector);
      var fileHdr := new FileHeader(g);
      ghost var memory := fileHdr.View();
      fileHdr.FetchFrom(disk, sector);
      RemoveReady(g, d, name, memory);
      freeMap := LoadMap();
      fileHdr.Deallocate(freeMap, disk);
      freeMap.Clear(sector);
    }

    /** Frees the file's sectors and its header, and drops its name. */
    method Remove(name: CString) returns (ok: bool)
      requires Valid()
      modifies disk
      ensures Valid()
      ensures ok <==> NameKey(name) in old(Files(g, disk.data))
      ensures !ok ==> disk.data == old(disk.data)
      ensures ok ==> exists c: RemoveTrace :: Removes(g, old(disk.data), name, c, disk.data)
      ensures Performs(g, old(disk.data), RemoveCall(name, ok), disk.data, [])
      ensures ok ==> Files(g, disk.data) == old(Files(g, disk.data)) - {NameKey(name)}
    {
      hide Handle, StoredWords, StoredTable, StoredMarks, StoredNames, Consistent, RootOk, HeadOk, Files, NameKey,
           NameMap, WellFormed, FileBytes, FileSectors, Fetched, Removed, IndexOf, Marked, Removes, Region, Performs,
           Elements, HeaderAt, Content;
      ghost var d := disk.data;
      NamedFile(g, d, NameKey(name));
      RootsThere(g, d);
      var directory := LoadDirectory();
      var sector := directory.Find(name);
      if sector == -1 {
        Unchanged(g, d, RemoveCall(name, false));
        return false;
      }
      var freeMap := FreeFile(name, sector);
      RootHandle(g, d, freeMapFile.hdr.View());
      ok := directory.Remove(name);
      ghost var c := FlushRemove(name, directory, freeMap, sector);
      RemovedFrom(g, d, name, c, disk.data);
      RemovePerformed(g, d, name, c, disk.data);
    }
  }

  // ---- The calls of the class are the calls of a run ------------------------------------------------

  /** A call that answers FALSE. */
  lemma Unchanged(g: Geometry, d: Image, call: Call)
    requires Consistent(g, d)
    requires (call.CreateCall? || call.RemoveCall? || call.OpenCall?) && !call.ok
    requires call.CreateCall? ==> CreateAnswer(g, d, call.name, call.size) == Refused
    requires !call.CreateCall? ==> NameKey(call.name) !in Files(g, d)
    ensures Performs(g, d, call, d, [])
  {
    if !call.CreateCall? { FilesAt(g, d, NameKey(call.name)); }
    hide Consistent, CreateAnswer, StoredNames, Files, NameKey;
    forall open: seq<Opened>
      ensures FsStep(g, FsWorld(d, open), call, FsWorld(d, StillOpen(open, call) + []))
    {
      assert open + [] == open;
    }
  }

  lemma CreatePerformed(g: Geometry, d: Image, name: CString, size: int32, c: Trace, d': Image)
    requires Consistent(g, d) && Creates(g, d, name, size, c, d') && Persists(g, DivRoundUp(size, g.SectorSize()))
    ensures Performs(g, d, CreateCall(name, size, true), d', [])
  {
    hide Consistent, Creates, Persists, DivRoundUp;
    var call := CreateCall(name, size, true);
    assert CreatesFitting(g, d, name, size, c, d');
    forall open: seq<Opened> ensures FsStep(g, FsWorld(d, open), call, FsWorld(d', StillOpen(open, call) + [])) {
      assert open + [] == open;
    }
  }

  lemma RemovePerformed(g: Geometry, d: Image, name: CString, c: RemoveTrace, d': Image)
    requires Consistent(g, d) && Removes(g, d, name, c, d')
    ensures Performs(g, d, RemoveCall(name, true), d', [])
  {
    hide Consistent, Removes, NameKey;
    var call := RemoveCall(name, true);
    forall open: seq<Opened> ensures FsStep(g, FsWorld(d, open), call, FsWorld(d', StillOpen(open, call) + [])) {
      assert Closed(open, NameKey(name)) + [] == Closed(open, NameKey(name));
    }
  }

  lemma OpenPerformed(g: Geometry, d: Image, name: CString, memory: Header)
    requires Consistent(g, d) && RootOk(g, d) && NameKey(name) in StoredNames(g, d) && |memory.direct| == g.numDirect
    requires HeadOk(g, d, StoredNames(g, d)[NameKey(name)])
    ensures var x := StoredNames(g, d)[NameKey(name)];
      && g.Valid() && 0 <= x < |d| && |d[x]| == g.SectorSize()
      && Performs(g, d, OpenCall(name, memory, true), d, [Opened(NameKey(name), Fetched(g, memory, d[x]), true)])
  {
    HeadFacts(g, d, StoredNames(g, d)[NameKey(name)]);
    hide Consistent, StoredNames, HeadOk, RootOk, NameKey, Fetched;
  }

  lemma NamedFile(g: Geometry, d: Image, k: CString)
    requires Consistent(g, d)
    ensures RootOk(g, d) && NameMap(StoredTable(g, d)) == StoredNames(g, d)
    ensures k in Files(g, d) <==> k in StoredNames(g, d)
    ensures k in StoredNames(g, d) ==> HeadOk(g, d, StoredNames(g, d)[k]) && 0 <= StoredNames(g, d)[k] < g.numSectors
    ensures k in StoredNames(g, d) ==> IndexOf(StoredTable(g, d), k) >= 0
  {
    RootsThere(g, d);
    NamesStored(g, d);
    FilesAt(g, d, k);
    NameMapAt(StoredTable(g, d), k);
    hide Consistent, StoredNames, StoredTable, WellFormed, FileSectors, IndexOf, Files;
  }

  lemma NamedHandleFile(g: Geometry, d: Image, k: CString, h: Header)
    requires Consistent(g, d) && RootOk(g, d) && k in StoredNames(g, d) && HeadOk(g, d, StoredNames(g, d)[k])
    requires Handle(g, d, StoredNames(g, d)[k], h)
    ensures NamedHandle(g, d, k, h) && WellFormed(g, d, h) && k in Files(g, d) && FileBytes(g, d, h) == Files(g, d)[k]
  {
    FilesAt(g, d, k);
    hide Consistent, StoredNames, WellFormed, HeadOk, FileBytes, Files, Handle, Content;
    HandleFile(g, d, StoredNames(g, d)[k], h);
  }

  /** What Remove's header gives back is marked. */
  lemma RemoveReady(g: Geometry, d: Image, name: CString, memory: Header)
    requires Consistent(g, d) && RootOk(g, d) && NameKey(name) in StoredNames(g, d)
    requires HeadOk(g, d, StoredNames(g, d)[NameKey(name)]) && |memory.direct| == g.numDirect
    ensures var x := StoredNames(g, d)[NameKey(name)];
      var h := Fetched(g, memory, d[x]);
      && WellFormed(g, d, h)
      && Region(g, d, x) == {x as int} + Elements(FileSectors(g, d, h))
      && Elements(FileSectors(g, d, h)) <= StoredMarks(g, d)
  {
    var x := StoredNames(g, d)[NameKey(name)];
    UserHead(g, d, NameKey(name));
    RegionMarked(g, d, x);
    ImageSize(g, d, x);
    hide Consistent, StoredNames, WellFormed, HeadOk, Handle, Content, Fetched, StoredMarks, FileSectors, Region;
    FetchedHandle(g, d, x, memory);
    HandleFile(g, d, x, Fetched(g, memory, d[x]));
  }

  lemma RootHandle(g: Geometry, d: Image, mapHdr: Header)
    requires HeadOk(g, d, FREE_MAP_SECTOR) && Handle(g, d, FREE_MAP_SECTOR, mapHdr)
    ensures WellFormed(g, d, mapHdr)
  {
    hide WellFormed, HeadOk, Handle;
    HandleFile(g, d, FREE_MAP_SECTOR, mapHdr);
  }

  lemma RegionMarked(g: Geometry, d: Image, x: int)
    requires Consistent(g, d) && x in Heads(StoredNames(g, d))
    ensures HeadOk(g, d, x) && Region(g, d, x) <= StoredMarks(g, d)
  {
    hide HeadOk, Region, RootOk, StoredNames, Heads, UniqueNames;
  }

  lemma RemoveSizes(g: Geometry, d: Image, words: seq<bv32>)
    requires Consistent(g, d) && g.numSectors <= BITS_IN_WORD * |words| < g.numSectors + BITS_IN_WORD
    ensures ENTRY_SIZE * g.numDirEntries <= MAX_INT && 4 * |words| <= MAX_INT
  {
    RootsThere(g, d);
    DirectorySize(g, d);
    RootImage(g, d);
    WholeMap(g, |words|);
    hide Consistent, RootOk, HeadOk;
  }

  /** With the map written, the directory can be. */
  lemma RemoveMiddle(g: Geometry, d: Image, flushed: Image, mapHdr: Header, dirHdr: Header, words: seq<bv32>)
    requires Consistent(g, d) && g.numSectors <= BITS_IN_WORD * |words| < g.numSectors + BITS_IN_WORD
    requires HeadOk(g, d, FREE_MAP_SECTOR) && Handle(g, d, FREE_MAP_SECTOR, mapHdr)
    requires HeadOk(g, d, DIRECTORY_SECTOR) && Handle(g, d, DIRECTORY_SECTOR, dirHdr)
    requires WroteTo(g, d, flushed, mapHdr, MapBytes(words))
    ensures WellFormed(g, flushed, dirHdr)
  {
    RootsThere(g, d);
    ConsistentHeads(g, d);
    RootImage(g, d);
    WholeMap(g, |words|);
    hide Consistent, StoredNames, WellFormed, HeadOk, Handle, Heads, WroteTo, Rooted, RootOk;
    RootWritten(g, d, flushed, Heads(StoredNames(g, d)), mapHdr, dirHdr, words);
  }

  lemma RemovesSo(g: Geometry, d: Image, name: CString, c: RemoveTrace, d': Image, x: int, t: seq<DirEntry>)
    requires Consistent(g, d) && RootOk(g, d) && NameKey(name) in StoredNames(g, d)
    requires x == StoredNames(g, d)[NameKey(name)]
    requires HeadOk(g, d, FREE_MAP_SECTOR) && Handle(g, d, FREE_MAP_SECTOR, c.mapHdr)
    requires HeadOk(g, d, DIRECTORY_SECTOR) && Handle(g, d, DIRECTORY_SECTOR, c.dirHdr)
    requires g.Valid() && g.numSectors <= BITS_IN_WORD * |c.words| < g.numSectors + BITS_IN_WORD
    requires HeadOk(g, d, x) && Marked(c.words, g.numSectors) == StoredMarks(g, d) - Region(g, d, x)
    requires IndexOf(StoredTable(g, d), NameKey(name)) >= 0
    requires t == Removed(StoredTable(g, d), IndexOf(StoredTable(g, d), NameKey(name)))
    requires WroteTo(g, d, c.flushed, c.mapHdr, MapBytes(c.words))
    requires WroteTo(g, c.flushed, d', c.dirHdr, EncodeTable(t))
    ensures Removes(g, d, name, c, d')
  {
    WholeMap(g, |c.words|);
    hide Consistent, StoredNames, StoredTable, StoredMarks, Marked, HeadOk, Handle, WroteTo, NameKey, IndexOf, Removed,
         EncodeTable, MapBytes, Region;
  }

  lemma RemovedFrom(g: Geometry, d: Image, name: CString, c: RemoveTrace, d': Image)
    requires Consistent(g, d) && Removes(g, d, name, c, d')
    ensures Consistent(g, d') && NameKey(name) in Files(g, d) && Files(g, d') == Files(g, d) - {NameKey(name)}
    ensures HeadOk(g, d', FREE_MAP_SECTOR) && Handle(g, d', FREE_MAP_SECTOR, c.mapHdr)
    ensures HeadOk(g, d', DIRECTORY_SECTOR) && Handle(g, d', DIRECTORY_SECTOR, c.dirHdr)
  {
    RemoveFiles(g, d, name, c, d');
    RemoveFacts(g, d, name, c, d');
    UserHead(g, d, NameKey(name));
    ConsistentHeads(g, d);
    var heads := Heads(StoredNames(g, d)) - {StoredNames(g, d)[NameKey(name)] as int};
    hide *;
    RemoveKeeps(g, d, name, c, d');
    RootedFacts(g, d, Heads(StoredNames(g, d)));
    RootsThere(g, d);
    HandleKept(g, d, d', heads, FREE_MAP_SECTOR, c.mapHdr);
    HandleKept(g, d, d', heads, DIRECTORY_SECTOR, c.dirHdr);
  }

  /** A sector for the header and an entry in the directory. */
  method Reserve(name: CString, directory: Directory, freeMap: BitMap) returns (ok: bool, sector: int32)
    requires freeMap.Valid() && freeMap.numBits <= MAX_INT && directory.Valid()
    requires freeMap.words as object != directory.table
    modifies freeMap.words, directory.table
    ensures var t, fl := old(directory.table[..]), FreeList(old(freeMap.Bits()), freeMap.numBits);
      && (ok <==> fl != [] && IndexOf(t, NameKey(name)) == -1 && FreeSlot(t) != -1)
      && (ok ==> sector == fl[0] && freeMap.Bits() == old(freeMap.Bits()) + {sector}
                 && directory.table[..] == Added(t, FreeSlot(t), name, sector))
  {
    FreeListExact(freeMap.Bits(), freeMap.numBits);
    hide FreeSlot, Added, Marked, NameKey, IndexOf, FreeList;
    ok, sector := false, -1;
    var header := freeMap.Find();
    if header == -1 { return; }
    sector := header;
    ok := directory.Add(name, sector);
  }

  /** The answer of Create, test by test. */
  lemma CreateCases(g: Geometry, d: Image, name: CString, size: int32)
    requires Consistent(g, d)
    ensures RootOk(g, d)
    ensures var t, fl := StoredTable(g, d), FreeList(StoredMarks(g, d), g.numSectors);
      && NameMap(t) == StoredNames(g, d)
      && (NameKey(name) in StoredNames(g, d) ==> StoredNames(g, d)[NameKey(name)] != -1)
      && (IndexOf(t, NameKey(name)) == -1 <==> NameKey(name) !in StoredNames(g, d))
      && (fl == [] || FreeSlot(t) == -1 || NameKey(name) in StoredNames(g, d) ==>
            CreateAnswer(g, d, name, size) == Refused)
      && (fl != [] && FreeSlot(t) != -1 && NameKey(name) !in StoredNames(g, d) ==>
        && FreeSectors(g, StoredMarks(g, d)) != [] && fl[0] == HeaderSector(g, d)
        && CreateAnswer(g, d, name, size) ==
           Answer(g, DivRoundUp(size, g.SectorSize()), |FreeSectors(g, StoredMarks(g, d) + {HeaderSector(g, d)})|))
  {
    RootsThere(g, d);
    RootImage(g, d);
    NamesStored(g, d);
    var t, m := StoredTable(g, d), StoredMarks(g, d);
    NameMapAt(t, NameKey(name));
    if NameKey(name) in StoredNames(g, d) { NamedHead(g, d, NameKey(name)); }
    hide StoredTable, StoredMarks, StoredNames, RootOk, HeadOk, Answer, NameKey, IndexOf, NameMap, FreeList, FreeSlot,
         Consistent;
    if FreeSectors(g, m) != [] { FreeListTake(m, g.numSectors); }
  }

  /** What a granted Create comes to. */
  lemma Created(g: Geometry, d: Image, name: CString, size: int32, c: Trace, d': Image, mapHdr: Header, dirHdr: Header)
    requires Consistent(g, d) && Creates(g, d, name, size, c, d')
    requires HeadOk(g, d, FREE_MAP_SECTOR) && Handle(g, d, FREE_MAP_SECTOR, mapHdr)
    requires HeadOk(g, d, DIRECTORY_SECTOR) && Handle(g, d, DIRECTORY_SECTOR, dirHdr)
    ensures Consistent(g, d') <==> Persists(g, DivRoundUp(size, g.SectorSize()))
    ensures Consistent(g, d') ==>
      && HeadOk(g, d', FREE_MAP_SECTOR) && Handle(g, d', FREE_MAP_SECTOR, mapHdr)
      && HeadOk(g, d', DIRECTORY_SECTOR) && Handle(g, d', DIRECTORY_SECTOR, dirHdr)
      && Files(g, d') == Files(g, d)[NameKey(name) := seq(if size < 0 then 0 else size, _ => 0)]
  {
    hide *;
    CreateExact(g, d, name, size, c, d');
    if Consistent(g, d') {
      CreateFiles(g, d, name, size, c, d');
      CreateKeeps(g, d, name, size, c, d');
      ConsistentHeads(g, d);
      RootsThere(g, d);
      RootedFacts(g, d, Heads(StoredNames(g, d)));
      HandleKept(g, d, d', Heads(StoredNames(g, d)), FREE_MAP_SECTOR, mapHdr);
      HandleKept(g, d, d', Heads(StoredNames(g, d)), DIRECTORY_SECTOR, dirHdr);
    }
  }

  lemma CreatesSo(g: Geometry, d: Image, name: CString, size: int32, c: Trace, d': Image, x: int32, t: seq<DirEntry>)
    requires Consistent(g, d) && CreateAnswer(g, d, name, size) == Granted && x == HeaderSector(g, d)
    requires Handle(g, d, FREE_MAP_SECTOR, c.mapHdr) && Handle(g, d, DIRECTORY_SECTOR, c.dirHdr)
    requires g.Valid() && |c.hdr.direct| == g.numDirect
    requires g.numSectors <= BITS_IN_WORD * |c.words| < g.numSectors + BITS_IN_WORD
    requires FreeSlot(StoredTable(g, d)) >= 0 && t == Added(StoredTable(g, d), FreeSlot(StoredTable(g, d)), name, x)
    requires Granting(g, d, StoredMarks(g, d) + {x}, size, c.filled, Marked(c.words, g.numSectors), c.hdr)
    requires ImageOk(g, c.filled) && c.laid == c.filled[x := Stored(g, c.hdr)]
    requires WroteTo(g, c.laid, c.flushed, c.dirHdr, EncodeTable(t))
    requires WroteTo(g, c.flushed, d', c.mapHdr, MapBytes(c.words))
    ensures Creates(g, d, name, size, c, d')
  {
    RootsThere(g, d);
    WholeMap(g, |c.words|);
    hide Handle, StoredTable, StoredMarks, StoredNames, FreeSlot, Added, EncodeTable, MapBytes, Granting, Marked,
         Stored, CreateAnswer, HeaderSector, WroteTo, HeadOk, Consistent, RootOk;
  }

  lemma WholeMap(g: Geometry, words: nat)
    requires g.Valid() && g.numSectors <= BITS_IN_WORD * words < g.numSectors + BITS_IN_WORD
    ensures BITS_IN_WORD * words == g.numSectors
  {}

  /** With the header written, the directory can be. */
  lemma LaidReady(g: Geometry, d: Image, x: int32, size: int32, filled: Image, m1: set<int>, h: Header,
                  mapHdr: Header, dirHdr: Header)
    requires Consistent(g, d) && ImageOk(g, filled) && |h.direct| == g.numDirect
    requires RootOk(g, d) && 0 <= x < g.numSectors && x !in StoredMarks(g, d)
    requires Granting(g, d, StoredMarks(g, d) + {x}, size, filled, m1, h)
    requires HeadOk(g, d, FREE_MAP_SECTOR) && Handle(g, d, FREE_MAP_SECTOR, mapHdr)
    requires HeadOk(g, d, DIRECTORY_SECTOR) && Handle(g, d, DIRECTORY_SECTOR, dirHdr)
    ensures var laid := filled[x := Stored(g, h)];
      && Rooted(g, laid, Heads(StoredNames(g, d)))
      && HeadOk(g, laid, FREE_MAP_SECTOR) && Handle(g, laid, FREE_MAP_SECTOR, mapHdr)
      && HeadOk(g, laid, DIRECTORY_SECTOR) && Handle(g, laid, DIRECTORY_SECTOR, dirHdr)
      && WellFormed(g, laid, dirHdr)
    ensures ENTRY_SIZE * g.numDirEntries <= MAX_INT
  {
    hide Handle, StoredTable, StoredMarks, StoredNames, Granting, Stored, HeadOk, Consistent, WellFormed, Heads,
         Rooted, AllKept, RootOk, DivRoundUp, FreeSectors;
    RootImage(g, d);
    var laid := filled[x := Stored(g, h)];
    MarksInRange(g, d);
    DirectorySize(g, d);
    GrantedLeaves(g, d, StoredMarks(g, d) + {x}, size, filled, m1, h);
    MarkedKept(g, d, laid);
    var heads := Heads(StoredNames(g, d));
    RootedFacts(g, laid, heads);
    OneKept(g, d, laid, heads, FREE_MAP_SECTOR);
    OneKept(g, d, laid, heads, DIRECTORY_SECTOR);
    KeptHandle(g, d, laid, FREE_MAP_SECTOR, mapHdr);
    KeptHandle(g, d, laid, DIRECTORY_SECTOR, dirHdr);
    HandleFile(g, laid, DIRECTORY_SECTOR, dirHdr);
  }

  /** With the directory written, the map can be. */
  lemma FlushReady(g: Geometry, laid: Image, flushed: Image, heads: set<int>, mapHdr: Header, dirHdr: Header,
                   t: seq<DirEntry>)
    requires Rooted(g, laid, heads) && |t| == g.numDirEntries
    requires HeadOk(g, laid, FREE_MAP_SECTOR) && Handle(g, laid, FREE_MAP_SECTOR, mapHdr)
    requires HeadOk(g, laid, DIRECTORY_SECTOR) && Handle(g, laid, DIRECTORY_SECTOR, dirHdr)
    requires WroteTo(g, laid, flushed, dirHdr, EncodeTable(t))
    ensures WellFormed(g, flushed, mapHdr)
  {
    RootedSizes(g, laid, heads);
    hide WellFormed, HeadOk, Handle, WroteTo, Rooted, Content, EncodeTable;
    WriteRoot(g, laid, flushed, heads, DIRECTORY_SECTOR, dirHdr, EncodeTable(t));
    RootedFacts(g, laid, heads);
    RootedHeads(g, laid, heads);
    OneKept(g, laid, flushed, heads, FREE_MAP_SECTOR);
    KeptHandle(g, laid, flushed, FREE_MAP_SECTOR, mapHdr);
    HandleFile(g, flushed, FREE_MAP_SECTOR, mapHdr);
  }

  lemma RootedSizes(g: Geometry, d: Image, heads: set<int>)
    requires Rooted(g, d, heads)
    ensures HeadOk(g, d, FREE_MAP_SECTOR) && HeadOk(g, d, DIRECTORY_SECTOR)
    ensures |Content(g, d, FREE_MAP_SECTOR)| == FreeMapFileSize(g)
    ensures |Content(g, d, DIRECTORY_SECTOR)| == DirectoryFileSize(g)
  {
    RootSizes(g, d);
  }
}
