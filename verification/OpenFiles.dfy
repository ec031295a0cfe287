/** filesys/openfile.cc: byte-addressed reads and writes over whole sectors. */
module OpenFiles {
  import opened Arithmetic
  import opened Machine
  import opened Storage
  import opened Layout
  import opened Persistence
  import opened Allocation
  import opened Release
  import opened FileHdr
  import opened ByteArray

  /** The buffer, which starts at block first, holds the file up to block i. */
  predicate Holds(g: Geometry, d: Image, h: Header, first: nat, i: nat, buf: seq<byte>)
    requires g.Valid() && ImageOk(g, d) && |h.direct| == g.numDirect
  {
    && StartOf(g, first) <= StartOf(g, i) <= StartOf(g, first) + |buf|
    && forall o: nat {:trigger ByteAt(g, d, h, o)} :: StartOf(g, first) <= o < StartOf(g, i) ==>
         buf[o - StartOf(g, first)] == ByteAt(g, d, h, o)
  }

  lemma HoldsNext(g: Geometry, d: Image, h: Header, first: nat, i: nat, n: nat, buf: seq<byte>, buf': seq<byte>)
    requires WellFormed(g, d, h) && first <= i < first + n && i < h.numSectors && |buf| == |buf'| == StartOf(g, n)
    requires Holds(g, d, h, first, i, buf)
    requires var base := StartOf(g, i - first);
      && 0 <= base && base + g.SectorSize() <= |buf|
      && 0 <= Block(g, d, h, i) < |d|
      && buf' == buf[..base] + d[Block(g, d, h, i)] + buf[base + g.SectorSize()..]
    ensures Holds(g, d, h, first, i + 1, buf')
  {
    StartOrder(g, i, i);
    StartSum(g, i, first);
    hide StartOf, Block, FileSectors;
    forall o: nat | StartOf(g, first) <= o < StartOf(g, i + 1)
      ensures buf'[o - StartOf(g, first)] == ByteAt(g, d, h, o)
    {
      HoldsByte(g, d, h, first, i, buf, buf', o);
    }
  }

  lemma HoldsByte(g: Geometry, d: Image, h: Header, first: nat, i: nat, buf: seq<byte>, buf': seq<byte>, o: nat)
    requires WellFormed(g, d, h) && i < h.numSectors && |buf| == |buf'|
    requires Holds(g, d, h, first, i, buf)
    requires StartOf(g, first) <= o < StartOf(g, i) + g.SectorSize()
    requires var base := StartOf(g, i) - StartOf(g, first);
      && 0 <= base && base + g.SectorSize() <= |buf|
      && 0 <= Block(g, d, h, i) < |d|
      && buf' == buf[..base] + d[Block(g, d, h, i)] + buf[base + g.SectorSize()..]
    ensures buf'[o - StartOf(g, first)] == ByteAt(g, d, h, o)
  {
    hide StartOf, Block, FileSectors, ByteAt;
    if o < StartOf(g, i) {
      HoldsAt(g, d, h, first, i, buf, o);
    } else {
      BlockByte(g, d, h, i, o - StartOf(g, i));
    }
  }

  lemma BlockByte(g: Geometry, d: Image, h: Header, i: nat, r: nat)
    requires WellFormed(g, d, h) && i < h.numSectors && r < g.SectorSize()
    ensures StartOf(g, i) >= 0 && 0 <= Block(g, d, h, i) < |d|
    ensures ByteAt(g, d, h, StartOf(g, i) + r) == d[Block(g, d, h, i)][r]
  {
    StartOrder(g, 0, i);
    ByteInBlock(g, i, r);
    BlockInFile(g, d, h, i);
  }

  lemma HoldsAt(g: Geometry, d: Image, h: Header, first: nat, i: nat, buf: seq<byte>, o: nat)
    requires g.Valid() && ImageOk(g, d) && |h.direct| == g.numDirect
    requires Holds(g, d, h, first, i, buf) && StartOf(g, first) <= o < StartOf(g, i)
    ensures buf[o - StartOf(g, first)] == ByteAt(g, d, h, o)
  {
    hide ByteAt;
    var inFile := ByteAt(g, d, h, o);
  }

  lemma BlockOffset(g: Geometry, first: nat, i: nat, n: nat)
    requires g.Valid() && first <= i < first + n
    ensures 0 <= StartOf(g, i) && StartOf(g, i) / g.SectorSize() == i
    ensures 0 <= StartOf(g, i - first) && StartOf(g, i - first) + g.SectorSize() <= StartOf(g, n)
  {
    DivUnique(StartOf(g, i), g.SectorSize(), i, 0);
    StartOrder(g, 0, i);
    StartOrder(g, 0, i - first);
    StartOrder(g, i - first + 1, n);
    StartOrder(g, i - first, n);
  }

  /** bcopy: count bytes from one buffer to another. */
  method Bcopy(from: seq<byte>, into: array<byte>, at: nat)
    requires at + |from| <= into.Length
    modifies into
    ensures into[..] == old(into[..at]) + from + old(into[at + |from|..])
  {
    forall j | 0 <= j < |from| { into[at + j] := from[j]; }
  }

  class OpenFile {
    const g: Geometry
    const hdr: FileHeader
    var seekPosition: int

    ghost predicate Valid()
      reads this, hdr
    {
      hdr.Valid() && hdr.g == g
    }

    /** Brings the header into memory: the part of it that is on disk. */
    constructor (disk: Disk, sector: int)
      requires disk.Valid() && 0 <= sector < disk.g.numSectors
      ensures Valid() && g == disk.g && fresh(hdr) && fresh(hdr.dataSectors) && seekPosition == 0
      ensures exists h0: Header :: |h0.direct| == g.numDirect && hdr.View() == Fetched(g, h0, disk.data[sector])
    {
      g := disk.g;
      hdr := new FileHeader(disk.g);
      seekPosition := 0;
      new;
      ghost var h0 := hdr.View();
      hdr.FetchFrom(disk, sector);
      assert hdr.View() == Fetched(g, h0, disk.data[sector]);
    }

    method ReadBlocks(disk: Disk, buf: array<byte>, first: nat, n: nat)
      requires Valid() && disk.Valid() && disk.g == g && WellFormed(g, disk.data, hdr.View())
      requires buf as object != hdr.dataSectors
      requires first + n <= hdr.numSectors && buf.Length == StartOf(g, n)
      modifies buf
      ensures Holds(g, disk.data, hdr.View(), first, first + n, buf[..])
    {
      ghost var d, h := disk.data, hdr.View();
      StartSum(g, first, n);
      StartOrder(g, 0, n);
      hide ByteAt, Block, StartOf;
      var i := first;
      while i < first + n
        invariant first <= i <= first + n && hdr.View() == h && Holds(g, d, h, first, i, buf[..])
      {
        ghost var was := buf[..];
        BlockOffset(g, first, i, n);
        BlockReached(g, d, h, i);
        var ok, sector := hdr.ByteToSector(disk, StartOf(g, i));
        var data := disk.ReadSector(sector);
        Bcopy(data, buf, StartOf(g, i - first));
        HoldsNext(g, d, h, first, i, n, was, buf[..]);
        i := i + 1;
      }
    }

    /** Copies the requested part of the file, clipped to its length, to into[at..]. */
    method ReadAt(disk: Disk, into: array<byte>, at: nat, numBytes: int, position: int) returns (result: nat)
      requires Valid() && disk.Valid() && disk.g == g && WellFormed(g, disk.data, hdr.View())
      requires into as object != hdr.dataSectors
      requires InInts(hdr.numBytes, numBytes, position)
      requires at + Clipped(hdr.numBytes, numBytes, position) <= into.Length
      modifies into
      ensures result == Clipped(hdr.numBytes, numBytes, position)
      ensures result > 0 ==> position + result <= FileLength(hdr.View())
      ensures result == 0 ==> into[..] == old(into[..])
      ensures result > 0 ==>
        into[..] == Splice(old(into[..]), at, FileBytes(g, disk.data, hdr.View())[position..position + result])
    {
      hide ByteAt, Holds, FileSectors, StartOf, FileBytes, WellFormed, Block;
      ghost var d, h := disk.data, hdr.View();
      FileFacts(g, d, h);
      var fileLength := hdr.numBytes;
      if numBytes <= 0 || position >= fileLength { return 0; }
      result := numBytes;
      if position + numBytes > fileLength { result := fileLength - position; }
      var firstSector, lastSector := position / g.SectorSize(), (position + result - 1) / g.SectorSize();
      var numSectors := 1 + lastSector - firstSector;
      SpanOf(g, h, position, result);
      var buf := new byte[StartOf(g, numSectors)];
      ReadBlocks(disk, buf, firstSector, numSectors);
      var start := position - StartOf(g, firstSector);
      HoldsSlice(g, d, h, firstSector, firstSector + numSectors, buf[..], position, result);
      assert hdr.View() == h;
      Bcopy(buf[start..start + result], into, at);
    }

    /** The position moves past what was read. */
    method Read(disk: Disk, into: array<byte>, numBytes: int) returns (result: nat)
      requires Valid() && disk.Valid() && disk.g == g && WellFormed(g, disk.data, hdr.View())
      requires into as object != hdr.dataSectors
      requires InInts(hdr.numBytes, numBytes, seekPosition)
      requires Clipped(hdr.numBytes, numBytes, seekPosition) <= into.Length
      modifies into, this`seekPosition
      ensures result == Clipped(hdr.numBytes, numBytes, old(seekPosition)) && seekPosition == old(seekPosition) + result
      ensures result > 0 ==> seekPosition <= FileLength(hdr.View())
      ensures result > 0 ==>
        into[..] == FileBytes(g, disk.data, hdr.View())[old(seekPosition)..seekPosition] + old(into[result..])
      ensures result == 0 ==> into[..] == old(into[..])
    {
      hide WellFormed, FileBytes;
      result := ReadAt(disk, into, 0, numBytes, seekPosition);
      seekPosition := seekPosition + result;
    }

    /** Writes whole blocks back from a buffer that starts at block first. */
    method WriteBlocks(disk: Disk, buf: array<byte>, first: nat, n: nat, ghost d: Image, ghost h: Header)
      requires Valid() && disk.Valid() && disk.g == g && d == disk.data && h == hdr.View() && WellFormed(g, d, h)
      requires first + n <= h.numSectors && buf.Length == StartOf(g, n)
      modifies disk
      ensures disk.Valid() && disk.data == PutBlocks(g, d, h, first, Chunks(g, buf[..], n))
    {
      hide StartOf, Block, FileSectors, WellFormed, Chunk, Chunks, PutBlocks, CDiv;
      ghost var bs := Chunks(g, buf[..], n);
      PutNone(g, d, h, first, bs);
      var i := first;
      while i < first + n
        invariant first <= i <= first + n && disk.Valid() && hdr.View() == h
        invariant disk.data == PutBlocks(g, d, h, first, bs[..i - first])
      {
        BlockOffset(g, first, i, n);
        PutNext(g, d, h, first, bs, i - first);
        BlockReached(g, disk.data, h, i);
        var ok, sector := hdr.ByteToSector(disk, StartOf(g, i));
        var start := StartOf(g, i - first);
        assert buf[start..start + g.SectorSize()] == buf[..][start..start + g.SectorSize()];
        ChunkAt(g, buf[..], n, i - first);
        disk.WriteSector(sector, buf[start..start + g.SectorSize()]);
        i := i + 1;
      }
      assert bs[..n] == bs;
    }

    /** Reads what the file has of block k. */
    method ReadBlock(disk: Disk, buf: array<byte>, at: nat, k: nat)
      requires Valid() && disk.Valid() && disk.g == g && WellFormed(g, disk.data, hdr.View()) && g.OffsetsFit()
      requires buf as object != hdr.dataSectors && k < hdr.numSectors
      requires 0 <= StartOf(g, k) < FileLength(hdr.View()) && at + g.SectorSize() <= buf.Length
      modifies buf
      ensures var file, s := FileBytes(g, disk.data, hdr.View()), StartOf(g, k);
        var n := Least(g.SectorSize(), |file| - s);
        buf[..] == Splice(old(buf[..]), at, file[s..s + n])
    {
      hide WellFormed, FileBytes, Clipped, StartOf;
      ghost var d, h := disk.data, hdr.View();
      FileFacts(g, d, h);
      SpanFits(g, h, k);
      hide Sized;
      ClipSector(h.numBytes, g.SectorSize(), StartOf(g, k));
      var r := ReadAt(disk, buf, at, g.SectorSize(), StartOf(g, k));
    }

    /** The partial first and last blocks, as they are. */
    method ReadEnds(disk: Disk, buf: array<byte>, position: nat, count: nat, first: nat, last: nat)
      returns (ghost b1: seq<byte>)
      requires Valid() && disk.Valid() && disk.g == g && WellFormed(g, disk.data, hdr.View()) && g.OffsetsFit()
      requires buf as object != hdr.dataSectors && first <= last < hdr.numSectors
      requires 0 <= StartOf(g, first) <= StartOf(g, last) < FileLength(hdr.View())
      requires buf.Length == StartOf(g, last) + g.SectorSize() - StartOf(g, first)
      modifies buf
      ensures |b1| == buf.Length
      ensures Patched(FileBytes(g, disk.data, hdr.View()), StartOf(g, first), StartOf(g, last), g.SectorSize(),
                      position, count, b1, buf[..])
    {
      hide WellFormed, FileBytes, StartOf, Splice, FileLength, Patched;
      ghost var d, h, b0 := disk.data, hdr.View(), buf[..];
      EndStarts(g, first, last);
      var firstAligned := position == StartOf(g, first);
      var lastAligned := position + count == StartOf(g, last + 1);
      if !firstAligned { ReadBlock(disk, buf, 0, first); }
      b1 := buf[..];
      assert hdr.View() == h;
      if !lastAligned && (first != last || firstAligned) {
        ReadBlock(disk, buf, StartOf(g, last - first), last);
      }
      PatchedEnds(FileBytes(g, d, h), StartOf(g, first), StartOf(g, last), g.SectorSize(), position, count,
                  b0, b1, buf[..]);
    }

    /** The buffer of a write: the partial first and last blocks as they are, then the new
        bytes over them. */
    method Assemble(disk: Disk, from: seq<byte>, position: nat, first: nat, last: nat) returns (buf: array<byte>)
      requires Valid() && disk.Valid() && disk.g == g && WellFormed(g, disk.data, hdr.View()) && g.OffsetsFit()
      requires |from| > 0 && position + |from| <= FileLength(hdr.View())
      requires first == position / g.SectorSize() && last == (position + |from| - 1) / g.SectorSize()
      ensures fresh(buf) && first <= last < hdr.numSectors && buf.Length == StartOf(g, 1 + last - first)
      ensures Assembled(g, disk.data, hdr.View(), first, position, from, buf[..])
    {
      hide WellFormed, StartOf, Assembled, FileBytes, Patched;
      ghost var d, h := disk.data, hdr.View();
      FileFacts(g, d, h);
      SpanOf(g, h, position, |from|);
      StartOrder(g, 0, first);
      StartOrder(g, first, last);
      hide Sized;
      buf := new byte[StartOf(g, 1 + last - first)];
      ghost var b1 := ReadEnds(disk, buf, position, |from|, first, last);
      ghost var b2 := buf[..];
      Bcopy(from, buf, position - StartOf(g, first));
      AssembledFrom(g, d, h, first, last, position, from, b1, b2, buf[..]);
    }

    /** The part of WriteAt behind the check of the request. */
    method WriteInside(disk: Disk, from: seq<byte>, position: nat)
      requires Valid() && disk.Valid() && disk.g == g && WellFormed(g, disk.data, hdr.View()) && g.OffsetsFit()
      requires |from| > 0 && position + |from| <= FileLength(hdr.View())
      modifies disk
      ensures disk.Valid() && Wrote(g, old(disk.data), disk.data, hdr.View(), position, from)
    {
      hide WellFormed, FileBytes, FileSectors, StartOf, Assembled, Wrote, PutBlocks, Chunks, Sized, FileLength;
      ghost var d, h := disk.data, hdr.View();
      FileFacts(g, d, h);
      var firstSector, lastSector := position / g.SectorSize(), (position + |from| - 1) / g.SectorSize();
      SpanOf(g, h, position, |from|);
      var buf := Assemble(disk, from, position, firstSector, lastSector);
      WriteBlocks(disk, buf, firstSector, 1 + lastSector - firstSector, d, h);
      PutAssembled(g, d, h, firstSector, 1 + lastSector - firstSector, position, from, buf[..]);
    }

    /** Replaces the requested part of the file, clipped to its length; no other byte of this
        file and no sector of any other changes. */
    method WriteAt(disk: Disk, from: seq<byte>, numBytes: int, position: int) returns (result: nat)
      requires Valid() && disk.Valid() && disk.g == g && WellFormed(g, disk.data, hdr.View()) && g.OffsetsFit()
      requires InInts(hdr.numBytes, numBytes, position)
      requires Clipped(hdr.numBytes, numBytes, position) <= |from|
      modifies disk
      ensures disk.Valid() && result == Clipped(hdr.numBytes, numBytes, position)
      ensures result == 0 ==> disk.data == old(disk.data)
      ensures result > 0 ==> Wrote(g, old(disk.data), disk.data, hdr.View(), position, from[..result])
    {
      hide WellFormed, Wrote;
      var fileLength := hdr.numBytes;
      if numBytes <= 0 || position >= fileLength { return 0; }
      result := numBytes;
      if position + numBytes > fileLength { result := fileLength - position; }
      WriteInside(disk, from[..result], position);
    }

    method Write(disk: Disk, from: seq<byte>, numBytes: int) returns (result: nat)
      requires Valid() && disk.Valid() && disk.g == g && WellFormed(g, disk.data, hdr.View()) && g.OffsetsFit()
      requires InInts(hdr.numBytes, numBytes, seekPosition)
      requires Clipped(hdr.numBytes, numBytes, seekPosition) <= |from|
      modifies disk, this`seekPosition
      ensures disk.Valid() && result == Clipped(hdr.numBytes, numBytes, old(seekPosition))
      ensures seekPosition == old(seekPosition) + result
      ensures result == 0 ==> disk.data == old(disk.data)
      ensures result > 0 ==> Wrote(g, old(disk.data), disk.data, hdr.View(), old(seekPosition), from[..result])
    {
      hide WellFormed, Wrote;
      result := WriteAt(disk, from, numBytes, seekPosition);
      seekPosition := seekPosition + result;
    }

    method Length() returns (length: int)
      requires Valid()
      ensures length == hdr.numBytes
      ensures length >= 0 ==> length == FileLength(hdr.View())
    {
      length := hdr.numBytes;
    }

    method Seek(position: int)
      modifies this`seekPosition
      ensures seekPosition == position
    {
      seekPosition := position;
    }
  }

  // ---- Objects kept in files ------------------------------------------------------------

  /** An object's bytes after the file has been read over them. */
  function Overlay(bytes: seq<byte>, file: seq<byte>): (r: seq<byte>)
    ensures |r| == |bytes|
    ensures |file| == |bytes| ==> r == file
    ensures forall i :: 0 <= i < |bytes| ==> r[i] == if i < |file| then file[i] else bytes[i]
  {
    var n := Least(|bytes|, |file|);
    file[..n] + bytes[n..]
  }

  /** An object was written over a file. */
  ghost predicate WroteTo(g: Geometry, d: Image, d': Image, h: Header, bytes: seq<byte>) {
    WellFormed(g, d, h) && Wrote(g, d, d', h, 0, bytes[..Least(|bytes|, FileLength(h))])
  }

  /** The two agree as far as both go. */
  predicate Begins(file: seq<byte>, bytes: seq<byte>) {
    forall i :: 0 <= i < |file| && i < |bytes| ==> file[i] == bytes[i]
  }

  /** Then the file begins with the object's bytes. */
  lemma WrittenPrefix(g: Geometry, d: Image, d': Image, h: Header, bytes: seq<byte>)
    requires WroteTo(g, d, d', h, bytes)
    ensures WellFormed(g, d', h)
    ensures Begins(FileBytes(g, d', h), bytes)
  {
    hide WellFormed, FileBytes;
  }

  /** file->ReadAt((char *)object, sizeof object, 0). */
  method ReadOver(disk: Disk, file: OpenFile, bytes: seq<byte>) returns (r: seq<byte>)
    requires file.Valid() && disk.Valid() && disk.g == file.g && WellFormed(file.g, disk.data, file.hdr.View())
    requires |bytes| <= MAX_INT
    ensures r == Overlay(bytes, FileBytes(file.g, disk.data, file.hdr.View()))
  {
    hide WellFormed, FileBytes;
    var buf := new byte[|bytes|](i requires 0 <= i < |bytes| => bytes[i]);
    assert buf[..] == bytes;
    ghost var h := file.hdr.View();
    var result := file.ReadAt(disk, buf, 0, |bytes|, 0);
    r := buf[..];
    assert file.hdr.View() == h;
  }

  /** file->WriteAt((char *)object, sizeof object, 0). */
  method WriteOver(disk: Disk, file: OpenFile, bytes: seq<byte>)
    requires file.Valid() && disk.Valid() && disk.g == file.g && WellFormed(file.g, disk.data, file.hdr.View())
    requires file.g.OffsetsFit() && |bytes| <= MAX_INT
    modifies disk
    ensures disk.Valid()
    ensures WroteTo(file.g, old(disk.data), disk.data, file.hdr.View(), bytes)
  {
    ghost var g, d, h := file.g, disk.data, file.hdr.View();
    WroteNothing(g, d, h);
    hide WellFormed, Wrote;
    var result := file.WriteAt(disk, bytes, |bytes|, 0);
    assert file.hdr.View() == h;
    assert result == Least(|bytes|, FileLength(h));
    assert bytes[..0] == [];
  }

  /** What ReadAt leaves in the caller's buffer is what a read of the flat array gives. */
  lemma ReadGives(before: seq<byte>, after: seq<byte>, at: nat, h: Header, file: seq<byte>, numBytes: int,
                  position: nat, result: nat)
    requires |file| == FileLength(h) && result == Clipped(h.numBytes, numBytes, position)
    requires at + result <= |before| && (result == 0 ==> after == before)
    requires result > 0 ==> position + result <= |file|
    requires result > 0 ==> after == Splice(before, at, file[position..position + result])
    ensures |after| == |before| && after[at..at + result] == Requested(file, numBytes, position)
  {
    if result > 0 { assert after[at..at + result] == file[position..position + result]; }
  }

  lemma WroteNothing(g: Geometry, d: Image, h: Header)
    requires WellFormed(g, d, h)
    ensures Wrote(g, d, d, h, 0, [])
  {
    assert Splice(FileBytes(g, d, h), 0, []) == FileBytes(g, d, h);
  }

  /** The sectors a request of n > 0 bytes touches. */
  lemma SpanOf(g: Geometry, h: Header, position: nat, n: nat)
    requires g.Valid() && Sized(g, h) && n > 0 && position + n <= FileLength(h)
    ensures var first, last := position / g.SectorSize(), (position + n - 1) / g.SectorSize();
      && 0 <= first <= last < h.numSectors
      && StartOf(g, first) <= position < StartOf(g, first) + g.SectorSize()
      && StartOf(g, last) <= position + n - 1 < StartOf(g, last) + g.SectorSize()
      && StartOf(g, 1 + last - first) == StartOf(g, last) + g.SectorSize() - StartOf(g, first)
      && StartOf(g, first) + StartOf(g, 1 + last - first) == StartOf(g, 1 + last) <= StartOf(g, h.numSectors)
  {
    var ss := g.SectorSize();
    var first, last := position / ss, (position + n - 1) / ss;
    BlockOfByte(g, h, position + n - 1);
    DivMod(position, ss);
    DivMod(position + n - 1, ss);
    DivOrder(position, position + n - 1, ss);
    DivBound(position, ss, 0);
    StartOrder(g, last, last);
    StartSum(g, 1 + last, first);
    StartOrder(g, 1 + last, h.numSectors);
  }

  lemma HoldsSlice(g: Geometry, d: Image, h: Header, first: nat, i: nat, buf: seq<byte>, position: nat, n: nat)
    requires g.Valid() && ImageOk(g, d) && |h.direct| == g.numDirect && Holds(g, d, h, first, i, buf)
    requires StartOf(g, first) <= position && position + n <= StartOf(g, i) && position + n <= FileLength(h)
    ensures 0 <= position - StartOf(g, first) <= position - StartOf(g, first) + n <= |buf|
    ensures buf[position - StartOf(g, first)..position - StartOf(g, first) + n] ==
      FileBytes(g, d, h)[position..position + n]
  {
    var start := position - StartOf(g, first);
    hide ByteAt, StartOf;
    var xs, ys := buf[start..start + n], FileBytes(g, d, h)[position..position + n];
    forall j | 0 <= j < n ensures xs[j] == ys[j] {
      HoldsAt(g, d, h, first, i, buf, position + j);
    }
  }

  lemma PutNone(g: Geometry, d: Image, h: Header, first: nat, bs: seq<Sector>)
    requires WellFormed(g, d, h) && first <= h.numSectors
    ensures PutBlocks(g, d, h, first, bs[..0]) == d
  {}

  lemma ChunkAt(g: Geometry, buf: seq<byte>, n: nat, j: nat)
    requires |buf| == StartOf(g, n) && j < n
    ensures 0 <= StartOf(g, j) && StartOf(g, j) + g.SectorSize() <= |buf|
    ensures Chunks(g, buf, n)[j] == buf[StartOf(g, j)..StartOf(g, j) + g.SectorSize()]
  {
    StartOrder(g, 0, j);
    StartOrder(g, j + 1, n);
    StartOrder(g, j, n);
    hide StartOf;
  }

  /** After j blocks the file is where it was, and the next block lands on top. */
  lemma PutNext(g: Geometry, d: Image, h: Header, first: nat, bs: seq<Sector>, j: nat)
    requires WellFormed(g, d, h) && first + |bs| <= h.numSectors && Sectors(g, bs) && j < |bs|
    ensures Sectors(g, bs[..j]) && Sectors(g, bs[..j + 1])
    ensures var d1 := PutBlocks(g, d, h, first, bs[..j]);
      && WellFormed(g, d1, h) && first + j < h.numSectors <= g.MaxSectors()
      && 0 <= Block(g, d1, h, first + j) < |d1|
      && PutBlocks(g, d, h, first, bs[..j + 1]) == d1[Block(g, d1, h, first + j) := bs[j]]
  {
    hide *;
    FileFacts(g, d, h);
    PutUnfold(g, d, h, first, bs, j);
    var d1 := PutBlocks(g, d, h, first, bs[..j]);
    PutBlocksKeeps(g, d, h, first, bs[..j]);
    SameBlock(g, d, d1, h, first + j);
    BlockInFile(g, d1, h, first + j);
  }

  lemma PutUnfold(g: Geometry, d: Image, h: Header, first: nat, bs: seq<Sector>, j: nat)
    requires WellFormed(g, d, h) && first + |bs| <= h.numSectors && Sectors(g, bs) && j < |bs|
    ensures Sectors(g, bs[..j]) && Sectors(g, bs[..j + 1])
    ensures 0 <= Block(g, d, h, first + j) < |d| && |bs[j]| == g.SectorSize()
    ensures |PutBlocks(g, d, h, first, bs[..j])| == |d|
    ensures PutBlocks(g, d, h, first, bs[..j + 1]) ==
      PutBlocks(g, d, h, first, bs[..j])[Block(g, d, h, first + j) := bs[j]]
  {
    BlockInFile(g, d, h, first + j);
    hide FileSectors, Block;
    assert bs[..j + 1][..j] == bs[..j];
  }

  lemma SpanFits(g: Geometry, h: Header, k: nat)
    requires g.Valid() && g.OffsetsFit() && Sized(g, h) && k < h.numSectors
    ensures 0 <= StartOf(g, k) && StartOf(g, k) + g.SectorSize() <= MAX_INT
  {
    StartOrder(g, 0, k);
    StartOrder(g, k + 1, g.MaxSectors());
    StartOrder(g, k, k);
  }

  lemma ClipSector(length: int, ss: int, start: int)
    requires 0 <= start < length && ss > 0
    ensures Clipped(length, ss, start) == if start + ss > length then length - start else ss
  {}

  /** The partial blocks of a request are in the buffer: the first in b1, the last over it. */
  predicate Patched(file: seq<byte>, s1: int, s2: int, ss: int, position: int, count: int, b1: seq<byte>,
                    b2: seq<byte>)
  {
    && |b1| == |b2| == s2 + ss - s1
    && 0 <= s1 <= s2 < |file| && ss > 0
    && var n1, n2 := Least(ss, |file| - s1), Least(ss, |file| - s2);
      && (position != s1 ==> b1[..n1] == file[s1..s1 + n1])
      && (if position + count != s2 + ss && (s1 != s2 || position == s1)
          then b2 == Splice(b1, s2 - s1, file[s2..s2 + n2])
          else b2 == b1)
  }

  lemma EndStarts(g: Geometry, first: nat, last: nat)
    requires g.Valid() && first <= last
    ensures StartOf(g, first) == StartOf(g, last) <==> first == last
    ensures StartOf(g, last - first) == StartOf(g, last) - StartOf(g, first)
    ensures StartOf(g, last + 1) == StartOf(g, last) + g.SectorSize()
  {
    StartOrder(g, first + 1, last);
    StartOrder(g, first, last);
    StartOrder(g, last, last);
    StartSum(g, last, first);
    hide StartOf;
  }

  lemma PatchedEnds(file: seq<byte>, s1: int, s2: int, ss: int, position: int, count: int,
                    b0: seq<byte>, b1: seq<byte>, b2: seq<byte>)
    requires |b0| == |b1| == |b2| == s2 + ss - s1 && 0 <= s1 <= s2 < |file| && ss > 0
    requires b1 == if position != s1 then Splice(b0, 0, file[s1..s1 + Least(ss, |file| - s1)]) else b0
    requires b2 == if position + count != s2 + ss && (s1 != s2 || position == s1)
                   then Splice(b1, s2 - s1, file[s2..s2 + Least(ss, |file| - s2)]) else b1
    ensures Patched(file, s1, s2, ss, position, count, b1, b2)
  {}

  lemma Patchwork(file: seq<byte>, s1: int, s2: int, ss: int, position: int, from: seq<byte>,
                  b1: seq<byte>, b2: seq<byte>, buf: seq<byte>, o: int)
    requires Patched(file, s1, s2, ss, position, |from|, b1, b2)
    requires s1 <= position < s1 + ss && s2 <= position + |from| - 1 < s2 + ss
    requires |from| > 0 && position + |from| <= |file|
    requires s1 == s2 || s1 + ss <= s2
    requires buf == b2[..position - s1] + from + b2[position - s1 + |from|..]
    requires s1 <= o < s1 + |buf| && o < |file|
    ensures buf[o - s1] == if position <= o < position + |from| then from[o - position] else file[o]
  {
    var n1, n2 := Least(ss, |file| - s1), Least(ss, |file| - s2);
    if o < position {
      assert b2[o - s1] == b1[o - s1];
      assert b1[..n1][o - s1] == file[s1..s1 + n1][o - s1];
    } else if o >= position + |from| {
      assert buf[o - s1] == b2[o - s1];
      if b2 == b1 {
        assert s1 == s2 && position != s1 ==> b1[..n1][o - s1] == file[s1..s1 + n1][o - s1];
      }
      assert !(s1 == s2 && position != s1) ==> b2[o - s1] == file[s2..s2 + n2][o - s2];
    }
  }

  lemma AssembledFrom(g: Geometry, d: Image, h: Header, first: nat, last: nat, position: nat, bytes: seq<byte>,
                      b1: seq<byte>, b2: seq<byte>, buf: seq<byte>)
    requires g.Valid() && ImageOk(g, d) && |h.direct| == g.numDirect && first <= last
    requires Patched(FileBytes(g, d, h), StartOf(g, first), StartOf(g, last), g.SectorSize(), position, |bytes|, b1, b2)
    requires StartOf(g, first) <= position < StartOf(g, first) + g.SectorSize()
    requires StartOf(g, last) <= position + |bytes| - 1 < StartOf(g, last) + g.SectorSize()
    requires |bytes| > 0 && position + |bytes| <= FileLength(h)
    requires buf == b2[..position - StartOf(g, first)] + bytes + b2[position - StartOf(g, first) + |bytes|..]
    ensures Assembled(g, d, h, first, position, bytes, buf)
  {
    StartOrder(g, first, first);
    StartOrder(g, first + 1, last);
    hide ByteAt, StartOf, Patched;
    forall o: nat | StartOf(g, first) <= o < StartOf(g, first) + |buf| && o < FileLength(h)
      ensures AssembledByte(g, d, h, first, position, bytes, buf, o)
    {
      Patchwork(FileBytes(g, d, h), StartOf(g, first), StartOf(g, last), g.SectorSize(), position, bytes,
                b1, b2, buf, o);
      assert FileBytes(g, d, h)[o] == ByteAt(g, d, h, o);
    }
  }
}
