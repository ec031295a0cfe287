/** filesys/filehdr.cc: the operations of a file header on the bitmap and the disk. */
module FileHdr {
  import opened Machine
  import opened Bitmap
  import opened Storage
  import opened Layout
  import opened Allocation
  import opened Persistence
  import opened Release

  /** The i-th call of Find on a map that started as m. */
  method TakeOne(freeMap: BitMap, ghost m: set<int>, i: nat) returns (found: int32)
    requires freeMap.Valid() && freeMap.numBits <= MAX_INT
    requires var fl := FreeList(m, freeMap.numBits);
      freeMap.Bits() == m + Elements(fl[..Least(i, |fl|)])
    modifies freeMap.words
    ensures var fl := FreeList(m, freeMap.numBits);
      && found == (if i < |fl| then fl[i] else -1)
      && freeMap.Bits() == m + Elements(fl[..Least(i + 1, |fl|)])
  {
    ghost var n := freeMap.numBits;
    ghost var fl := FreeList(m, n);
    hide FreeList, Elements, Marked;
    TakeStep(m, n, i);
    ghost var before := freeMap.words[..];
    var x := freeMap.Find();
    assert i >= |fl| ==> freeMap.words[..] == before;
    found := x;
  }

  /** The loops over Find: sectorsGet[i] := freeMap->Find(). FALSE means the array is overrun. */
  method GetSectors(freeMap: BitMap, sectorsGet: array<int32>, count: int) returns (inBounds: bool)
    requires freeMap.Valid() && freeMap.numBits <= MAX_INT && freeMap.words as object != sectorsGet
    modifies freeMap.words, sectorsGet
    ensures inBounds <==> count <= sectorsGet.Length
    ensures inBounds ==> var fl := FreeList(old(freeMap.Bits()), freeMap.numBits);
      && (forall i :: 0 <= i < count ==> sectorsGet[i] == if i < |fl| then fl[i] else -1)
      && (0 <= count <= |fl| ==> freeMap.Bits() == old(freeMap.Bits()) + Elements(fl[..count]))
  {
    ghost var m0 := freeMap.Bits();
    ghost var n := freeMap.numBits;
    ghost var fl := FreeList(m0, n);
    assert m0 + Elements(fl[..0]) == m0;
    var i := 0;
    while i < count
      invariant 0 <= i <= sectorsGet.Length && (i <= count || i == 0)
      invariant forall j :: 0 <= j < i ==> sectorsGet[j] == if j < |fl| then fl[j] else -1
      invariant freeMap.Bits() == m0 + Elements(fl[..Least(i, |fl|)])
    {
      if i >= sectorsGet.Length { return false; }
      var found := TakeOne(freeMap, m0, i);
      sectorsGet[i] := found;
      i := i + 1;
    }
    return true;
  }

  lemma TakeStep(m: set<int>, n: nat, i: nat)
    requires n <= MAX_INT
    ensures var fl := FreeList(m, n);
      && FreeList(m + Elements(fl[..Least(i, |fl|)]), n) == fl[Least(i, |fl|)..]
      && (i < |fl| ==> 0 <= fl[i] < n)
      && (i < |fl| ==> m + Elements(fl[..i]) + {fl[i]} == m + Elements(fl[..i + 1]))
  {
    var fl := FreeList(m, n);
    FreeListTakeMany(m, n, Least(i, |fl|));
    FreeListExact(m, n);
    if i < |fl| { ElementsSnoc(fl, i); }
  }

  /** numSectors is an int, NumDirect and L1_INDEX_NUM are unsigned: a negative count
      converts to a huge one in these comparisons. */
  predicate Exceeds(count: int, bound: nat) {
    count < 0 || count > bound
  }

  class FileHeader {
    const g: Geometry
    var numBytes: int32
    var numSectors: int32
    const dataSectors: array<int32>
    var createTime: int32
    var lastModifyTime: int32
    var lastUseTime: int32
    var l1Index: int32
    var l2Index: int32

    ghost predicate Valid()
      reads this
    {
      g.Valid() && dataSectors.Length == g.numDirect
    }

    function View(): (h: Header)
      reads this, dataSectors
      requires Valid()
      ensures |h.direct| == g.numDirect
    {
      Header(numBytes, numSectors, dataSectors[..], createTime, lastModifyTime, lastUseTime, l1Index, l2Index)
    }

    /** A fresh header holds whatever memory held. */
    constructor (g: Geometry)
      requires g.Valid()
      ensures Valid() && this.g == g && fresh(dataSectors)
    {
      this.g := g;
      dataSectors := new int32[g.numDirect];
    }

    /** Lay a sector over the first bytes of this object. */
    method FetchFrom(disk: Disk, sector: int)
      requires Valid() && disk.Valid() && disk.g == g && 0 <= sector < g.numSectors
      modifies this, dataSectors
      ensures View() == Fetched(g, old(View()), disk.data[sector])
      ensures |disk.data[sector]| == g.SectorSize() && HeaderLies(g, disk.data[sector], View())
      ensures g.l1Num < g.numDirect + 6 ==> l1Index == old(l1Index)
      ensures g.l1Num < g.numDirect + 7 ==> l2Index == old(l2Index)
    {
      hide HeaderLies, Fetched;
      FetchedLies(g, View(), disk.data[sector]);
      var buf := disk.ReadSector(sector);
      var h := Fetched(g, View(), buf);
      numBytes, numSectors := h.numBytes, h.numSectors;
      forall i | 0 <= i < g.numDirect { dataSectors[i] := h.direct[i]; }
      createTime, lastModifyTime, lastUseTime := h.createTime, h.lastModifyTime, h.lastUseTime;
      l1Index, l2Index := h.l1Index, h.l2Index;
      assert dataSectors[..] == h.direct;
    }

    method WriteBack(disk: Disk, sector: int)
      requires Valid() && disk.Valid() && disk.g == g && 0 <= sector < g.numSectors
      modifies disk
      ensures disk.Valid() && disk.data == old(disk.data)[sector := Stored(g, View())]
      ensures |disk.data[sector]| == g.SectorSize() && HeaderLies(g, disk.data[sector], View())
    {
      hide HeaderLies, Stored;
      StoredLies(g, View());
      disk.WriteSector(sector, Stored(g, View()));
    }

    /** The disk aborts on a sector number out of range: ok is false. */
    method ClearSector(disk: Disk, sectorNum: int) returns (ok: bool)
      requires Valid() && disk.Valid() && disk.g == g
      modifies disk
      ensures disk.Valid() && ok == (0 <= sectorNum < g.numSectors)
      ensures disk.data == if ok then old(disk.data)[sectorNum := ZeroSector(g)] else old(disk.data)
    {
      ok := 0 <= sectorNum < g.numSectors;
      if ok { disk.WriteSector(sectorNum, ZeroSector(g)); }
    }

    method FillDirect(disk: Disk, sectorsGet: array<int32>, ns: nat) returns (ok: bool, curSector: nat)
      requires Valid() && disk.Valid() && disk.g == g && sectorsGet != dataSectors
      requires DirectCount(g, ns) <= sectorsGet.Length
      modifies disk, dataSectors
      ensures disk.Valid()
      ensures ok <==> InRange(g, sectorsGet[..DirectCount(g, ns)])
      ensures ok ==>
        && curSector == DirectCount(g, ns)
        && disk.data == ClearAll(g, old(disk.data), sectorsGet[..curSector])
        && forall i :: 0 <= i < curSector ==> dataSectors[i] == sectorsGet[i]
    {
      var i := 0;
      curSector := 0;
      while i < g.numDirect && curSector < ns
        invariant 0 <= i == curSector <= DirectCount(g, ns)
        invariant disk.Valid() && InRange(g, sectorsGet[..i])
        invariant disk.data == ClearAll(g, old(disk.data), sectorsGet[..i])
        invariant forall j :: 0 <= j < i ==> dataSectors[j] == sectorsGet[j]
      {
        dataSectors[i] := sectorsGet[i];
        ok := ClearSector(disk, dataSectors[i]);
        assert sectorsGet[..i + 1][..i] == sectorsGet[..i];
        if !ok {
          assert sectorsGet[..DirectCount(g, ns)][i] == sectorsGet[i];
          return;
        }
        i, curSector := i + 1, curSector + 1;
      }
      ok := true;
    }

    /** One index block: take a sector for it, zero it, fill the buffer from the sectors that
        follow, zeroing each, and write the buffer. The L1 block and every second-level block
        are made this way. */
    method FillIndexBlock(disk: Disk, sectorsGet: array<int32>, at: nat, cur: nat, ns: nat, ghost s: seq<int32>)
      returns (ok: bool, getNum: nat, curSector: nat)
      requires Valid() && disk.Valid() && disk.g == g
      requires at < |s| <= sectorsGet.Length && s == sectorsGet[..|s|]
      requires cur <= ns && |EntriesAfter(g, s, at)| == Least(g.l1Num, ns - cur)
      modifies disk
      ensures disk.Valid()
      ensures at + 1 + |EntriesAfter(g, s, at)| <= |s|
      ensures ok <==> AllIn(g, s, at, at + 1 + |EntriesAfter(g, s, at)|)
      ensures ok ==> getNum == at + 1 + |EntriesAfter(g, s, at)| && curSector == cur + |EntriesAfter(g, s, at)|
      ensures ok && InRange(g, s) ==> disk.data == FillBlock(g, old(disk.data), s, at)
    {
      ghost var xs := EntriesAfter(g, s, at);
      EntriesAfterAt(g, s, at);
      hide EntriesAfter, ZeroSector, ClearAll, EncodeInts;
      getNum, curSector := at, cur;
      var index := sectorsGet[getNum];
      getNum := getNum + 1;
      ok := ClearSector(disk, index);
      if !ok { return; }
      var hdrBuf := new int32[g.l1Num](_ => -1);
      ok, getNum, curSector := FillEntries(disk, sectorsGet, hdrBuf, getNum, cur, ns, xs);
      if !ok { return; }
      assert hdrBuf[..] == xs + seq(g.l1Num - |xs|, _ => -1);
      disk.WriteSector(index, EncodeInts(hdrBuf[..]));
    }

    method FillEntries(disk: Disk, sectorsGet: array<int32>, hdrBuf: array<int32>, start: nat, cur: nat, ns: nat,
                       ghost xs: seq<int32>)
      returns (ok: bool, getNum: nat, curSector: nat)
      requires Valid() && disk.Valid() && disk.g == g && hdrBuf != sectorsGet
      requires start + |xs| <= sectorsGet.Length && sectorsGet[start..start + |xs|] == xs
      requires cur <= ns && |xs| == Least(g.l1Num, ns - cur)
      requires hdrBuf.Length == g.l1Num && forall j :: 0 <= j < g.l1Num ==> hdrBuf[j] == -1
      modifies disk, hdrBuf
      ensures disk.Valid()
      ensures ok <==> InRange(g, xs)
      ensures ok ==> getNum == start + |xs| && curSector == cur + |xs| && disk.data == ClearAll(g, old(disk.data), xs)
      ensures ok ==> forall j :: 0 <= j < g.l1Num ==> hdrBuf[j] == if j < |xs| then xs[j] else -1
    {
      ghost var d0 := disk.data;
      getNum, curSector := start, cur;
      hide ZeroSector;
      var i := 0;
      while i < g.l1Num && curSector < ns
        invariant 0 <= i <= |xs| && getNum == start + i && curSector == cur + i
        invariant disk.Valid() && InRange(g, xs[..i]) && disk.data == ClearAll(g, d0, xs[..i])
        invariant forall j :: 0 <= j < g.l1Num ==> hdrBuf[j] == if j < i then xs[j] else -1
        invariant sectorsGet[start..start + |xs|] == xs
      {
        assert xs[i] == sectorsGet[start + i];
        hdrBuf[i] := sectorsGet[getNum];
        getNum := getNum + 1;
        ok := ClearSector(disk, hdrBuf[i]);
        if !ok { return; }
        assert xs[..i + 1][..i] == xs[..i];
        i, curSector := i + 1, curSector + 1;
      }
      ok := true;
      assert xs[..i] == xs;
    }

    /** The L2 index: a sector for it, one index block per group, then the buffer of their
        sectors. */
    method FillDouble(disk: Disk, sectorsGet: array<int32>, start: nat, ns: nat, adSector: nat, ghost s: seq<int32>)
      returns (ok: bool)
      requires Valid() && disk.Valid() && disk.g == g
      requires g.numDirect + g.l1Num < ns <= g.MaxSectors() && |s| == Need(g, ns) && adSector == SubBlocks(g, ns)
      requires start == L2Pos(g) < |s| <= sectorsGet.Length && s == sectorsGet[..|s|]
      modifies disk, this`l2Index
      ensures disk.Valid()
      ensures ok <==> AllIn(g, s, L2Pos(g), |s|)
      ensures ok ==> l2Index == s[L2Pos(g)]
      ensures ok && InRange(g, s) ==> disk.data == FillL2(g, old(disk.data), ns, s)
    {
      hide SubPos, L2Pos, SubBlocks, Need, FillBlock, EntriesAfter, ZeroSector, IndexBlock, SubIndexes, FillSubs,
           InRange, Ascending, EncodeInts;
      SubBlockCount(g, ns);
      SubsEndBounds(g, ns, 0);
      var getNum, curSector := start, g.numDirect + g.l1Num;
      l2Index := sectorsGet[getNum];
      getNum := getNum + 1;
      ok := ClearSector(disk, l2Index);
      if !ok { return; }
      var hdrL2Buf := new int32[g.l1Num](_ => -1);
      ok, getNum := FillGroups(disk, sectorsGet, hdrL2Buf, getNum, curSector, ns, adSector, s);
      if !ok { return; }
      IndexOfGroups(g, ns, s, hdrL2Buf[..]);
      disk.WriteSector(l2Index, EncodeInts(hdrL2Buf[..]));
    }

    method FillGroups(disk: Disk, sectorsGet: array<int32>, hdrL2Buf: array<int32>, start: nat, cur: nat, ns: nat,
                      adSector: nat, ghost s: seq<int32>)
      returns (ok: bool, getNum: nat)
      requires Valid() && disk.Valid() && disk.g == g && hdrL2Buf != sectorsGet
      requires g.numDirect + g.l1Num < ns <= g.MaxSectors() && |s| == Need(g, ns) && adSector == SubBlocks(g, ns)
      requires start == L2Pos(g) + 1 && cur == g.numDirect + g.l1Num
      requires |s| <= sectorsGet.Length && s == sectorsGet[..|s|]
      requires hdrL2Buf.Length == g.l1Num && forall j :: 0 <= j < g.l1Num ==> hdrL2Buf[j] == -1
      modifies disk, hdrL2Buf
      ensures disk.Valid()
      ensures ok <==> AllIn(g, s, L2Pos(g) + 1, |s|)
      ensures ok ==> HoldsGroups(g, ns, s, hdrL2Buf[..], adSector)
      ensures ok && InRange(g, s) ==> disk.data == FillSubs(g, old(disk.data), ns, s, adSector)
    {
      hide SubPos, L2Pos, SubBlocks, Need, FillBlock, EntriesAfter, ZeroSector, SubsEnd, GroupStart, SubIndexes,
           InRange, Ascending, Least;
      ghost var d3 := disk.data;
      getNum := start;
      var curSector := cur;
      SubBlockCount(g, ns);
      SubsEndBounds(g, ns, 0);
      var i := 0;
      while i < adSector
        invariant 0 <= i <= adSector && disk.Valid()
        invariant getNum == SubsEnd(g, ns, i) <= |s| && curSector == GroupStart(g, ns, i) <= ns
        invariant L2Pos(g) + 1 <= getNum && AllIn(g, s, L2Pos(g) + 1, getNum)
        invariant InRange(g, s) ==> disk.data == FillSubs(g, d3, ns, s, i)
        invariant HoldsGroups(g, ns, s, hdrL2Buf[..], i)
        invariant s == sectorsGet[..|s|]
      {
        GroupSize(g, ns, s, i);
        var at := getNum;
        ok, getNum, curSector := FillIndexBlock(disk, sectorsGet, at, curSector, ns, s);
        if !ok { return; }
        assert s[at] == sectorsGet[..|s|][at];
        hdrL2Buf[i] := sectorsGet[at];
        i := i + 1;
      }
      ok := true;
    }

    /** The tests on the free space and the calls of Find. Granted: sectorsGet is filled. */
    method Gather(freeMap: BitMap, sectorsGet: array<int32>) returns (result: Outcome, adSector: nat)
      requires Valid() && freeMap.Valid() && freeMap.numBits == g.numSectors && freeMap.words as object != sectorsGet
      requires sectorsGet.Length == g.GetCapacity()
      modifies freeMap.words, sectorsGet
      ensures var fl := FreeList(old(freeMap.Bits()), g.numSectors);
        var ns := numSectors;
        && (result == Refused <==> Answer(g, ns, |fl|) == Refused)
        && (result == Refused ==> freeMap.words[..] == old(freeMap.words[..]))
        && (result == Fault ==> Answer(g, ns, |fl|) == Fault)
        && (result == Granted ==>
          && 0 <= ns <= g.MaxSectors() && 0 <= Need(g, ns) <= g.GetCapacity()
          && (ns > g.numDirect + g.l1Num ==> adSector == SubBlocks(g, ns))
          && (forall i :: 0 <= i < Need(g, ns) ==> sectorsGet[i] == if i < |fl| then fl[i] else -1)
          && (Need(g, ns) <= |fl| ==> freeMap.Bits() == old(freeMap.Bits()) + Elements(fl[..Need(g, ns)])))
    {
      adSector := 0;
      result := Granted;
      NeedFacts(g, numSectors);
      hide SubBlocks, FreeList, Marked;
      if Exceeds(numSectors, g.numDirect) {
        if Exceeds(numSectors, g.numDirect + g.l1Num) {
          if Exceeds(numSectors, g.numDirect + g.l1Num + g.l1Num * g.l1Num) {
            result := Refused;
          } else {
            adSector := DivRoundUp(numSectors - g.numDirect - g.l1Num, g.l1Num);
            var clear := freeMap.NumClear();
            if clear <= g.numDirect + adSector + 1 {
              result := Refused;
            } else if clear >= g.numDirect + adSector + 1 {
              if clear <= g.numDirect + g.l1Num + 1 {
                result := Refused;
              } else if clear > g.numDirect + g.l1Num + 1 {
                var inBounds := GetSectors(freeMap, sectorsGet, numSectors + adSector + 2);
                if !inBounds { result := Fault; }
              }
            }
          }
        } else if !Exceeds(numSectors, g.numDirect + g.l1Num) {
          var clear := freeMap.NumClear();
          if clear < numSectors + 1 {
            result := Refused;
          } else if clear >= numSectors + 1 {
            var inBounds := GetSectors(freeMap, sectorsGet, numSectors + 1);
            assert inBounds;
          }
        }
      } else {
        var clear := freeMap.NumClear();
        if clear < numSectors {
          result := Refused;
        } else {
          var inBounds := GetSectors(freeMap, sectorsGet, numSectors);
          assert inBounds;
        }
      }
    }

    /** The index blocks, when the direct table is full. */
    method HandOutIndexes(disk: Disk, sectorsGet: array<int32>, adSector: nat, ghost s: seq<int32>) returns (ok: bool)
      requires Valid() && disk.Valid() && disk.g == g
      requires g.numDirect < numSectors <= g.MaxSectors() && |s| == Need(g, numSectors)
      requires numSectors > g.numDirect + g.l1Num ==> adSector == SubBlocks(g, numSectors)
      requires |s| <= sectorsGet.Length && s == sectorsGet[..|s|]
      modifies disk, this`l1Index, this`l2Index
      ensures disk.Valid() && L1Pos(g) < |s|
      ensures ok <==> AllIn(g, s, L1Pos(g), |s|)
      ensures ok ==> l1Index == s[L1Pos(g)] && (L2Pos(g) < |s| ==> l2Index == s[L2Pos(g)])
      ensures ok && InRange(g, s) ==> disk.data == FillIndexes(g, old(disk.data), numSectors, s)
      ensures numSectors <= g.numDirect + g.l1Num ==> l2Index == old(l2Index)
    {
      ghost var ns := numSectors;
      NeedBounds(g, ns);
      hide Need, SubBlocks, FillBlock, FillL2, EntriesAfter, ClearAll;
      var getNum, curSector: nat := g.numDirect, g.numDirect;
      L1Size(g, ns, s);
      assert s[getNum] == sectorsGet[..|s|][getNum];
      l1Index := sectorsGet[getNum];
      ok, getNum, curSector := FillIndexBlock(disk, sectorsGet, getNum, curSector, numSectors, s);
      if ok && curSector < numSectors {
        ok := FillDouble(disk, sectorsGet, getNum, numSectors, adSector, s);
      }
    }

    /** Hand the gathered sectors out: to the header, and to the index blocks on disk. */
    method HandOut(disk: Disk, sectorsGet: array<int32>, adSector: nat, ghost s: seq<int32>) returns (ok: bool)
      requires Valid() && disk.Valid() && disk.g == g && sectorsGet != dataSectors
      requires 0 <= numSectors <= g.MaxSectors() && |s| == Need(g, numSectors)
      requires numSectors > g.numDirect + g.l1Num ==> adSector == SubBlocks(g, numSectors)
      requires |s| <= sectorsGet.Length && s == sectorsGet[..|s|]
      modifies disk, dataSectors, this`l1Index, this`l2Index
      ensures disk.Valid()
      ensures ok <==> InRange(g, s)
      ensures ok ==> Points(g, View(), s) && disk.data == AllocImage(g, old(disk.data), numSectors, s)
      ensures numSectors <= g.numDirect ==> l1Index == old(l1Index)
      ensures numSectors <= g.numDirect + g.l1Num ==> l2Index == old(l2Index)
    {
      NeedBounds(g, numSectors);
      hide Need, SubBlocks, FillIndexes, ClearAll;
      var curSector: nat;
      ghost var n := DirectCount(g, numSectors);
      DirectPart(g, numSectors, s);
      assert sectorsGet[..n] == s[..n];
      ok, curSector := FillDirect(disk, sectorsGet, numSectors);
      if ok && curSector < numSectors {
        ok := HandOutIndexes(disk, sectorsGet, adSector, s);
      }
    }

    /** Make a fresh header for a file of fileSize bytes. */
    method Allocate(freeMap: BitMap, disk: Disk, fileSize: int32) returns (outcome: Outcome)
      requires Valid() && freeMap.Valid() && freeMap.numBits == g.numSectors && freeMap.words as object != dataSectors
      requires disk.Valid() && disk.g == g
      modifies this, dataSectors, freeMap.words, disk
      ensures disk.Valid()
      ensures var m := old(freeMap.Bits());
        var ns := DivRoundUp(fileSize, g.SectorSize());
        && outcome == Answer(g, ns, |FreeSectors(g, m)|)
        && (outcome == Refused ==> freeMap.words[..] == old(freeMap.words[..]) && disk.data == old(disk.data))
        && (outcome == Granted ==>
          Granting(g, old(disk.data), m, fileSize, disk.data, freeMap.Bits(), View()))
      ensures outcome == Granted && numSectors <= g.numDirect ==> l1Index == -1
      ensures outcome == Granted && numSectors <= g.numDirect + g.l1Num ==> l2Index == -1
      ensures createTime == old(createTime) && lastModifyTime == old(lastModifyTime) && lastUseTime == old(lastUseTime)
    {
      DivRoundUpRange(fileSize, g.SectorSize());
      numBytes := fileSize;
      numSectors := DivRoundUp(fileSize, g.SectorSize());
      l1Index, l2Index := -1, -1;
      var sectorsGet := new int32[g.GetCapacity()];
      ghost var m := freeMap.Bits();
      var result, adSector := Gather(freeMap, sectorsGet);
      if result != Granted { return result; }
      ghost var s := sectorsGet[..Need(g, numSectors)];
      var ok := HandOut(disk, sectorsGet, adSector, s);
      GatheredRange(g, m, numSectors, s);
      return if ok then Granted else Fault;
    }

    /** Give back the blocks one index buffer lists, or as many of them as the file has. */
    method ClearRun(freeMap: BitMap, buf: seq<int32>, cur: nat, ns: nat, ghost xs: seq<int32>) returns (curSector: nat)
      requires Valid() && freeMap.Valid() && freeMap.numBits == g.numSectors
      requires cur <= ns && |xs| == Least(g.l1Num, ns - cur) && |buf| == g.l1Num && xs <= buf
      requires Ascending(xs) && InRange(g, xs) && Elements(xs) <= freeMap.Bits()
      modifies freeMap.words
      ensures freeMap.Bits() == old(freeMap.Bits()) - Elements(xs)
      ensures curSector == cur + |xs|
    {
      ghost var b := freeMap.Bits();
      hide Marked;
      curSector := cur;
      var i := 0;
      while i < g.l1Num && curSector < ns
        invariant 0 <= i <= |xs| && curSector == cur + i
        invariant freeMap.Bits() == b - Elements(xs[..i])
      {
        OutsideSlice(xs, 0, i, i);
        assert buf[i] == xs[i];
        var marked := freeMap.Test(buf[i]);
        assert marked;
        freeMap.Clear(buf[i]);
        ElementsSnoc(xs, i);
        i, curSector := i + 1, curSector + 1;
      }
      assert xs[..i] == xs;
    }

    method ClearDirect(freeMap: BitMap, ghost fs: seq<int32>) returns (curSector: nat)
      requires Valid() && freeMap.Valid() && freeMap.numBits == g.numSectors && freeMap.words as object != dataSectors
      requires 0 <= numSectors && DirectCount(g, numSectors) <= |fs|
      requires forall i :: 0 <= i < DirectCount(g, numSectors) ==> dataSectors[i] == fs[i]
      requires Ascending(fs) && InRange(g, fs) && Elements(fs) <= freeMap.Bits()
      modifies freeMap.words
      ensures curSector == DirectCount(g, numSectors)
      ensures freeMap.Bits() == old(freeMap.Bits()) - Elements(fs[..curSector])
    {
      ghost var b := freeMap.Bits();
      hide Marked;
      curSector := 0;
      var i := 0;
      while i < g.numDirect && curSector < numSectors
        invariant 0 <= i == curSector <= DirectCount(g, numSectors)
        invariant freeMap.Bits() == b - Elements(fs[..i])
        invariant forall j :: 0 <= j < DirectCount(g, numSectors) ==> dataSectors[j] == fs[j]
      {
        OutsideSlice(fs, 0, i, i);
        var marked := freeMap.Test(dataSectors[i]);
        assert marked;
        freeMap.Clear(dataSectors[i]);
        ElementsSnoc(fs, i);
        i, curSector := i + 1, curSector + 1;
      }
    }

    /** Second-level group j: its blocks, then its index block. */
    method ClearGroup(freeMap: BitMap, disk: Disk, index: int32, cur: nat, ghost j: nat, ghost h: Header,
                      ghost fs: seq<int32>)
      returns (curSector: nat)
      requires Valid() && freeMap.Valid() && freeMap.numBits == g.numSectors && disk.Valid() && disk.g == g
      requires WellFormed(g, disk.data, h) && fs == FileSectors(g, disk.data, h) && numSectors == h.numSectors
      requires numSectors > g.numDirect + g.l1Num && j < SubBlocks(g, numSectors)
      requires cur == GroupStart(g, numSectors, j) && SubPos(g, j) < |fs| && index == fs[SubPos(g, j)]
      requires SubPos(g, j) <= SubsEnd(g, numSectors, j + 1) <= |fs|
      requires forall p :: SubPos(g, j) <= p < SubsEnd(g, numSectors, j + 1) ==> fs[p] in freeMap.Bits()
      modifies freeMap.words
      ensures freeMap.Bits() == old(freeMap.Bits()) - Elements(fs[SubPos(g, j)..SubsEnd(g, numSectors, j + 1)])
      ensures cur < curSector == GroupStart(g, numSectors, j + 1) <= numSectors
    {
      hide *;
      ghost var at := SubPos(g, j);
      FileFacts(g, disk.data, h);
      GroupGrows(g, numSectors, j);
      SubBuffer(g, disk.data, h, j);
      ClearGroupFacts(g, numSectors, fs, j, freeMap.Bits());
      var marked := freeMap.Test(index);
      assert marked;
      var hdrL1Buf := disk.ReadSector(index);
      curSector := ClearRun(freeMap, DecodeInts(hdrL1Buf), cur, numSectors, EntriesAfter(g, fs, at));
      freeMap.Clear(index);
    }

    method ClearGroups(freeMap: BitMap, disk: Disk, hdrL2Buf: seq<int32>, cur: nat, ghost h: Header,
                       ghost fs: seq<int32>)
      requires Valid() && freeMap.Valid() && freeMap.numBits == g.numSectors && disk.Valid() && disk.g == g
      requires WellFormed(g, disk.data, h) && fs == FileSectors(g, disk.data, h) && numSectors == h.numSectors
      requires numSectors > g.numDirect + g.l1Num && cur == g.numDirect + g.l1Num && L2Pos(g) < |fs|
      requires ListsSubs(g, numSectors, fs, hdrL2Buf)
      requires Elements(fs[L2Pos(g)..]) <= freeMap.Bits()
      modifies freeMap.words
      ensures freeMap.Bits() == old(freeMap.Bits()) - Elements(fs[L2Pos(g) + 1..])
    {
      hide *;
      ghost var b := freeMap.Bits();
      ghost var lo, ns := L2Pos(g) + 1, numSectors as int;
      FileFacts(g, disk.data, h);
      SubBlockCount(g, ns);
      SubsEndBounds(g, ns, 0);
      var curSector := cur;
      assert fs[lo..lo] == [];
      NoElements();
      var j := 0;
      while curSector < numSectors
        invariant 0 <= j <= SubBlocks(g, ns) && curSector == GroupStart(g, ns, j) <= ns
        invariant lo <= SubsEnd(g, ns, j) <= |fs|
        invariant freeMap.Bits() == b - Elements(fs[lo..SubsEnd(g, ns, j)])
        decreases ns - curSector
      {
        ClearGroupStep(g, ns, fs, j, b);
        ListedAt(g, ns, fs, hdrL2Buf, j);
        curSector := ClearGroup(freeMap, disk, hdrL2Buf[j], curSector, j, h, fs);
        j := j + 1;
      }
      GroupLast(g, ns, j);
      assert fs[lo..|fs|] == fs[lo..];
    }

    /** Everything from the L2 index on. */
    method ClearDouble(freeMap: BitMap, disk: Disk, cur: nat, ghost h: Header, ghost fs: seq<int32>)
      requires Valid() && freeMap.Valid() && freeMap.numBits == g.numSectors && disk.Valid() && disk.g == g
      requires WellFormed(g, disk.data, h) && fs == FileSectors(g, disk.data, h)
      requires numSectors == h.numSectors && l2Index == h.l2Index
      requires numSectors > g.numDirect + g.l1Num && cur == g.numDirect + g.l1Num && L2Pos(g) < |fs|
      requires Elements(fs[L2Pos(g)..]) <= freeMap.Bits()
      modifies freeMap.words
      ensures freeMap.Bits() == old(freeMap.Bits()) - Elements(fs[L2Pos(g)..])
    {
      hide *;
      L2Buffer(g, disk.data, h);
      FileTail(g, disk.data, h, L2Pos(g));
      var marked := freeMap.Test(l2Index);
      assert marked;
      var buf := disk.ReadSector(l2Index);
      ClearGroups(freeMap, disk, DecodeInts(buf), cur, h, fs);
      freeMap.Clear(l2Index);
    }

    /** Everything from the L1 index on. */
    method ClearIndexed(freeMap: BitMap, disk: Disk, cur: nat, ghost h: Header, ghost fs: seq<int32>)
      requires Valid() && freeMap.Valid() && freeMap.numBits == g.numSectors && disk.Valid() && disk.g == g
      requires WellFormed(g, disk.data, h) && fs == FileSectors(g, disk.data, h)
      requires numSectors == h.numSectors && l1Index == h.l1Index && l2Index == h.l2Index
      requires numSectors > g.numDirect && cur == g.numDirect && L1Pos(g) < |fs|
      requires Elements(fs[L1Pos(g)..]) <= freeMap.Bits()
      modifies freeMap.words
      ensures freeMap.Bits() == old(freeMap.Bits()) - Elements(fs[L1Pos(g)..])
    {
      L1Buffer(g, disk.data, h);
      L1Size(g, numSectors, fs);
      ClearL1Facts(g, numSectors, fs, freeMap.Bits());
      hide Need, SubBlocks, WellFormed, Marked, L2Pos, L1Pos, Elements, FileSectors, EntriesAfter;
      var marked := freeMap.Test(l1Index);
      assert marked;
      var buf := disk.ReadSector(l1Index);
      var curSector := ClearRun(freeMap, DecodeInts(buf), cur, numSectors, EntriesAfter(g, fs, L1Pos(g)));
      if curSector < numSectors {
        ClearDouble(freeMap, disk, curSector, h, fs);
      }
      freeMap.Clear(l1Index);
    }

    /** Give back every sector of the file. */
    method Deallocate(freeMap: BitMap, disk: Disk)
      requires Valid() && freeMap.Valid() && freeMap.numBits == g.numSectors && freeMap.words as object != dataSectors
      requires disk.Valid() && disk.g == g && WellFormed(g, disk.data, View())
      requires Elements(FileSectors(g, disk.data, View())) <= freeMap.Bits()
      modifies freeMap.words
      ensures freeMap.Bits() == old(freeMap.Bits()) - Elements(FileSectors(g, disk.data, View()))
    {
      ghost var h := View();
      ghost var fs := FileSectors(g, disk.data, h);
      DirectFacts(g, disk.data, h);
      hide Need, Marked, Elements, FileSectors;
      var curSector := ClearDirect(freeMap, fs);
      if curSector < numSectors {
        ClearIndexed(freeMap, disk, curSector, h, fs);
      }
    }

    /** The sector holding a byte of the file, through the index blocks on disk, whatever the
        header and the disk hold. The disk aborts on an index block out of range: ok is false. */
    method ByteToSector(disk: Disk, offset: int) returns (ok: bool, sector: int)
      requires Valid() && disk.Valid() && disk.g == g
      ensures var k := if offset >= 0 then offset / g.SectorSize() else -(-offset / g.SectorSize());
        if 0 <= k < g.MaxSectors()
          then ok == Reaches(g, disk.data, View(), k) && (ok ==> sector == Block(g, disk.data, View(), k))
          else ok && sector == -1
    {
      OffsetBlock(offset, g.SectorSize());
      hide Block, DecodeInts, CDiv, Entry;
      var curSector := CDiv(offset, g.SectorSize());
      if curSector < 0 { return true, -1; }
      ghost var d, h := disk.data, View();
      if curSector < g.MaxSectors() { BlockByIndex(g, d, h, curSector); }
      if curSector < g.numDirect {
        return true, dataSectors[curSector];
      } else if curSector < g.numDirect + g.l1Num {
        if !(0 <= l1Index < g.numSectors) { return false, -1; }
        var hdrL1Buf := disk.ReadSector(l1Index);
        EntryIs(g, d, l1Index, curSector - g.numDirect);
        return true, DecodeInts(hdrL1Buf)[curSector - g.numDirect];
      } else if curSector < g.numDirect + g.l1Num + g.l1Num * g.l1Num {
        var adSector := (curSector - g.numDirect - g.l1Num) / g.l1Num;
        var offSector := (curSector - g.numDirect - g.l1Num) - adSector * g.l1Num;
        if !(0 <= l2Index < g.numSectors) { return false, -1; }
        var hdrL2Buf := disk.ReadSector(l2Index);
        EntryIs(g, d, l2Index, adSector);
        var indexSector := DecodeInts(hdrL2Buf)[adSector];
        if !(0 <= indexSector < g.numSectors) { return false, -1; }
        var hdrL1Buf := disk.ReadSector(indexSector);
        EntryIs(g, d, indexSector, offSector);
        return true, DecodeInts(hdrL1Buf)[offSector];
      }
      return true, -1;
    }
  }

  lemma OffsetBlock(offset: int, ss: nat)
    requires ss > 0
    ensures CDiv(offset, ss) == if offset >= 0 then offset / ss else -(-offset / ss)
  {}

  // ---- Allocate and Deallocate together ---------------------------------------------------

  /** The file a granted Allocate makes: well formed, over sectors that were all clear. */
  lemma GrantedFile(g: Geometry, d: Image, m: set<int>, fileSize: int32, d': Image, m': set<int>, h: Header)
    requires g.Valid() && ImageOk(g, d) && |h.direct| == g.numDirect
    requires Granting(g, d, m, fileSize, d', m', h)
    ensures WellFormed(g, d', h)
    ensures FileSectors(g, d', h) == FreeSectors(g, m)[..Need(g, h.numSectors)]
    ensures FileBytes(g, d', h) == seq(FileLength(h), _ => 0)
    ensures Elements(FileSectors(g, d', h)) !! m
    ensures forall x :: 0 <= x < g.numSectors && x !in FileSectors(g, d', h) ==> d'[x] == d[x]
  {
    var s := FreeSectors(g, m)[..Need(g, h.numSectors)];
    FreeListExact(m, g.numSectors);
    assert Ascending(s);
    AllocatedFile(g, d, h, s);
    AllocImageExact(g, d, h.numSectors, s);
    hide AllocImage, WellFormed, FileSectors;
    forall x | x in Elements(s) ensures x !in m {
      var i :| 0 <= i < |s| && s[i] == x;
      assert FreeSectors(g, m)[i] == x;
    }
  }

  /** Which free sector became which block: blocks and index blocks take the free sectors in
      increasing order, each index block just before the blocks it lists. */
  lemma GrantedBlocks(g: Geometry, d: Image, m: set<int>, fileSize: int32, d': Image, m': set<int>, h: Header, k: nat)
    requires g.Valid() && ImageOk(g, d) && |h.direct| == g.numDirect
    requires Granting(g, d, m, fileSize, d', m', h) && k < h.numSectors
    ensures ImageOk(g, d')
    ensures var free := FreeSectors(g, m); var n := k - g.numDirect;
      && (n >= 0 ==> g.numDirect < |free| && h.l1Index == free[g.numDirect])
      && (n >= g.l1Num ==> g.numDirect + g.l1Num + 1 < |free| && h.l2Index == free[g.numDirect + g.l1Num + 1])
      && var p := if n < 0 then k else if n < g.l1Num then k + 1 else k + 3 + (n - g.l1Num) / g.l1Num;
        0 <= p < |free| && Block(g, d', h, k) == free[p]
  {
    hide *;
    GrantedAt(g, d, m, fileSize, d', m', h, k);
    PosOfBlock(g, k);
  }

  lemma GrantedAt(g: Geometry, d: Image, m: set<int>, fileSize: int32, d': Image, m': set<int>, h: Header, k: nat)
    requires g.Valid() && ImageOk(g, d) && |h.direct| == g.numDirect
    requires Granting(g, d, m, fileSize, d', m', h) && k < h.numSectors
    ensures ImageOk(g, d')
    ensures var free := FreeSectors(g, m);
      && (k >= g.numDirect ==> L1Pos(g) < |free| && h.l1Index == free[L1Pos(g)])
      && (k >= g.numDirect + g.l1Num ==> L2Pos(g) < |free| && h.l2Index == free[L2Pos(g)])
      && BlockPos(g, k) < |free| && Block(g, d', h, k) == free[BlockPos(g, k)]
  {
    hide *;
    GrantedFile(g, d, m, fileSize, d', m', h);
    FileFacts(g, d', h);
    BlockInFile(g, d', h, k);
    if k >= g.numDirect { L1Buffer(g, d', h); }
    if k >= g.numDirect + g.l1Num { L2Buffer(g, d', h); }
    GrantedCount(g, d, m, fileSize, d', m', h);
  }

  lemma GrantedCount(g: Geometry, d: Image, m: set<int>, fileSize: int32, d': Image, m': set<int>, h: Header)
    requires g.Valid() && ImageOk(g, d) && Granting(g, d, m, fileSize, d', m', h)
    ensures 0 <= Need(g, h.numSectors) <= |FreeSectors(g, m)|
  {
    hide AllocImage, FreeSectors, Need, Points;
  }

  lemma PosOfBlock(g: Geometry, k: nat)
    requires g.Valid()
    ensures L1Pos(g) == g.numDirect && L2Pos(g) == g.numDirect + g.l1Num + 1
    ensures var n := k - g.numDirect;
      BlockPos(g, k) == if n < 0 then k else if n < g.l1Num then k + 1 else k + 3 + (n - g.l1Num) / g.l1Num
  {}

  /** Deallocate undoes Allocate: the count of clear sectors falls by data and index blocks
      together, and giving the file's sectors back restores the set, and so the words. */
  lemma DeallocateUndoesAllocate(g: Geometry, d: Image, fileSize: int32, d': Image, h: Header,
                                 w0: seq<bv32>, w1: seq<bv32>, w2: seq<bv32>)
    requires g.Valid() && ImageOk(g, d) && |h.direct| == g.numDirect
    requires |w0| == |w1| == |w2| == g.numSectors / BITS_IN_WORD
    requires Granting(g, d, Marked(w0, g.numSectors), fileSize, d', Marked(w1, g.numSectors), h)
    requires Sized(g, h) && ImageOk(g, d') &&
      Marked(w2, g.numSectors) == Marked(w1, g.numSectors) - Elements(FileSectors(g, d', h))
    ensures |FreeSectors(g, Marked(w1, g.numSectors))| ==
      |FreeSectors(g, Marked(w0, g.numSectors))| - Need(g, h.numSectors)
    ensures w2 == w0
  {
    var m0 := Marked(w0, g.numSectors);
    GrantedFile(g, d, m0, fileSize, d', Marked(w1, g.numSectors), h);
    FreeListTakeMany(m0, g.numSectors, Need(g, h.numSectors));
    assert Marked(w2, g.numSectors) == m0;
    SameSetSameWords(w2, w0);
  }
}
