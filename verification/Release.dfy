/** Reading a well-formed file's index back: what Deallocate and ByteToSector meet. */
module Release {
  import opened Arithmetic
  import opened Machine
  import opened Bitmap
  import opened Storage
  import opened Layout
  import opened Allocation

  /** The L1 buffer holds the sectors after the L1 index. */
  lemma L1Buffer(g: Geometry, d: Image, h: Header)
    requires WellFormed(g, d, h) && h.numSectors > g.numDirect
    ensures L1Pos(g) < |FileSectors(g, d, h)|
    ensures FileSectors(g, d, h)[L1Pos(g)] == h.l1Index
    ensures var fs := FileSectors(g, d, h); var xs := EntriesAfter(g, fs, L1Pos(g));
      0 <= h.l1Index < g.numSectors && xs <= DecodeInts(d[h.l1Index]) && |DecodeInts(d[h.l1Index])| == g.l1Num
  {
    NeedBounds(g, h.numSectors);
    var fs := FileSectors(g, d, h);
    var xs := EntriesAfter(g, fs, L1Pos(g));
    assert fs[L1Pos(g)] == h.l1Index;
    forall i | 0 <= i < |xs| ensures xs[i] == DecodeInts(d[h.l1Index])[i] {
      assert xs[i] == fs[L1Pos(g) + 1 + i];
      L1SizeOf(g, h.numSectors, fs);
    }
  }

  lemma L1SizeOf(g: Geometry, ns: int, s: seq<int32>)
    requires g.Valid() && g.numDirect < ns <= g.MaxSectors() && |s| == Need(g, ns)
    ensures L1Pos(g) < |s| && L1Pos(g) + 1 + |EntriesAfter(g, s, L1Pos(g))| <= L2Pos(g)
  {
    L1Size(g, ns, s);
    NeedFacts(g, ns);
  }

  /** The buffer lists the second-level index blocks of a file with sectors s. */
  predicate ListsSubs(g: Geometry, ns: int, s: seq<int32>, buf: seq<int32>)
    requires g.Valid()
  {
    forall j :: 0 <= j < SubBlocks(g, ns) ==> SubPos(g, j) < |s| && j < |buf| && buf[j] == s[SubPos(g, j)]
  }

  lemma ListedAt(g: Geometry, ns: int, s: seq<int32>, buf: seq<int32>, j: nat)
    requires g.Valid() && ListsSubs(g, ns, s, buf) && j < SubBlocks(g, ns)
    ensures SubPos(g, j) < |s| && j < |buf| && buf[j] == s[SubPos(g, j)]
  {}

  /** The L2 buffer holds the sectors of the second-level index blocks. */
  lemma L2Buffer(g: Geometry, d: Image, h: Header)
    requires WellFormed(g, d, h) && h.numSectors > g.numDirect + g.l1Num
    ensures L2Pos(g) < |FileSectors(g, d, h)| && FileSectors(g, d, h)[L2Pos(g)] == h.l2Index
    ensures 0 <= h.l2Index < g.numSectors && |DecodeInts(d[h.l2Index])| == g.l1Num
    ensures ListsSubs(g, h.numSectors, FileSectors(g, d, h), DecodeInts(d[h.l2Index]))
  {
    NeedBounds(g, h.numSectors);
    var fs := FileSectors(g, d, h);
    assert fs[L2Pos(g)] == h.l2Index;
    forall j | 0 <= j < SubBlocks(g, h.numSectors)
      ensures SubPos(g, j) < |fs| && j < g.l1Num && DecodeInts(d[h.l2Index])[j] == fs[SubPos(g, j)]
    {
      L2Entry(g, d, h, j);
    }
  }

  lemma L2Entry(g: Geometry, d: Image, h: Header, j: nat)
    requires WellFormed(g, d, h) && h.numSectors > g.numDirect + g.l1Num && j < SubBlocks(g, h.numSectors)
    ensures SubPos(g, j) < |FileSectors(g, d, h)| && j < g.l1Num
    ensures FileSectors(g, d, h)[SubPos(g, j)] == Entry(g, d, h.l2Index, j)
  {
    SubInNeed(g, h.numSectors, j);
    SubBlockCount(g, h.numSectors);
    SubAt(g, j, 0);
    hide SubPos, SubOf, SubOff, SubBlocks, Need, Entry, InRange, Ascending;
    assert FileSectors(g, d, h)[SubPos(g, j)] == SectorAt(g, d, h, SubPos(g, j));
  }

  /** The buffer of second-level block j holds the sectors after it. */
  lemma SubBuffer(g: Geometry, d: Image, h: Header, j: nat)
    requires WellFormed(g, d, h) && h.numSectors > g.numDirect + g.l1Num && j < SubBlocks(g, h.numSectors)
    ensures SubPos(g, j) < |FileSectors(g, d, h)|
    ensures var fs := FileSectors(g, d, h); var xs := EntriesAfter(g, fs, SubPos(g, j)); var x := fs[SubPos(g, j)];
      0 <= x < g.numSectors && xs <= DecodeInts(d[x]) && |DecodeInts(d[x])| == g.l1Num
  {
    var fs := FileSectors(g, d, h);
    SubInNeed(g, h.numSectors, j);
    SubAt(g, j, 0);
    L2Entry(g, d, h, j);
    var x := fs[SubPos(g, j)];
    var xs := EntriesAfter(g, fs, SubPos(g, j));
    forall i | 0 <= i < |xs| ensures xs[i] == DecodeInts(d[x])[i] {
      SubEntry(g, d, h, j, i);
    }
  }

  lemma SubEntry(g: Geometry, d: Image, h: Header, j: nat, i: nat)
    requires WellFormed(g, d, h) && h.numSectors > g.numDirect + g.l1Num && j < SubBlocks(g, h.numSectors)
    requires i < g.l1Num && SubPos(g, j) + 1 + i < |FileSectors(g, d, h)|
    ensures var fs := FileSectors(g, d, h); fs[SubPos(g, j) + 1 + i] == Entry(g, d, fs[SubPos(g, j)], i)
  {
    SubAt(g, j, 0);
    SubAt(g, j, 1 + i);
    assert j * (g.l1Num + 1) >= 0;
    hide SubPos, SubOf, SubOff;
    var fs := FileSectors(g, d, h);
    assert fs[SubPos(g, j)] == SectorAt(g, d, h, SubPos(g, j));
    assert fs[SubPos(g, j) + 1 + i] == SectorAt(g, d, h, SubPos(g, j) + (1 + i));
  }

  /** In an ascending sequence a slice holds no element from outside it. */
  lemma OutsideSlice(s: seq<int32>, lo: nat, hi: nat, p: nat)
    requires Ascending(s) && lo <= hi <= |s| && p < |s| && !(lo <= p < hi)
    ensures s[p] !in Elements(s[lo..hi])
  {
    forall i | lo <= i < hi ensures s[i] != s[p] {}
    forall i | 0 <= i < hi - lo ensures s[lo..hi][i] != s[p] {
      assert s[lo..hi][i] == s[lo + i];
    }
  }

  lemma SliceExtend(s: seq<int32>, lo: nat, mid: nat, hi: nat)
    requires lo <= mid <= hi <= |s|
    ensures Elements(s[lo..hi]) == Elements(s[lo..mid]) + Elements(s[mid..hi])
  {
    assert s[lo..hi] == s[lo..mid] + s[mid..hi];
  }

  lemma SliceOne(s: seq<int32>, p: nat)
    requires p < |s|
    ensures Elements(s[p..p + 1]) == {s[p] as int}
  {
    assert s[p..p + 1] == [s[p]];
  }

  lemma EntriesSlice(g: Geometry, s: seq<int32>, at: nat)
    requires at < |s|
    ensures var xs := EntriesAfter(g, s, at); at + 1 + |xs| <= |s| && xs == s[at + 1..at + 1 + |xs|]
  {}

  lemma SliceRange(g: Geometry, s: seq<int32>, lo: nat, hi: nat, b: set<int>)
    requires Ascending(s) && InRange(g, s) && lo <= hi <= |s|
    requires forall p :: lo <= p < hi ==> s[p] in b
    ensures Ascending(s[lo..hi]) && InRange(g, s[lo..hi]) && Elements(s[lo..hi]) <= b
  {}

  lemma GroupGrows(g: Geometry, ns: int, j: nat)
    requires g.Valid() && g.numDirect + g.l1Num < ns <= g.MaxSectors() && j < SubBlocks(g, ns)
    ensures 0 <= GroupStart(g, ns, j) < GroupStart(g, ns, j + 1) <= ns
    ensures SubPos(g, j) < SubsEnd(g, ns, j + 1) <= Need(g, ns)
  {
    GroupRoom(g, ns, j);
    SubBlocksBounds(g, ns);
    hide SubPos, Need, SubBlocks;
    MulOrder(0, j, g.l1Num);
    assert (j + 1) * g.l1Num == j * g.l1Num + g.l1Num;
    MulOrder(j, SubBlocks(g, ns) - 1, g.l1Num);
    MulOrder(j + 1, SubBlocks(g, ns) - 1, g.l1Num);
  }

  lemma NoElements()
    ensures Elements([]) == {}
  {}

  lemma GroupLeft(g: Geometry, ns: int, j: nat)
    requires g.Valid() && g.numDirect + g.l1Num < ns <= g.MaxSectors() && j <= SubBlocks(g, ns)
    requires GroupStart(g, ns, j) < ns
    ensures j < SubBlocks(g, ns)
  {}

  lemma GroupLast(g: Geometry, ns: int, j: nat)
    requires g.Valid() && g.numDirect + g.l1Num < ns <= g.MaxSectors() && j <= SubBlocks(g, ns)
    requires GroupStart(g, ns, j) >= ns
    ensures SubsEnd(g, ns, j) == Need(g, ns)
  {
    if j < SubBlocks(g, ns) { GroupGrows(g, ns, j); }
  }

  /** What is still marked once the slice lo + 1 .. mid has been given back. */
  lemma TailHas(s: seq<int32>, lo: nat, mid: nat, hi: nat, b: set<int>)
    requires Ascending(s) && lo + 1 <= mid <= hi <= |s| && Elements(s[lo..]) <= b
    ensures forall p :: mid <= p < hi ==> s[p] in b - Elements(s[lo + 1..mid])
  {
    forall p | mid <= p < hi ensures s[p] in b - Elements(s[lo + 1..mid]) {
      assert s[p] == s[lo..][p - lo];
      OutsideSlice(s, lo + 1, mid, p);
    }
  }

  /** A group is its index block followed by its run. */
  lemma ClearGroupFacts(g: Geometry, ns: int, s: seq<int32>, j: nat, b: set<int>)
    requires g.Valid() && g.numDirect + g.l1Num < ns <= g.MaxSectors() && |s| == Need(g, ns) && j < SubBlocks(g, ns)
    requires Ascending(s) && InRange(g, s) && SubPos(g, j) < |s| && SubPos(g, j) <= SubsEnd(g, ns, j + 1) <= |s|
    requires forall p :: SubPos(g, j) <= p < SubsEnd(g, ns, j + 1) ==> s[p] in b
    ensures var xs := EntriesAfter(g, s, SubPos(g, j)); var x := s[SubPos(g, j)];
      && GroupStart(g, ns, j) <= ns && |xs| == Least(g.l1Num, ns - GroupStart(g, ns, j)) && |xs| > 0
      && GroupStart(g, ns, j + 1) == GroupStart(g, ns, j) + |xs| <= ns
      && Ascending(xs) && InRange(g, xs) && Elements(xs) <= b
      && Elements(s[SubPos(g, j)..SubsEnd(g, ns, j + 1)]) == {x as int} + Elements(xs)
  {
    hide *;
    var at, end := SubPos(g, j), SubsEnd(g, ns, j + 1);
    GroupSize(g, ns, s, j);
    GroupGrows(g, ns, j);
    EntriesSlice(g, s, at);
    SliceExtend(s, at, at + 1, end);
    SliceOne(s, at);
    SliceRange(g, s, at + 1, end, b);
  }

  lemma ClearGroupStep(g: Geometry, ns: int, s: seq<int32>, j: nat, b: set<int>)
    requires g.Valid() && g.numDirect + g.l1Num < ns <= g.MaxSectors() && |s| == Need(g, ns) && j <= SubBlocks(g, ns)
    requires GroupStart(g, ns, j) < ns && Ascending(s) && L2Pos(g) + 1 <= SubsEnd(g, ns, j)
    requires L2Pos(g) < |s| && Elements(s[L2Pos(g)..]) <= b
    ensures j < SubBlocks(g, ns)
    ensures SubsEnd(g, ns, j) == SubPos(g, j) < SubsEnd(g, ns, j + 1) <= |s|
    ensures forall p :: SubPos(g, j) <= p < SubsEnd(g, ns, j + 1) ==>
      s[p] in b - Elements(s[L2Pos(g) + 1..SubPos(g, j)])
    ensures Elements(s[L2Pos(g) + 1..SubsEnd(g, ns, j + 1)]) ==
      Elements(s[L2Pos(g) + 1..SubPos(g, j)]) + Elements(s[SubPos(g, j)..SubsEnd(g, ns, j + 1)])
  {
    GroupLeft(g, ns, j);
    GroupGrows(g, ns, j);
    TailHas(s, L2Pos(g), SubsEnd(g, ns, j), SubsEnd(g, ns, j + 1), b);
    SliceExtend(s, L2Pos(g) + 1, SubsEnd(g, ns, j), SubsEnd(g, ns, j + 1));
  }

  lemma FirstOfTail(s: seq<int32>, lo: nat)
    requires lo < |s| && Ascending(s)
    ensures Elements(s[lo..]) == Elements(s[lo + 1..]) + {s[lo] as int}
    ensures s[lo] !in Elements(s[lo + 1..])
  {
    SliceExtend(s, lo, lo + 1, |s|);
    SliceOne(s, lo);
    OutsideSlice(s, lo + 1, |s|, lo);
    assert s[lo..|s|] == s[lo..] && s[lo + 1..|s|] == s[lo + 1..];
  }

  /** A tail as its first element, a middle slice and the rest, all disjoint. */
  lemma TailSplit(s: seq<int32>, lo: nat, end: nat, b: set<int>)
    requires Ascending(s) && lo < end <= |s| && Elements(s[lo..]) <= b
    ensures Elements(s[lo..]) == {s[lo] as int} + Elements(s[lo + 1..end]) + Elements(s[end..])
    ensures s[lo] in b && Elements(s[lo + 1..end]) <= b && Elements(s[end..]) <= b - Elements(s[lo + 1..end])
    ensures s[lo] !in Elements(s[lo + 1..end]) && s[lo] !in Elements(s[end..])
  {
    FirstOfTail(s, lo);
    SliceExtend(s, lo + 1, end, |s|);
    assert s[end..|s|] == s[end..] && s[lo + 1..|s|] == s[lo + 1..];
    TailDisjoint(s, lo + 1, end);
  }

  lemma TailDisjoint(s: seq<int32>, lo: nat, end: nat)
    requires Ascending(s) && lo <= end <= |s|
    ensures Elements(s[lo..end]) !! Elements(s[end..])
  {
    forall x | x in Elements(s[end..]) ensures x !in Elements(s[lo..end]) {
      var i :| 0 <= i < |s[end..]| && s[end..][i] == x;
      OutsideSlice(s, lo, end, end + i);
    }
  }

  lemma FileTail(g: Geometry, d: Image, h: Header, lo: nat)
    requires WellFormed(g, d, h) && lo < |FileSectors(g, d, h)|
    ensures var s := FileSectors(g, d, h);
      Elements(s[lo..]) == Elements(s[lo + 1..]) + {s[lo] as int} && s[lo] !in Elements(s[lo + 1..])
  {
    hide FileSectors, Elements, InRange, Sized;
    FirstOfTail(FileSectors(g, d, h), lo);
  }

  /** From the L1 index on: it, its run, and whatever follows. */
  lemma ClearL1Facts(g: Geometry, ns: int, s: seq<int32>, b: set<int>)
    requires g.Valid() && g.numDirect < ns <= g.MaxSectors() && |s| == Need(g, ns) && L1Pos(g) < |s|
    requires Ascending(s) && InRange(g, s) && Elements(s[L1Pos(g)..]) <= b
    ensures s[L1Pos(g)] in b
    ensures var xs := EntriesAfter(g, s, L1Pos(g)); var end := L1Pos(g) + 1 + |xs|;
      && end <= |s| && |xs| == Least(g.l1Num, ns - g.numDirect)
      && Ascending(xs) && InRange(g, xs) && Elements(xs) <= b
      && (ns > g.numDirect + g.l1Num ==> end == L2Pos(g) < |s|)
      && (ns <= g.numDirect + g.l1Num ==> Elements(s[end..]) == {})
      && Elements(s[L1Pos(g)..]) == {s[L1Pos(g)] as int} + Elements(xs) + Elements(s[end..])
      && s[L1Pos(g)] !in Elements(xs) && s[L1Pos(g)] !in Elements(s[end..])
      && Elements(s[end..]) <= b - Elements(xs)
  {
    var lo := L1Pos(g);
    L1Size(g, ns, s);
    EntriesSlice(g, s, lo);
    var end := lo + 1 + |EntriesAfter(g, s, lo)|;
    TailSplit(s, lo, end, b);
    hide EntriesAfter, Need, Elements;
    forall p | lo + 1 <= p < end ensures s[p] in b { InSlice(s, lo + 1, end, p); }
    SliceRange(g, s, lo + 1, end, b);
    NoElements();
    assert end == |s| ==> s[end..] == [];
  }

  lemma InSlice(s: seq<int32>, lo: nat, hi: nat, p: nat)
    requires lo <= p < hi <= |s|
    ensures s[p] in Elements(s[lo..hi])
  {
    assert s[lo..hi][p - lo] == s[p];
  }

  lemma DirectFacts(g: Geometry, d: Image, h: Header)
    requires WellFormed(g, d, h)
    ensures var fs := FileSectors(g, d, h); var n := DirectCount(g, h.numSectors);
      && n <= |fs|
      && (forall i :: 0 <= i < n ==> fs[i] == h.direct[i])
      && (h.numSectors <= g.numDirect ==> fs[..n] == fs)
      && (h.numSectors > g.numDirect ==> n == L1Pos(g) < |fs|)
      && Elements(fs) == Elements(fs[..n]) + Elements(fs[n..])
      && Elements(fs[n..]) !! Elements(fs[..n])
  {
    NeedBounds(g, h.numSectors);
    var fs := FileSectors(g, d, h);
    var n := DirectCount(g, h.numSectors);
    SliceExtend(fs, 0, n, |fs|);
    assert fs[0..|fs|] == fs && fs[0..n] == fs[..n] && fs[n..|fs|] == fs[n..];
    TailDisjoint(fs, 0, n);
  }

  // ---- Following the index to one block -----------------------------------------------------

  /** The index blocks on the way to block k are sectors of the disk. */
  predicate Reaches(g: Geometry, d: Image, h: Header, k: nat)
    requires g.Valid() && ImageOk(g, d)
  {
    if k < g.numDirect then true
    else if k < g.numDirect + g.l1Num then 0 <= h.l1Index < g.numSectors
    else 0 <= h.l2Index < g.numSectors && 0 <= Entry(g, d, h.l2Index, DeepGroup(g, k)) < g.numSectors
  }

  /** Every block of a well-formed file can be reached, so an offset inside it never aborts. */
  lemma BlockReached(g: Geometry, d: Image, h: Header, k: nat)
    requires WellFormed(g, d, h) && k < h.numSectors
    ensures Reaches(g, d, h, k)
    ensures 0 <= Block(g, d, h, k) < g.numSectors
  {
    BlockInFile(g, d, h, k);
    if k >= g.numDirect + g.l1Num {
      DeepReached(g, d, h, k);
    } else if k >= g.numDirect {
      L1Buffer(g, d, h);
    }
  }

  lemma DeepReached(g: Geometry, d: Image, h: Header, k: nat)
    requires WellFormed(g, d, h) && g.numDirect + g.l1Num <= k < h.numSectors
    ensures 0 <= h.l2Index < g.numSectors && 0 <= Entry(g, d, h.l2Index, DeepGroup(g, k)) < g.numSectors
  {
    hide *;
    FileFacts(g, d, h);
    var j, fs := DeepGroup(g, k), FileSectors(g, d, h);
    BlockPosDeep(g, k);
    BlockInFile(g, d, h, k);
    SubOfInNeed(g, h.numSectors, BlockPos(g, k));
    L2Buffer(g, d, h);
    L2Entry(g, d, h, j);
    SubBuffer(g, d, h, j);
  }

  /** Where the sector number of block k is written. */
  lemma BlockByIndex(g: Geometry, d: Image, h: Header, k: nat)
    requires g.Valid() && ImageOk(g, d) && |h.direct| == g.numDirect && k < g.MaxSectors()
    ensures k < g.numDirect ==> Block(g, d, h, k) == h.direct[k]
    ensures g.numDirect <= k < g.numDirect + g.l1Num ==>
      Block(g, d, h, k) == Entry(g, d, h.l1Index, k - g.numDirect)
    ensures k >= g.numDirect + g.l1Num ==>
      && 0 <= DeepGroup(g, k) < g.l1Num && 0 <= DeepEntry(g, k) < g.l1Num
      && DeepEntry(g, k) == (k - g.numDirect - g.l1Num) - DeepGroup(g, k) * g.l1Num
      && Block(g, d, h, k) == Entry(g, d, Entry(g, d, h.l2Index, DeepGroup(g, k)), DeepEntry(g, k))
  {
    if k >= g.numDirect + g.l1Num {
      BlockPosDeep(g, k);
      DivBound(k - g.numDirect - g.l1Num, g.l1Num, g.l1Num);
      DivMod(k - g.numDirect - g.l1Num, g.l1Num);
      hide BlockPos, SubOf, SubOff, Entry;
    }
  }

  /** And on the bytes of the index blocks: each of the two steps reads four bytes, lowest first,
      as a signed word. */
  lemma BlockLies(g: Geometry, d: Image, h: Header, k: nat)
    requires g.Valid() && ImageOk(g, d) && |h.direct| == g.numDirect && k < g.MaxSectors()
    ensures k < g.numDirect ==> Reaches(g, d, h, k) && Block(g, d, h, k) == h.direct[k]
    ensures g.numDirect <= k < g.numDirect + g.l1Num ==>
      && (Reaches(g, d, h, k) <==> 0 <= h.l1Index < g.numSectors)
      && (Reaches(g, d, h, k) ==>
           && |d[h.l1Index]| == 4 * g.l1Num
           && var b, at := d[h.l1Index], 4 * (k - g.numDirect);
             var b0: int, b1: int, b2: int, b3: int := b[at], b[at + 1], b[at + 2], b[at + 3];
             var u := b0 + 256 * b1 + 65536 * b2 + 16777216 * b3;
             Block(g, d, h, k) == if u < 0x8000_0000 then u else u - 0x1_0000_0000)
    ensures g.numDirect + g.l1Num <= k && 0 <= h.l2Index < g.numSectors ==>
      var n := k - g.numDirect - g.l1Num;
      && |d[h.l2Index]| == 4 * g.l1Num && 0 <= n / g.l1Num < g.l1Num && 0 <= n % g.l1Num < g.l1Num
      && exists index: int32 ::
        && WordLies(d[h.l2Index], 4 * (n / g.l1Num), index)
        && (Reaches(g, d, h, k) <==> 0 <= index < g.numSectors)
        && (Reaches(g, d, h, k) ==>
             |d[index]| == 4 * g.l1Num && WordLies(d[index], 4 * (n % g.l1Num), Block(g, d, h, k)))
    ensures g.numDirect + g.l1Num <= k && !(0 <= h.l2Index < g.numSectors) ==> !Reaches(g, d, h, k)
  {
    BlockByIndex(g, d, h, k);
    hide Block, WordOf;
    if g.numDirect <= k < g.numDirect + g.l1Num && 0 <= h.l1Index < g.numSectors {
      EntryLies(g, d, h.l1Index, k - g.numDirect);
    } else if g.numDirect + g.l1Num <= k && 0 <= h.l2Index < g.numSectors {
      var index := Entry(g, d, h.l2Index, DeepGroup(g, k));
      EntryLies(g, d, h.l2Index, DeepGroup(g, k));
      if 0 <= index < g.numSectors { EntryLies(g, d, index, DeepEntry(g, k)); }
    }
  }

  lemma EntryLies(g: Geometry, d: Image, x: int, r: nat)
    requires ImageOk(g, d) && 0 <= x < g.numSectors && r < g.l1Num
    ensures |d[x]| == 4 * g.l1Num && WordLies(d[x], 4 * r, Entry(g, d, x, r))
  {
    IntLies(d[x], r);
    hide IntAt, WordLies;
  }

  lemma EntryIs(g: Geometry, d: Image, x: int, r: nat)
    requires ImageOk(g, d) && 0 <= x < g.numSectors && r < g.l1Num
    ensures 0 <= x < |d| && |DecodeInts(d[x])| == g.l1Num && DecodeInts(d[x])[r] == Entry(g, d, x, r)
  {}
}
