/** The image Allocate leaves, as a function of the sectors it took; and when it takes them. */
module Allocation {
  import opened Arithmetic
  import opened Machine
  import opened Bitmap
  import opened Storage
  import opened Layout

  /** Fault: the kernel aborts or overruns sectorsGet instead of answering. */
  datatype Outcome = Refused | Granted | Fault

  /** The sectors Find would hand out, in order. */
  function FreeSectors(g: Geometry, m: set<int>): (s: seq<int32>)
    requires g.Valid()
  {
    FreeListExact(m, g.numSectors);
    FreeList(m, g.numSectors)
  }

  /** The answer, from the size wanted and the number of clear sectors alone. */
  function Answer(g: Geometry, ns: int, clear: nat): Outcome
    requires g.Valid()
  {
    if ns < 0 || ns > g.MaxSectors() then Refused
    else if ns > g.numDirect + g.l1Num then
      if clear <= g.numDirect + SubBlocks(g, ns) + 1 || clear <= g.numDirect + g.l1Num + 1 then Refused
      else if clear < Need(g, ns) || Need(g, ns) > g.GetCapacity() then Fault
      else Granted
    else if clear < Need(g, ns) then Refused
    else Granted
  }

  /** FALSE is only ever answered when the file is too large or does not fit. The converse
      fails exactly in the double-indirect case, in the window the test leaves open. */
  lemma AnswerExact(g: Geometry, ns: int, clear: nat)
    requires g.Valid()
    ensures Answer(g, ns, clear) == Granted ==> 0 <= ns <= g.MaxSectors() && Need(g, ns) <= clear
    ensures Answer(g, ns, clear) == Refused ==> ns < 0 || ns > g.MaxSectors() || clear < Need(g, ns)
    ensures g.numSectors <= g.GetCapacity() && clear <= g.numSectors && 0 <= ns <= g.MaxSectors() ==>
      (Answer(g, ns, clear) == Granted <==> Need(g, ns) <= clear)
    ensures g.numSectors <= g.GetCapacity() && clear <= g.numSectors ==>
      (Answer(g, ns, clear) == Fault <==>
        && g.numDirect + g.l1Num < ns <= g.MaxSectors()
        && g.numDirect + SubBlocks(g, ns) + 1 < clear
        && g.numDirect + g.l1Num + 1 < clear < Need(g, ns))
    ensures Answer(g, ns, clear) == Granted <==>
      && 0 <= ns <= g.numDirect + g.l1Num + g.l1Num * g.l1Num && Need(g, ns) <= clear
      && (ns > g.numDirect + g.l1Num ==> Need(g, ns) <= g.numDirect + g.l1Num * g.l1Num)
  {
    if g.numDirect + g.l1Num < ns <= g.MaxSectors() { SubBlocksBounds(g, ns); }
  }

  /** With 64 sectors free on the repository's own disk, a file of 63 sectors passes the
      test although it takes 66: the kernel aborts in ClearSector(-1). */
  lemma AnswerCanFault()
    ensures Answer(NACHOS, 63, 64) == Fault && Need(NACHOS, 63) == 66
  {}

  // ---- The image ----------------------------------------------------------------------

  function {:induction false} ClearAll(g: Geometry, d: Image, xs: seq<int32>): (d': Image)
    requires ImageOk(g, d) && InRange(g, xs)
    ensures ImageOk(g, d')
  {
    if xs == [] then d
    else ClearAll(g, d, xs[..|xs| - 1])[xs[|xs| - 1] := ZeroSector(g)]
  }

  /** Zero the index block at position p and the blocks after it, then write the index. */
  function FillBlock(g: Geometry, d: Image, s: seq<int32>, p: nat): (d': Image)
    requires ImageOk(g, d) && InRange(g, s) && p < |s|
    ensures ImageOk(g, d')
  {
    var xs := EntriesAfter(g, s, p);
    ClearAll(g, d[s[p] := ZeroSector(g)], xs)[s[p] := IndexBlock(g, xs)]
  }

  function {:induction false} FillSubs(g: Geometry, d: Image, ns: int, s: seq<int32>, j: nat): (d': Image)
    requires g.Valid() && ImageOk(g, d) && InRange(g, s)
    requires g.numDirect + g.l1Num < ns <= g.MaxSectors() && |s| == Need(g, ns) && j <= SubBlocks(g, ns)
    ensures ImageOk(g, d')
  {
    if j == 0 then d
    else
      SubInNeed(g, ns, j - 1);
      FillBlock(g, FillSubs(g, d, ns, s, j - 1), s, SubPos(g, j - 1))
  }

  function DirectCount(g: Geometry, ns: nat): nat {
    if ns <= g.numDirect then ns else g.numDirect
  }

  /** The L2 index and everything under it. */
  function FillL2(g: Geometry, d: Image, ns: int, s: seq<int32>): (d': Image)
    requires g.Valid() && ImageOk(g, d) && InRange(g, s)
    requires g.numDirect + g.l1Num < ns <= g.MaxSectors() && |s| == Need(g, ns)
    ensures ImageOk(g, d')
  {
    hide SubPos, Need, SubBlocks;
    NeedBounds(g, ns);
    FillSubs(g, d[s[L2Pos(g)] := ZeroSector(g)], ns, s, SubBlocks(g, ns))
      [s[L2Pos(g)] := IndexBlock(g, SubIndexes(g, ns, s))]
  }

  function FillIndexes(g: Geometry, d: Image, ns: int, s: seq<int32>): (d': Image)
    requires g.Valid() && ImageOk(g, d) && InRange(g, s)
    requires g.numDirect < ns <= g.MaxSectors() && |s| == Need(g, ns)
    ensures ImageOk(g, d')
  {
    hide Need, SubBlocks;
    NeedBounds(g, ns);
    var d2 := FillBlock(g, d, s, L1Pos(g));
    if ns <= g.numDirect + g.l1Num then d2 else FillL2(g, d2, ns, s)
  }

  function AllocImage(g: Geometry, d: Image, ns: int, s: seq<int32>): (d': Image)
    requires g.Valid() && ImageOk(g, d) && InRange(g, s)
    requires 0 <= ns <= g.MaxSectors() && |s| == Need(g, ns)
    ensures ImageOk(g, d')
  {
    hide Need, SubBlocks;
    NeedBounds(g, ns);
    var d1 := ClearAll(g, d, s[..DirectCount(g, ns)]);
    if ns <= g.numDirect then d1 else FillIndexes(g, d1, ns, s)
  }

  // ---- What is where on that image ------------------------------------------------------

  lemma {:induction false} ClearAllAt(g: Geometry, d: Image, xs: seq<int32>, x: int)
    requires ImageOk(g, d) && InRange(g, xs) && 0 <= x < g.numSectors
    ensures ClearAll(g, d, xs)[x] == if x in xs then ZeroSector(g) else d[x]
  {
    if xs != [] {
      var ys := xs[..|xs| - 1];
      ClearAllAt(g, d, ys, x);
      assert xs == ys + [xs[|xs| - 1]];
    }
  }

  lemma FillBlockAt(g: Geometry, d: Image, s: seq<int32>, p: nat, x: int)
    requires ImageOk(g, d) && InRange(g, s) && p < |s| && 0 <= x < g.numSectors
    ensures FillBlock(g, d, s, p)[x] ==
      if x == s[p] then IndexBlock(g, EntriesAfter(g, s, p))
      else if x in EntriesAfter(g, s, p) then ZeroSector(g)
      else d[x]
  {
    ClearAllAt(g, d[s[p] := ZeroSector(g)], EntriesAfter(g, s, p), x);
  }

  /** Positions below n hold their final content, all but the L2 index, which is written
      last; sectors not taken yet are as they were. */
  predicate Stage(g: Geometry, d0: Image, d: Image, ns: int, s: seq<int32>, n: nat)
    requires g.Valid() && ImageOk(g, d0) && ImageOk(g, d) && InRange(g, s)
    requires 0 <= ns <= g.MaxSectors() && |s| == Need(g, ns) && n <= |s|
  {
    && (forall p :: 0 <= p < n && p != L2Pos(g) ==> d[s[p]] == ContentAt(g, ns, s, p))
    && (forall x :: 0 <= x < g.numSectors && x !in s[..n] ==> d[x] == d0[x])
  }

  lemma NotAfter(g: Geometry, s: seq<int32>, p: nat, n: nat)
    requires Ascending(s) && p < n < |s|
    ensures s[p] !in EntriesAfter(g, s, n)
  {
    var xs := EntriesAfter(g, s, n);
    forall i | 0 <= i < |xs| ensures xs[i] != s[p] {
      assert xs[i] == s[n + 1 + i];
    }
  }

  /** A position up to the last entry of index block n, once the block is filled. */
  lemma FilledAt(g: Geometry, d0: Image, d: Image, ns: int, s: seq<int32>, n: nat, p: nat)
    requires g.Valid() && ImageOk(g, d0) && ImageOk(g, d) && InRange(g, s) && Ascending(s)
    requires 0 <= ns <= g.MaxSectors() && |s| == Need(g, ns) && n < |s|
    requires Stage(g, d0, d, ns, s, n) && IsIndexPos(g, n) && n != L2Pos(g)
    requires p <= n + |EntriesAfter(g, s, n)| && p != L2Pos(g) && (p > n ==> !IsIndexPos(g, p))
    ensures p < |s| && FillBlock(g, d, s, n)[s[p]] == ContentAt(g, ns, s, p)
  {
    FillBlockAt(g, d, s, n, s[p]);
    if p < n {
      hide FillBlock, Need, SubBlocks, IndexBlock, IsIndexPos, ContentAt, EntriesAfter;
      assert s[p] < s[n];
      NotAfter(g, s, p, n);
    } else if p > n {
      hide FillBlock, Need, SubBlocks, IndexBlock, IsIndexPos, Stage;
      assert EntriesAfter(g, s, n)[p - n - 1] == s[p];
    } else {
      hide FillBlock, Need, SubBlocks, IndexBlock, Stage, EntriesAfter;
    }
  }

  lemma FilledOutside(g: Geometry, d0: Image, d: Image, ns: int, s: seq<int32>, n: nat, x: int)
    requires g.Valid() && ImageOk(g, d0) && ImageOk(g, d) && InRange(g, s)
    requires 0 <= ns <= g.MaxSectors() && |s| == Need(g, ns) && n < |s|
    requires Stage(g, d0, d, ns, s, n)
    requires 0 <= x < g.numSectors && n + 1 + |EntriesAfter(g, s, n)| <= |s|
    requires x !in s[..n + 1 + |EntriesAfter(g, s, n)|]
    ensures FillBlock(g, d, s, n)[x] == d0[x]
  {
    var xs := EntriesAfter(g, s, n);
    FillBlockAt(g, d, s, n, x);
    hide FillBlock, Need, SubBlocks, ContentAt, IndexBlock;
    assert s[..n + 1 + |xs|] == s[..n] + [s[n]] + xs;
  }

  /** One index block takes the stage from its position past its entries. */
  lemma StageBlock(g: Geometry, d0: Image, d: Image, ns: int, s: seq<int32>, n: nat)
    requires g.Valid() && ImageOk(g, d0) && ImageOk(g, d) && InRange(g, s) && Ascending(s)
    requires 0 <= ns <= g.MaxSectors() && |s| == Need(g, ns) && n < |s|
    requires Stage(g, d0, d, ns, s, n)
    requires IsIndexPos(g, n) && n != L2Pos(g)
    requires forall p :: n < p <= n + |EntriesAfter(g, s, n)| ==> !IsIndexPos(g, p)
    ensures Stage(g, d0, FillBlock(g, d, s, n), ns, s, n + 1 + |EntriesAfter(g, s, n)|)
  {
    var xs := EntriesAfter(g, s, n);
    var e := n + 1 + |xs|;
    var d' := FillBlock(g, d, s, n);
    hide FillBlock, Need, SubBlocks, EntriesAfter;
    forall p | 0 <= p < e && p != L2Pos(g) ensures d'[s[p]] == ContentAt(g, ns, s, p) {
      FilledAt(g, d0, d, ns, s, n, p);
    }
    forall x | 0 <= x < g.numSectors && x !in s[..e] ensures d'[x] == d0[x] {
      FilledOutside(g, d0, d, ns, s, n, x);
    }
  }

  lemma StageDirect(g: Geometry, d: Image, ns: int, s: seq<int32>)
    requires g.Valid() && ImageOk(g, d) && InRange(g, s) && Ascending(s)
    requires 0 <= ns <= g.MaxSectors() && |s| == Need(g, ns)
    ensures DirectCount(g, ns) <= |s|
    ensures Stage(g, d, ClearAll(g, d, s[..DirectCount(g, ns)]), ns, s, DirectCount(g, ns))
  {
    NeedBounds(g, ns);
    var n := DirectCount(g, ns);
    var d' := ClearAll(g, d, s[..n]);
    forall p | 0 <= p < n ensures d'[s[p]] == ContentAt(g, ns, s, p) {
      ClearAllAt(g, d, s[..n], s[p]);
      assert s[p] == s[..n][p];
    }
    forall x | 0 <= x < g.numSectors && x !in s[..n] ensures d'[x] == d[x] {
      ClearAllAt(g, d, s[..n], x);
    }
  }

  lemma EntriesNoIndex(g: Geometry, ns: int, s: seq<int32>, j: nat)
    requires g.Valid() && g.numDirect + g.l1Num < ns <= g.MaxSectors() && |s| == Need(g, ns) && j < SubBlocks(g, ns)
    ensures SubPos(g, j) < |s| && IsIndexPos(g, SubPos(g, j)) && SubPos(g, j) > L2Pos(g)
    ensures forall p :: SubPos(g, j) < p <= SubPos(g, j) + |EntriesAfter(g, s, SubPos(g, j))| ==> !IsIndexPos(g, p)
    ensures SubPos(g, j) + 1 + |EntriesAfter(g, s, SubPos(g, j))|
      == if j + 1 < SubBlocks(g, ns) then SubPos(g, j + 1) else |s|
  {
    hide SubPos, SubOf, SubOff, SubBlocks, Need;
    GroupRoom(g, ns, j);
    SubIsIndex(g, j, 0);
    forall p | SubPos(g, j) < p <= SubPos(g, j) + g.l1Num ensures !IsIndexPos(g, p) {
      SubIsIndex(g, j, p - SubPos(g, j));
    }
  }

  lemma SubIsIndex(g: Geometry, j: nat, r: nat)
    requires g.Valid() && r <= g.l1Num
    ensures SubPos(g, j) + r > L2Pos(g)
    ensures IsIndexPos(g, SubPos(g, j) + r) <==> r == 0
  {
    SubAt(g, j, r);
    hide SubPos, SubOf, SubOff;
  }

  /** A group takes an index block and l1Num entries, the last one what is left. */
  lemma GroupRoom(g: Geometry, ns: int, j: nat)
    requires g.Valid() && g.numDirect + g.l1Num < ns <= g.MaxSectors() && j < SubBlocks(g, ns)
    ensures SubPos(g, j) < Need(g, ns)
    ensures SubPos(g, j + 1) == SubPos(g, j) + g.l1Num + 1
    ensures j + 1 < SubBlocks(g, ns) ==> SubPos(g, j + 1) < Need(g, ns)
    ensures j + 1 == SubBlocks(g, ns) ==> Need(g, ns) <= SubPos(g, j + 1)
  {
    SubInNeed(g, ns, j);
    assert (j + 1) * (g.l1Num + 1) == j * (g.l1Num + 1) + g.l1Num + 1;
    if j + 1 < SubBlocks(g, ns) { SubInNeed(g, ns, j + 1); }
    SubBlocksBounds(g, ns);
    hide Need, SubBlocks;
  }

  /** Where the first j second-level groups end. */
  function SubsEnd(g: Geometry, ns: int, j: nat): int
    requires g.Valid()
  {
    if j < SubBlocks(g, ns) then SubPos(g, j) else Need(g, ns)
  }

  lemma SubsEndBounds(g: Geometry, ns: int, j: nat)
    requires g.Valid() && g.numDirect + g.l1Num < ns <= g.MaxSectors() && j <= SubBlocks(g, ns)
    ensures 0 <= SubsEnd(g, ns, j) <= Need(g, ns)
    ensures SubsEnd(g, ns, 0) == L2Pos(g) + 1
  {
    SubBlocksBounds(g, ns);
    if j < SubBlocks(g, ns) { SubInNeed(g, ns, j); }
  }

  lemma StageSub(g: Geometry, d0: Image, d: Image, ns: int, s: seq<int32>, j: nat)
    requires g.Valid() && ImageOk(g, d0) && ImageOk(g, d) && InRange(g, s) && Ascending(s)
    requires g.numDirect + g.l1Num < ns <= g.MaxSectors() && |s| == Need(g, ns) && j < SubBlocks(g, ns)
    requires 0 <= SubsEnd(g, ns, j) <= |s| && Stage(g, d0, d, ns, s, SubsEnd(g, ns, j))
    ensures SubPos(g, j) < |s| && 0 <= SubsEnd(g, ns, j + 1) <= |s|
    ensures Stage(g, d0, FillBlock(g, d, s, SubPos(g, j)), ns, s, SubsEnd(g, ns, j + 1))
  {
    hide Stage, SubPos, IsIndexPos, SubBlocks, Need, FillBlock, EntriesAfter, L2Pos;
    SubsEndBounds(g, ns, j + 1);
    EntriesNoIndex(g, ns, s, j);
    StageBlock(g, d0, d, ns, s, SubPos(g, j));
  }

  lemma {:induction false} StageSubs(g: Geometry, d0: Image, d: Image, ns: int, s: seq<int32>, j: nat)
    requires g.Valid() && ImageOk(g, d0) && ImageOk(g, d) && InRange(g, s) && Ascending(s)
    requires g.numDirect + g.l1Num < ns <= g.MaxSectors() && |s| == Need(g, ns) && j <= SubBlocks(g, ns)
    requires L2Pos(g) + 1 <= |s| && Stage(g, d0, d, ns, s, L2Pos(g) + 1)
    ensures 0 <= SubsEnd(g, ns, j) <= |s|
    ensures Stage(g, d0, FillSubs(g, d, ns, s, j), ns, s, SubsEnd(g, ns, j))
  {
    hide Stage, SubPos, SubBlocks, Need, FillBlock, SubsEnd, L2Pos;
    SubsEndBounds(g, ns, j);
    if j > 0 {
      StageSubs(g, d0, d, ns, s, j - 1);
      StageSub(g, d0, FillSubs(g, d, ns, s, j - 1), ns, s, j - 1);
    }
  }

  /** Everything Allocate writes: each taken sector holds its content, no other changed. */
  lemma AllocImageExact(g: Geometry, d: Image, ns: int, s: seq<int32>)
    requires g.Valid() && ImageOk(g, d) && InRange(g, s) && Ascending(s)
    requires 0 <= ns <= g.MaxSectors() && |s| == Need(g, ns)
    ensures forall p :: 0 <= p < |s| ==> AllocImage(g, d, ns, s)[s[p]] == ContentAt(g, ns, s, p)
    ensures forall x :: 0 <= x < g.numSectors && x !in s ==> AllocImage(g, d, ns, s)[x] == d[x]
  {
    NeedBounds(g, ns);
    StageDirect(g, d, ns, s);
    if ns > g.numDirect {
      var d1 := ClearAll(g, d, s[..DirectCount(g, ns)]);
      StageL1(g, d, d1, ns, s);
      if ns > g.numDirect + g.l1Num {
        StageL2(g, d, FillBlock(g, d1, s, L1Pos(g)), ns, s);
      } else {
        assert s[..|s|] == s;
      }
    } else {
      assert s[..|s|] == s;
    }
  }

  lemma StageL1(g: Geometry, d0: Image, d: Image, ns: int, s: seq<int32>)
    requires g.Valid() && ImageOk(g, d0) && ImageOk(g, d) && InRange(g, s) && Ascending(s)
    requires g.numDirect < ns <= g.MaxSectors() && |s| == Need(g, ns) && L1Pos(g) < |s|
    requires Stage(g, d0, d, ns, s, L1Pos(g))
    ensures Stage(g, d0, FillBlock(g, d, s, L1Pos(g)), ns, s, if |s| < L2Pos(g) then |s| else L2Pos(g))
  {
    StageBlock(g, d0, d, ns, s, L1Pos(g));
  }

  lemma StageL2(g: Geometry, d0: Image, d: Image, ns: int, s: seq<int32>)
    requires g.Valid() && ImageOk(g, d0) && ImageOk(g, d) && InRange(g, s) && Ascending(s)
    requires g.numDirect + g.l1Num < ns <= g.MaxSectors() && |s| == Need(g, ns) && L2Pos(g) < |s|
    requires Stage(g, d0, d, ns, s, L2Pos(g))
    ensures forall p :: 0 <= p < |s| ==> FillL2(g, d, ns, s)[s[p]] == ContentAt(g, ns, s, p)
    ensures forall x :: 0 <= x < g.numSectors && x !in s ==> FillL2(g, d, ns, s)[x] == d0[x]
  {
    var l2 := s[L2Pos(g)];
    var d3 := d[l2 := ZeroSector(g)];
    assert Stage(g, d0, d3, ns, s, L2Pos(g) + 1) by {
      assert s[..L2Pos(g) + 1] == s[..L2Pos(g)] + [l2];
      hide ContentAt;
    }
    SubBlocksBounds(g, ns);
    StageSubs(g, d0, d3, ns, s, SubBlocks(g, ns));
    var d4 := FillSubs(g, d3, ns, s, SubBlocks(g, ns));
    assert Stage(g, d0, d4, ns, s, |s|);
    StageDone(g, d0, d4, ns, s);
  }

  lemma StageDone(g: Geometry, d0: Image, d: Image, ns: int, s: seq<int32>)
    requires g.Valid() && ImageOk(g, d0) && ImageOk(g, d) && InRange(g, s) && Ascending(s)
    requires g.numDirect + g.l1Num < ns <= g.MaxSectors() && |s| == Need(g, ns) && L2Pos(g) < |s|
    requires Stage(g, d0, d, ns, s, |s|)
    ensures var d' := d[s[L2Pos(g)] := IndexBlock(g, SubIndexes(g, ns, s))];
      && (forall p :: 0 <= p < |s| ==> d'[s[p]] == ContentAt(g, ns, s, p))
      && (forall x :: 0 <= x < g.numSectors && x !in s ==> d'[x] == d0[x])
  {
    assert s[..|s|] == s;
    assert ContentAt(g, ns, s, L2Pos(g)) == IndexBlock(g, SubIndexes(g, ns, s));
    hide ContentAt;
  }

  // ---- Counting, for the loops of Allocate ------------------------------------------------

  function Least(a: nat, b: nat): nat {
    if a < b then a else b
  }

  predicate AllIn(g: Geometry, s: seq<int32>, lo: nat, hi: nat)
    requires hi <= |s|
  {
    forall p :: lo <= p < hi ==> 0 <= s[p] < g.numSectors
  }

  lemma EntriesAfterAt(g: Geometry, s: seq<int32>, at: nat)
    requires at < |s|
    ensures var xs := EntriesAfter(g, s, at);
      && at + 1 + |xs| <= |s| && s[at + 1..at + 1 + |xs|] == xs
      && (AllIn(g, s, at, at + 1 + |xs|) <==> 0 <= s[at] < g.numSectors && InRange(g, xs))
  {
    var xs := EntriesAfter(g, s, at);
    if InRange(g, xs) && 0 <= s[at] < g.numSectors {
      forall p | at <= p < at + 1 + |xs| ensures 0 <= s[p] < g.numSectors {
        assert p > at ==> s[p] == xs[p - at - 1];
      }
    }
  }

  /** The block counter when second-level group i starts. */
  function GroupStart(g: Geometry, ns: int, i: nat): int
    requires g.Valid()
  {
    if i < SubBlocks(g, ns) then g.numDirect + g.l1Num + i * g.l1Num else ns
  }

  /** The buffer holds the sectors of the first n groups' index blocks. */
  predicate HoldsGroups(g: Geometry, ns: int, s: seq<int32>, buf: seq<int32>, n: nat)
    requires g.Valid() && g.numDirect + g.l1Num < ns <= g.MaxSectors() && |s| == Need(g, ns) && n <= SubBlocks(g, ns)
  {
    && |buf| == g.l1Num
    && forall j :: 0 <= j < g.l1Num ==> buf[j] == if j < n then SubIndexes(g, ns, s)[j] else -1
  }

  lemma SubBlockCount(g: Geometry, ns: int)
    requires g.Valid() && g.numDirect + g.l1Num < ns <= g.MaxSectors()
    ensures 1 <= SubBlocks(g, ns) <= g.l1Num
    ensures SubsEnd(g, ns, SubBlocks(g, ns)) == Need(g, ns) && GroupStart(g, ns, SubBlocks(g, ns)) == ns
    ensures GroupStart(g, ns, 0) == g.numDirect + g.l1Num
  {
    SubBlocksBounds(g, ns);
  }

  lemma GroupSize(g: Geometry, ns: int, s: seq<int32>, i: nat)
    requires g.Valid() && g.numDirect + g.l1Num < ns <= g.MaxSectors() && |s| == Need(g, ns) && i < SubBlocks(g, ns)
    ensures SubsEnd(g, ns, i) == SubPos(g, i) < |s|
    ensures s[SubPos(g, i)] == SubIndexes(g, ns, s)[i]
    ensures GroupStart(g, ns, i) <= ns
    ensures |EntriesAfter(g, s, SubPos(g, i))| == Least(g.l1Num, ns - GroupStart(g, ns, i))
    ensures SubsEnd(g, ns, i + 1) == SubPos(g, i) + 1 + |EntriesAfter(g, s, SubPos(g, i))|
    ensures GroupStart(g, ns, i + 1) == GroupStart(g, ns, i) + |EntriesAfter(g, s, SubPos(g, i))| <= ns
  {
    hide Need, SubBlocks, SubPos, GroupStart, EntriesAfter;
    SubInNeed(g, ns, i);
    EntriesNoIndex(g, ns, s, i);
    SubBlocksBounds(g, ns);
    GroupCount(g, ns, i, |EntriesAfter(g, s, SubPos(g, i))|);
  }

  /** Group i has the blocks its index lists, and the next group starts behind them. */
  lemma GroupCount(g: Geometry, ns: int, i: nat, n: nat)
    requires g.Valid() && g.numDirect + g.l1Num < ns <= g.MaxSectors() && i < SubBlocks(g, ns)
    requires SubPos(g, i) + 1 + n == if i + 1 < SubBlocks(g, ns) then SubPos(g, i + 1) else Need(g, ns)
    ensures GroupStart(g, ns, i) <= ns && n == Least(g.l1Num, ns - GroupStart(g, ns, i))
    ensures GroupStart(g, ns, i + 1) == GroupStart(g, ns, i) + n <= ns
  {
    hide Need, SubBlocks, SubPos;
    SubBlocksBounds(g, ns);
    GroupNeed(g, ns, i);
    GroupRoom(g, ns, i);
    MulOrder(i + 1, SubBlocks(g, ns), g.l1Num);
    assert (i + 1) * g.l1Num == i * g.l1Num + g.l1Num;
    assert SubBlocks(g, ns) * g.l1Num == (SubBlocks(g, ns) - 1) * g.l1Num + g.l1Num;
    if i + 1 < SubBlocks(g, ns) { MulOrder(i + 1, SubBlocks(g, ns) - 1, g.l1Num); }
  }

  /** Positions left when group i starts. */
  lemma GroupNeed(g: Geometry, ns: int, i: nat)
    requires g.Valid() && g.numDirect + g.l1Num < ns <= g.MaxSectors() && i < SubBlocks(g, ns)
    ensures Need(g, ns) - SubPos(g, i) == ns - g.numDirect - g.l1Num - i * g.l1Num + SubBlocks(g, ns) - i
  {
    SubBlocksBounds(g, ns);
    assert i * (g.l1Num + 1) == i * g.l1Num + i;
    assert SubBlocks(g, ns) * (g.l1Num + 1) == SubBlocks(g, ns) * g.l1Num + SubBlocks(g, ns);
  }

  lemma IndexOfGroups(g: Geometry, ns: int, s: seq<int32>, buf: seq<int32>)
    requires g.Valid() && g.numDirect + g.l1Num < ns <= g.MaxSectors() && |s| == Need(g, ns)
    requires HoldsGroups(g, ns, s, buf, SubBlocks(g, ns))
    ensures EncodeInts(buf) == IndexBlock(g, SubIndexes(g, ns, s))
  {
    var xs := SubIndexes(g, ns, s);
    assert buf == xs + seq(g.l1Num - |xs|, _ => -1);
  }

  lemma NeedFacts(g: Geometry, ns: int)
    requires g.Valid()
    ensures ns <= g.numDirect ==> Need(g, ns) == ns
    ensures g.numDirect < ns <= g.numDirect + g.l1Num ==> Need(g, ns) == ns + 1 <= g.GetCapacity()
    ensures g.numDirect <= g.GetCapacity()
    ensures g.numDirect + g.l1Num < ns <= g.MaxSectors() ==> Need(g, ns) == ns + SubBlocks(g, ns) + 2
    ensures g.numDirect + g.l1Num < ns <= g.MaxSectors() ==> SubBlocks(g, ns) >= 1
  {
    MulOrder(2, g.l1Num, g.l1Num);
    if g.numDirect + g.l1Num < ns <= g.MaxSectors() { SubBlocksBounds(g, ns); }
  }

  lemma DirectPart(g: Geometry, ns: int, s: seq<int32>)
    requires g.Valid() && 0 <= ns <= g.MaxSectors() && |s| == Need(g, ns)
    ensures DirectCount(g, ns) <= |s|
    ensures InRange(g, s) ==> InRange(g, s[..DirectCount(g, ns)])
    ensures ns <= g.numDirect ==> s[..DirectCount(g, ns)] == s
    ensures InRange(g, s[..DirectCount(g, ns)]) <==> AllIn(g, s, 0, DirectCount(g, ns))
  {
    NeedBounds(g, ns);
    var n := DirectCount(g, ns);
    if InRange(g, s[..n]) {
      forall p | 0 <= p < n ensures 0 <= s[p] < g.numSectors { assert s[p] == s[..n][p]; }
    }
  }

  lemma L1Size(g: Geometry, ns: int, s: seq<int32>)
    requires g.Valid() && g.numDirect < ns <= g.MaxSectors() && |s| == Need(g, ns)
    ensures L1Pos(g) < |s|
    ensures |EntriesAfter(g, s, L1Pos(g))| == Least(g.l1Num, ns - g.numDirect)
    ensures L1Pos(g) + 1 + |EntriesAfter(g, s, L1Pos(g))| == if ns > g.numDirect + g.l1Num then L2Pos(g) else |s|
    ensures ns > g.numDirect + g.l1Num ==> L2Pos(g) < |s|
  {
    NeedBounds(g, ns);
  }

  /** What a granted Allocate does: the sectors are the first free ones, they are marked, the
      header points at them, and the image is AllocImage of them. */
  ghost predicate Granting(g: Geometry, d: Image, m: set<int>, fileSize: int32, d': Image, m': set<int>, h: Header)
    requires g.Valid() && ImageOk(g, d)
  {
    var ns := DivRoundUp(fileSize, g.SectorSize());
    && 0 <= ns <= g.MaxSectors() && 0 <= Need(g, ns) <= |FreeSectors(g, m)|
    && var s := FreeSectors(g, m)[..Need(g, ns)];
      && InRange(g, s)
      && h.numBytes == fileSize && h.numSectors == ns && Points(g, h, s)
      && m' == m + Elements(s)
      && d' == AllocImage(g, d, ns, s)
  }

  lemma GatheredRange(g: Geometry, m: set<int>, ns: int, s: seq<int32>)
    requires g.Valid() && 0 <= ns <= g.MaxSectors() && |s| == Need(g, ns)
    requires forall i :: 0 <= i < |s| ==> s[i] == if i < |FreeSectors(g, m)| then FreeSectors(g, m)[i] else -1
    ensures InRange(g, s) <==> |s| <= |FreeSectors(g, m)|
    ensures |s| <= |FreeSectors(g, m)| ==> s == FreeSectors(g, m)[..|s|]
  {
    FreeListExact(m, g.numSectors);
    var fl := FreeSectors(g, m);
    if |s| > |fl| { assert s[|fl|] == -1; }
  }

  lemma DivRoundUpRange(n: int32, s: int)
    requires s > 0
    ensures -0x8000_0000 <= DivRoundUp(n, s) < 0x8000_0000
  {
    hide DivRoundUp;
    DivRoundUpBounds(n, s);
    if n <= 0 { DivRoundUpLow(n, s); }
    MulOrder(1, s, DivRoundUp(n, s) - 1);
    assert s * (DivRoundUp(n, s) - 1) == (DivRoundUp(n, s) - 1) * s;
  }
}
