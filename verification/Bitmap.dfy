/** userprog/bitmap.cc: a word array refining a set of sector numbers. */
module Bitmap {
  import opened Arithmetic
  import opened Machine

  const BITS_IN_WORD := 32

  function Mask(k: nat): bv32
    requires k < BITS_IN_WORD
  {
    (1 as bv32) << k
  }

  predicate WordBit(w: bv32, k: nat)
    requires k < BITS_IN_WORD
  {
    w & Mask(k) != 0
  }

  function WithBit(w: bv32, k: nat): bv32
    requires k < BITS_IN_WORD
  {
    w | Mask(k)
  }

  function WithoutBit(w: bv32, k: nat): bv32
    requires k < BITS_IN_WORD
  {
    w & !Mask(k)
  }

  predicate BitSet(ws: seq<bv32>, i: nat)
    requires i < BITS_IN_WORD * |ws|
  {
    WordBit(ws[i / BITS_IN_WORD], i % BITS_IN_WORD)
  }

  /** The set a word array stands for. */
  function Marked(ws: seq<bv32>, n: nat): set<int>
    requires n <= BITS_IN_WORD * |ws|
  {
    set i | 0 <= i < n && BitSet(ws, i)
  }

  predicate Ascending(s: seq<int>) {
    forall j, k :: 0 <= j < k < |s| ==> s[j] < s[k]
  }

  /** The clear bits below n in increasing order: the order in which Find hands them out. */
  function FreeList(m: set<int>, n: nat): seq<int> {
    if n == 0 then []
    else if n - 1 in m then FreeList(m, n - 1)
    else FreeList(m, n - 1) + [n - 1]
  }

  // ---- Single words -------------------------------------------------------------------

  // The solver handles a mask best as a variable m with m == Mask(k).

  lemma WithBitBy(w: bv32, k: nat, x: bv32)
    requires k < BITS_IN_WORD && x == w | ((1 as bv32) << k)
    ensures x == WithBit(w, k)
  {}

  lemma WithoutBitBy(w: bv32, k: nat, x: bv32)
    requires k < BITS_IN_WORD && x == w & !((1 as bv32) << k)
    ensures x == WithoutBit(w, k)
  {}

  lemma WordBitIs(w: bv32, k: nat, m: bv32)
    requires k < BITS_IN_WORD && m == Mask(k)
    ensures WordBit(w, k) <==> w & m != 0
  {
    hide Mask;
  }

  lemma WithBitIs(w: bv32, k: nat, m: bv32)
    requires k < BITS_IN_WORD && m == Mask(k)
    ensures WithBit(w, k) == w | m
  {
    hide Mask;
  }

  lemma WithoutBitIs(w: bv32, k: nat, m: bv32)
    requires k < BITS_IN_WORD && m == Mask(k)
    ensures WithoutBit(w, k) == w & !m
  {
    hide Mask;
  }

  lemma MasksMeet(j: nat, k: nat, m: bv32, o: bv32)
    requires j < BITS_IN_WORD && k < BITS_IN_WORD && m == Mask(j) && o == Mask(k)
    ensures j != k ==> m & o == 0
    ensures m != 0
  {}

  lemma OrOther(w: bv32, x: bv32, m: bv32, o: bv32)
    requires x == w | m && m & o == 0
    ensures x & o == w & o
  {}

  lemma AndOther(w: bv32, x: bv32, m: bv32, o: bv32)
    requires x == w & !m && m & o == 0
    ensures x & o == w & o
  {}

  lemma OrOwn(w: bv32, x: bv32, m: bv32)
    requires x == w | m && m != 0
    ensures x & m != 0
  {}

  lemma AndOwn(w: bv32, x: bv32, m: bv32)
    requires x == w & !m
    ensures x & m == 0
  {}

  lemma SetWordBit(w: bv32, x: bv32, j: nat, k: nat, m: bv32, o: bv32)
    requires j < BITS_IN_WORD && k < BITS_IN_WORD && m == Mask(j) && o == Mask(k)
    requires x == WithBit(w, j)
    ensures WordBit(x, k) <==> j == k || WordBit(w, k)
  {
    hide *;
    WithBitIs(w, j, m);
    WordBitIs(w, k, o);
    WordBitIs(x, k, o);
    MasksMeet(j, k, m, o);
    if j == k { OrOwn(w, x, m); } else { OrOther(w, x, m, o); }
  }

  lemma ClearWordBit(w: bv32, x: bv32, j: nat, k: nat, m: bv32, o: bv32)
    requires j < BITS_IN_WORD && k < BITS_IN_WORD && m == Mask(j) && o == Mask(k)
    requires x == WithoutBit(w, j)
    ensures WordBit(x, k) <==> j != k && WordBit(w, k)
  {
    hide *;
    WithoutBitIs(w, j, m);
    WordBitIs(w, k, o);
    WordBitIs(x, k, o);
    MasksMeet(j, k, m, o);
    if j == k { AndOwn(w, x, m); } else { AndOther(w, x, m, o); }
  }

  lemma MaskLiterals()
    ensures Mask(0) == 0x1 && Mask(1) == 0x2 && Mask(2) == 0x4 && Mask(3) == 0x8
    ensures Mask(4) == 0x10 && Mask(5) == 0x20 && Mask(6) == 0x40 && Mask(7) == 0x80
    ensures Mask(8) == 0x100 && Mask(9) == 0x200 && Mask(10) == 0x400 && Mask(11) == 0x800
    ensures Mask(12) == 0x1000 && Mask(13) == 0x2000 && Mask(14) == 0x4000 && Mask(15) == 0x8000
    ensures Mask(16) == 0x1_0000 && Mask(17) == 0x2_0000 && Mask(18) == 0x4_0000 && Mask(19) == 0x8_0000
    ensures Mask(20) == 0x10_0000 && Mask(21) == 0x20_0000 && Mask(22) == 0x40_0000 && Mask(23) == 0x80_0000
    ensures Mask(24) == 0x100_0000 && Mask(25) == 0x200_0000 && Mask(26) == 0x400_0000 && Mask(27) == 0x800_0000
    ensures Mask(28) == 0x1000_0000 && Mask(29) == 0x2000_0000 && Mask(30) == 0x4000_0000 && Mask(31) == 0x8000_0000
  {}

  lemma NoBits(d: bv32)
    requires forall k: nat | k < BITS_IN_WORD :: d & Mask(k) == 0
    ensures d == 0
  {
    MaskLiterals();
    hide Mask;
  }

  function Difference(v: bv32, w: bv32): (d: bv32)
    ensures d == 0 ==> v == w
  {
    v ^ w
  }

  /** A word is determined by its bits. */
  lemma WordFromBits(v: bv32, w: bv32)
    requires forall k: nat | k < BITS_IN_WORD :: WordBit(v, k) <==> WordBit(w, k)
    ensures v == w
  {
    hide *;
    forall k: nat | k < BITS_IN_WORD ensures Difference(v, w) & Mask(k) == 0 {
      SameBit(v, w, k, Mask(k));
    }
    NoBits(Difference(v, w));
  }

  lemma SameBit(v: bv32, w: bv32, k: nat, m: bv32)
    requires k < BITS_IN_WORD && m == Mask(k)
    requires WordBit(v, k) <==> WordBit(w, k)
    ensures Difference(v, w) & m == 0
  {
    hide *;
    WordBitIs(v, k, m);
    WordBitIs(w, k, m);
    OneBit(v, w, k, m);
  }

  lemma OneBit(v: bv32, w: bv32, k: nat, m: bv32)
    requires k < BITS_IN_WORD && m == Mask(k)
    requires v & m != 0 <==> w & m != 0
    ensures Difference(v, w) & m == 0
  {
    Single(v, k, m);
    Single(w, k, m);
    Xor(v, w, m);
  }

  lemma Single(v: bv32, k: nat, m: bv32)
    requires k < BITS_IN_WORD && m == Mask(k)
    ensures v & m == 0 || v & m == m
  {}

  lemma Xor(v: bv32, w: bv32, m: bv32)
    ensures Difference(v, w) & m == (v & m) ^ (w & m)
  {}

  // ---- Words from bytes ---------------------------------------------------------------

  /** Bit k of a number. */
  predicate NumberBit(x: nat, k: nat) {
    if k == 0 then x % 2 == 1 else NumberBit(x / 2, k - 1)
  }

  lemma BitsFrom0(x: uint32, w: bv32)
    requires w == x as bv32
    ensures w & 0x1 != 0 <==> x / 1 % 2 == 1
    ensures w & 0x2 != 0 <==> x / 2 % 2 == 1
    ensures w & 0x4 != 0 <==> x / 4 % 2 == 1
    ensures w & 0x8 != 0 <==> x / 8 % 2 == 1
    ensures w & 0x10 != 0 <==> x / 16 % 2 == 1
    ensures w & 0x20 != 0 <==> x / 32 % 2 == 1
    ensures w & 0x40 != 0 <==> x / 64 % 2 == 1
    ensures w & 0x80 != 0 <==> x / 128 % 2 == 1
  {}

  lemma BitsFrom8(x: uint32, w: bv32)
    requires w == x as bv32
    ensures w & 0x100 != 0 <==> x / 256 % 2 == 1
    ensures w & 0x200 != 0 <==> x / 512 % 2 == 1
    ensures w & 0x400 != 0 <==> x / 1024 % 2 == 1
    ensures w & 0x800 != 0 <==> x / 2048 % 2 == 1
    ensures w & 0x1000 != 0 <==> x / 4096 % 2 == 1
    ensures w & 0x2000 != 0 <==> x / 8192 % 2 == 1
    ensures w & 0x4000 != 0 <==> x / 16384 % 2 == 1
    ensures w & 0x8000 != 0 <==> x / 32768 % 2 == 1
  {}

  lemma BitsFrom16(x: uint32, w: bv32)
    requires w == x as bv32
    ensures w & 0x10000 != 0 <==> x / 65536 % 2 == 1
    ensures w & 0x20000 != 0 <==> x / 131072 % 2 == 1
    ensures w & 0x40000 != 0 <==> x / 262144 % 2 == 1
    ensures w & 0x80000 != 0 <==> x / 524288 % 2 == 1
    ensures w & 0x100000 != 0 <==> x / 1048576 % 2 == 1
    ensures w & 0x200000 != 0 <==> x / 2097152 % 2 == 1
    ensures w & 0x400000 != 0 <==> x / 4194304 % 2 == 1
    ensures w & 0x800000 != 0 <==> x / 8388608 % 2 == 1
  {}

  lemma BitsFrom24(x: uint32, w: bv32)
    requires w == x as bv32
    ensures w & 0x1000000 != 0 <==> x / 16777216 % 2 == 1
    ensures w & 0x2000000 != 0 <==> x / 33554432 % 2 == 1
    ensures w & 0x4000000 != 0 <==> x / 67108864 % 2 == 1
    ensures w & 0x8000000 != 0 <==> x / 134217728 % 2 == 1
    ensures w & 0x10000000 != 0 <==> x / 268435456 % 2 == 1
    ensures w & 0x20000000 != 0 <==> x / 536870912 % 2 == 1
    ensures w & 0x40000000 != 0 <==> x / 1073741824 % 2 == 1
    ensures w & 0x80000000 != 0 <==> x / 2147483648 % 2 == 1
  {}

  lemma {:induction false} BitByDivision(x: nat, k: nat)
    ensures NumberBit(x, k) <==> x / Pow2(k) % 2 == 1
  {
    if k > 0 {
      BitByDivision(x / 2, k - 1);
      HalfThen(x, Pow2(k - 1));
    }
  }

  lemma MaskFrom0(x: uint32, w: bv32, k: nat, m: bv32)
    requires w == x as bv32 && 0 <= k < 8 && m == Mask(k)
    ensures w & m != 0 <==> x / Pow2(k) % 2 == 1
  {
    hide Mask, Pow2;
    BitsFrom0(x, w);
    MaskLiterals();
    Powers();
    if k == 0 {
    } else if k == 1 {
    } else if k == 2 {
    } else if k == 3 {
    } else if k == 4 {
    } else if k == 5 {
    } else if k == 6 {
    } else {
      assert k == 7;
    }
  }

  lemma MaskFrom8(x: uint32, w: bv32, k: nat, m: bv32)
    requires w == x as bv32 && 8 <= k < 16 && m == Mask(k)
    ensures w & m != 0 <==> x / Pow2(k) % 2 == 1
  {
    hide Mask, Pow2;
    BitsFrom8(x, w);
    MaskLiterals();
    Powers();
    if k == 8 {
    } else if k == 9 {
    } else if k == 10 {
    } else if k == 11 {
    } else if k == 12 {
    } else if k == 13 {
    } else if k == 14 {
    } else {
      assert k == 15;
    }
  }

  lemma MaskFrom16(x: uint32, w: bv32, k: nat, m: bv32)
    requires w == x as bv32 && 16 <= k < 24 && m == Mask(k)
    ensures w & m != 0 <==> x / Pow2(k) % 2 == 1
  {
    hide Mask, Pow2;
    BitsFrom16(x, w);
    MaskLiterals();
    Powers();
    if k == 16 {
    } else if k == 17 {
    } else if k == 18 {
    } else if k == 19 {
    } else if k == 20 {
    } else if k == 21 {
    } else if k == 22 {
    } else {
      assert k == 23;
    }
  }

  lemma MaskFrom24(x: uint32, w: bv32, k: nat, m: bv32)
    requires w == x as bv32 && 24 <= k < 32 && m == Mask(k)
    ensures w & m != 0 <==> x / Pow2(k) % 2 == 1
  {
    hide Mask, Pow2;
    BitsFrom24(x, w);
    MaskLiterals();
    Powers();
    if k == 24 {
    } else if k == 25 {
    } else if k == 26 {
    } else if k == 27 {
    } else if k == 28 {
    } else if k == 29 {
    } else if k == 30 {
    } else {
      assert k == 31;
    }
  }

  lemma MaskFrom(x: uint32, w: bv32, k: nat, m: bv32)
    requires w == x as bv32 && k < BITS_IN_WORD && m == Mask(k)
    ensures w & m != 0 <==> x / Pow2(k) % 2 == 1
  {
    hide Mask, Pow2;
    if k < 8 {
      MaskFrom0(x, w, k, m);
    } else if k < 16 {
      MaskFrom8(x, w, k, m);
    } else if k < 24 {
      MaskFrom16(x, w, k, m);
    } else {
      MaskFrom24(x, w, k, m);
    }
  }

  /** A word made of a number has the number's bits. */
  lemma WordBitOf(x: uint32, w: bv32, k: nat, m: bv32)
    requires w == x as bv32 && k < BITS_IN_WORD && m == Mask(k)
    ensures WordBit(w, k) <==> NumberBit(x, k)
  {
    hide *;
    BitByDivision(x, k);
    WordBitIs(w, k, m);
    MaskFrom(x, w, k, m);
  }

  lemma {:induction false} LowBits(b: nat, more: nat, n: nat, r: nat)
    requires r < n
    ensures NumberBit(b + Pow2(n) * more, r) <==> NumberBit(b, r)
  {
    assert Pow2(n) * more == 2 * (Pow2(n - 1) * more);
    if r > 0 { LowBits(b / 2, more, n - 1, r - 1); }
  }

  lemma {:induction false} HighBits(b: nat, more: nat, n: nat, r: nat)
    requires b < Pow2(n)
    ensures NumberBit(b + Pow2(n) * more, n + r) <==> NumberBit(more, r)
  {
    if n > 0 {
      assert Pow2(n) * more == 2 * (Pow2(n - 1) * more);
      HighBits(b / 2, more, n - 1, r);
    }
  }

  lemma BitOfBytes(b0: byte, b1: byte, b2: byte, b3: byte, k: nat)
    requires k < BITS_IN_WORD
    ensures NumberBit(WordOf(b0, b1, b2, b3), k) <==> NumberBit([b0, b1, b2, b3][k / 8], k % 8)
  {
    hide NumberBit;
    var x2: nat := b2 as int + 256 * b3 as int;
    var x1: nat := b1 as int + 256 * x2;
    assert Pow2(8) == 256 && WordOf(b0, b1, b2, b3) == b0 as int + 256 * x1;
    if k < 8 {
      LowBits(b0, x1, 8, k);
    } else if k < 16 {
      HighBits(b0, x1, 8, k - 8);
      LowBits(b1, x2, 8, k - 8);
    } else if k < 24 {
      HighBits(b0, x1, 8, k - 8);
      HighBits(b1, x2, 8, k - 16);
      LowBits(b2, b3, 8, k - 16);
    } else {
      HighBits(b0, x1, 8, k - 8);
      HighBits(b1, x2, 8, k - 16);
      HighBits(b2, b3, 8, k - 24);
    }
  }

  /** Bit k of a word is bit k % 8 of its byte k / 8. */
  lemma BitOfWord(b0: byte, b1: byte, b2: byte, b3: byte, w: bv32, k: nat)
    requires k < BITS_IN_WORD && w == WordOf(b0, b1, b2, b3) as bv32
    ensures WordBit(w, k) <==> NumberBit([b0, b1, b2, b3][k / 8], k % 8)
  {
    hide NumberBit, WordBit, WordOf, Mask;
    BitOfBytes(b0, b1, b2, b3, k);
    WordBitOf(WordOf(b0, b1, b2, b3), w, k, Mask(k));
  }

  // ---- Whole arrays -------------------------------------------------------------------

  function SetBitIn(ws: seq<bv32>, x: nat): seq<bv32>
    requires x < BITS_IN_WORD * |ws|
  {
    ws[x / BITS_IN_WORD := WithBit(ws[x / BITS_IN_WORD], x % BITS_IN_WORD)]
  }

  function ClearBitIn(ws: seq<bv32>, x: nat): seq<bv32>
    requires x < BITS_IN_WORD * |ws|
  {
    ws[x / BITS_IN_WORD := WithoutBit(ws[x / BITS_IN_WORD], x % BITS_IN_WORD)]
  }

  lemma BitAfter(ws: seq<bv32>, x: nat, i: nat)
    requires x < BITS_IN_WORD * |ws| && i < BITS_IN_WORD * |ws|
    ensures BitSet(SetBitIn(ws, x), i) <==> i == x || BitSet(ws, i)
    ensures BitSet(ClearBitIn(ws, x), i) <==> i != x && BitSet(ws, i)
  {
    hide WordBit, WithBit, WithoutBit, Mask;
    var q, j, k := x / BITS_IN_WORD, x % BITS_IN_WORD, i % BITS_IN_WORD;
    if i / BITS_IN_WORD == q {
      SetWordBit(ws[q], WithBit(ws[q], j), j, k, Mask(j), Mask(k));
      ClearWordBit(ws[q], WithoutBit(ws[q], j), j, k, Mask(j), Mask(k));
    }
  }

  lemma MarkedAfter(ws: seq<bv32>, n: nat, x: nat)
    requires n <= BITS_IN_WORD * |ws| && x < n
    ensures Marked(SetBitIn(ws, x), n) == Marked(ws, n) + {x}
    ensures Marked(ClearBitIn(ws, x), n) == Marked(ws, n) - {x}
  {
    var on, off := SetBitIn(ws, x), ClearBitIn(ws, x);
    forall i | 0 <= i < n
      ensures i in Marked(on, n) <==> i == x || i in Marked(ws, n)
      ensures i in Marked(off, n) <==> i != x && i in Marked(ws, n)
    {
      BitAfter(ws, x, i);
    }
  }

  /** A bitmap without spare bits is determined by its set: equal sets, equal words. */
  lemma SameSetSameWords(v: seq<bv32>, w: seq<bv32>)
    requires |v| == |w|
    requires Marked(v, BITS_IN_WORD * |v|) == Marked(w, BITS_IN_WORD * |w|)
    ensures v == w
  {
    forall q: nat | q < |v| ensures v[q] == w[q] {
      SameSetSameWord(v, w, q);
    }
  }

  lemma SameSetSameWord(v: seq<bv32>, w: seq<bv32>, q: nat)
    requires |v| == |w| && q < |v|
    requires Marked(v, BITS_IN_WORD * |v|) == Marked(w, BITS_IN_WORD * |w|)
    ensures v[q] == w[q]
  {
    var vq, wq := v[q], w[q];
    forall k: nat | k < BITS_IN_WORD ensures WordBit(vq, k) <==> WordBit(wq, k) {
      SameSetSameBit(v, w, q, k);
    }
    WordFromBits(vq, wq);
  }

  lemma SameSetSameBit(v: seq<bv32>, w: seq<bv32>, q: nat, k: nat)
    requires |v| == |w| && q < |v| && k < BITS_IN_WORD
    requires Marked(v, BITS_IN_WORD * |v|) == Marked(w, BITS_IN_WORD * |w|)
    ensures WordBit(v[q], k) <==> WordBit(w[q], k)
  {
    var i := BITS_IN_WORD * q + k;
    assert i / BITS_IN_WORD == q && i % BITS_IN_WORD == k;
    assert i in Marked(v, BITS_IN_WORD * |v|) <==> BitSet(v, i);
    assert i in Marked(w, BITS_IN_WORD * |w|) <==> BitSet(w, i);
  }

  // ---- The free list ------------------------------------------------------------------

  /** The free list holds exactly the clear sectors, in increasing order. */
  lemma {:induction false} FreeListExact(m: set<int>, n: nat)
    ensures forall k :: 0 <= k < |FreeList(m, n)| ==> 0 <= FreeList(m, n)[k] < n && FreeList(m, n)[k] !in m
    ensures forall x :: 0 <= x < n && x !in m ==> x in FreeList(m, n)
    ensures Ascending(FreeList(m, n))
  {
    if n > 0 {
      FreeListExact(m, n - 1);
      var s := FreeList(m, n - 1);
      if n - 1 !in m {
        assert FreeList(m, n) == s + [n - 1];
        assert (s + [n - 1])[|s|] == n - 1;
        forall x | 0 <= x < n && x !in m ensures x in s + [n - 1] {
          assert x < n - 1 ==> x in s;
        }
      }
    }
  }

  lemma {:induction false} FreeListSplit(m: set<int>, n: nat, i: nat)
    requires i <= n
    ensures FreeList(m, i) <= FreeList(m, n)
  {
    if i < n { FreeListSplit(m, n - 1, i); }
  }

  lemma {:induction false} SameFreeList(m: set<int>, m': set<int>, n: nat)
    requires forall x :: 0 <= x < n ==> (x in m <==> x in m')
    ensures FreeList(m, n) == FreeList(m', n)
  {
    if n > 0 { SameFreeList(m, m', n - 1); }
  }

  /** Taking the head of the free list leaves its tail. */
  lemma {:induction false} FreeListTake(m: set<int>, n: nat)
    requires |FreeList(m, n)| > 0
    ensures FreeList(m + {FreeList(m, n)[0]}, n) == FreeList(m, n)[1..]
  {
    var f := FreeList(m, n)[0];
    if |FreeList(m, n - 1)| > 0 {
      FreeListExact(m, n - 1);
      FreeListTake(m, n - 1);
      assert n - 1 in m + {f} <==> n - 1 in m;
    } else {
      assert f == n - 1;
      SameFreeList(m, m + {f}, n - 1);
    }
  }

  /** Taking the k first free sectors leaves the rest of the list. */
  lemma {:induction false} FreeListTakeMany(m: set<int>, n: nat, k: nat)
    requires k <= |FreeList(m, n)|
    ensures FreeList(m + Elements(FreeList(m, n)[..k]), n) == FreeList(m, n)[k..]
  {
    var s := FreeList(m, n);
    if k == 0 {
      assert m + Elements(s[..0]) == m;
    } else {
      FreeListTakeMany(m, n, k - 1);
      FreeListTake(m + Elements(s[..k - 1]), n);
      ElementsSnoc(s, k - 1);
      assert m + Elements(s[..k - 1]) + {s[k - 1]} == m + Elements(s[..k]);
    }
  }

  lemma ElementsSnoc(s: seq<int>, k: nat)
    requires k < |s|
    ensures Elements(s[..k + 1]) == Elements(s[..k]) + {s[k]}
  {
    assert s[..k + 1] == s[..k] + [s[k]];
  }

  function Elements(s: seq<int>): set<int> {
    set x | x in s
  }

  class BitMap {
    const numBits: nat
    const words: array<bv32>

    ghost predicate Valid()
      reads this
    {
      numBits <= BITS_IN_WORD * words.Length < numBits + BITS_IN_WORD
    }

    /** The sectors in use. */
    function Bits(): (m: set<int>)
      reads this, words
      requires Valid()
    {
      Marked(words[..], numBits)
    }

    constructor (nitems: nat)
      ensures Valid() && numBits == nitems && fresh(words)
      ensures Bits() == {}
    {
      numBits := nitems;
      words := new bv32[DivRoundUp(nitems, BITS_IN_WORD)];
      new;
      var i := 0;
      while i < numBits
        invariant 0 <= i <= numBits
        invariant forall j :: 0 <= j < i ==> j !in Bits()
      {
        Clear(i);
        i := i + 1;
      }
    }

    method Mark(which: int)
      requires Valid() && 0 <= which < numBits
      modifies words
      ensures Bits() == old(Bits()) + {which}
    {
      hide Mask, WithBit, WordBit, BitSet, Marked;
      MarkedAfter(words[..], numBits, which);
      ghost var after := SetBitIn(words[..], which);
      var q, k := which / BITS_IN_WORD, which % BITS_IN_WORD;
      var word := words[q] | ((1 as bv32) << k);
      WithBitBy(words[q], k, word);
      words[q] := word;
      assert words[..] == after;
    }

    method Clear(which: int)
      requires Valid() && 0 <= which < numBits
      modifies words
      ensures Bits() == old(Bits()) - {which}
    {
      hide Mask, WithoutBit, WordBit, BitSet, Marked;
      MarkedAfter(words[..], numBits, which);
      ghost var after := ClearBitIn(words[..], which);
      var q, k := which / BITS_IN_WORD, which % BITS_IN_WORD;
      var word := words[q] & !((1 as bv32) << k);
      WithoutBitBy(words[q], k, word);
      words[q] := word;
      assert words[..] == after;
    }

    method Test(which: int) returns (isSet: bool)
      requires Valid() && 0 <= which < numBits
      ensures isSet <==> which in Bits()
    {
      isSet := words[which / BITS_IN_WORD] & ((1 as bv32) << (which % BITS_IN_WORD)) != 0;
      assert isSet <==> BitSet(words[..], which);
    }

    /** Takes the first clear bit, or returns -1 and changes nothing when all are set. */
    method Find() returns (found: int)
      requires Valid()
      modifies words
      ensures FreeList(old(Bits()), numBits) == [] ==> found == -1 && words[..] == old(words[..])
      ensures FreeList(old(Bits()), numBits) != [] ==>
        found == FreeList(old(Bits()), numBits)[0] && Bits() == old(Bits()) + {found}
    {
      ghost var m := Bits();
      var i := 0;
      while i < numBits
        invariant 0 <= i <= numBits
        invariant words[..] == old(words[..])
        invariant FreeList(m, i) == []
      {
        var t := Test(i);
        if !t {
          Mark(i);
          assert FreeList(m, i + 1) == [i];
          FreeListSplit(m, numBits, i + 1);
          return i;
        }
        i := i + 1;
      }
      return -1;
    }

    method NumClear() returns (count: nat)
      requires Valid()
      ensures count == |FreeList(Bits(), numBits)|
    {
      count := 0;
      var i := 0;
      while i < numBits
        invariant 0 <= i <= numBits
        invariant count == |FreeList(Bits(), i)|
      {
        var t := Test(i);
        if !t { count := count + 1; }
        i := i + 1;
      }
    }
  }
}
