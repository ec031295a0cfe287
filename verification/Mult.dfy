/** Mult of machine/mipssim.cc: the 64-bit product by shift and add. Words wrap at 2^32. */
module Mult {
  import opened Arithmetic
  import opened Machine

  const WORD := 0x1_0000_0000

  lemma WordIsPow2()
    ensures Pow2(32) == WORD
  {
    assert Pow2(8) == 256;
    assert Pow2(16) == 65536;
    assert Pow2(24) == 16777216;
  }

  /** A double word. */
  function Double(hi: uint32, lo: uint32): (d: nat) { hi * WORD + lo }

  // ---- The words of one iteration ---------------------------------------------------------

  function ShiftLo(bLo: uint32): uint32 { 2 * bLo % WORD }

  function ShiftHi(bHi: uint32, bLo: uint32): uint32 {
    2 * bHi % WORD + (if bLo >= 0x8000_0000 then 1 else 0)
  }

  lemma ShiftDoubles(bHi: uint32, bLo: uint32)
    requires 2 * Double(bHi, bLo) < WORD * WORD
    ensures Double(ShiftHi(bHi, bLo), ShiftLo(bLo)) == 2 * Double(bHi, bLo)
  {}

  function AddLo(lo: uint32, bLo: uint32): uint32 { (lo + bLo) % WORD }

  function AddHi(hi: uint32, lo: uint32, bHi: uint32, bLo: uint32): uint32 {
    ((if AddLo(lo, bLo) < bLo then (hi + 1) % WORD else hi) + bHi) % WORD
  }

  lemma AddAdds(hi: uint32, lo: uint32, bHi: uint32, bLo: uint32)
    requires Double(hi, lo) + Double(bHi, bLo) < WORD * WORD
    ensures Double(AddHi(hi, lo, bHi, bLo), AddLo(lo, bLo)) == Double(hi, lo) + Double(bHi, bLo)
  {}

  function NegLo(lo: uint32): uint32 { (WORD - 1 - lo + 1) % WORD }

  function NegHi(hi: uint32, lo: uint32): uint32 {
    if NegLo(lo) == 0 then (WORD - 1 - hi + 1) % WORD else WORD - 1 - hi
  }

  lemma NegNegates(hi: uint32, lo: uint32)
    requires Double(hi, lo) > 0
    ensures Double(NegHi(hi, lo), NegLo(lo)) == WORD * WORD - Double(hi, lo)
  {}

  // ---- The loop ---------------------------------------------------------------------------

  /** After i iterations: low is the part of m already multiplied in, a the rest of it shifted
      down, with the sign bit of a negative a shifted in above. */
  ghost predicate Partial(m: uint32, n: uint32, i: nat, a: int, low: nat, hi: uint32, lo: uint32, bHi: uint32,
                          bLo: uint32)
  {
    && i <= 32 && low < Pow2(i)
    && (exists u: nat :: Rest(m, i, a, low, u))
    && Double(bHi, bLo) == n * Pow2(i)
    && Double(hi, lo) == n * low
  }

  ghost predicate Rest(m: uint32, i: nat, a: int, low: nat, u: nat)
    requires i <= 32
  {
    m == low + Pow2(i) * u && u < Pow2(32 - i) && (a == u || a == u - Pow2(32 - i))
  }

  lemma Parity(a: int, u: nat, q: nat)
    requires a == u || a == u - 2 * q
    ensures a % 2 == u % 2
    ensures a / 2 == u / 2 || a / 2 == u / 2 - q
  {
    if a == u - 2 * q {
      DivMod(u, 2);
      DivUnique(a, 2, u / 2 - q, u % 2);
    }
  }

  lemma HalfStep(m: nat, p: nat, low: nat, u: nat)
    requires p > 0 && m == low + p * u && low < p
    ensures m == low + p * (u % 2) + (2 * p) * (u / 2)
    ensures low + p * (u % 2) <= m && low + p * (u % 2) < 2 * p
  {
    DivMod(u, 2);
    var v, r := u / 2, u % 2;
    assert p * u == p * (v * 2) + p * r by { assert u == v * 2 + r; }
    assert p * (v * 2) == (2 * p) * v;
    MulOrder(0, v, 2 * p);
    assert v * (2 * p) == (2 * p) * v;
    assert r == 0 || r == 1;
  }

  lemma RestNext(m: uint32, i: nat, a: int, low: nat, u: nat)
    requires i < 32 && Rest(m, i, a, low, u) && low < Pow2(i)
    ensures a % 2 == u % 2
    ensures low + Pow2(i) * (a % 2) < Pow2(i + 1) && low + Pow2(i) * (a % 2) <= m
    ensures Rest(m, i + 1, a / 2, low + Pow2(i) * (a % 2), u / 2)
  {
    assert Pow2(32 - i) == 2 * Pow2(31 - i) && Pow2(i + 1) == 2 * Pow2(i);
    hide Pow2;
    Parity(a, u, Pow2(31 - i));
    HalfStep(m, Pow2(i), low, u);
    assert u / 2 < Pow2(31 - i);
    var low' := low + Pow2(i) * (a % 2);
    assert m == low' + Pow2(i + 1) * (u / 2);
  }

  /** Products of two words fit in a double word. */
  lemma ProductFits(m: uint32, n: uint32, k: nat)
    requires k <= WORD
    ensures n * k < WORD * WORD
    ensures k <= m ==> n * k <= n * m
  {
    MulOrder(k, WORD, n);
    MulOrder(k, m, n);
    assert n * k == k * n && n * m == m * n && n * WORD < WORD * WORD;
  }

  lemma {:induction false} Pow2Bound(i: nat)
    requires i <= 32
    ensures Pow2(i) <= WORD
    decreases 32 - i
  {
    if i < 32 { Pow2Bound(i + 1); } else { WordIsPow2(); }
  }

  /** One iteration that adds. */
  lemma Adds(m: uint32, n: uint32, i: nat, low: nat, hi: uint32, lo: uint32, bHi: uint32, bLo: uint32)
    requires Double(bHi, bLo) == n * Pow2(i) && Double(hi, lo) == n * low && low + Pow2(i) <= m
    ensures Double(AddHi(hi, lo, bHi, bLo), AddLo(lo, bLo)) == n * (low + Pow2(i))
  {
    ProductFits(m, n, low + Pow2(i));
    assert n * (low + Pow2(i)) == n * low + n * Pow2(i);
    hide Pow2, Double, AddHi, AddLo;
    AddAdds(hi, lo, bHi, bLo);
  }

  lemma Shifts(n: uint32, i: nat, bHi: uint32, bLo: uint32)
    requires i < 32 && Double(bHi, bLo) == n * Pow2(i)
    ensures Double(ShiftHi(bHi, bLo), ShiftLo(bLo)) == n * Pow2(i + 1)
  {
    Pow2Bound(i + 1);
    ProductFits(0, n, Pow2(i + 1));
    assert n * Pow2(i + 1) == 2 * (n * Pow2(i));
    hide Double, ShiftHi, ShiftLo;
    ShiftDoubles(bHi, bLo);
  }

  lemma NextPartial(m: uint32, n: uint32, i: nat, a: int, low: nat, hi: uint32, lo: uint32, bHi: uint32, bLo: uint32)
    requires i < 32 && Partial(m, n, i, a, low, hi, lo, bHi, bLo)
    ensures var r := a % 2;
      var hi', lo' := if r == 1 then AddHi(hi, lo, bHi, bLo) else hi, if r == 1 then AddLo(lo, bLo) else lo;
      && Partial(m, n, i + 1, a / 2, low + Pow2(i) * r, hi', lo', ShiftHi(bHi, bLo), ShiftLo(bLo))
      && (r == 1 && (a == 0 || a == 1) ==> Double(hi', lo') == n * m)
  {
    hide Double, AddHi, AddLo, ShiftHi, ShiftLo, Pow2, Rest;
    var u: nat :| Rest(m, i, a, low, u);
    RestNext(m, i, a, low, u);
    Shifts(n, i, bHi, bLo);
    if a % 2 == 1 {
      OneBit(i, a, low);
      Adds(m, n, i, low, hi, lo, bHi, bLo);
      if a == 1 { LastBit(m, i, low, u); }
    } else {
      NoBit(i, a, low);
    }
  }

  lemma OneBit(i: nat, a: int, low: nat)
    requires a % 2 == 1
    ensures low + Pow2(i) * (a % 2) == low + Pow2(i)
  {}

  lemma NoBit(i: nat, a: int, low: nat)
    requires a % 2 != 1
    ensures low + Pow2(i) * (a % 2) == low
  {}

  lemma LastBit(m: uint32, i: nat, low: nat, u: nat)
    requires i < 32 && Rest(m, i, 1, low, u)
    ensures m == low + Pow2(i)
  {}

  lemma AllBits(m: uint32, n: uint32, a: int, low: nat, hi: uint32, lo: uint32, bHi: uint32, bLo: uint32)
    requires Partial(m, n, 32, a, low, hi, lo, bHi, bLo)
    ensures Double(hi, lo) == n * m
  {
    var u: nat :| Rest(m, 32, a, low, u);
    assert Pow2(0) == 1;
    hide Double;
  }

  lemma FirstPartial(a: int32, n: uint32)
    ensures Partial(Unsigned(a), n, 0, a, 0, 0, 0, 0, n)
  {
    WordIsPow2();
    assert Rest(Unsigned(a), 0, a, 0, Unsigned(a));
    hide Rest;
  }

  /** The unsigned product of two bit patterns. */
  method Product(a0: int32, b: uint32) returns (hi: uint32, lo: uint32)
    ensures Double(hi, lo) == b * Unsigned(a0)
  {
    hide Partial, Double;
    var a: int := a0;
    var bLo: uint32, bHi: uint32 := b, 0;
    lo, hi := 0, 0;
    ghost var m, low: nat := Unsigned(a0), 0;
    FirstPartial(a0, b);
    var i := 0;
    while i < 32
      invariant 0 <= i <= 32 && Partial(m, b, i, a, low, hi, lo, bHi, bLo)
      decreases 32 - i
    {
      NextPartial(m, b, i, a, low, hi, lo, bHi, bLo);
      low := low + Pow2(i) * (a % 2);
      if a % 2 == 1 {
        lo := (lo + bLo) % WORD;
        if lo < bLo { hi := (hi + 1) % WORD; }
        hi := (hi + bHi) % WORD;
        if a == 0 || a == 1 { break; }
      }
      bHi := 2 * bHi % WORD;
      if bLo >= 0x8000_0000 { bHi := bHi + 1; }
      bLo := 2 * bLo % WORD;
      a := a / 2;
      i := i + 1;
    }
    if i == 32 { AllBits(m, b, a, low, hi, lo, bHi, bLo); }
  }

  /** -a, wrapping: the least int is its own negation. */
  function Negated(a: int32): (r: int32)
    ensures a < 0 ==> Unsigned(r) + a == 0
  {
    if a == -0x8000_0000 then a else -a
  }

  /** MULT and MULTU: hi and lo hold the exact product. */
  method Mult(a0: int32, b0: int32, signedArith: bool) returns (hi: int32, lo: int32)
    ensures signedArith ==> hi * WORD + Unsigned(lo) == a0 * b0
    ensures !signedArith ==> Unsigned(hi) * WORD + Unsigned(lo) == Unsigned(a0) * Unsigned(b0)
  {
    if a0 == 0 || b0 == 0 { return 0, 0; }
    var a, b, negative := a0, b0, false;
    if signedArith {
      if a < 0 { negative := !negative; a := Negated(a); }
      if b < 0 { negative := !negative; b := Negated(b); }
    }
    hide Negated, Double, Unsigned, Signed;
    var h, l := Product(a, Unsigned(b));
    if signedArith {
      SignedProduct(a0, b0, h, l);
    } else {
      UnsignedProduct(a0, b0, h, l);
    }
    if negative {
      h, l := WORD - 1 - h, WORD - 1 - l;
      l := (l + 1) % WORD;
      if l == 0 { h := (h + 1) % WORD; }
    }
    hi, lo := Signed(h), Signed(l);
    UnsignedOfSigned(h);
    UnsignedOfSigned(l);
  }

  lemma UnsignedProduct(a: int32, b: int32, h: uint32, l: uint32)
    ensures Double(h, l) == Unsigned(b) * Unsigned(a) ==> h * WORD + l == Unsigned(a) * Unsigned(b)
  {
    assert Unsigned(b) * Unsigned(a) == Unsigned(a) * Unsigned(b);
  }

  function Magnitude(a: int32): int32 { if a < 0 then Negated(a) else a }

  /** Sign and magnitude give the two's complement product. */
  lemma SignedProduct(a: int32, b: int32, h: uint32, l: uint32)
    requires a != 0 && b != 0 && Double(h, l) == Unsigned(Magnitude(b)) * Unsigned(Magnitude(a))
    ensures (a < 0) == (b < 0) ==> Signed(h) * WORD + l == a * b
    ensures (a < 0) != (b < 0) ==> Signed(NegHi(h, l)) * WORD + NegLo(l) == a * b
  {
    hide Magnitude, Double, Signed, Unsigned, NegHi, NegLo;
    Magnitudes(a);
    Magnitudes(b);
    AbsProduct(a, b);
    if (a < 0) == (b < 0) {
      SignedSmall(h, l);
    } else {
      SignedNegative(h, l);
    }
  }

  function Abs(a: int): nat { if a < 0 then -a else a }

  lemma AbsProduct(a: int, b: int)
    requires a != 0 && b != 0 && Abs(a) <= 0x8000_0000 && Abs(b) <= 0x8000_0000
    ensures Abs(b) * Abs(a) == if (a < 0) == (b < 0) then a * b else -(a * b)
    ensures 0 < Abs(b) * Abs(a) <= 0x8000_0000 * 0x8000_0000
  {
    SmallProduct(Abs(b), Abs(a));
    SameSigns(a, b);
    OtherSigns(a, b);
    assert Abs(b) * Abs(a) == Abs(a) * Abs(b);
  }

  lemma Magnitudes(a: int32)
    ensures Unsigned(Magnitude(a)) == Abs(a) <= 0x8000_0000
  {}

  lemma SmallProduct(x: nat, y: nat)
    ensures 0 < x <= 0x8000_0000 && 0 < y <= 0x8000_0000 ==> 0 < x * y <= 0x8000_0000 * 0x8000_0000
  {
    if 0 < x <= 0x8000_0000 && 0 < y <= 0x8000_0000 {
      MulOrder(1, x, y);
      MulOrder(x, 0x8000_0000, y);
    }
  }

  lemma SameSigns(a: int, b: int)
    ensures (-a) * (-b) == a * b
  {}

  lemma OtherSigns(a: int, b: int)
    ensures (-a) * b == -(a * b) && a * (-b) == -(a * b)
  {}

  /** Below 2^63 the double word reads the same signed. */
  lemma SignedSmall(h: uint32, l: uint32)
    requires Double(h, l) <= 0x8000_0000 * 0x8000_0000
    ensures Signed(h) * WORD + l == Double(h, l)
  {}

  lemma SignedNegative(h: uint32, l: uint32)
    requires 0 < Double(h, l) <= 0x8000_0000 * 0x8000_0000
    ensures Signed(NegHi(h, l)) * WORD + NegLo(l) == -(Double(h, l) as int)
  {
    NegNegates(h, l);
    hide NegHi, NegLo;
  }
}
