/** Machine words as they lie in memory and on a disk sector.

    The kernel casts ints, bitmaps, headers and directory tables to char buffers; on the
    little-endian hosts it is built for, a word is its four bytes, lowest first. */
module Machine {
  import opened Arithmetic

  type byte = x: int | 0 <= x < 0x100
  type uint32 = x: int | 0 <= x < 0x1_0000_0000
  type int32 = x: int | -0x8000_0000 <= x < 0x8000_0000

  const MAX_INT := 0x7fff_ffff

  /** The bit pattern of a signed word, read as an unsigned one. */
  function Unsigned(x: int): (u: uint32)
    requires -0x8000_0000 <= x < 0x1_0000_0000
  {
    if x < 0 then x + 0x1_0000_0000 else x
  }

  function Signed(u: uint32): (x: int32)
  {
    if u < 0x8000_0000 then u else u - 0x1_0000_0000
  }

  lemma SignedOfUnsigned(x: int32)
    ensures Signed(Unsigned(x)) == x
  {}

  lemma UnsignedOfSigned(u: uint32)
    ensures Unsigned(Signed(u)) == u
  {}

  function WordByte(u: uint32, k: nat): byte
    requires k < 4
  {
    if k == 0 then u % 0x100
    else if k == 1 then u / 0x100 % 0x100
    else if k == 2 then u / 0x100 / 0x100 % 0x100
    else u / 0x100 / 0x100 / 0x100
  }

  function WordOf(b0: byte, b1: byte, b2: byte, b3: byte): uint32 {
    b0 + 0x100 * b1 + 0x1_0000 * b2 + 0x100_0000 * b3
  }

  lemma WordOfBytes(u: uint32)
    ensures WordOf(WordByte(u, 0), WordByte(u, 1), WordByte(u, 2), WordByte(u, 3)) == u
  {}

  /** The bytes of a word array. */
  function EncodeWords(ws: seq<uint32>): (bs: seq<byte>)
    ensures |bs| == 4 * |ws|
  {
    seq(4 * |ws|, i requires 0 <= i < 4 * |ws| => WordByte(ws[i / 4], i % 4))
  }

  function WordAt(bs: seq<byte>, i: nat): uint32
    requires 4 * i + 4 <= |bs|
  {
    WordOf(bs[4 * i], bs[4 * i + 1], bs[4 * i + 2], bs[4 * i + 3])
  }

  lemma EncodeWordAt(ws: seq<uint32>, i: nat)
    requires i < |ws|
    ensures WordAt(EncodeWords(ws), i) == ws[i]
  {
    WordOfBytes(ws[i]);
  }

  /** Signed arrays: index blocks and file headers. */
  function EncodeInts(xs: seq<int32>): (bs: seq<byte>)
    ensures |bs| == 4 * |xs|
  {
    EncodeWords(seq(|xs|, i requires 0 <= i < |xs| => Unsigned(xs[i])))
  }

  function IntAt(bs: seq<byte>, i: nat): int32
    requires 4 * i + 4 <= |bs|
  {
    Signed(WordAt(bs, i))
  }

  function DecodeInts(bs: seq<byte>): (xs: seq<int32>)
    ensures |xs| == |bs| / 4
  {
    seq(|bs| / 4, i requires 0 <= i < |bs| / 4 => IntAt(bs, i))
  }

  lemma EncodeIntAt(xs: seq<int32>, i: nat)
    requires i < |xs|
    ensures IntAt(EncodeInts(xs), i) == xs[i]
  {
    var ws := seq(|xs|, i requires 0 <= i < |xs| => Unsigned(xs[i]));
    EncodeWordAt(ws, i);
    SignedOfUnsigned(xs[i]);
  }

  lemma DecodeEncodeInts(xs: seq<int32>)
    ensures DecodeInts(EncodeInts(xs)) == xs
  {
    forall i | 0 <= i < |xs| ensures DecodeInts(EncodeInts(xs))[i] == xs[i] {
      EncodeIntAt(xs, i);
    }
  }

  /** The four bytes from at on are this int, lowest byte first, in two's complement. */
  predicate WordLies(bs: seq<byte>, at: nat, x: int)
    requires at + 4 <= |bs|
  {
    var b0: int, b1: int, b2: int, b3: int := bs[at], bs[at + 1], bs[at + 2], bs[at + 3];
    var u := b0 + 256 * b1 + 65536 * b2 + 16777216 * b3;
    x == if u < 0x8000_0000 then u else u - 0x1_0000_0000
  }

  lemma IntLies(bs: seq<byte>, i: nat)
    requires 4 * i + 4 <= |bs|
    ensures WordLies(bs, 4 * i, IntAt(bs, i))
  {}

  lemma EncodedLies(xs: seq<int32>, i: nat)
    requires i < |xs|
    ensures WordLies(EncodeInts(xs), 4 * i, xs[i])
  {
    EncodeIntAt(xs, i);
    IntLies(EncodeInts(xs), i);
  }

  // C's integer division truncates toward zero, for a positive divisor.
  function CDiv(n: int, s: int): int
    requires s > 0
  {
    if n >= 0 then n / s else -((-n) / s)
  }

  function CMod(n: int, s: int): int
    requires s > 0
  {
    n - s * CDiv(n, s)
  }

  /** divRoundUp of threads/utility.h. */
  function DivRoundUp(n: int, s: int): int
    requires s > 0
  {
    CDiv(n, s) + (if CMod(n, s) > 0 then 1 else 0)
  }

  lemma DivRoundUpBounds(n: int, s: int)
    requires s > 0
    ensures n >= 0 ==> DivRoundUp(n, s) >= 0 && s * DivRoundUp(n, s) >= n > s * (DivRoundUp(n, s) - 1)
    ensures n <= 0 ==> DivRoundUp(n, s) <= 0
    ensures DivRoundUp(n, s) < 0 <==> n <= -s
  {
    var m := if n >= 0 then n else -n;
    DivMod(m, s);
    DivBound(m, s, 0);
    DivBound(m, s, 1);
    RoundedUp(n, s, m / s, m % s);
  }

  lemma RoundedUp(n: int, s: int, q: int, r: int)
    requires s > 0 && q >= 0 && 0 <= r < s && (if n >= 0 then n else -n) == s * q + r
    requires CDiv(n, s) == if n >= 0 then q else -q
    ensures DivRoundUp(n, s) == if n < 0 then -q else if r > 0 then q + 1 else q
    ensures s * (q + 1) == s * q + s && s * (q - 1) == s * q - s
  {
    hide CDiv;
    assert s * -q == -(s * q);
  }

  lemma DivRoundUpLow(n: int, s: int)
    requires s > 0 && n <= 0
    ensures n <= DivRoundUp(n, s)
  {
    var m := -n;
    DivMod(m, s);
    DivBound(m, s, 0);
    MulOrder(1, s, m / s);
    hide CMod;
  }
}
