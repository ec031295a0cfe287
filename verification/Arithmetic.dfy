/** Non-linear facts, each proved once. */
module Arithmetic {

  lemma MulOrder(a: int, b: int, s: int)
    ensures s >= 0 && a <= b ==> a * s <= b * s
  {
    if s >= 0 && a <= b { assert b * s == a * s + (b - a) * s; }
  }

  lemma SmallMultiple(e: int, s: int)
    requires -s < e * s < s
    ensures e == 0
  {
    MulOrder(1, e, s);
    MulOrder(e, -1, s);
  }

  lemma DivMod(n: int, s: int)
    requires s > 0
    ensures n == (n / s) * s + n % s && n == s * (n / s) + n % s && 0 <= n % s < s
  {}

  lemma DivUnique(n: int, s: int, q: int, r: int)
    requires s > 0 && n == q * s + r && 0 <= r < s
    ensures n / s == q && n % s == r
  {
    DivMod(n, s);
    var d := n / s;
    assert (d - q) * s == d * s - q * s;
    SmallMultiple(d - q, s);
  }

  /** A quotient against a bound. */
  lemma DivBound(n: int, s: int, q: int)
    requires s > 0
    ensures n / s < q <==> n < q * s
    ensures n / s >= q <==> n >= q * s
  {
    DivMod(n, s);
    var d := n / s;
    assert (d + 1) * s == d * s + s;
    MulOrder(d + 1, q, s);
    MulOrder(q, d, s);
  }

  lemma DivOrder(a: int, b: int, s: int)
    requires s > 0 && a <= b
    ensures a / s <= b / s
  {
    DivMod(a, s);
    DivBound(b, s, a / s);
  }

  function Pow2(n: nat): (p: nat)
    ensures p > 0
  {
    if n == 0 then 1 else 2 * Pow2(n - 1)
  }

  lemma Powers()
    ensures Pow2(0) == 1 && Pow2(1) == 2 && Pow2(2) == 4 && Pow2(3) == 8
    ensures Pow2(4) == 16 && Pow2(5) == 32 && Pow2(6) == 64 && Pow2(7) == 128
    ensures Pow2(8) == 256 && Pow2(9) == 512 && Pow2(10) == 1024 && Pow2(11) == 2048
    ensures Pow2(12) == 4096 && Pow2(13) == 8192 && Pow2(14) == 16384 && Pow2(15) == 32768
    ensures Pow2(16) == 65536 && Pow2(17) == 131072 && Pow2(18) == 262144 && Pow2(19) == 524288
    ensures Pow2(20) == 1048576 && Pow2(21) == 2097152 && Pow2(22) == 4194304 && Pow2(23) == 8388608
    ensures Pow2(24) == 16777216 && Pow2(25) == 33554432 && Pow2(26) == 67108864 && Pow2(27) == 134217728
    ensures Pow2(28) == 268435456 && Pow2(29) == 536870912 && Pow2(30) == 1073741824 && Pow2(31) == 2147483648
  {
    assert Pow2(8) == 256;
    assert Pow2(16) == 65536;
    assert Pow2(24) == 16777216;
  }

  lemma HalfThen(x: nat, p: nat)
    requires p > 0
    ensures x / 2 / p == x / (2 * p)
  {
    DivMod(x, 2);
    DivMod(x / 2, p);
    var q, r := x / 2 / p, x / 2 % p;
    assert x == q * (2 * p) + (2 * r + x % 2);
    DivUnique(x, 2 * p, q, 2 * r + x % 2);
  }
}
