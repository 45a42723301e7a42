/** Fixed-width C integers as ranges of `int`, with wrap-around written out. */
module Words {

  const TWO_8: int := 0x100
  const TWO_32: int := 0x1_0000_0000
  const TWO_64: int := 0x1_0000_0000_0000_0000

  type uint8 = x: int | 0 <= x < TWO_8
  type uint32 = x: int | 0 <= x < TWO_32
  type uint64 = x: int | 0 <= x < TWO_64
  type int32 = x: int | -0x8000_0000 <= x < 0x8000_0000
  type int64 = x: int | -0x8000_0000_0000_0000 <= x < 0x8000_0000_0000_0000

  function Add32(a: uint32, b: uint32): uint32 { (a + b) % TWO_32 }

  function Sub32(a: uint32, b: uint32): uint32 { (a - b) % TWO_32 }

  function Mul32(a: uint32, b: uint32): uint32 { (a * b) % TWO_32 }

  /** A 64-bit value cast to a signed 32-bit one: keep the low word, read it as two's complement. */
  function ToInt32(v: int64): int32 {
    var low := v % TWO_32;
    if low < 0x8000_0000 then low else low - TWO_32
  }

  /** C's remainder: the quotient truncates toward zero, so the sign follows the dividend. */
  function CRemainder(a: int, b: int): int
    requires b > 0
  {
    if a >= 0 then a % b else -((-a) % b)
  }

  /** The one 32-bit value that agrees with v modulo 2^32; so v itself when it fits. */
  lemma ToInt32Exactly(v: int64, w: int32)
    ensures w == ToInt32(v) <==> (v - w) % TWO_32 == 0
    ensures -0x8000_0000 <= v < 0x8000_0000 ==> ToInt32(v) == v
  {
    var e := (v - w) / TWO_32;
    if (v - w) % TWO_32 == 0 {
      assert v == TWO_32 * e + w;
      RemainderUnique(v, TWO_32, if w >= 0 then e else e - 1, if w >= 0 then w else w + TWO_32);
    }
  }

  /** The remainder is smaller than b in magnitude, differs from a by a multiple of b, and never has the other sign. */
  lemma CRemainderExactly(a: int, b: int, r: int)
    requires b > 0
    ensures r == CRemainder(a, b) <==> -b < r < b && (a - r) % b == 0 && (r > 0 ==> a > 0) && (r < 0 ==> a < 0)
  {
    hide CRemainder;
    var k := CQuotient(a, b);
    SameRemainder(a, b, k, CRemainder(a, b), r);
  }

  /** The quotient, truncated toward zero. */
  lemma CQuotient(a: int, b: int) returns (k: int)
    requires b > 0
    ensures a == b * k + CRemainder(a, b) && -b < CRemainder(a, b) < b
    ensures (a >= 0 ==> CRemainder(a, b) >= 0) && (a <= 0 ==> CRemainder(a, b) <= 0)
  {
    k := if a >= 0 then a / b else -((-a) / b);
    var n := if a >= 0 then a else -a;
    assert n == b * (n / b) + n % b;
    assert b * -(n / b) == -(b * (n / b));
  }

  lemma SameRemainder(a: int, b: int, k: int, q: int, r: int)
    requires b > 0 && a == b * k + q && -b < q < b
    ensures (a - q) % b == 0
    ensures (a - r) % b == 0 && -b < r < b && ((q >= 0 && r >= 0) || (q <= 0 && r <= 0)) ==> r == q
  {
    RemainderUnique(a - q, b, k, 0);
    if (a - r) % b == 0 && -b < r < b {
      var e := (a - r) / b - k;
      assert b * e == q - r;
      MultiplesAreApart(b, e);
    }
  }

  /** Bitwise AND of two unsigned words, bit by bit from the lowest. */
  function And(a: nat, b: nat): nat {
    if a == 0 || b == 0 then 0
    else (if a % 2 == 1 && b % 2 == 1 then 1 else 0) + 2 * And(a / 2, b / 2)
  }

  lemma AddSub(x: uint32, a: uint32)
    requires a >= 1
    ensures Sub32(Add32(x, a), 1) == Add32(x, a - 1)
  {
  }

  /** Complement on 32 bits. */
  function Not32(a: uint32): uint32 { 0xFFFF_FFFF - a }

  function Pow2(k: nat): nat
    ensures Pow2(k) >= 1
  {
    if k == 0 then 1 else 2 * Pow2(k - 1)
  }

  /** Left shift on 64 bits. */
  function ShiftLeft64(x: uint64, k: nat): uint64 { (x * Pow2(k)) % TWO_64 }

  lemma {:induction false} Pow2Monotone(j: nat, k: nat)
    requires j <= k
    ensures Pow2(j) <= Pow2(k)
  {
    if j < k { Pow2Monotone(j, k - 1); }
  }

  lemma Pow2Values()
    ensures Pow2(6) == 64 && Pow2(22) == 0x40_0000 && Pow2(32) == TWO_32
  {
    assert Pow2(6) == 64;
    assert Pow2(14) == 0x4000;
    assert Pow2(22) == 0x40_0000;
    assert Pow2(27) == 0x800_0000;
  }

  lemma AndBelow(a: nat, b: nat)
    ensures And(a, b) <= a
  {
  }

  lemma AndEven(x: nat, m: nat)
    ensures And(x, 2 * m) == 2 * And(x / 2, m)
  {
    assert (2 * m) / 2 == m && (2 * m) % 2 == 0;
  }

  lemma {:induction false} AndOnes(x: nat, n: nat)
    requires x < Pow2(n)
    ensures And(x, Pow2(n) - 1) == x
  {
    if n > 0 {
      AndOnes(x / 2, n - 1);
      assert (Pow2(n) - 1) / 2 == Pow2(n - 1) - 1 && (Pow2(n) - 1) % 2 == 1;
    }
  }

  /** x with its low k bits cleared. */
  function ClearLow(x: nat, k: nat): nat {
    if k == 0 then x else 2 * ClearLow(x / 2, k - 1)
  }

  lemma {:induction false} MaskClearsLow(x: nat, n: nat, k: nat)
    requires k <= n && x < Pow2(n)
    ensures Pow2(k) <= Pow2(n)
    ensures And(x, Pow2(n) - Pow2(k)) == ClearLow(x, k)
  {
    Pow2Monotone(k, n);
    if k == 0 {
      AndOnes(x, n);
    } else {
      MaskClearsLow(x / 2, n - 1, k - 1);
      AndEven(x, Pow2(n - 1) - Pow2(k - 1));
    }
  }

  lemma Mask32ClearsLow(y: uint32, k: nat, a: int)
    requires k < 32 && a == Pow2(k)
    ensures 1 <= a < TWO_32 && And(y, TWO_32 - a) == ClearLow(y, k)
  {
    Pow2Values();
    Pow2Monotone(k, 31);
    MaskClearsLow(y, 32, k);
  }

  /** Clearing the low k bits rounds down to a multiple of 2^k. */
  lemma {:induction false} ClearLowRoundsDown(x: nat, k: nat)
    ensures ClearLow(x, k) == x - x % Pow2(k)
  {
    if k > 0 {
      ClearLowRoundsDown(x / 2, k - 1);
      HalfRemainder(x, Pow2(k - 1));
    }
  }

  lemma Mask64RoundsDown(y: uint32)
    ensures And(y, TWO_32 - 64) == y - y % 64
  {
    Pow2Values();
    Mask32ClearsLow(y, 6, 64);
    ClearLowRoundsDown(y, 6);
  }

  lemma HalfRemainder(x: nat, p: nat)
    requires p >= 1
    ensures x % (2 * p) == 2 * ((x / 2) % p) + x % 2
  {
    var q, r := (x / 2) / p, (x / 2) % p;
    assert x == (2 * p) * q + (2 * r + x % 2);
    RemainderUnique(x, 2 * p, q, 2 * r + x % 2);
  }

  lemma RemainderUnique(x: int, d: int, q: int, r: int)
    requires d > 0 && 0 <= r < d && x == d * q + r
    ensures x / d == q && x % d == r
  {
    var e := x / d - q;
    assert d * e == r - x % d;
    MultiplesAreApart(d, e);
  }

  lemma MulMonotone(a: int, b: int, c: int)
    requires a >= 0 && b <= c
    ensures a * b <= a * c
  {
  }

  lemma MultiplesAreApart(d: int, e: int)
    requires d > 0
    ensures e >= 1 ==> d * e >= d
    ensures e <= 0 ==> d * e <= 0
    ensures e <= -1 ==> d * e <= -d
  {
  }
}
