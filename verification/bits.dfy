/** The bitwise operators of the source on non-negative `int` operands, bit by bit. */
module Bits {
  function BitOr(a: nat, b: nat): (r: nat) {
    if a == 0 then b
    else if b == 0 then a
    else (if a % 2 == 1 || b % 2 == 1 then 1 else 0) + 2 * BitOr(a / 2, b / 2)
  }

  function BitAnd(a: nat, b: nat): (r: nat) {
    if a == 0 || b == 0 then 0
    else (if a % 2 == 1 && b % 2 == 1 then 1 else 0) + 2 * BitAnd(a / 2, b / 2)
  }

  function Pow2(k: nat): (r: nat)
    ensures r >= 1
  {
    if k == 0 then 1 else 2 * Pow2(k - 1)
  }

  function Shl(a: nat, k: nat): nat { a * Pow2(k) }

  function Shr(a: nat, k: nat): nat {
    QuotientIsNat(a, Pow2(k));
    a / Pow2(k)
  }

  lemma QuotientIsNat(a: nat, m: int)
    requires m >= 1
    ensures a / m >= 0
  {
  }

  /** Or of a multiple of 2^k with a number below 2^k is their sum. */
  lemma {:induction false} OrDisjoint(hi: nat, k: nat, low: nat)
    requires low < Pow2(k)
    ensures BitOr(hi * Pow2(k), low) == hi * Pow2(k) + low
  {
    if k > 0 && hi > 0 && low > 0 {
      var a := hi * Pow2(k);
      assert a == 2 * (hi * Pow2(k - 1));
      assert a % 2 == 0 && a / 2 == hi * Pow2(k - 1);
      OrDisjoint(hi, k - 1, low / 2);
    }
  }

  /** And with a mask of k ones is the remainder modulo 2^k. */
  lemma {:induction false} AndMask(a: nat, k: nat)
    ensures BitAnd(a, Pow2(k) - 1) == a % Pow2(k)
  {
    if k == 0 {
      ModUnique(a, 1, a, 0);
    } else {
      AndMask(a / 2, k - 1);
      AndMaskStep(a, Pow2(k - 1), Pow2(k));
    }
  }

  lemma AndMaskStep(a: nat, m: nat, n: nat)
    requires m >= 1 && n == 2 * m && BitAnd(a / 2, m - 1) == (a / 2) % m
    ensures BitAnd(a, n - 1) == a % n
  {
    ModTwice(a, m, n, (a / 2) % m);
    AndStep(a, m - 1, n - 1);
  }

  lemma AndStep(a: nat, h: nat, mask: nat)
    requires mask == 2 * h + 1
    ensures BitAnd(a, mask) == a % 2 + 2 * BitAnd(a / 2, h)
  {
    assert mask % 2 == 1 && mask / 2 == h;
  }

  lemma ModTwice(a: nat, m: nat, n: nat, low: nat)
    requires m >= 1 && n == 2 * m && low == (a / 2) % m
    ensures a % n == a % 2 + 2 * low
  {
    var q := (a / 2) / m;
    assert a / 2 == q * m + low;
    assert q * n == 2 * (q * m);
    ModUnique(a, n, q, a % 2 + 2 * low);
  }

  /** Quotient and remainder are determined by their defining equation. */
  lemma ModUnique(a: int, m: int, q: int, r: int)
    requires m > 0 && a == q * m + r && 0 <= r < m
    ensures a % m == r && a / m == q
  {
    var q', r' := a / m, a % m;
    Scaled(q - q', m, r' - r);
  }

  lemma Scaled(d: int, m: int, r: int)
    requires m > 0 && d * m == r && -m < r < m
    ensures d == 0 && r == 0
  {
    if d >= 1 { MulGrows(d, m); }
    if d <= -1 { MulGrows(-d, m); }
  }

  lemma MulGrows(d: int, m: int)
    requires d >= 1 && m > 0
    ensures d * m >= m
    ensures (-d) * m == -(d * m)
  {
  }

  /** A shifted number and a masked one side by side. */
  lemma OrShifted(a: nat, k: nat, b: nat)
    requires b < Pow2(k)
    ensures BitOr(Shl(a, k), BitAnd(b, Pow2(k) - 1)) == a * Pow2(k) + b
  {
    AndMask(b, k);
    ModUnique(b, Pow2(k), 0, b);
    OrDisjoint(a, k, b);
  }

  lemma SmallPowers()
    ensures Pow2(3) == 8 && Pow2(4) == 16 && Pow2(5) == 32
  {
    assert Pow2(2) == 4;
  }

  /** The powers of two used by the UTF-8 encoder. */
  lemma Powers()
    ensures Pow2(5) == 32 && Pow2(6) == 64 && Pow2(10) == 1024 && Pow2(12) == 4096 && Pow2(18) == 262144
  {
    assert Pow2(1) == 2;
    assert Pow2(2) == 4;
    assert Pow2(3) == 8;
    assert Pow2(4) == 16;
    assert Pow2(5) == 32;
    assert Pow2(6) == 64;
    assert Pow2(7) == 128;
    assert Pow2(8) == 256;
    assert Pow2(9) == 512;
    assert Pow2(10) == 1024;
    assert Pow2(11) == 2048;
    assert Pow2(12) == 4096;
    assert Pow2(15) == 8 * Pow2(12);
    assert Pow2(18) == 8 * Pow2(15);
  }
}
