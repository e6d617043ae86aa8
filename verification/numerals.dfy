/** Numerals: `%d`/`%x` printing, and the token forms that `strtoimax` and `strtod` read to the end. */
module Numerals {
  import opened Bytes

  const MINUS: byte := 0x2D
  const PLUS: byte := 0x2B
  const DOT: byte := 0x2E
  const INT64_MIN: int := -0x8000_0000_0000_0000
  const INT64_MAX: int := 0x7FFF_FFFF_FFFF_FFFF

  function Digit(d: int): byte
    requires 0 <= d < 16
  {
    if d < 10 then 0x30 + d else 0x57 + d
  }

  /** Value of a hexadecimal digit of either case, or -1. */
  function DigitValue(c: byte): (d: int)
    ensures -1 <= d < 16
  {
    if 0x30 <= c <= 0x39 then c - 0x30
    else if 0x41 <= c <= 0x46 then c - 0x41 + 10
    else if 0x61 <= c <= 0x66 then c - 0x61 + 10
    else -1
  }

  /** The byte is the hexadecimal digit `d`, in either case. */
  predicate Writes(b: byte, d: nat)
    requires d < 16
  {
    b == Ascii("0123456789abcdef")[d] || b == Ascii("0123456789ABCDEF")[d]
  }

  /** The digits are those of the two alphabets, each with its place there as value, and no other byte is one. */
  lemma DigitsExactly(b: byte)
    ensures forall d: nat :: d < 16 ==> (Writes(b, d) <==> DigitValue(b) == d)
    ensures DigitValue(b) == -1 <==> forall d: nat :: d < 16 ==> !Writes(b, d)
  {
    if DigitValue(b) != -1 { assert Writes(b, DigitValue(b)); }
  }

  predicate AllDigits(t: bytes, base: int) {
    forall i :: 0 <= i < |t| ==> 0 <= DigitValue(t[i]) < base
  }

  /** The shortest numeral of `n`, lower case. */
  function ToBase(n: nat, base: int): (r: bytes)
    requires 2 <= base <= 16
    ensures r != []
  {
    if n < base then [Digit(n)] else ToBase(n / base, base) + [Digit(n % base)]
  }

  function FromBase(t: bytes, base: int): (n: nat)
    requires 2 <= base <= 16 && AllDigits(t, base)
  {
    if t == [] then 0 else FromBase(t[..|t| - 1], base) * base + DigitValue(t[|t| - 1])
  }

  lemma {:induction false} FromToBase(n: nat, base: int)
    requires 2 <= base <= 16
    ensures AllDigits(ToBase(n, base), base) && FromBase(ToBase(n, base), base) == n
  {
    hide ToBase, FromBase, AllDigits;
    if n < base {
      OneDigit(n, base);
    } else {
      var q, d := n / base, n % base;
      DivisionStep(n, base, q, d);
      FromToBase(q, base);
      LastDigit(n, base);
      FromBaseSnoc(ToBase(q, base), d, base);
    }
  }

  lemma OneDigit(n: nat, base: int)
    requires 2 <= base <= 16 && n < base
    ensures AllDigits(ToBase(n, base), base) && FromBase(ToBase(n, base), base) == n
  {
    FromBaseSnoc([], n, base);
    assert [] + [Digit(n)] == [Digit(n)];
  }

  lemma LastDigit(n: nat, base: int)
    requires 2 <= base <= 16 && n >= base
    ensures ToBase(n, base) == ToBase(n / base, base) + [Digit(n % base)]
  {
  }

  lemma DivisionStep(n: nat, base: int, q: int, d: int)
    requires 2 <= base <= n && q == n / base && d == n % base
    ensures 0 <= q < n && 0 <= d < base && n == q * base + d
  {
  }

  lemma FromBaseSnoc(t: bytes, d: int, base: int)
    requires 2 <= base <= 16 && AllDigits(t, base) && 0 <= d < base
    ensures AllDigits(t + [Digit(d)], base)
    ensures FromBase(t + [Digit(d)], base) == FromBase(t, base) * base + d
  {
    assert DigitValue(Digit(d)) == d;
    assert (t + [Digit(d)])[..|t|] == t;
  }

  predicate IsSign(c: byte) { c == MINUS || c == PLUS }

  predicate IsDecimal(c: byte) { 0x30 <= c <= 0x39 }

  /** The token without its sign. */
  function Unsigned(t: bytes): (u: bytes) {
    if t != [] && IsSign(t[0]) then t[1..] else t
  }

  /** The token is a numeral that base-ten `strtoimax` reads to its end. */
  predicate IsIntToken(t: bytes) {
    Unsigned(t) != [] && forall i :: 0 <= i < |Unsigned(t)| ==> IsDecimal(Unsigned(t)[i])
  }

  function IntValue(t: bytes): (n: int)
    requires IsIntToken(t)
  {
    var n: int := FromBase(Unsigned(t), 10);
    if t[0] == MINUS then -n else n
  }

  /** `strtoimax` reads the token to its end without a range error. */
  predicate IsInt64Token(t: bytes) {
    IsIntToken(t) && INT64_MIN <= IntValue(t) <= INT64_MAX
  }

  /** The `%d` text of an integer. */
  function PrintInt(i: int): (t: bytes)
    ensures t != []
  {
    if i < 0 then [MINUS] + ToBase(-i, 10) else ToBase(i, 10)
  }

  lemma PrintIntReads(i: int)
    ensures IsIntToken(PrintInt(i)) && IntValue(PrintInt(i)) == i
    ensures IsDecimal(PrintInt(i)[0]) || PrintInt(i)[0] == MINUS
  {
    hide ToBase, FromBase;
    var n := if i < 0 then -i else i;
    var t := ToBase(n, 10);
    DecimalDigits(n);
    FromToBase(n, 10);
    assert Unsigned(PrintInt(i)) == t;
  }

  lemma DecimalDigits(n: nat)
    ensures ToBase(n, 10) != [] && forall k :: 0 <= k < |ToBase(n, 10)| ==> IsDecimal(ToBase(n, 10)[k])
  {
    FromToBase(n, 10);
    var t := ToBase(n, 10);
    forall k | 0 <= k < |t| ensures IsDecimal(t[k]) {
      assert 0 <= DigitValue(t[k]) < 10;
    }
  }

  function DigitRun(t: bytes, p: nat): (q: nat)
    requires p <= |t|
    ensures p <= q <= |t| && forall i :: p <= i < q ==> IsDecimal(t[i])
    decreases |t| - p
  {
    if p < |t| && IsDecimal(t[p]) then DigitRun(t, p + 1) else p
  }

  function SignLength(t: bytes): (p: nat)
    ensures p <= |t|
  {
    if t != [] && IsSign(t[0]) then 1 else 0
  }

  /** Where the digits before the point end. */
  function WholeEnd(t: bytes): (a: nat)
    ensures SignLength(t) <= a <= |t|
  {
    DigitRun(t, SignLength(t))
  }

  predicate HasPoint(t: bytes) { WholeEnd(t) < |t| && t[WholeEnd(t)] == DOT }

  /** Where the digits after the point end. */
  function FractionEnd(t: bytes): (b: nat)
    ensures WholeEnd(t) <= b <= |t| && (HasPoint(t) ==> WholeEnd(t) < b)
  {
    if HasPoint(t) then DigitRun(t, WholeEnd(t) + 1) else WholeEnd(t)
  }

  function FractionDigits(t: bytes): (f: bytes) { if HasPoint(t) then t[WholeEnd(t) + 1..FractionEnd(t)] else [] }

  /** The digits of a decimal floating-point numeral, without its point. */
  function Digits(t: bytes): (d: bytes)
    ensures AllDigits(d, 10)
  {
    t[SignLength(t)..WholeEnd(t)] + FractionDigits(t)
  }

  function Exponent(t: bytes): (e: int) {
    var b := FractionEnd(t);
    if b < |t| && IsIntToken(t[b + 1..]) then IntValue(t[b + 1..]) else 0
  }

  /** Decimal floating-point numerals that `strtod` reads to their end. */
  predicate IsDoubleToken(t: bytes) {
    var b := FractionEnd(t);
    Digits(t) != [] && (b == |t| || ((t[b] == 0x65 || t[b] == 0x45) && IsIntToken(t[b + 1..])))
  }

  function Power(base: nat, k: nat): (r: nat) {
    if k == 0 then 1 else base * Power(base, k - 1)
  }

  /**
    2^1024 - 2^970, as (2^54 - 1) * (2^97)^10: from this magnitude on, rounding to the nearest double gives an
    infinite one.
   */
  function DoubleLimit(): (r: nat) { 0x3F_FFFF_FFFF_FFFF * Power(0x2_0000_0000_0000_0000_0000_0000, 10) }

  /** n * 10^e reaches the limit. */
  predicate TooLarge(n: nat, e: int) {
    if e >= 0 then n * Power(10, e) >= DoubleLimit() else n >= DoubleLimit() * Power(10, -e)
  }

  /** Numerals that are no int64 and for which `strtod` gives an infinite double. */
  predicate Overflows(t: bytes) {
    && IsDoubleToken(t) && !IsInt64Token(t)
    && TooLarge(FromBase(Digits(t), 10), Exponent(t) - |FractionDigits(t)|)
  }

  // ---------- a numeral that overflows ----------

  lemma MulMono(a: nat, b: nat, c: nat, d: nat)
    requires a >= b && c >= d
    ensures a * c >= b * d
  {
    assert a * c == b * d + b * (c - d) + (a - b) * c;
  }

  lemma {:induction false} PowerSum(base: nat, a: nat, b: nat)
    ensures Power(base, a + b) == Power(base, a) * Power(base, b)
    decreases a
  {
    if a > 0 {
      PowerSum(base, a - 1, b);
      assert base * (Power(base, a - 1) * Power(base, b)) == (base * Power(base, a - 1)) * Power(base, b);
    }
  }

  lemma {:induction false} PowerPositive(base: nat, k: nat)
    requires base >= 1
    ensures Power(base, k) >= 1
  {
    if k > 0 {
      PowerPositive(base, k - 1);
      MulMono(base, 1, Power(base, k - 1), 1);
    }
  }

  /** 10^30 is above `block`, so are its powers. */
  lemma {:induction false} PowerBlocks(block: nat, k: nat)
    requires Power(10, 30) >= block
    ensures Power(10, 30 * k) >= Power(block, k)
  {
    if k > 0 {
      PowerBlocks(block, k - 1);
      PowerSum(10, 30, 30 * (k - 1));
      MulMono(Power(10, 30), block, Power(10, 30 * (k - 1)), Power(block, k - 1));
    }
  }

  /** 10^317 is above the limit of a double, and so is every larger power of ten. */
  lemma LargePower(k: nat)
    requires k >= 317
    ensures TooLarge(1, k)
  {
    hide Power, DoubleLimit;
    AboveLimit();
    PowerSum(10, 317, k - 317);
    PowerPositive(10, k - 317);
    MulMono(Power(10, 317), Power(10, 317), Power(10, k - 317), 1);
  }

  lemma AboveLimit()
    ensures Power(10, 317) >= DoubleLimit()
  {
    SmallPowersOfTen();
    hide Power;
    var block := 0x2_0000_0000_0000_0000_0000_0000;
    PowerBlocks(block, 10);
    PowerSum(10, 17, 300);
    MulMono(Power(10, 17), 0x3F_FFFF_FFFF_FFFF, Power(10, 300), Power(block, 10));
  }

  lemma SmallPowersOfTen()
    ensures Power(10, 17) == 100_000_000_000_000_000
    ensures Power(10, 30) == 1_000_000_000_000_000_000_000_000_000_000
  {
    assert Power(10, 10) == 10_000_000_000;
    assert Power(10, 20) == 100_000_000_000_000_000_000;
  }

  lemma OverflowingToken()
    ensures var t: bytes := [0x31, 0x65, 0x39, 0x39, 0x39]; Overflows(t)
  {
    hide TooLarge, Power;
    var t: bytes := [0x31, 0x65, 0x39, 0x39, 0x39];
    assert DigitRun(t, 0) == 1;
    assert Digits(t) == [0x31];
    assert FromBase([0x31], 10) == 1 by { assert [0x31][..0] == []; }
    var e := t[2..];
    assert e == [0x39, 0x39, 0x39];
    assert e[..2] == [0x39, 0x39] && e[..2][..1] == [0x39] && [0x39][..0] == [];
    assert FromBase([0x39], 10) == 9 && FromBase(e[..2], 10) == 99 && FromBase(e, 10) == 999;
    LargePower(999);
  }
}
