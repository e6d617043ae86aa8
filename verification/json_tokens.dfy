/** The tokens of the text format on literals: white space, punctuation, escapes, and the numerals that are read. */
module JsonTokens {
  import opened Bytes
  import opened Numerals
  import opened JsonValue
  import opened JsonReader
  import opened JsonGrammar
  import opened JsonCompleteness
  import opened JsonText

  // ---------- bytes ----------

  lemma WhiteSpaceBytes(b: byte)
    ensures IsWs(b) <==> b in Ascii(" \t\n\r")
  {
    var ws := Ascii(" \t\n\r");
    assert ws == [0x20, 0x09, 0x0A, 0x0D];
  }

  lemma NumberBytes(b: byte)
    ensures IsNumberByte(b) <==> b in Ascii("0123456789+-eE.")
    ensures IsDecimal(b) <==> b in Ascii("0123456789")
  {
    var digits: bytes := [0x30, 0x31, 0x32, 0x33, 0x34, 0x35, 0x36, 0x37, 0x38, 0x39];
    assert Ascii("0123456789") == digits;
    assert Ascii("0123456789+-eE.") == digits + [0x2B, 0x2D, 0x65, 0x45, 0x2E];
  }

  /** The one-letter escapes and what they stand for, in either direction. */
  lemma ShortEscapes(b: byte, c: byte)
    ensures Unescape(b) == Some(c) <==> exists k ::
      0 <= k < 8 && b == Ascii("\"\\/bfnrt")[k] && c == [0x22, 0x5C, 0x2F, 0x08, 0x0C, 0x0A, 0x0D, 0x09][k]
  {
    var letters, meanings: bytes := Ascii("\"\\/bfnrt"), [0x22, 0x5C, 0x2F, 0x08, 0x0C, 0x0A, 0x0D, 0x09];
    assert letters == [0x22, 0x5C, 0x2F, 0x62, 0x66, 0x6E, 0x72, 0x74];
    if Unescape(b) == Some(c) {
      var k := if b == 0x22 then 0 else if b == 0x5C then 1 else if b == 0x2F then 2 else if b == 0x62 then 3
               else if b == 0x66 then 4 else if b == 0x6E then 5 else if b == 0x72 then 6 else 7;
      assert b == letters[k] && c == meanings[k];
    }
  }

  /** A literal is matched where it stands; otherwise reading stops at the first byte that differs. */
  lemma {:induction false} MatchExactly(s: bytes, p: nat, t: bytes)
    requires p <= |s|
    ensures var m := Match(s, p, t);
      && (m.ok <==> At(s, p, t)) && (m.ok ==> m.pos == p + |t|)
      && (!m.ok ==>
            && m.pos < p + |t| && (forall i :: p <= i < m.pos ==> s[i] == t[i - p])
            && (m.pos == |s| || s[m.pos] != t[m.pos - p]))
    decreases |t|
  {
    if t != [] {
      assert t == [t[0]] + t[1..];
      AtCons(s, p, t[0], t[1..]);
      if Sees(s, p, t[0]) { MatchExactly(s, p + 1, t[1..]); }
    } else {
      assert s[p..p] == [];
    }
  }

  // ---------- numerals ----------

  ghost predicate Decimals(t: bytes) { forall b <- t :: b in Ascii("0123456789") }

  lemma DecimalsAreDigits(t: bytes)
    ensures Decimals(t) <==> forall i :: 0 <= i < |t| ==> IsDecimal(t[i])
    ensures Decimals(t) ==> AllDigits(t, 10)
  {
    forall b: byte ensures IsDecimal(b) <==> b in Ascii("0123456789") { NumberBytes(b); }
  }

  /** The number that decimal digits write. */
  ghost function DecimalNumber(t: bytes): (n: int) {
    if t == [] then 0 else DecimalNumber(t[..|t| - 1]) * 10 + (t[|t| - 1] as int - '0' as int)
  }

  lemma {:induction false} DecimalValue(t: bytes)
    requires Decimals(t)
    ensures AllDigits(t, 10) && FromBase(t, 10) == DecimalNumber(t)
    decreases |t|
  {
    DecimalsAreDigits(t);
    if t != [] { DecimalValue(t[..|t| - 1]); }
  }

  ghost predicate SignText(t: bytes) { t == [] || t == Ascii("+") || t == Ascii("-") }

  /** An optional sign and digits. */
  ghost predicate IntegerText(t: bytes, sign: bytes, digits: bytes) {
    t == sign + digits && SignText(sign) && digits != [] && Decimals(digits)
  }

  ghost function SignedNumber(sign: bytes, digits: bytes): (i: int) {
    if sign == Ascii("-") then -DecimalNumber(digits) else DecimalNumber(digits)
  }

  lemma IntegerParts(t: bytes, sign: bytes, digits: bytes)
    requires IntegerText(t, sign, digits)
    ensures IsIntToken(t) && IntValue(t) == SignedNumber(sign, digits)
  {
    DecimalsAreDigits(digits);
    DecimalValue(digits);
    assert sign == [] || sign == [PLUS] || sign == [MINUS];
    assert sign == [] ==> t == digits;
    assert Unsigned(t) == digits;
  }

  /** `strtoimax` reads to the end exactly an optional sign and decimal digits. */
  lemma IntTokenExactly(t: bytes)
    ensures IsIntToken(t) <==> exists sign, digits :: IntegerText(t, sign, digits)
  {
    hide Decimals;
    if IsIntToken(t) {
      DecimalsAreDigits(Unsigned(t));
      var sign := t[..SignLength(t)];
      assert sign == [] || sign == [t[0]];
      assert SignText(sign) && t == sign + Unsigned(t);
      assert IntegerText(t, sign, Unsigned(t));
    }
    if sign, digits :| IntegerText(t, sign, digits) { IntegerParts(t, sign, digits); }
  }

  /** Where a floating-point numeral has its parts: the sign ends, the whole digits end, the fraction ends. */
  datatype Parts = Parts(sign: nat, whole: nat, fraction: nat)

  ghost predicate InOrder(t: bytes, p: Parts) { p.sign <= p.whole <= p.fraction <= |t| }

  ghost predicate Composes(t: bytes, p: Parts) {
    && InOrder(t, p)
    && SignText(t[..p.sign]) && Decimals(t[p.sign..p.whole])
    && (p.whole < p.fraction ==> t[p.whole] == '.' as int && Decimals(t[p.whole + 1..p.fraction]))
    && (p.fraction < |t| ==> t[p.fraction] in Ascii("eE") && IsInteger(t[p.fraction + 1..]))
    && (p.sign < p.whole || p.whole + 1 < p.fraction)
  }

  ghost predicate IsInteger(t: bytes) { exists sign, digits :: IntegerText(t, sign, digits) }

  lemma {:induction false} RunEnds(t: bytes, p: nat, q: nat)
    requires p <= q <= |t| && Decimals(t[p..q]) && (q == |t| || !IsDecimal(t[q]))
    ensures DigitRun(t, p) == q
    decreases q - p
  {
    if p < q {
      NumberBytes(t[p]);
      assert t[p] == t[p..q][0] && t[p + 1..q] == t[p..q][1..];
      RunEnds(t, p + 1, q);
    }
  }

  lemma RunIsDecimals(t: bytes, p: nat)
    requires p <= |t|
    ensures Decimals(t[p..DigitRun(t, p)])
  {
    hide DigitRun;
    DecimalsAreDigits(t[p..DigitRun(t, p)]);
  }

  lemma Letters(b: byte)
    ensures b in Ascii("eE") <==> b == 0x65 || b == 0x45
  {
    assert Ascii("eE") == [0x65, 0x45];
  }

  lemma SignEnds(t: bytes, s: nat)
    requires s <= |t| && SignText(t[..s]) && (s == 0 && t != [] ==> !IsSign(t[0]))
    ensures SignLength(t) == s
  {
    var sign := t[..s];
    assert sign == [] || sign == [PLUS] || sign == [MINUS];
    if s > 0 { assert t[0] == sign[0]; }
  }

  lemma NoSign(t: bytes, p: Parts)
    requires Composes(t, p) && p.sign == 0 && t != []
    ensures !IsSign(t[0])
  {
    hide IsInteger;
    if p.whole > 0 {
      assert t[0] == t[0..p.whole][0];
      NumberBytes(t[0]);
    }
  }

  /** The parts of a numeral are where the runs of digits end. */
  lemma PartsFound(t: bytes, p: Parts)
    requires Composes(t, p)
    ensures SignLength(t) == p.sign && WholeEnd(t) == p.whole && FractionEnd(t) == p.fraction
    ensures HasPoint(t) <==> p.whole < p.fraction
  {
    hide DigitRun, IsInteger, Decimals;
    if p.sign == 0 && t != [] { NoSign(t, p); }
    SignEnds(t, p.sign);
    if p.fraction < |t| { Letters(t[p.fraction]); }
    RunEnds(t, p.sign, p.whole);
    if p.whole < p.fraction { RunEnds(t, p.whole + 1, p.fraction); }
  }

  function PartsOf(t: bytes): (p: Parts) { Parts(SignLength(t), WholeEnd(t), FractionEnd(t)) }

  /**
    `strtod` reads to the end exactly: an optional sign, digits with at most one point among or around them, and an
    optional exponent.
   */
  lemma DoubleTokenExactly(t: bytes)
    ensures IsDoubleToken(t) <==> exists p :: Composes(t, p)
  {
    hide Composes;
    if p :| Composes(t, p) { PartsAreToken(t, p); }
    if IsDoubleToken(t) { PartsCompose(t); }
  }

  /** The digits before and behind the point. */
  ghost function AllDigitsOf(t: bytes, p: Parts): (d: bytes)
    requires Composes(t, p)
  {
    t[p.sign..p.whole] + if p.whole < p.fraction then t[p.whole + 1..p.fraction] else []
  }

  /** The number behind the letter, 0 without one. */
  ghost predicate HasExponent(t: bytes, p: Parts, e: int)
    requires Composes(t, p)
  {
    if p.fraction == |t| then e == 0
    else exists sign, digits :: IntegerText(t[p.fraction + 1..], sign, digits) && e == SignedNumber(sign, digits)
  }

  /** How many digits stand behind the point. */
  function Behind(p: Parts): (n: nat) { if p.whole + 1 < p.fraction then p.fraction - p.whole - 1 else 0 }

  /** The power of ten: the exponent less the digits behind the point. */
  ghost predicate TenTo(t: bytes, p: Parts, e: int)
    requires Composes(t, p)
  {
    HasExponent(t, p, e + Behind(p))
  }

  lemma PartsAreToken(t: bytes, p: Parts)
    requires Composes(t, p)
    ensures IsDoubleToken(t)
    ensures FromBase(Digits(t), 10) == DecimalNumber(AllDigitsOf(t, p))
    ensures TenTo(t, p, Exponent(t) - |FractionDigits(t)|)
  {
    hide WholeEnd, FractionEnd, HasPoint, IsInteger, IntValue, IsIntToken, Decimals, Exponent, HasExponent;
    hide FractionDigits, Composes, AllDigitsOf, Digits, DecimalNumber, FromBase;
    DigitsFound(t, p);
    ExponentFound(t, p);
    DecimalValue(AllDigitsOf(t, p));
  }

  lemma DigitsFound(t: bytes, p: Parts)
    requires Composes(t, p)
    ensures Digits(t) == AllDigitsOf(t, p) && Digits(t) != [] && Decimals(Digits(t))
    ensures |FractionDigits(t)| == Behind(p)
  {
    PartsFound(t, p);
    hide SignLength, WholeEnd, FractionEnd, HasPoint, IsInteger;
  }

  lemma ExponentFound(t: bytes, p: Parts)
    requires Composes(t, p)
    ensures FractionEnd(t) == p.fraction <= |t| && HasExponent(t, p, Exponent(t))
    ensures p.fraction < |t| ==>
      (t[p.fraction] == 0x65 || t[p.fraction] == 0x45) && IsIntToken(t[p.fraction + 1..])
  {
    PartsFound(t, p);
    assert p.fraction <= |t|;
    hide SignLength, WholeEnd, FractionEnd, HasPoint, IntegerText, IntValue, IsIntToken, Composes, IsInteger;
    if p.fraction < |t| {
      ExponentIsInteger(t, p);
      ExponentNumber(t[p.fraction + 1..]);
    }
  }

  lemma ExponentIsInteger(t: bytes, p: Parts)
    requires Composes(t, p) && p.fraction < |t|
    ensures (t[p.fraction] == 0x65 || t[p.fraction] == 0x45) && IsInteger(t[p.fraction + 1..])
  {
    Letters(t[p.fraction]);
  }

  lemma ExponentNumber(t: bytes)
    requires IsInteger(t)
    ensures IsIntToken(t)
    ensures exists sign, digits :: IntegerText(t, sign, digits) && IntValue(t) == SignedNumber(sign, digits)
  {
    hide IntegerText, IsIntToken, IntValue;
    var sign, digits :| IntegerText(t, sign, digits);
    IntegerParts(t, sign, digits);
  }

  lemma PartsCompose(t: bytes)
    requires IsDoubleToken(t)
    ensures Composes(t, PartsOf(t))
  {
    hide IntegerText, Decimals, IsIntToken, DigitRun;
    var p := PartsOf(t);
    assert SignText(t[..p.sign]) by { assert p.sign == 1 ==> t[..1] == [t[0]]; }
    RunIsDecimals(t, p.sign);
    if HasPoint(t) { RunIsDecimals(t, p.whole + 1); }
    if p.fraction < |t| {
      Letters(t[p.fraction]);
      IntTokenExactly(t[p.fraction + 1..]);
    }
  }

  // ---------- whole texts ----------

  /** The text is an integer that an `int64_t` can hold. */
  ghost predicate IsInt64Text(t: bytes, i: int) {
    && -0x8000_0000_0000_0000 <= i <= 0x7FFF_FFFF_FFFF_FFFF
    && exists sign, digits :: IntegerText(t, sign, digits) && i == SignedNumber(sign, digits)
  }

  /** n * 10^e is at least 2^1024 - 2^970, from where on the nearest double is infinite. */
  ghost predicate RoundsToInfinity(n: int, e: int) {
    if e >= 0 then n * Power(10, e) >= Power(2, 1024) - Power(2, 970)
    else n >= (Power(2, 1024) - Power(2, 970)) * Power(10, -e)
  }

  /** The text is a numeral for which `strtod` gives an infinite double. */
  ghost predicate IsHugeText(t: bytes) {
    exists p, e :: Composes(t, p) && TenTo(t, p, e) && RoundsToInfinity(DecimalNumber(AllDigitsOf(t, p)), e)
  }

  ghost predicate IsNumeral(t: bytes) { exists p :: Composes(t, p) }

  lemma Int64Exactly(t: bytes, i: int)
    ensures IsInt64Token(t) && IntValue(t) == i <==> IsInt64Text(t, i)
  {
    hide IntegerText, IsIntToken, IntValue;
    IntTokenExactly(t);
    forall sign, digits | IntegerText(t, sign, digits)
      ensures IsIntToken(t) && IntValue(t) == SignedNumber(sign, digits)
    {
      IntegerParts(t, sign, digits);
    }
  }

  lemma HugeExactly(t: bytes)
    ensures IsDoubleToken(t) <==> IsNumeral(t)
    ensures Overflows(t) <==> IsHugeText(t) && !IsInt64Token(t)
  {
    hide IsDoubleToken, Composes, TenTo, AllDigitsOf, TooLarge, RoundsToInfinity, IsInt64Token, Digits, Exponent;
    hide FractionDigits, PartsOf;
    DoubleTokenExactly(t);
    forall p | Composes(t, p)
      ensures TooLarge(FromBase(Digits(t), 10), Exponent(t) - |FractionDigits(t)|) <==> IsHugeText(t)
    {
      HugeParts(t, p);
    }
  }

  lemma HugeParts(t: bytes, p: Parts)
    requires Composes(t, p)
    ensures TooLarge(FromBase(Digits(t), 10), Exponent(t) - |FractionDigits(t)|) <==> IsHugeText(t)
  {
    hide DecimalNumber, FromBase, Composes, TenTo, AllDigitsOf, TooLarge, RoundsToInfinity, Digits, Exponent;
    hide FractionDigits, IsHugeText;
    PartsAreToken(t, p);
    var n, e := FromBase(Digits(t), 10), Exponent(t) - |FractionDigits(t)|;
    LimitAgrees(n, e);
    HugeBy(t, p, e);
  }

  lemma HugeBy(t: bytes, p: Parts, e: int)
    requires Composes(t, p) && TenTo(t, p, e)
    ensures IsHugeText(t) <==> RoundsToInfinity(DecimalNumber(AllDigitsOf(t, p)), e)
  {
    hide DecimalNumber, Composes, TenTo, AllDigitsOf, RoundsToInfinity;
    forall q, f | Composes(t, q) && TenTo(t, q, f) ensures q == p && f == e {
      SameParts(t, p, q);
      SamePower(t, p, e, f);
    }
  }

  lemma LimitAgrees(n: nat, e: int)
    ensures TooLarge(n, e) <==> RoundsToInfinity(n, e)
  {
    hide Power, DoubleLimit;
    LimitIsPowers();
  }

  lemma SameParts(t: bytes, p: Parts, q: Parts)
    requires Composes(t, p) && Composes(t, q)
    ensures p == q
  {
    PartsFound(t, p);
    PartsFound(t, q);
  }

  lemma SamePower(t: bytes, p: Parts, e: int, f: int)
    requires Composes(t, p) && TenTo(t, p, e) && TenTo(t, p, f)
    ensures e == f
  {
    assert p.fraction <= |t|;
    hide Composes, IntegerText, SignedNumber, IntValue, IsIntToken;
    if p.fraction < |t| {
      var x := t[p.fraction + 1..];
      forall sign, digits | IntegerText(x, sign, digits)
        ensures IsIntToken(x) && IntValue(x) == SignedNumber(sign, digits)
      {
        IntegerParts(x, sign, digits);
      }
    }
  }

  lemma {:induction false} NumberRun(t: bytes, p: nat)
    requires p <= |t| && forall b <- t :: IsNumberByte(b)
    ensures NumberEnd(t, p) == |t|
    decreases |t| - p
  {
    if p < |t| {
      assert t[p] in t;
      NumberRun(t, p + 1);
    }
  }

  /**
    A text of number bytes that starts as numbers do: it is an integer exactly when it writes an int64; a double
    exactly when it is another numeral that does not round to infinity; one that does makes the parser throw.
   */
  lemma NumberRead(t: bytes, prior: Value, i: int)
    requires t != [] && t[0] in Ascii("-0123456789") && forall b <- t :: b in Ascii("0123456789+-eE.")
    ensures var r := ReadText(t, prior); var other := forall j :: !IsInt64Text(t, j);
      && (r.ok && r.value == Int(i) <==> IsInt64Text(t, i))
      && (r.ok && r.value == Double(t) <==> other && IsNumeral(t) && !IsHugeText(t))
      && (r.thrown <==> other && IsHugeText(t))
      && (r.ok ==> r.end == |t| && (r.value.Int? || r.value == Double(t)))
  {
    hide IsIntToken, IntValue, IsDoubleToken, IsInt64Text, IsHugeText, IsNumeral, Overflows, NumberEnd, IsInt64Token;
    hide Near, NextLine;
    FirstByte(t);
    forall b | b in t ensures IsNumberByte(b) { NumberBytes(b); }
    NumberRun(t, 0);
    ScalarStep(t, 0, MAX_DEPTHS, prior);
    assert t[0..|t|] == t;
    HugeExactly(t);
    Int64Exactly(t, i);
    OtherThanInt64(t);
    hide ReadValue;
  }

  lemma OtherThanInt64(t: bytes)
    ensures IsInt64Token(t) <==> exists j :: IsInt64Text(t, j)
  {
    hide IsIntToken, IntValue, IsInt64Text;
    if IsInt64Token(t) { Int64Exactly(t, IntValue(t)); }
    if j :| IsInt64Text(t, j) { Int64Exactly(t, j); }
  }

  lemma FirstByte(t: bytes)
    requires t != [] && t[0] in Ascii("-0123456789")
    ensures SkipWs(t, 0) == 0 && (IsDecimal(t[0]) || t[0] == MINUS)
  {
    assert Ascii("-0123456789") == [MINUS] + Ascii("0123456789");
    NumberBytes(t[0]);
  }

  lemma LimitIsPowers()
    ensures DoubleLimit() == Power(2, 1024) - Power(2, 970)
  {
    hide Power;
    var block := 0x2_0000_0000_0000_0000_0000_0000;
    BlockIsPower();
    BlockPowers(block, 10);
    PowerSum(2, 970, 54);
    assert Power(2, 1024) == Power(2, 970) * 0x40_0000_0000_0000;
  }

  lemma BlockIsPower()
    ensures Power(2, 97) == 0x2_0000_0000_0000_0000_0000_0000 && Power(2, 54) == 0x40_0000_0000_0000
  {
    assert Power(2, 9) == 512 && Power(2, 18) == 0x4_0000;
    hide Power;
    PowerSum(2, 18, 18);
    PowerSum(2, 36, 18);
    PowerSum(2, 54, 36);
    PowerSum(2, 90, 7);
    assert Power(2, 90) == Power(2, 54) * Power(2, 36);
    PowerSum(2, 7, 2);
    SmallPowersOfTwo();
  }

  lemma SmallPowersOfTwo()
    ensures Power(2, 7) == 128 && Power(2, 18) == 0x4_0000
  {
  }

  lemma {:induction false} BlockPowers(block: nat, k: nat)
    requires block == Power(2, 97)
    ensures Power(block, k) == Power(2, 97 * k)
  {
    if k > 0 {
      BlockPowers(block, k - 1);
      PowerSum(2, 97, 97 * (k - 1));
    }
  }
}
