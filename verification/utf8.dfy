/** UTF-8 as defined by RFC 3629, and the encoder of the JSON reader. */
module Utf8 {
  import opened Bytes
  import opened Bits

  predicate Tail(b: byte) { 0x80 <= b <= 0xBF }

  /** Length of the well-formed character that `s` starts with (the syntax of section 4 of RFC 3629), or 0. */
  function CharLength(s: bytes): (n: nat)
    ensures n <= 4 && n <= |s|
    ensures forall i :: 0 < i < n ==> Tail(s[i])
  {
    if |s| >= 1 && s[0] <= 0x7F then 1
    else if |s| >= 2 && 0xC2 <= s[0] <= 0xDF && Tail(s[1]) then 2
    else if |s| >= 3 && SecondOfThree(s[0], s[1]) && Tail(s[2]) then 3
    else if |s| >= 4 && SecondOfFour(s[0], s[1]) && Tail(s[2]) && Tail(s[3]) then 4
    else 0
  }

  predicate SecondOfThree(a: byte, b: byte) {
    || (a == 0xE0 && 0xA0 <= b <= 0xBF)
    || (0xE1 <= a <= 0xEC && Tail(b))
    || (a == 0xED && 0x80 <= b <= 0x9F)
    || (0xEE <= a <= 0xEF && Tail(b))
  }

  predicate SecondOfFour(a: byte, b: byte) {
    || (a == 0xF0 && 0x90 <= b <= 0xBF)
    || (0xF1 <= a <= 0xF3 && Tail(b))
    || (a == 0xF4 && 0x80 <= b <= 0x8F)
  }

  /** The code point of the single character `c` (the bit distribution of section 3 of RFC 3629). */
  function Scalar(c: bytes): (u: int)
    requires 0 < CharLength(c) == |c|
  {
    var lead: int := c[0];
    if |c| == 1 then lead
    else if |c| == 2 then (lead - 0xC0) * 64 + TailBits(c[1])
    else if |c| == 3 then (lead - 0xE0) * 4096 + TailBits(c[1]) * 64 + TailBits(c[2])
    else (lead - 0xF0) * 262144 + TailBits(c[1]) * 4096 + TailBits(c[2]) * 64 + TailBits(c[3])
  }

  function TailBits(b: byte): (r: int)
    requires Tail(b)
  {
    b as int - 0x80
  }

  predicate IsScalar(u: int) { 0 <= u < 0xD800 || 0xE000 <= u <= 0x10FFFF }

  /** A byte string made of well-formed characters only. */
  predicate WellFormed(s: bytes) {
    s == [] || (CharLength(s) > 0 && WellFormed(s[CharLength(s)..]))
  }

  /** The bytes that `_parse_codepoint` pushes for a code point. */
  function Encode(u: int): (r: bytes)
    requires 0 <= u <= 0x10FFFF
    ensures 1 <= |r| <= 4
  {
    EncodeBytes(u);
    if u < 0x80 then [u]
    else if u < 0x800 then [BitOr(0xC0, Shr(u, 6)), BitOr(0x80, BitAnd(u, 0x3F))]
    else if u < 0x10000 then
      [BitOr(0xE0, Shr(u, 12)), BitOr(0x80, BitAnd(Shr(u, 6), 0x3F)), BitOr(0x80, BitAnd(u, 0x3F))]
    else
      [BitOr(0xF0, Shr(u, 18)), BitOr(0x80, BitAnd(Shr(u, 12), 0x3F)), BitOr(0x80, BitAnd(Shr(u, 6), 0x3F)),
       BitOr(0x80, BitAnd(u, 0x3F))]
  }

  /** The or-ed and masked bytes are sums and remainders. */
  lemma EncodeBytes(u: int)
    requires 0 <= u <= 0x10FFFF
    ensures BitOr(0x80, BitAnd(u, 0x3F)) == 0x80 + u % 64
    ensures BitOr(0x80, BitAnd(Shr(u, 6), 0x3F)) == 0x80 + u / 64 % 64
    ensures BitOr(0x80, BitAnd(Shr(u, 12), 0x3F)) == 0x80 + u / 4096 % 64
    ensures u < 0x800 ==> BitOr(0xC0, Shr(u, 6)) == 0xC0 + u / 64
    ensures u < 0x10000 ==> BitOr(0xE0, Shr(u, 12)) == 0xE0 + u / 4096
    ensures BitOr(0xF0, Shr(u, 18)) == 0xF0 + u / 262144
  {
    ShiftIsDivision(u);
    TailByte(u);
    TailByte(u / 64);
    TailByte(u / 4096);
    LeadBytes(u);
  }

  lemma LeadBytes(u: int)
    requires 0 <= u <= 0x10FFFF
    ensures u < 0x800 ==> BitOr(0xC0, u / 64) == 0xC0 + u / 64
    ensures u < 0x10000 ==> BitOr(0xE0, u / 4096) == 0xE0 + u / 4096
    ensures BitOr(0xF0, u / 262144) == 0xF0 + u / 262144
  {
    Powers();
    SmallPowers();
    if u < 0x800 { LeadByte(u / 64, 6, 5, 32, 0xC0); }
    if u < 0x10000 { LeadByte(u / 4096, 14, 4, 16, 0xE0); }
    LeadByte(u / 262144, 30, 3, 8, 0xF0);
  }

  lemma ShiftIsDivision(u: nat)
    ensures Shr(u, 6) == u / 64 && Shr(u, 12) == u / 4096 && Shr(u, 18) == u / 262144
  {
    Powers();
  }

  lemma TailByte(x: nat)
    ensures BitOr(0x80, BitAnd(x, 0x3F)) == 0x80 + x % 64
  {
    Powers();
    AndMask(x, 6);
    OrDisjoint(2, 6, x % 64);
  }

  lemma LeadByte(x: nat, hi: nat, k: nat, p: nat, mark: nat)
    requires p == Pow2(k) && x < p && mark == hi * p
    ensures BitOr(mark, x) == mark + x
  {
    OrDisjoint(hi, k, x);
  }

  /** The encoder emits exactly one well-formed character, the one that denotes the code point. */
  lemma EncodeCorrect(u: int)
    requires IsScalar(u)
    ensures CharLength(Encode(u)) == |Encode(u)| && Scalar(Encode(u)) == u
    ensures WellFormed(Encode(u))
  {
    hide Encode, CharLength, Scalar, Sums;
    EncodeArithmetic(u);
    ScalarOfSums(u);
    OneCharacter(Encode(u));
  }

  lemma OneCharacter(c: bytes)
    requires 0 < CharLength(c) == |c|
    ensures WellFormed(c)
  {
    assert c[|c|..] == [];
  }

  lemma ScalarOfSums(u: int)
    requires IsScalar(u)
    ensures 0 < CharLength(Sums(u)) == |Sums(u)| && Scalar(Sums(u)) == u
  {
    Digits64(u);
  }

  lemma EncodeArithmetic(u: int)
    requires 0 <= u <= 0x10FFFF
    ensures Encode(u) == Sums(u)
  {
    EncodeBytes(u);
  }

  /** The RFC 3629 bit distribution, written with sums. */
  function Sums(u: int): (r: bytes)
    requires 0 <= u <= 0x10FFFF
  {
    if u < 0x80 then [u]
    else if u < 0x800 then [0xC0 + u / 64, 0x80 + u % 64]
    else if u < 0x10000 then [0xE0 + u / 4096, 0x80 + u / 64 % 64, 0x80 + u % 64]
    else [0xF0 + u / 262144, 0x80 + u / 4096 % 64, 0x80 + u / 64 % 64, 0x80 + u % 64]
  }

  lemma Digits64(u: int)
    requires u >= 0
    ensures u == u / 64 * 64 + u % 64
    ensures u / 64 == u / 4096 * 64 + u / 64 % 64
    ensures u / 4096 == u / 262144 * 64 + u / 4096 % 64
  {
    assert u / 64 / 64 == u / 4096;
    assert u / 4096 / 64 == u / 262144;
  }

  /** A well-formed character is the encoding of its code point: the encoding is unique. */
  lemma EncodeUnique(c: bytes)
    requires 0 < CharLength(c) == |c|
    ensures IsScalar(Scalar(c)) && Encode(Scalar(c)) == c
  {
    var u := Scalar(c);
    SumsOfScalar(c);
    EncodeArithmetic(u);
  }

  lemma SumsOfScalar(c: bytes)
    requires 0 < CharLength(c) == |c|
    ensures IsScalar(Scalar(c)) && Sums(Scalar(c)) == c
  {
    var u := Scalar(c);
    if |c| == 2 {
      ModUnique(u, 64, c[0] - 0xC0, TailBits(c[1]));
      assert Sums(u) == [c[0], c[1]];
    } else if |c| == 3 {
      Digits3(c[0] - 0xE0, TailBits(c[1]), TailBits(c[2]));
      assert Sums(u) == [c[0], c[1], c[2]];
    } else if |c| == 4 {
      Digits4(c[0] - 0xF0, TailBits(c[1]), TailBits(c[2]), TailBits(c[3]));
      assert Sums(u) == [c[0], c[1], c[2], c[3]];
    }
  }

  lemma Digits3(a: int, b: int, c: int)
    requires a >= 0 && 0 <= b < 64 && 0 <= c < 64
    ensures var u := a * 4096 + b * 64 + c; u / 4096 == a && u / 64 % 64 == b && u % 64 == c
  {
    var u := a * 4096 + b * 64 + c;
    ModUnique(u, 64, a * 64 + b, c);
    ModUnique(u / 64, 64, a, b);
    ModUnique(u, 4096, a, b * 64 + c);
  }

  lemma Digits4(a: int, b: int, c: int, d: int)
    requires a >= 0 && 0 <= b < 64 && 0 <= c < 64 && 0 <= d < 64
    ensures var u := a * 262144 + b * 4096 + c * 64 + d;
      u / 262144 == a && u / 4096 % 64 == b && u / 64 % 64 == c && u % 64 == d
  {
    var u := a * 262144 + b * 4096 + c * 64 + d;
    ModUnique(u, 64, a * 4096 + b * 64 + c, d);
    ModUnique(u / 64, 64, a * 64 + b, c);
    ModUnique(u, 4096, a * 64 + b, c * 64 + d);
    ModUnique(u / 4096, 64, a, b);
    ModUnique(u, 262144, a, b * 4096 + c * 64 + d);
  }

  /** The first character depends on its own bytes only. */
  lemma SameChar(s: bytes, t: bytes)
    requires 0 < CharLength(s) <= |t|
    requires forall i :: 0 <= i < CharLength(s) ==> s[i] == t[i]
    ensures CharLength(t) == CharLength(s)
  {
  }

  /** Well-formed strings are closed under concatenation. */
  lemma {:induction false} Concat(a: bytes, b: bytes)
    requires WellFormed(a) && WellFormed(b)
    ensures WellFormed(a + b)
  {
    if a == [] {
      assert a + b == b;
    } else {
      var n := CharLength(a);
      SameChar(a, a + b);
      assert (a + b)[n..] == a[n..] + b;
      Concat(a[n..], b);
    }
  }

  /** An ASCII byte is a character boundary. */
  lemma {:induction false} SplitBefore(a: bytes, b: bytes)
    requires WellFormed(a + b) && b != [] && b[0] < 0x80
    ensures WellFormed(a) && WellFormed(b)
  {
    if a == [] {
      assert a + b == b;
    } else {
      var n := CharLength(a + b);
      assert (a + b)[|a|] == b[0];
      assert n <= |a|;
      assert a <= a + b;
      SameChar(a + b, a);
      assert (a + b)[n..] == a[n..] + b;
      SplitBefore(a[n..], b);
    }
  }

  lemma SplitAfter(a: bytes, c: byte, b: bytes)
    requires WellFormed(a + [c] + b) && c < 0x80
    ensures WellFormed(a) && WellFormed(b)
  {
    assert a + [c] + b == a + ([c] + b);
    SplitBefore(a, [c] + b);
    assert ([c] + b)[1..] == b;
  }
}
