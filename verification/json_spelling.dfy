/** \u escapes by the digits that spell them. */
module JsonSpelling {
  import opened Bytes
  import opened Numerals
  import opened Utf8
  import opened JsonValue
  import opened JsonReader
  import opened JsonGrammar
  import opened JsonText
  import opened JsonTheorems

  /** `\u` and four digits that spell `n` stand at `p`. */
  ghost predicate UnitStands(s: bytes, p: nat, n: nat)
    requires n < 0x10000
  {
    p + 6 <= |s| && s[p..p + 2] == Ascii("\\u") && Spelled(n, s[p + 2..p + 6])
  }

  /** The text from `p` to `q` is an escape, or a surrogate pair of them, that spells the code point `u`. */
  ghost predicate Escapes(s: bytes, p: nat, q: nat, u: nat) {
    if u < 0x10000 then (u < 0xD800 || u > 0xDFFF) && q == p + 6 && UnitStands(s, p, u)
    else
      && u <= 0x10FFFF && q == p + 12
      && UnitStands(s, p, 0xD800 + (u - 0x10000) / 0x400) && UnitStands(s, p + 6, 0xDC00 + (u - 0x10000) % 0x400)
  }

  /** Four bytes are hexadecimal digits exactly when they spell a number, and then the one they have as value. */
  lemma HexIsSpelled(h: bytes, n: nat)
    requires |h| == 4 && n < 0x10000
    ensures Spelled(n, h) <==> IsHex4(h) && HexValue(h) == n
  {
    hide Writes, Spelled, DigitValue;
    if Spelled(n, h) { SpelledOnce(n, n, h); }
    if Spelled(n, h) || IsHex4(h) { SpelledByDigits(n, h); }
  }

  /** The chunk that stands where an escape does. */
  lemma EscapeChunkStands(s: bytes, p: nat, q: nat, u: nat) returns (c: Chunk)
    requires Escapes(s, p, q, u)
    ensures EscapeStands(s, p, c) && CodeOf(c) == u && q == p + |ChunkText(c)|
  {
    hide Spelled, IsHex4, HexValue;
    if u < 0x10000 {
      var h := s[p + 2..p + 6];
      HexIsSpelled(h, u);
      c := Unit(h);
      assert s[p..p + 6] == s[p..p + 2] + h;
    } else {
      var hi, lo := s[p + 2..p + 6], s[p + 8..p + 12];
      HexIsSpelled(hi, 0xD800 + (u - 0x10000) / 0x400);
      HexIsSpelled(lo, 0xDC00 + (u - 0x10000) % 0x400);
      c := Pair(hi, lo);
      assert s[p..p + 12] == s[p..p + 2] + hi + (s[p + 6..p + 8] + lo);
    }
  }

  lemma ChunkEscapes(s: bytes, p: nat, c: Chunk)
    requires EscapeStands(s, p, c)
    ensures 0 <= CodeOf(c) && Escapes(s, p, p + |ChunkText(c)|, CodeOf(c))
  {
    hide Spelled, IsHex4, HexValue;
    match c
    case Unit(h) =>
      assert |h| == 4 by { HexIsFour(h); }
      UnitParts(s, p, h);
      HexIsSpelled(h, HexValue(h));
    case Pair(hi, lo) =>
      assert |hi| == 4 == |lo| by {
        HexIsFour(hi);
        HexIsFour(lo);
      }
      PairParts(s, p, hi, lo);
      HexIsSpelled(hi, HexValue(hi));
      HexIsSpelled(lo, HexValue(lo));
  }

  lemma HexIsFour(h: bytes)
    requires IsHex4(h)
    ensures |h| == 4
  {
  }

  lemma UnitParts(s: bytes, p: nat, h: bytes)
    requires |h| == 4 && At(s, p, ChunkText(Unit(h)))
    ensures p + 6 <= |s| && s[p..p + 2] == Ascii("\\u") && s[p + 2..p + 6] == h
  {
    var t := ChunkText(Unit(h));
    assert s[p..p + 6] == t;
    assert s[p..p + 2] == t[0..2] && s[p + 2..p + 6] == t[2..6];
  }

  lemma PairParts(s: bytes, p: nat, hi: bytes, lo: bytes)
    requires |hi| == 4 && |lo| == 4 && At(s, p, ChunkText(Pair(hi, lo)))
    ensures p + 12 <= |s| && s[p..p + 2] == Ascii("\\u") == s[p + 6..p + 8]
    ensures s[p + 2..p + 6] == hi && s[p + 8..p + 12] == lo
  {
    var t := ChunkText(Pair(hi, lo));
    assert s[p..p + 12] == t;
    assert s[p..p + 2] == t[0..2] && s[p + 6..p + 8] == t[6..8];
    assert s[p + 2..p + 6] == t[2..6] && s[p + 8..p + 12] == t[8..12];
  }

  /**
    After a backslash and a `u`, reading succeeds exactly where digits of either case spell a code point: one
    that is no surrogate in four digits, one above 0xFFFF in two escapes. It gives the one character of that
    code point and goes on behind its spelling.
   */
  lemma EscapeExactly(s: bytes, p: nat)
    requires p + 2 <= |s| && s[p..p + 2] == Ascii("\\u")
    ensures Codepoint(s, p + 2).ok <==> exists q, u :: Escapes(s, p, q, u)
    ensures forall q, u :: Escapes(s, p, q, u) ==>
      var r := Codepoint(s, p + 2); r.pos == q && 0 < CharLength(r.out) == |r.out| && Scalar(r.out) == u
  {
    hide Codepoint, ChunkText, CharLength, Scalar, CodeOf, EscapeStands, Escapes;
    assert s[p] == s[p..p + 2][0] && s[p + 1] == s[p..p + 2][1];
    CodepointExactly(s, p);
    forall q, u | Escapes(s, p, q, u)
      ensures var r := Codepoint(s, p + 2);
        r.ok && r.pos == q && 0 < CharLength(r.out) == |r.out| && Scalar(r.out) == u
    {
      var c := EscapeChunkStands(s, p, q, u);
    }
    if Codepoint(s, p + 2).ok {
      var c: Chunk :| EscapeStands(s, p, c);
      ChunkEscapes(s, p, c);
    }
  }

  /** A text that is a quoted escape reads as the string of its one character. */
  lemma QuotedEscapeReads(s: bytes, u: nat, prior: Value) returns (c: bytes)
    requires |s| >= 2 && s[0] == '"' as int == s[|s| - 1] && Escapes(s, 1, |s| - 1, u)
    ensures ReadText(s, prior).ok && ReadText(s, prior).value == Str(c) && ReadText(s, prior).end == |s|
    ensures 0 < CharLength(c) == |c| && Scalar(c) == u
  {
    hide CharLength, Scalar, CodeOf, ReadText, Escapes, ChunkText;
    var chunk := EscapeChunkStands(s, 1, |s| - 1, u);
    EscapeIsScalar(chunk);
    c := ChunkValue(chunk);
    var doc := StringDoc([], [chunk]);
    OneChunk(chunk);
    assert s == [QUOTE] + (s[1..|s| - 1] + [QUOTE]);
    assert Text(doc) == Quoted([chunk]) == s;
    NestingBound(s, doc, prior);
  }

  lemma OneChunk(c: Chunk)
    requires WfChunk(c)
    ensures BodyText([c]) == ChunkText(c) && WfBody([c]) && BodyValue([c]) == ChunkValue(c)
  {
    assert [c][1..] == [];
    assert ChunkText(c) + [] == ChunkText(c);
    assert ChunkValue(c) + [] == ChunkValue(c);
  }

  /** Upper-case digits. */
  lemma UpperCaseEscape(prior: Value)
    ensures ReadText(Ascii("\"\\u00E9\""), prior).ok
    ensures ReadText(Ascii("\"\\u00E9\""), prior).value == Str([0xC3, 0xA9])
  {
    var s := Ascii("\"\\u00E9\"");
    assert s[1..3] == Ascii("\\u") && s[3..7] == Ascii("00E9");
    assert Spelled(0xE9, s[3..7]);
    var c := QuotedEscapeReads(s, 0xE9, prior);
    EncodeUnique(c);
    EncodeArithmetic(0xE9);
  }
}
