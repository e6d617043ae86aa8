/** Whatever the reader accepts is a text of the grammar: each success yields the document that was read. */
module JsonSoundness {
  import opened Bytes
  import opened Numerals
  import opened Utf8
  import opened JsonValue
  import opened JsonReader
  import opened JsonGrammar
  import opened JsonCompleteness

  lemma {:induction false} SkippedIsWs(s: bytes, p: nat)
    requires p <= |s|
    ensures AllWs(s[p..SkipWs(s, p)]) && At(s, p, s[p..SkipWs(s, p)])
    decreases |s| - p
  {
    if p < |s| && IsWs(s[p]) {
      SkippedIsWs(s, p + 1);
      assert s[p..SkipWs(s, p)] == [s[p]] + s[p + 1..SkipWs(s, p + 1)];
    }
  }

  lemma {:induction false} MatchedIsAt(s: bytes, p: nat, t: bytes)
    requires p <= |s| && Match(s, p, t).ok
    ensures At(s, p, t)
    decreases |t|
  {
    if t != [] {
      MatchedIsAt(s, p + 1, t[1..]);
      AtCons(s, p, t[0], t[1..]);
      assert t == [t[0]] + t[1..];
    }
  }

  /** A successful `Expect` passes white space and the expected byte. */
  lemma ExpectedIsAt(s: bytes, p: nat, b: byte) returns (gap: bytes)
    requires p <= |s| && Expect(s, p, b).ok
    ensures AllWs(gap) && At(s, p, gap + [b]) && Expect(s, p, b).pos == p + |gap| + 1
  {
    gap := s[p..SkipWs(s, p)];
    SkippedIsWs(s, p);
    AtCons(s, p + |gap|, b, []);
    AtConcat(s, p, gap, [b]);
  }

  // ---------- strings ----------

  lemma FourHexIsAt(s: bytes, p: nat)
    requires p <= |s| && FourHex(s, p).value != -1
    ensures p + 4 <= |s| && IsHex4(s[p..p + 4]) && At(s, p, s[p..p + 4])
    ensures FourHex(s, p) == HexScan(HexValue(s[p..p + 4]), p + 4, true)
  {
    assert p < |s| && DigitValue(s[p]) != -1;
    var a := DigitValue(s[p]);
    assert FourHex(s, p) == QuadHex(s, p + 1, 3, a);
    assert p + 1 < |s| && DigitValue(s[p + 1]) != -1;
    var b := a * 16 + DigitValue(s[p + 1]);
    assert FourHex(s, p) == QuadHex(s, p + 2, 2, b);
    assert p + 2 < |s| && DigitValue(s[p + 2]) != -1;
    var c := b * 16 + DigitValue(s[p + 2]);
    assert FourHex(s, p) == QuadHex(s, p + 3, 1, c);
    assert p + 3 < |s| && DigitValue(s[p + 3]) != -1;
    FourHexAt(s, p, s[p..p + 4]);
  }

  /** The chunk that the reader takes at a byte that does not close the string. */
  lemma CodepointIsAt(s: bytes, p: nat) returns (c: Chunk)
    requires p + 2 <= |s| && s[p] == BACKSLASH && s[p + 1] == 0x75 && Codepoint(s, p + 2).ok
    ensures (c.Unit? || c.Pair?) && WfChunk(c) && At(s, p, ChunkText(c))
  {
    hide At, FourHex, ChunkText;
    var hi := FirstHalf(s, p);
    if IsScalar(HexValue(hi)) {
      c := Unit(hi);
    } else {
      c := SurrogatesAt(s, p, hi);
    }
  }

  lemma FirstHalf(s: bytes, p: nat) returns (hi: bytes)
    requires p + 2 <= |s| && s[p] == BACKSLASH && s[p + 1] == 0x75 && Codepoint(s, p + 2).ok
    ensures IsHex4(hi) && FourHex(s, p + 2) == HexScan(HexValue(hi), p + 6, true)
    ensures p + 6 <= |s| && At(s, p, ChunkText(Unit(hi)))
  {
    hide At;
    FourHexIsAt(s, p + 2);
    hi := s[p + 2..p + 6];
    EscapeAt(s, p, hi);
  }

  lemma SurrogatesAt(s: bytes, p: nat, hi: bytes) returns (c: Chunk)
    requires p + 6 <= |s| && Codepoint(s, p + 2).ok && IsHex4(hi) && 0xD800 <= HexValue(hi) <= 0xDFFF
    requires FourHex(s, p + 2) == HexScan(HexValue(hi), p + 6, true) && At(s, p, ChunkText(Unit(hi)))
    ensures c.Pair? && WfChunk(c) && At(s, p, ChunkText(c))
  {
    hide At, FourHex, Codepoint;
    SecondHalf(s, p);
    var lo := s[p + 8..p + 12];
    c := Pair(hi, lo);
    EscapeAt(s, p + 6, lo);
    AtConcat(s, p, [BACKSLASH, 0x75] + hi, [BACKSLASH, 0x75] + lo);
  }

  lemma SecondHalf(s: bytes, p: nat)
    requires p + 6 <= |s| && Codepoint(s, p + 2).ok
    requires 0xD800 <= FourHex(s, p + 2).value <= 0xDFFF && FourHex(s, p + 2).pos == p + 6
    ensures FourHex(s, p + 2).value < 0xDC00
    ensures p + 12 <= |s| && s[p + 6] == BACKSLASH && s[p + 7] == 0x75
    ensures var lo := s[p + 8..p + 12]; IsHex4(lo) && At(s, p + 8, lo) && 0xDC00 <= HexValue(lo) <= 0xDFFF
  {
    hide FourHex, JoinPair, Encode;
    FourHexIsAt(s, p + 8);
  }

  lemma EscapeAt(s: bytes, p: nat, h: bytes)
    requires p + 2 <= |s| && s[p] == BACKSLASH && s[p + 1] == 0x75 && At(s, p + 2, h)
    ensures At(s, p, [BACKSLASH, 0x75] + h)
  {
    assert s[p..p + 2] == [BACKSLASH, 0x75];
    AtConcat(s, p, [BACKSLASH, 0x75], h);
  }

  lemma ChunkIsAt(s: bytes, p: nat, acc: bytes) returns (c: Chunk)
    requires p <= |s| && ScanString(s, p, acc).ok && s[p] != QUOTE
    ensures WfChunk(c) && At(s, p, ChunkText(c))
  {
    if s[p] != BACKSLASH {
      c := Raw(s[p]);
      AtCons(s, p, s[p], []);
    } else if s[p + 1] == 0x75 {
      c := CodepointIsAt(s, p);
    } else {
      c := Short(s[p + 1]);
      assert s[p..p + 2] == [BACKSLASH, s[p + 1]];
    }
  }

  lemma {:induction false} BodyIsAt(s: bytes, p: nat, acc: bytes) returns (body: seq<Chunk>)
    requires p <= |s| && ScanString(s, p, acc).ok
    ensures WfBody(body) && At(s, p, BodyText(body) + [QUOTE])
    decreases |s| - p
  {
    if s[p] == QUOTE {
      body := [];
      AtCons(s, p, QUOTE, []);
      assert BodyText(body) + [QUOTE] == [QUOTE] + [];
    } else {
      hide At, ChunkText, ChunkValue, BodyText;
      var c := ChunkIsAt(s, p, acc);
      ScanChunk(s, p, c, acc);
      var rest := BodyIsAt(s, p + |ChunkText(c)|, acc + ChunkValue(c));
      body := [c] + rest;
      BodyCons(s, p, c, rest, [QUOTE]);
    }
  }

  lemma BodyCons(s: bytes, p: nat, c: Chunk, rest: seq<Chunk>, tail: bytes)
    requires At(s, p, ChunkText(c)) && At(s, p + |ChunkText(c)|, BodyText(rest) + tail)
    ensures At(s, p, BodyText([c] + rest) + tail)
  {
    hide At, ChunkText;
    AtConcat(s, p, ChunkText(c), BodyText(rest) + tail);
    assert ([c] + rest)[1..] == rest;
    Regroup(ChunkText(c), BodyText(rest), tail);
  }

  lemma QuotedIsAt(s: bytes, p: nat) returns (body: seq<Chunk>)
    requires p < |s| && s[p] == QUOTE && ScanString(s, p + 1, []).ok
    ensures WfBody(body) && At(s, p, Quoted(body))
    ensures ScanString(s, p + 1, []) == TextScan(true, BodyValue(body), p + |Quoted(body)|, true)
  {
    body := BodyIsAt(s, p + 1, []);
    AtCons(s, p, QUOTE, BodyText(body) + [QUOTE]);
    ScanQuoted(s, p, body);
  }

  // ---------- numbers ----------

  lemma {:induction false} NumberIsAt(s: bytes, p: nat)
    requires p <= |s|
    ensures NumberStops(s, NumberEnd(s, p)) && forall i :: p <= i < NumberEnd(s, p) ==> IsNumberByte(s[i])
    decreases |s| - p
  {
    if p < |s| && IsNumberByte(s[p]) { NumberIsAt(s, p + 1); }
  }

  lemma NumberDocAt(s: bytes, p: nat) returns (doc: Doc)
    requires p < |s| && (IsDecimal(s[p]) || s[p] == MINUS) && TokenValue(s[p..NumberEnd(s, p)]).Some?
    ensures doc == NumberDoc([], s[p..NumberEnd(s, p)]) && Wf(doc) && At(s, p, Core(doc))
    ensures NumberStops(s, p + |Core(doc)|)
  {
    var e := NumberEnd(s, p);
    NumberIsAt(s, p);
    doc := NumberDoc([], s[p..e]);
    assert e > p;
    forall b | b in s[p..e] ensures IsNumberByte(b) {
      var i :| 0 <= i < |s[p..e]| && s[p..e][i] == b;
      assert b == s[p + i];
    }
  }

  // ---------- documents ----------

  /** `doc` stands at `p` and ends where a number would. */
  ghost predicate Stands(s: bytes, p: nat, doc: Doc) {
    Wf(doc) && At(s, p, Text(doc)) && Stops(s, p + |Text(doc)|, doc)
  }

  function WithLead(doc: Doc, t: bytes): (r: Doc) { doc.(lead := t) }

  /** Put the skipped white space before a document found after it. */
  lemma LeadBefore(s: bytes, p: nat, doc: Doc)
    requires p <= |s| && Wf(doc) && At(s, SkipWs(s, p), Core(doc)) && Stops(s, SkipWs(s, p) + |Core(doc)|, doc)
    ensures Stands(s, p, WithLead(doc, s[p..SkipWs(s, p)]))
  {
    hide At, SkipWs, WfToken, WfBody, WfItems, WfMembers, ItemsText, MembersText, NumberStops;
    var lead := s[p..SkipWs(s, p)];
    SkippedIsWs(s, p);
    AtConcat(s, p, lead, Core(doc));
    assert Core(WithLead(doc, lead)) == Core(doc);
  }

  lemma {:induction false} ValueIsAt(s: bytes, p: nat, d: nat, prior: Value) returns (doc: Doc)
    requires p <= |s| && ReadValue(s, p, d, prior).ok
    ensures Stands(s, p, doc)
    decreases |s| - p, 1
  {
    hide ScanString, NumberEnd, TokenValue, At, Match;
    var q := SkipWs(s, p);
    var ch := s[q];
    if ch == 0x6E {
      doc := NullDoc([]);
      LiteralIsAt(s, q, 0x6E, ULL);
    } else if ch == 0x66 {
      doc := BoolDoc([], false);
      LiteralIsAt(s, q, 0x66, ALSE);
    } else if ch == 0x74 {
      doc := BoolDoc([], true);
      LiteralIsAt(s, q, 0x74, RUE);
    } else if ch == QUOTE {
      var body := QuotedIsAt(s, q);
      doc := StringDoc([], body);
    } else if ch == LBRACKET {
      doc := ArrayIsAt(s, p, d, prior);
    } else if ch == LBRACE {
      doc := ObjectIsAt(s, p, d, prior);
    } else {
      doc := NumberDocAt(s, q);
    }
    LeadBefore(s, p, doc);
    doc := WithLead(doc, s[p..q]);
  }

  lemma LiteralIsAt(s: bytes, q: nat, b: byte, t: bytes)
    requires q < |s| && s[q] == b && Match(s, q + 1, t).ok
    ensures At(s, q, [b] + t)
  {
    MatchedIsAt(s, q + 1, t);
    AtCons(s, q, b, t);
  }

  lemma {:induction false} ArrayIsAt(s: bytes, p: nat, d: nat, prior: Value) returns (doc: Doc)
    requires p <= |s| && Sees(s, SkipWs(s, p), LBRACKET) && ReadValue(s, p, d, prior).ok
    ensures Wf(doc) && !doc.NumberDoc? && At(s, SkipWs(s, p), Core(doc))
    decreases |s| - p, 0
  {
    hide At, ReadValue, ReadItems;
    OpenArray(s, p, d, prior);
    var q := SkipWs(s, p);
    if Expect(s, q + 1, RBRACKET).ok {
      var gap := ExpectedIsAt(s, q + 1, RBRACKET);
      doc := EmptyArray([], gap);
      AtCons(s, q, LBRACKET, gap + [RBRACKET]);
    } else {
      SkipTwice(s, q + 1);
      ReadItemsAfterWs(s, q + 1, SkipWs(s, q + 1), d - 1, []);
      var items, gap := ItemsAreAt(s, q + 1, d - 1, []);
      doc := ArrayDoc([], items, gap);
      AtCons(s, q, LBRACKET, ItemsText(items) + (gap + [RBRACKET]));
    }
  }

  lemma {:induction false} ItemsAreAt(s: bytes, p: nat, d: nat, acc: seq<Value>) returns (items: Items, gap: bytes)
    requires p <= |s| && ReadItems(s, p, d, acc).ok
    ensures WfItems(items) && AllWs(gap) && At(s, p, ItemsText(items) + (gap + [RBRACKET]))
    decreases |s| - p, 2
  {
    hide At, ReadValue, ReadItems;
    ItemRound(s, p, d, acc);
    var item := ReadValue(s, p, d, Null);
    var doc := ValueIsAt(s, p, d, Null);
    ReadDoc(s, p, doc, d, Null);
    var t := Text(doc);
    var q := p + |t|;
    if Expect(s, q, COMMA).ok {
      var g := ExpectedIsAt(s, q, COMMA);
      var rest;
      rest, gap := ItemsAreAt(s, q + |g| + 1, d, acc + [item.out]);
      items := MoreItems(doc, g, rest);
      var tail := ItemsText(rest) + (gap + [RBRACKET]);
      AtConcat(s, q, g + [COMMA], tail);
      AtConcat(s, p, t, (g + [COMMA]) + tail);
      assert ItemsText(items) + (gap + [RBRACKET]) == t + ((g + [COMMA]) + tail);
    } else {
      ExpectAgain(s, q, COMMA, RBRACKET);
      gap := ExpectedIsAt(s, q, RBRACKET);
      items := OneItem(doc);
      AtConcat(s, p, t, gap + [RBRACKET]);
    }
  }

  lemma {:induction false} ObjectIsAt(s: bytes, p: nat, d: nat, prior: Value) returns (doc: Doc)
    requires p <= |s| && Sees(s, SkipWs(s, p), LBRACE) && ReadValue(s, p, d, prior).ok
    ensures Wf(doc) && !doc.NumberDoc? && At(s, SkipWs(s, p), Core(doc))
    decreases |s| - p, 0
  {
    hide At, ReadValue, ReadMembers;
    OpenObject(s, p, d, prior);
    var q := SkipWs(s, p);
    if Expect(s, q + 1, RBRACE).ok {
      var gap := ExpectedIsAt(s, q + 1, RBRACE);
      doc := EmptyObject([], gap);
      AtCons(s, q, LBRACE, gap + [RBRACE]);
    } else {
      SkipTwice(s, q + 1);
      ReadMembersAfterWs(s, q + 1, SkipWs(s, q + 1), d, []);
      var members, gap := MembersAreAt(s, q + 1, d, []);
      doc := ObjectDoc([], members, gap);
      AtCons(s, q, LBRACE, MembersText(members) + (gap + [RBRACE]));
    }
  }

  /** What the member loop reads as the value of the next member. */
  ghost function ValueOf(s: bytes, p: nat, d: nat, acc: seq<Member>): Parsed
    requires p <= |s|
  {
    var key := ScanString(s, Expect(s, p, QUOTE).pos, []);
    ReadValue(s, Expect(s, key.pos, COLON).pos, d, Slot(acc, key.out))
  }

  /** The member loop reads a key and a colon. */
  ghost predicate KeyDone(s: bytes, p: nat)
    requires p <= |s|
  {
    var key := ScanString(s, Expect(s, p, QUOTE).pos, []);
    Expect(s, p, QUOTE).ok && key.ok && Expect(s, key.pos, COLON).ok
  }

  /** One round of the member loop reads a whole member. */
  ghost predicate MemberDone(s: bytes, p: nat, d: nat, acc: seq<Member>)
    requires p <= |s|
  {
    KeyDone(s, p) && ValueOf(s, p, d, acc).ok
  }

  lemma MemberLoopDone(s: bytes, p: nat, d: nat, acc: seq<Member>)
    requires p <= |s| && ReadMembers(s, p, d, acc).ok
    ensures MemberDone(s, p, d, acc)
  {
    hide SkipWs, ScanString, ReadValue, ReadMembers, Slot, Put;
    MemberRound(s, p, d, acc);
  }

  lemma QuoteSeen(s: bytes, p: nat)
    requires p <= |s| && Expect(s, p, QUOTE).ok
    ensures Sees(s, SkipWs(s, p), QUOTE) && Expect(s, p, QUOTE) == Scan(true, SkipWs(s, p) + 1, true)
  {
  }

  /** The member that such a round reads. */
  lemma {:induction false} MemberIsAt(s: bytes, p: nat, d: nat, acc: seq<Member>) returns (m: MemberDoc)
    requires p <= |s| && MemberDone(s, p, d, acc)
    ensures AllWs(m.lead) && WfBody(m.key) && AllWs(m.gap) && Wf(m.doc) && At(s, p, MemberText(m)) && Fits(m.doc, d)
    ensures ValueOf(s, p, d, acc).pos == p + |MemberText(m)|
    decreases |s| - p, 2
  {
    hide At, ReadValue, ReadMembers, ScanString, SkipWs, Expect, AllWs, Slot, BodyText, BodyValue, WfBody;
    QuoteSeen(s, p);
    var k := SkipWs(s, p);
    SkippedIsWs(s, p);
    var body := QuotedIsAt(s, k);
    var c := k + |Quoted(body)|;
    var gap := ExpectedIsAt(s, c, COLON);
    var v := c + |gap| + 1;
    var doc := ValueIsAt(s, v, d, Slot(acc, BodyValue(body)));
    ReadDoc(s, v, doc, d, Slot(acc, BodyValue(body)));
    m := MemberDoc(s[p..k], body, gap, doc);
    MemberTextAt(s, p, m);
  }

  lemma MemberTextAt(s: bytes, p: nat, m: MemberDoc)
    requires var k := p + |m.lead|; var c := k + |Quoted(m.key)|;
      At(s, p, m.lead) && At(s, k, Quoted(m.key)) && At(s, c, m.gap + [COLON]) && At(s, c + |m.gap| + 1, Text(m.doc))
    ensures At(s, p, MemberText(m))
  {
    hide At;
    var k := p + |m.lead|;
    var c := k + |Quoted(m.key)|;
    AtConcat(s, c, m.gap + [COLON], Text(m.doc));
    AtConcat(s, k, Quoted(m.key), (m.gap + [COLON]) + Text(m.doc));
    AtConcat(s, p, m.lead, Quoted(m.key) + ((m.gap + [COLON]) + Text(m.doc)));
  }

  lemma {:induction false} MembersAreAt(s: bytes, p: nat, d: nat, acc: seq<Member>)
    returns (members: Members, gap: bytes)
    requires p <= |s| && ReadMembers(s, p, d, acc).ok
    ensures WfMembers(members) && AllWs(gap) && At(s, p, MembersText(members) + (gap + [RBRACE]))
    decreases |s| - p, 3
  {
    hide At, ReadValue, ReadMembers, ScanString, SkipWs, Expect, Put, Slot, MembersText, MemberText, AllWs, WfBody, Wf;
    MemberLoopDone(s, p, d, acc);
    var m := MemberIsAt(s, p, d, acc);
    MemberRound(s, p, d, acc);
    var q := p + |MemberText(m)|;
    if Expect(s, q, COMMA).ok {
      var g := ExpectedIsAt(s, q, COMMA);
      var key := ScanString(s, Expect(s, p, QUOTE).pos, []);
      var item := ReadValue(s, Expect(s, key.pos, COLON).pos, d, Slot(acc, key.out));
      var rest;
      rest, gap := MembersAreAt(s, q + |g| + 1, d, Put(acc, key.out, item.out));
      members := MoreMembers(m, g, rest);
      MembersCons(s, p, m, g, rest, gap);
    } else {
      ExpectAgain(s, q, COMMA, RBRACE);
      gap := ExpectedIsAt(s, q, RBRACE);
      members := OneMember(m);
      MembersEnd(s, p, m, gap);
    }
  }

  lemma MembersCons(s: bytes, p: nat, m: MemberDoc, g: bytes, rest: Members, gap: bytes)
    requires At(s, p, MemberText(m)) && At(s, p + |MemberText(m)|, g + [COMMA])
    requires At(s, p + |MemberText(m)| + |g| + 1, MembersText(rest) + (gap + [RBRACE]))
    ensures At(s, p, MembersText(MoreMembers(m, g, rest)) + (gap + [RBRACE]))
  {
    hide At, MemberText;
    var t, tail := MemberText(m), MembersText(rest) + (gap + [RBRACE]);
    AtConcat(s, p + |t|, g + [COMMA], tail);
    AtConcat(s, p, t, (g + [COMMA]) + tail);
    assert MembersText(MoreMembers(m, g, rest)) + (gap + [RBRACE]) == t + ((g + [COMMA]) + tail);
  }

  lemma MembersEnd(s: bytes, p: nat, m: MemberDoc, gap: bytes)
    requires At(s, p, MemberText(m)) && At(s, p + |MemberText(m)|, gap + [RBRACE])
    ensures At(s, p, MembersText(OneMember(m)) + (gap + [RBRACE]))
  {
    hide At, MemberText;
    AtConcat(s, p, MemberText(m), gap + [RBRACE]);
  }
}
