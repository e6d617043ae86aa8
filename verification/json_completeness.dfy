/** The reader accepts every text of the grammar that fits its budget, and reads the value it denotes. */
module JsonCompleteness {
  import opened Bytes
  import opened Numerals
  import opened Utf8
  import opened JsonValue
  import opened JsonReader
  import opened JsonGrammar

  // ---------- white space and literals ----------

  lemma {:induction false} SkipLead(s: bytes, p: nat, lead: bytes)
    requires AllWs(lead) && At(s, p, lead)
    ensures SkipWs(s, p) == SkipWs(s, p + |lead|)
    decreases |lead|
  {
    if lead != [] {
      assert lead == [lead[0]] + lead[1..];
      AtCons(s, p, lead[0], lead[1..]);
      assert lead[0] in lead;
      assert forall b <- lead[1..] :: b in lead;
      SkipLead(s, p + 1, lead[1..]);
    }
  }

  lemma {:induction false} SkipTwice(s: bytes, p: nat)
    requires p <= |s|
    ensures SkipWs(s, SkipWs(s, p)) == SkipWs(s, p)
    ensures SkipWs(s, p) < |s| ==> !IsWs(s[SkipWs(s, p)])
    decreases |s| - p
  {
    if p < |s| && IsWs(s[p]) { SkipTwice(s, p + 1); }
  }

  /** White space, then a byte that is not: `Expect` finds the byte. */
  lemma ExpectAt(s: bytes, p: nat, gap: bytes, b: byte)
    requires AllWs(gap) && At(s, p, gap + [b]) && !IsWs(b)
    ensures SkipWs(s, p) == p + |gap| < |s| && s[p + |gap|] == b
    ensures Expect(s, p, b) == Scan(true, p + |gap| + 1, true)
    ensures forall c: byte :: c != b ==> Expect(s, p, c) == Scan(false, p + |gap|, false)
  {
    AtConcat(s, p, gap, [b]);
    AtCons(s, p + |gap|, b, []);
    SkipLead(s, p, gap);
  }

  lemma {:induction false} MatchAt(s: bytes, p: nat, t: bytes)
    requires At(s, p, t)
    ensures Match(s, p, t) == Scan(true, p + |t|, true)
    decreases |t|
  {
    if t != [] {
      assert t == [t[0]] + t[1..];
      AtCons(s, p, t[0], t[1..]);
      MatchAt(s, p + 1, t[1..]);
    }
  }

  /** Reading depends on the position through the white space it skips only. */
  lemma ReadAfterWs(s: bytes, p: nat, q: nat, d: nat, prior: Value)
    requires p <= |s| && q <= |s| && SkipWs(s, p) == SkipWs(s, q)
    ensures ReadValue(s, p, d, prior) == ReadValue(s, q, d, prior)
  {
  }

  lemma ReadItemsAfterWs(s: bytes, p: nat, q: nat, d: nat, acc: seq<Value>)
    requires p <= |s| && q <= |s| && SkipWs(s, p) == SkipWs(s, q)
    ensures ReadItems(s, p, d, acc) == ReadItems(s, q, d, acc)
  {
    ReadAfterWs(s, p, q, d, Null);
  }

  // ---------- strings ----------

  lemma FourHexAt(s: bytes, p: nat, h: bytes)
    requires IsHex4(h) && At(s, p, h)
    ensures FourHex(s, p) == HexScan(HexValue(h), p + 4, true)
  {
    assert forall i :: 0 <= i < 4 ==> s[p + i] == s[p..p + 4][i] == h[i];
    var a, b, c := DigitValue(h[0]), DigitValue(h[1]), DigitValue(h[2]);
    assert QuadHex(s, p, 4, 0) == QuadHex(s, p + 1, 3, a);
    assert QuadHex(s, p + 1, 3, a) == QuadHex(s, p + 2, 2, a * 16 + b);
    assert QuadHex(s, p + 2, 2, a * 16 + b) == QuadHex(s, p + 3, 1, (a * 16 + b) * 16 + c);
  }

  lemma CodepointUnit(s: bytes, p: nat, h: bytes)
    requires WfChunk(Unit(h)) && At(s, p, h)
    ensures Codepoint(s, p) == TextScan(true, Encode(HexValue(h)), p + 4, true)
  {
    FourHexAt(s, p, h);
  }

  lemma CodepointPair(s: bytes, p: nat, hi: bytes, lo: bytes)
    requires WfChunk(Pair(hi, lo)) && At(s, p, hi + ([BACKSLASH, 0x75] + lo))
    ensures Codepoint(s, p) == TextScan(true, Encode(JoinPair(HexValue(hi), HexValue(lo))), p + 10, true)
  {
    hide At, FourHex, Encode, HexValue;
    AtConcat(s, p, hi, [BACKSLASH, 0x75] + lo);
    MarkAt(s, p + 4, lo);
    FourHexAt(s, p, hi);
    FourHexAt(s, p + 6, lo);
  }

  lemma ScanChunk(s: bytes, p: nat, c: Chunk, acc: bytes)
    requires WfChunk(c) && At(s, p, ChunkText(c))
    ensures ScanString(s, p, acc) == ScanString(s, p + |ChunkText(c)|, acc + ChunkValue(c))
  {
    hide ScanString, At;
    match c
    case Raw(b) => ScanRaw(s, p, b, acc);
    case Short(e) => ScanShort(s, p, e, acc);
    case Unit(_) => ScanEscape(s, p, c, acc);
    case Pair(_, _) => ScanEscape(s, p, c, acc);
  }

  lemma ScanRaw(s: bytes, p: nat, b: byte, acc: bytes)
    requires WfChunk(Raw(b)) && At(s, p, [b])
    ensures p < |s| && ScanString(s, p, acc) == ScanString(s, p + 1, acc + [b])
  {
    assert [b] == [b] + [];
    AtCons(s, p, b, []);
    hide ScanString, At;
    ScanStep(s, p, acc);
  }

  lemma ScanShort(s: bytes, p: nat, e: byte, acc: bytes)
    requires WfChunk(Short(e)) && At(s, p, [BACKSLASH, e])
    ensures p + 2 <= |s| && ScanString(s, p, acc) == ScanString(s, p + 2, acc + [Unescape(e).value])
  {
    assert s[p..p + 2] == [s[p], s[p + 1]];
    hide ScanString, At, Codepoint;
    ScanStep(s, p, acc);
  }

  lemma ScanEscape(s: bytes, p: nat, c: Chunk, acc: bytes)
    requires (c.Unit? || c.Pair?) && WfChunk(c) && At(s, p, ChunkText(c))
    ensures p + |ChunkText(c)| <= |s|
    ensures ScanString(s, p, acc) == ScanString(s, p + |ChunkText(c)|, acc + ChunkValue(c))
  {
    AtWithin(s, p, ChunkText(c));
    hide ScanString, At, Codepoint, ChunkText, ChunkValue, WfChunk, Unescape;
    EscapeReads(s, p, c);
    ScanStep(s, p, acc);
  }

  lemma EscapeReads(s: bytes, p: nat, c: Chunk)
    requires (c.Unit? || c.Pair?) && WfChunk(c) && At(s, p, ChunkText(c))
    ensures p + 2 <= |s| && s[p] == BACKSLASH && s[p + 1] == 0x75
    ensures Codepoint(s, p + 2) == TextScan(true, ChunkValue(c), p + |ChunkText(c)|, true)
  {
    hide Codepoint, At, Encode;
    match c
    case Unit(h) =>
      MarkAt(s, p, h);
      CodepointUnit(s, p + 2, h);
    case Pair(hi, lo) =>
      var tail := hi + ([BACKSLASH, 0x75] + lo);
      Regroup([BACKSLASH, 0x75], hi, [BACKSLASH, 0x75] + lo);
      MarkAt(s, p, tail);
      CodepointPair(s, p + 2, hi, lo);
  }

  lemma MarkAt(s: bytes, p: nat, t: bytes)
    requires At(s, p, [BACKSLASH, 0x75] + t)
    ensures p + 2 <= |s| && s[p] == BACKSLASH && s[p + 1] == 0x75 && At(s, p + 2, t)
  {
    AtConcat(s, p, [BACKSLASH, 0x75], t);
    assert s[p..p + 2] == [s[p], s[p + 1]];
  }

  /** A string body followed by the closing quote is read to its value. */
  lemma {:induction false} ScanBody(s: bytes, p: nat, body: seq<Chunk>, acc: bytes)
    requires WfBody(body) && At(s, p, BodyText(body) + [QUOTE])
    ensures ScanString(s, p, acc) == TextScan(true, acc + BodyValue(body), p + |BodyText(body)| + 1, true)
    decreases |body|
  {
    hide ScanString, At, ChunkText, ChunkValue, BodyText, BodyValue, WfBody;
    if body == [] {
      ScanClose(s, p, body, acc);
    } else {
      BodySplit(body);
      ScanFirstChunk(s, p, body, [QUOTE], acc);
      ScanBody(s, p + |ChunkText(body[0])|, body[1..], acc + ChunkValue(body[0]));
      Regroup(acc, ChunkValue(body[0]), BodyValue(body[1..]));
    }
  }

  lemma ScanClose(s: bytes, p: nat, body: seq<Chunk>, acc: bytes)
    requires body == [] && At(s, p, BodyText(body) + [QUOTE])
    ensures ScanString(s, p, acc) == TextScan(true, acc + BodyValue(body), p + |BodyText(body)| + 1, true)
  {
    assert BodyText(body) + [QUOTE] == [QUOTE] + [];
    assert acc + BodyValue(body) == acc;
    AtCons(s, p, QUOTE, []);
  }

  lemma BodySplit(body: seq<Chunk>)
    requires body != [] && WfBody(body)
    ensures WfChunk(body[0]) && WfBody(body[1..])
    ensures |BodyText(body)| == |ChunkText(body[0])| + |BodyText(body[1..])|
    ensures BodyValue(body) == ChunkValue(body[0]) + BodyValue(body[1..])
  {
  }

  /** The first chunk of a body is taken, whatever follows the body. */
  lemma ScanFirstChunk(s: bytes, p: nat, body: seq<Chunk>, tail: bytes, acc: bytes)
    requires body != [] && WfBody(body) && At(s, p, BodyText(body) + tail)
    ensures var c := body[0]; var q := p + |ChunkText(c)|;
      q <= |s| && At(s, q, BodyText(body[1..]) + tail)
      && ScanString(s, p, acc) == ScanString(s, q, acc + ChunkValue(c))
  {
    hide ScanString, At, ChunkText, ChunkValue;
    var t, rest := ChunkText(body[0]), BodyText(body[1..]);
    Regroup(t, rest, tail);
    AtConcat(s, p, t, rest + tail);
    AtWithin(s, p, t);
    ScanChunk(s, p, body[0], acc);
  }

  lemma ScanQuoted(s: bytes, p: nat, body: seq<Chunk>)
    requires WfBody(body) && At(s, p, Quoted(body))
    ensures p < |s| && s[p] == QUOTE
    ensures ScanString(s, p + 1, []) == TextScan(true, BodyValue(body), p + |Quoted(body)|, true)
  {
    AtCons(s, p, QUOTE, BodyText(body) + [QUOTE]);
    ScanBody(s, p + 1, body, []);
  }

  // ---------- numbers ----------

  /** No number byte stands at `p`. */
  predicate NumberStops(s: bytes, p: nat) { p < |s| ==> !IsNumberByte(s[p]) }

  lemma {:induction false} NumberEndAt(s: bytes, p: nat, t: bytes)
    requires At(s, p, t) && (forall b <- t :: IsNumberByte(b)) && NumberStops(s, p + |t|)
    ensures NumberEnd(s, p) == p + |t|
    decreases |t|
  {
    if t != [] {
      assert t == [t[0]] + t[1..];
      AtCons(s, p, t[0], t[1..]);
      assert t[0] in t && forall b <- t[1..] :: b in t;
      NumberEndAt(s, p + 1, t[1..]);
    }
  }

  // ---------- documents ----------

  /** The first byte after the leading white space tells the kind of the document. */
  lemma CoreStart(doc: Doc)
    requires Wf(doc)
    ensures Core(doc) != [] && !IsWs(Core(doc)[0])
    ensures Core(doc)[0] != RBRACKET && Core(doc)[0] != RBRACE && Core(doc)[0] != COMMA
  {
  }

  /** What has to follow a document: a number must not run on. */
  predicate Stops(s: bytes, p: nat, doc: Doc) { doc.NumberDoc? ==> NumberStops(s, p) }

  lemma StopsBefore(s: bytes, p: nat, gap: bytes, b: byte, doc: Doc)
    requires AllWs(gap) && At(s, p, gap + [b]) && !IsNumberByte(b)
    ensures Stops(s, p, doc)
  {
    var t := gap + [b];
    assert t == [t[0]] + t[1..];
    AtCons(s, p, t[0], t[1..]);
    if gap != [] { assert gap[0] in gap; }
  }

  lemma LeadAt(s: bytes, p: nat, doc: Doc)
    requires Wf(doc) && At(s, p, Text(doc))
    ensures SkipWs(s, p) == p + |doc.lead| < |s| && At(s, p + |doc.lead|, Core(doc))
    ensures s[p + |doc.lead|] == Core(doc)[0]
  {
    var core := Core(doc);
    AtConcat(s, p, doc.lead, core);
    SkipLead(s, p, doc.lead);
    CoreStart(doc);
    assert core == [core[0]] + core[1..];
    AtCons(s, p + |doc.lead|, core[0], core[1..]);
  }

  /** The result `r` succeeds exactly when `ok`, and then with value `v` at `pos`. */
  ghost predicate Reads(r: Parsed, ok: bool, v: Value, pos: nat) {
    r.ok == ok && (ok ==> r.out == v && r.pos == pos)
  }

  /** The scalar branches of the reader. */
  lemma ScalarStep(s: bytes, p: nat, d: nat, prior: Value)
    requires p <= |s| && SkipWs(s, p) < |s|
    ensures var q := SkipWs(s, p); var ch := s[q]; var r := ReadValue(s, p, d, prior);
      && (ch == 0x6E ==> r == Literal(Match(s, q + 1, ULL), Null, prior))
      && (ch == 0x66 ==> r == Literal(Match(s, q + 1, ALSE), Bool(false), prior))
      && (ch == 0x74 ==> r == Literal(Match(s, q + 1, RUE), Bool(true), prior))
      && (ch == QUOTE ==> var t := ScanString(s, q + 1, []); r == Parsed(t.ok, Str(t.out), t.pos, t.held))
      && (IsDecimal(ch) || ch == MINUS ==>
            var e := NumberEnd(s, q);
            r == match TokenValue(s[q..e])
                 case Some(v) => Parsed(true, v, e, false)
                 case None => Parsed(false, prior, e, false, Overflows(s[q..e])))
  {
    hide Match, ScanString, NumberEnd, TokenValue, Overflows, ReadItems, ReadMembers, SkipWs;
  }

  lemma ReadLiteral(s: bytes, p: nat, doc: Doc, d: nat, prior: Value)
    requires Wf(doc) && At(s, p, Text(doc)) && (doc.NullDoc? || doc.BoolDoc?)
    ensures Reads(ReadValue(s, p, d, prior), true, Eval(doc), p + |Text(doc)|)
  {
    hide At, Match, SkipWs, ReadValue;
    LeadAt(s, p, doc);
    ScalarStep(s, p, d, prior);
    var q := p + |doc.lead|;
    match doc
    case NullDoc(_) =>
      AtConcat(s, q, [0x6E], ULL);
      MatchAt(s, q + 1, ULL);
    case BoolDoc(_, b) =>
      AtConcat(s, q, [if b then 0x74 else 0x66], if b then RUE else ALSE);
      MatchAt(s, q + 1, if b then RUE else ALSE);
  }

  lemma ReadNumber(s: bytes, p: nat, doc: Doc, d: nat, prior: Value)
    requires Wf(doc) && At(s, p, Text(doc)) && doc.NumberDoc? && NumberStops(s, p + |Text(doc)|)
    ensures Reads(ReadValue(s, p, d, prior), true, Eval(doc), p + |Text(doc)|)
  {
    hide SkipWs, TokenValue, NumberEnd, ReadValue;
    LeadAt(s, p, doc);
    ScalarStep(s, p, d, prior);
    NumberEndAt(s, p + |doc.lead|, doc.token);
  }

  lemma ReadString(s: bytes, p: nat, doc: Doc, d: nat, prior: Value)
    requires Wf(doc) && At(s, p, Text(doc)) && doc.StringDoc?
    ensures Reads(ReadValue(s, p, d, prior), true, Eval(doc), p + |Text(doc)|)
  {
    hide SkipWs, At, ScanString, ReadValue, Quoted, BodyValue, BodyText, AllWs, WfBody;
    LeadAt(s, p, doc);
    ScalarStep(s, p, d, prior);
    ScanQuoted(s, p + |doc.lead|, doc.body);
  }

  lemma OpenArray(s: bytes, p: nat, d: nat, prior: Value)
    requires p <= |s| && Sees(s, SkipWs(s, p), LBRACKET)
    ensures ReadValue(s, p, d, prior) == AfterBracket(s, SkipWs(s, p) + 1, d, prior)
  {
  }

  lemma OpenObject(s: bytes, p: nat, d: nat, prior: Value)
    requires p <= |s| && Sees(s, SkipWs(s, p), LBRACE)
    ensures ReadValue(s, p, d, prior) == AfterBrace(s, SkipWs(s, p) + 1, d, prior)
  {
  }

  lemma ReadEmpty(s: bytes, p: nat, doc: Doc, d: nat, prior: Value)
    requires Wf(doc) && At(s, p, Text(doc)) && (doc.EmptyArray? || doc.EmptyObject?)
    ensures Reads(ReadValue(s, p, d, prior), d > 0, Eval(doc), p + |Text(doc)|)
  {
    hide At, ReadValue, ReadItems, ReadMembers, Expect, SkipWs, AllWs, TokenValue, WfItems, WfMembers;
    LeadAt(s, p, doc);
    var q := p + |doc.lead|;
    if doc.EmptyArray? {
      AtCons(s, q, LBRACKET, doc.gap + [RBRACKET]);
      ExpectAt(s, q + 1, doc.gap, RBRACKET);
      OpenArray(s, p, d, prior);
    } else {
      AtCons(s, q, LBRACE, doc.gap + [RBRACE]);
      ExpectAt(s, q + 1, doc.gap, RBRACE);
      OpenObject(s, p, d, prior);
    }
  }

  lemma {:induction false} ReadArrayDoc(s: bytes, p: nat, doc: Doc, d: nat, prior: Value)
    requires Wf(doc) && At(s, p, Text(doc)) && doc.ArrayDoc?
    ensures Reads(ReadValue(s, p, d, prior), Fits(doc, d), Eval(doc), p + |Text(doc)|)
    decreases doc, 0
  {
    hide At, ReadValue, ReadItems, Expect, SkipWs, AllWs, ItemsText;
    LeadAt(s, p, doc);
    var q := p + |doc.lead|;
    AtCons(s, q, LBRACKET, ItemsText(doc.items) + (doc.gap + [RBRACKET]));
    OpenArray(s, p, d, prior);
    if d > 0 { ReadArray(s, q + 1, doc.items, doc.gap, d - 1); }
  }

  lemma {:induction false} ReadObjectDoc(s: bytes, p: nat, doc: Doc, d: nat, prior: Value)
    requires Wf(doc) && At(s, p, Text(doc)) && doc.ObjectDoc?
    ensures Reads(ReadValue(s, p, d, prior), Fits(doc, d), Eval(doc), p + |Text(doc)|)
    decreases doc, 0
  {
    hide At, ReadValue, ReadMembers, Expect, SkipWs, AllWs, MembersText;
    LeadAt(s, p, doc);
    var q := p + |doc.lead|;
    AtCons(s, q, LBRACE, MembersText(doc.members) + (doc.gap + [RBRACE]));
    OpenObject(s, p, d, prior);
    if d > 0 { ReadObject(s, q + 1, doc.members, doc.gap, d); }
  }

  /** The reader meets a document: it succeeds exactly when the document fits the budget. */
  lemma {:induction false} ReadDoc(s: bytes, p: nat, doc: Doc, d: nat, prior: Value)
    requires Wf(doc) && At(s, p, Text(doc)) && Stops(s, p + |Text(doc)|, doc)
    ensures Reads(ReadValue(s, p, d, prior), Fits(doc, d), Eval(doc), p + |Text(doc)|)
    decreases doc, 1
  {
    hide At, ReadValue, Text, Wf, Eval, NumberStops, Reads;
    match doc
    case NullDoc(_) => ReadLiteral(s, p, doc, d, prior);
    case BoolDoc(_, _) => ReadLiteral(s, p, doc, d, prior);
    case NumberDoc(_, _) => ReadNumber(s, p, doc, d, prior);
    case StringDoc(_, _) => ReadString(s, p, doc, d, prior);
    case EmptyArray(_, _) => ReadEmpty(s, p, doc, d, prior);
    case EmptyObject(_, _) => ReadEmpty(s, p, doc, d, prior);
    case ArrayDoc(_, _, _) => ReadArrayDoc(s, p, doc, d, prior);
    case ObjectDoc(_, _, _) => ReadObjectDoc(s, p, doc, d, prior);
  }

  lemma {:induction false} ReadArray(s: bytes, p: nat, items: Items, gap: bytes, d: nat)
    requires WfItems(items) && AllWs(gap) && At(s, p, ItemsText(items) + (gap + [RBRACKET]))
    ensures var close := Expect(s, p, RBRACKET);
      !close.ok &&
      Reads(ReadItems(s, close.pos, d, []), FitsItems(items, d), Array(EvalItems(items)),
            p + |ItemsText(items)| + |gap| + 1)
    decreases items, 1
  {
    hide At, ReadItems, ReadValue, Core, Text, ItemsText, SkipWs, AllWs, NumberStops;
    FirstItemAt(s, p, items, gap);
    LeadAt(s, p, items.doc);
    CoreStart(items.doc);
    SkipTwice(s, p);
    ReadItemsAfterWs(s, p, SkipWs(s, p), d, []);
    ReadItemsDoc(s, p, items, gap, d, []);
    assert [] + EvalItems(items) == EvalItems(items);
  }

  /** The text of the first item, and what comes after it. */
  lemma FirstItemAt(s: bytes, p: nat, items: Items, gap: bytes)
    requires WfItems(items) && AllWs(gap) && At(s, p, ItemsText(items) + (gap + [RBRACKET]))
    ensures At(s, p, Text(items.doc)) && Stops(s, p + |Text(items.doc)|, items.doc)
    ensures items.OneItem? ==> At(s, p + |Text(items.doc)|, gap + [RBRACKET])
    ensures items.MoreItems? ==>
      At(s, p + |Text(items.doc)|, items.gap + [COMMA]) &&
      At(s, p + |Text(items.doc)| + |items.gap| + 1, ItemsText(items.rest) + (gap + [RBRACKET]))
  {
    hide At, Text, NumberStops, AllWs;
    var t := Text(items.doc);
    match items
    case OneItem(doc) =>
      AtConcat(s, p, t, gap + [RBRACKET]);
      StopsBefore(s, p + |t|, gap, RBRACKET, doc);
    case MoreItems(doc, g, rest) =>
      var tail := ItemsText(rest) + (gap + [RBRACKET]);
      Regroup(t, (g + [COMMA]) + ItemsText(rest), gap + [RBRACKET]);
      Regroup(g + [COMMA], ItemsText(rest), gap + [RBRACKET]);
      AtConcat(s, p, t, (g + [COMMA]) + tail);
      AtConcat(s, p + |t|, g + [COMMA], tail);
      StopsBefore(s, p + |t|, g, COMMA, doc);
  }

  lemma {:induction false} ReadItemsDoc(s: bytes, p: nat, items: Items, gap: bytes, d: nat, acc: seq<Value>)
    requires WfItems(items) && AllWs(gap) && At(s, p, ItemsText(items) + (gap + [RBRACKET]))
    ensures Reads(ReadItems(s, p, d, acc), FitsItems(items, d), Array(acc + EvalItems(items)),
                  p + |ItemsText(items)| + |gap| + 1)
    decreases items, 0
  {
    hide At, ReadItems, ReadValue, Text, Expect, SkipWs, AllWs, NumberStops;
    FirstItemAt(s, p, items, gap);
    ReadDoc(s, p, items.doc, d, Null);
    ItemRound(s, p, d, acc);
    var q := p + |Text(items.doc)|;
    match items
    case OneItem(_) =>
      ExpectAt(s, q, gap, RBRACKET);
      ExpectAgain(s, q, COMMA, RBRACKET);
    case MoreItems(doc, g, rest) =>
      ExpectAt(s, q, g, COMMA);
      if Fits(doc, d) {
        ReadItemsDoc(s, q + |g| + 1, rest, gap, d, acc + [Eval(doc)]);
        assert acc + [Eval(doc)] + EvalItems(rest) == acc + EvalItems(items);
      }
  }

  /** A failed `Expect` only skips white space. */
  lemma ExpectAgain(s: bytes, p: nat, b: byte, c: byte)
    requires p <= |s| && !Expect(s, p, b).ok
    ensures Expect(s, Expect(s, p, b).pos, c) == Expect(s, p, c)
  {
    SkipTwice(s, p);
  }

  lemma ReadMembersAfterWs(s: bytes, p: nat, q: nat, d: nat, acc: seq<Member>)
    requires p <= |s| && q <= |s| && SkipWs(s, p) == SkipWs(s, q)
    ensures ReadMembers(s, p, d, acc) == ReadMembers(s, q, d, acc)
  {
    hide SkipWs, ReadMembers, ReadValue, ScanString, Put, Slot;
    MemberRound(s, p, d, acc);
    MemberRound(s, q, d, acc);
  }

  lemma {:induction false} ReadObject(s: bytes, p: nat, members: Members, gap: bytes, d: nat)
    requires WfMembers(members) && AllWs(gap) && At(s, p, MembersText(members) + (gap + [RBRACE]))
    ensures var close := Expect(s, p, RBRACE);
      !close.ok &&
      Reads(ReadMembers(s, close.pos, d, []), FitsMembers(members, d), Object(EvalMembers(members, [])),
            p + |MembersText(members)| + |gap| + 1)
    decreases members, 1
  {
    hide At, ReadMembers, ReadValue, MembersText, SkipWs, AllWs, NumberStops, ScanString;
    FirstMemberAt(s, p, members, gap);
    var m := members.m;
    KeyAt(s, p, m.lead, m.key);
    SkipTwice(s, p);
    ReadMembersAfterWs(s, p, SkipWs(s, p), d, []);
    ReadMembersDoc(s, p, members, gap, d, []);
  }

  /** The pieces of the first member, and what comes after it. */
  lemma FirstMemberAt(s: bytes, p: nat, members: Members, gap: bytes)
    requires WfMembers(members) && AllWs(gap) && At(s, p, MembersText(members) + (gap + [RBRACE]))
    ensures var m := members.m; var k := p + |m.lead| + |Quoted(m.key)|; var q := p + |MemberText(m)|;
      && At(s, p, m.lead + Quoted(m.key))
      && At(s, k, m.gap + [COLON])
      && At(s, k + |m.gap| + 1, Text(m.doc))
      && q == k + |m.gap| + 1 + |Text(m.doc)|
      && Stops(s, q, m.doc)
      && (members.OneMember? ==> At(s, q, gap + [RBRACE]))
      && (members.MoreMembers? ==>
            At(s, q, members.gap + [COMMA]) &&
            At(s, q + |members.gap| + 1, MembersText(members.rest) + (gap + [RBRACE])))
  {
    hide At;
    var m := members.m;
    var t := MemberText(m);
    var q := p + |t|;
    if members.OneMember? {
      AtConcat(s, p, t, gap + [RBRACE]);
      StopsBefore(s, q, gap, RBRACE, m.doc);
    } else {
      var g, rest := members.gap, members.rest;
      var tail := MembersText(rest) + (gap + [RBRACE]);
      assert MembersText(members) + (gap + [RBRACE]) == t + ((g + [COMMA]) + tail);
      AtConcat(s, p, t, (g + [COMMA]) + tail);
      AtConcat(s, q, g + [COMMA], tail);
      StopsBefore(s, q, g, COMMA, m.doc);
    }
    MemberAt(s, p, m);
  }

  lemma MemberAt(s: bytes, p: nat, m: MemberDoc)
    requires At(s, p, MemberText(m))
    ensures var k := p + |m.lead| + |Quoted(m.key)|;
      && At(s, p, m.lead + Quoted(m.key))
      && At(s, k, m.gap + [COLON])
      && At(s, k + |m.gap| + 1, Text(m.doc))
  {
    var head, colon := m.lead + Quoted(m.key), m.gap + [COLON];
    assert MemberText(m) == head + (colon + Text(m.doc));
    AtConcat(s, p, head, colon + Text(m.doc));
    AtConcat(s, p + |head|, colon, Text(m.doc));
  }

  lemma KeyAt(s: bytes, p: nat, lead: bytes, key: seq<Chunk>)
    requires AllWs(lead) && WfBody(key) && At(s, p, lead + Quoted(key))
    ensures var k := p + |lead|;
      && SkipWs(s, p) == k < |s|
      && Expect(s, p, QUOTE) == Scan(true, k + 1, true)
      && !Expect(s, p, RBRACE).ok
      && ScanString(s, k + 1, []) == TextScan(true, BodyValue(key), k + |Quoted(key)|, true)
  {
    hide At, ScanString, BodyText, BodyValue, Quoted, WfBody, AllWs;
    AtConcat(s, p, lead, Quoted(key));
    ScanQuoted(s, p + |lead|, key);
    SkipLead(s, p, lead);
  }

  lemma {:induction false} ReadMembersDoc(s: bytes, p: nat, members: Members, gap: bytes, d: nat, acc: seq<Member>)
    requires WfMembers(members) && AllWs(gap) && At(s, p, MembersText(members) + (gap + [RBRACE]))
    ensures Reads(ReadMembers(s, p, d, acc), FitsMembers(members, d), Object(EvalMembers(members, acc)),
                  p + |MembersText(members)| + |gap| + 1)
    decreases members, 0
  {
    hide At, ReadMembers, ReadValue, ScanString, Expect, SkipWs, Put, Slot, BodyText, BodyValue, AllWs, Text, Quoted;
    hide MemberText, NumberStops, WfBody, Wf, Eval, Fits;
    FirstMemberAt(s, p, members, gap);
    var m := members.m;
    KeyAt(s, p, m.lead, m.key);
    var k := p + |m.lead| + |Quoted(m.key)|;
    ExpectAt(s, k, m.gap, COLON);
    ReadDoc(s, k + |m.gap| + 1, m.doc, d, Slot(acc, BodyValue(m.key)));
    MemberRound(s, p, d, acc);
    var q := p + |MemberText(m)|;
    match members
    case OneMember(_) =>
      ExpectAt(s, q, gap, RBRACE);
      ExpectAgain(s, q, COMMA, RBRACE);
    case MoreMembers(_, g, rest) =>
      ExpectAt(s, q, g, COMMA);
      if Fits(m.doc, d) {
        ReadMembersDoc(s, q + |g| + 1, rest, gap, d, Put(acc, BodyValue(m.key), Eval(m.doc)));
      }
  }
}
