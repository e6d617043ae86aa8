/**
  The texts on which the parser names the wrong line and those on which it throws, as a grammar: a stem is a
  document that breaks off at an escaped newline in a string, or at a number that overflows. The error line is
  wrong exactly for the texts that a stem of the first kind starts, and an exception is thrown exactly for those
  that a stem of the second kind starts.
 */
module JsonStems {
  import opened Bytes
  import opened Numerals
  import opened JsonValue
  import opened JsonReader
  import opened JsonInput
  import opened JsonGrammar
  import opened JsonCompleteness
  import opened JsonSoundness
  import opened JsonText
  import opened JsonErrors

  datatype Stem =
    | AtNumber(lead: bytes, token: bytes)
    | InString(lead: bytes, body: seq<Chunk>)
    | InArray(lead: bytes, items: ItemsStem)
    | InObject(lead: bytes, members: MembersStem)

  datatype ItemsStem = InItem(stem: Stem) | PastItem(doc: Doc, gap: bytes, rest: ItemsStem)

  datatype MembersStem =
    | InKey(lead: bytes, body: seq<Chunk>)
    | InValue(lead: bytes, key: seq<Chunk>, gap: bytes, stem: Stem)
    | PastMember(m: MemberDoc, gap: bytes, rest: MembersStem)

  const BAD_ESCAPE: bytes := [BACKSLASH, LF]

  /** A number token that no int64 holds and that is too large for a double. */
  predicate BadToken(t: bytes) {
    t != [] && (IsDecimal(t[0]) || t[0] == MINUS) && (forall b <- t :: IsNumberByte(b)) && Overflows(t)
  }

  predicate WfStem(stem: Stem) {
    match stem
    case AtNumber(lead, token) => AllWs(lead) && BadToken(token)
    case InString(lead, body) => AllWs(lead) && WfBody(body)
    case InArray(lead, items) => AllWs(lead) && WfItemsStem(items)
    case InObject(lead, members) => AllWs(lead) && WfMembersStem(members)
  }

  predicate WfItemsStem(items: ItemsStem) {
    match items
    case InItem(stem) => WfStem(stem)
    case PastItem(doc, gap, rest) => Wf(doc) && AllWs(gap) && WfItemsStem(rest)
  }

  predicate WfMember(m: MemberDoc) { AllWs(m.lead) && WfBody(m.key) && AllWs(m.gap) && Wf(m.doc) }

  predicate WfMembersStem(members: MembersStem) {
    match members
    case InKey(lead, body) => AllWs(lead) && WfBody(body)
    case InValue(lead, key, gap, stem) => AllWs(lead) && WfBody(key) && AllWs(gap) && WfStem(stem)
    case PastMember(m, gap, rest) => WfMember(m) && AllWs(gap) && WfMembersStem(rest)
  }

  function StemText(stem: Stem): (r: bytes)
    decreases stem, 1
  {
    stem.lead + StemCore(stem)
  }

  function StemCore(stem: Stem): (r: bytes)
    decreases stem, 0
  {
    match stem
    case AtNumber(_, token) => token
    case InString(_, body) => [QUOTE] + (BodyText(body) + BAD_ESCAPE)
    case InArray(_, items) => [LBRACKET] + ItemsStemText(items)
    case InObject(_, members) => [LBRACE] + MembersStemText(members)
  }

  function ItemsStemText(items: ItemsStem): (r: bytes)
    decreases items, 2
  {
    match items
    case InItem(stem) => StemText(stem)
    case PastItem(doc, gap, rest) => Text(doc) + ((gap + [COMMA]) + ItemsStemText(rest))
  }

  function MembersStemText(members: MembersStem): (r: bytes)
    decreases members, 2
  {
    match members
    case InKey(lead, body) => lead + ([QUOTE] + (BodyText(body) + BAD_ESCAPE))
    case InValue(lead, key, gap, stem) => (lead + Quoted(key)) + ((gap + [COLON]) + StemText(stem))
    case PastMember(m, gap, rest) => MemberText(m) + ((gap + [COMMA]) + MembersStemText(rest))
  }

  /** Every container of the stem, closed or still open, finds a budget left. */
  predicate StemFits(stem: Stem, d: nat) {
    match stem
    case AtNumber(_, _) => true
    case InString(_, _) => true
    case InArray(_, items) => d > 0 && ItemsStemFits(items, d - 1)
    case InObject(_, members) => d > 0 && MembersStemFits(members, d)
  }

  predicate ItemsStemFits(items: ItemsStem, d: nat) {
    match items
    case InItem(stem) => StemFits(stem, d)
    case PastItem(doc, _, rest) => Fits(doc, d) && ItemsStemFits(rest, d)
  }

  predicate MembersStemFits(members: MembersStem, d: nat) {
    match members
    case InKey(_, _) => true
    case InValue(_, _, _, stem) => StemFits(stem, d)
    case PastMember(m, _, rest) => Fits(m.doc, d) && MembersStemFits(rest, d)
  }

  /** Whether the stem breaks off at a number. */
  predicate Throws(stem: Stem) {
    match stem
    case AtNumber(_, _) => true
    case InString(_, _) => false
    case InArray(_, items) => ItemsThrow(items)
    case InObject(_, members) => MembersThrow(members)
  }

  predicate ItemsThrow(items: ItemsStem) {
    match items
    case InItem(stem) => Throws(stem)
    case PastItem(_, _, rest) => ItemsThrow(rest)
  }

  predicate MembersThrow(members: MembersStem) {
    match members
    case InKey(_, _) => false
    case InValue(_, _, _, stem) => Throws(stem)
    case PastMember(_, _, rest) => MembersThrow(rest)
  }

  /** The text `t` stands at `p`, and a number at its end does not run on. */
  ghost predicate Breaks(s: bytes, p: nat, t: bytes, number: bool) {
    At(s, p, t) && (number ==> NumberStops(s, p + |t|))
  }

  ghost predicate Fails(r: Parsed, pos: nat, thrown: bool) { !r.ok && r.pos == pos && r.thrown == thrown }

  // ---------- a stem stops the reader ----------

  lemma {:induction false} BodyFails(s: bytes, p: nat, body: seq<Chunk>, acc: bytes)
    requires WfBody(body) && At(s, p, BodyText(body) + BAD_ESCAPE)
    ensures var r := ScanString(s, p, acc); !r.ok && r.pos == p + |BodyText(body)| + 2
    decreases |body|
  {
    hide ScanString, At, ChunkText, ChunkValue, BodyText, BodyValue, WfBody;
    if body == [] {
      EmptyBodyFails(s, p, body, acc);
    } else {
      BodySplit(body);
      ScanFirstChunk(s, p, body, BAD_ESCAPE, acc);
      BodyFails(s, p + |ChunkText(body[0])|, body[1..], acc + ChunkValue(body[0]));
    }
  }

  lemma EmptyBodyFails(s: bytes, p: nat, body: seq<Chunk>, acc: bytes)
    requires body == [] && At(s, p, BodyText(body) + BAD_ESCAPE)
    ensures var r := ScanString(s, p, acc); !r.ok && r.pos == p + |BodyText(body)| + 2
  {
    assert BodyText(body) + BAD_ESCAPE == BAD_ESCAPE;
    BadEscapeAt(s, p);
    hide ScanString, Codepoint;
    ScanStep(s, p, acc);
  }

  lemma BadEscapeAt(s: bytes, p: nat)
    requires At(s, p, BAD_ESCAPE)
    ensures p + 2 <= |s| && s[p] == BACKSLASH && s[p + 1] == LF
  {
    assert s[p..p + 2] == [s[p], s[p + 1]];
  }

  /** What follows the white space in front of a stem. */
  lemma StemLeadAt(s: bytes, p: nat, lead: bytes, core: bytes)
    requires AllWs(lead) && core != [] && !IsWs(core[0]) && At(s, p, lead + core)
    ensures SkipWs(s, p) == p + |lead| < |s| && At(s, p + |lead|, core) && s[p + |lead|] == core[0]
    ensures At(s, p + |lead| + 1, core[1..])
  {
    AtConcat(s, p, lead, core);
    SkipLead(s, p, lead);
    assert core == [core[0]] + core[1..];
    AtCons(s, p + |lead|, core[0], core[1..]);
  }

  lemma StemSplit(s: bytes, p: nat, stem: Stem)
    requires WfStem(stem) && At(s, p, StemText(stem))
    ensures StemCore(stem) != []
    ensures var q := p + |stem.lead|; var core := StemCore(stem);
      && SkipWs(s, p) == q < |s| && s[q] == core[0] && At(s, q, core) && At(s, q + 1, core[1..])
  {
    hide At, SkipWs, StemCore;
    StemCoreStart(stem);
    StemLeadAt(s, p, stem.lead, StemCore(stem));
  }

  lemma StemCoreStart(stem: Stem)
    requires WfStem(stem)
    ensures StemCore(stem) != []
    ensures !IsWs(StemCore(stem)[0]) && StemCore(stem)[0] != RBRACKET
  {
    hide Overflows;
  }

  lemma {:induction false} StemFails(s: bytes, p: nat, stem: Stem, d: nat, prior: Value)
    requires WfStem(stem) && StemFits(stem, d) && Breaks(s, p, StemText(stem), Throws(stem))
    ensures Fails(ReadValue(s, p, d, prior), p + |StemText(stem)|, Throws(stem))
    decreases stem, 2
  {
    hide At, SkipWs, ReadValue, ScanString, AfterBracket, AfterBrace, Match, NumberEnd, TokenValue, NumberStops;
    hide BadToken, Overflows;
    StemSplit(s, p, stem);
    var q := p + |stem.lead|;
    match stem
    case AtNumber(_, token) => NumberFails(s, p, q, token, d, prior);
    case InString(_, body) =>
      ScalarStep(s, p, d, prior);
      assert StemCore(stem)[1..] == BodyText(body) + BAD_ESCAPE;
      BodyFails(s, q + 1, body, []);
    case InArray(_, items) =>
      OpenArray(s, p, d, prior);
      assert StemCore(stem)[1..] == ItemsStemText(items);
      BracketFails(s, q + 1, items, d, prior);
    case InObject(_, members) =>
      OpenObject(s, p, d, prior);
      assert StemCore(stem)[1..] == MembersStemText(members);
      BraceFails(s, q + 1, members, d, prior);
  }

  lemma NumberFails(s: bytes, p: nat, q: nat, token: bytes, d: nat, prior: Value)
    requires p <= |s| && q == SkipWs(s, p) && BadToken(token) && Breaks(s, q, token, true)
    ensures Fails(ReadValue(s, p, d, prior), q + |token|, true)
  {
    hide SkipWs, ReadValue, NumberEnd, ScanString, Match, Overflows, IsInt64Token, IsDoubleToken;
    NumberEndAt(s, q, token);
    assert token[0] == s[q..q + |token|][0];
    ScalarStep(s, p, d, prior);
    OverflowHasNoValue(token);
  }

  lemma OverflowHasNoValue(t: bytes)
    requires Overflows(t)
    ensures TokenValue(t) == None
  {
    hide TooLarge;
  }

  /** A document starts with neither bracket nor comma. */
  lemma DocNext(s: bytes, p: nat, doc: Doc)
    requires Wf(doc) && At(s, p, Text(doc))
    ensures SkipWs(s, p) < |s| && s[SkipWs(s, p)] != RBRACKET
  {
    hide TokenValue;
    LeadAt(s, p, doc);
    CoreStart(doc);
  }

  lemma {:induction false} BracketFails(s: bytes, p: nat, items: ItemsStem, d: nat, prior: Value)
    requires WfItemsStem(items) && d > 0 && ItemsStemFits(items, d - 1)
    requires Breaks(s, p, ItemsStemText(items), ItemsThrow(items))
    ensures Fails(AfterBracket(s, p, d, prior), p + |ItemsStemText(items)|, ItemsThrow(items))
    decreases items, 4
  {
    hide At, ReadItems, SkipWs, Text, StemText, StemCore, Wf, NumberStops, WfStem;
    match items {
      case InItem(stem) =>
        StemSplit(s, p, stem);
        StemCoreStart(stem);
      case PastItem(doc, gap, rest) =>
        PastItemAt(s, p, doc, gap, rest);
        DocNext(s, p, doc);
    }
    SkipTwice(s, p);
    ReadItemsAfterWs(s, p, SkipWs(s, p), d - 1, []);
    ItemsFail(s, p, items, d - 1, []);
  }

  lemma PastItemAt(s: bytes, p: nat, doc: Doc, gap: bytes, rest: ItemsStem)
    requires AllWs(gap) && At(s, p, ItemsStemText(PastItem(doc, gap, rest)))
    ensures var q := p + |Text(doc)|;
      && At(s, p, Text(doc)) && At(s, q, gap + [COMMA]) && Stops(s, q, doc)
      && At(s, q + |gap| + 1, ItemsStemText(rest))
  {
    hide At, Text, NumberStops, AllWs;
    var t := Text(doc);
    AtConcat(s, p, t, (gap + [COMMA]) + ItemsStemText(rest));
    AtConcat(s, p + |t|, gap + [COMMA], ItemsStemText(rest));
    StopsBefore(s, p + |t|, gap, COMMA, doc);
  }

  lemma {:induction false} ItemsFail(s: bytes, p: nat, items: ItemsStem, d: nat, acc: seq<Value>)
    requires WfItemsStem(items) && ItemsStemFits(items, d) && Breaks(s, p, ItemsStemText(items), ItemsThrow(items))
    ensures Fails(ReadItems(s, p, d, acc), p + |ItemsStemText(items)|, ItemsThrow(items))
    decreases items, 3
  {
    hide At, ReadItems, ReadValue, Text, StemText, Expect, SkipWs, AllWs, NumberStops, Wf, WfStem, Eval;
    match items
    case InItem(stem) =>
      AtWithin(s, p, StemText(stem));
      StemFails(s, p, stem, d, Null);
      ItemRound(s, p, d, acc);
    case PastItem(doc, gap, rest) =>
      PastItemAt(s, p, doc, gap, rest);
      PastItemReads(s, p, doc, gap, d, acc);
      ItemsFail(s, p + |Text(doc)| + |gap| + 1, rest, d, acc + [Eval(doc)]);
  }

  /** One round of the item loop over a whole item and its comma. */
  lemma PastItemReads(s: bytes, p: nat, doc: Doc, gap: bytes, d: nat, acc: seq<Value>)
    requires Wf(doc) && Fits(doc, d) && AllWs(gap)
    requires At(s, p, Text(doc)) && At(s, p + |Text(doc)|, gap + [COMMA]) && Stops(s, p + |Text(doc)|, doc)
    ensures var q := p + |Text(doc)| + |gap| + 1;
      p <= |s| && q <= |s| && ReadItems(s, p, d, acc) == ReadItems(s, q, d, acc + [Eval(doc)])
  {
    hide At, ReadItems, ReadValue, Text, Expect, SkipWs, AllWs, NumberStops, Wf, Eval;
    AtWithin(s, p, Text(doc));
    ReadDoc(s, p, doc, d, Null);
    ExpectAt(s, p + |Text(doc)|, gap, COMMA);
    ItemRound(s, p, d, acc);
  }

  lemma {:induction false} BraceFails(s: bytes, p: nat, members: MembersStem, d: nat, prior: Value)
    requires WfMembersStem(members) && d > 0 && MembersStemFits(members, d)
    requires Breaks(s, p, MembersStemText(members), MembersThrow(members))
    ensures Fails(AfterBrace(s, p, d, prior), p + |MembersStemText(members)|, MembersThrow(members))
    decreases members, 4
  {
    hide At, ReadMembers, SkipWs, WfMembersStem, NumberStops;
    KeyNext(s, p, members);
    SkipTwice(s, p);
    ReadMembersAfterWs(s, p, SkipWs(s, p), d, []);
    MembersFail(s, p, members, d, []);
  }

  /** The members of an object start with a quote. */
  lemma KeyNext(s: bytes, p: nat, members: MembersStem)
    requires WfMembersStem(members) && At(s, p, MembersStemText(members))
    ensures SkipWs(s, p) < |s| && s[SkipWs(s, p)] == QUOTE
  {
    hide At, SkipWs, ScanString, BodyText, StemText, Text, AllWs, WfBody, Wf, WfStem;
    match members
    case InKey(lead, body) => InKeyAt(s, p, lead, body);
    case InValue(lead, key, gap, stem) =>
      InValueAt(s, p, lead, key, gap, stem);
      QuotedNext(s, p, lead, key);
    case PastMember(m, gap, rest) =>
      PastMemberAt(s, p, m, gap, rest);
      MemberAt(s, p, m);
      QuotedNext(s, p, m.lead, m.key);
  }

  lemma QuotedNext(s: bytes, p: nat, lead: bytes, key: seq<Chunk>)
    requires AllWs(lead) && At(s, p, lead + Quoted(key))
    ensures SkipWs(s, p) < |s| && s[SkipWs(s, p)] == QUOTE
  {
    hide At, SkipWs, BodyText;
    StemLeadAt(s, p, lead, Quoted(key));
  }

  lemma InKeyAt(s: bytes, p: nat, lead: bytes, body: seq<Chunk>)
    requires AllWs(lead) && At(s, p, MembersStemText(InKey(lead, body)))
    ensures var k := p + |lead|;
      && SkipWs(s, p) == k < |s| && s[k] == QUOTE && At(s, k + 1, BodyText(body) + BAD_ESCAPE)
      && Expect(s, p, QUOTE) == Scan(true, k + 1, true)
  {
    hide At, SkipWs, BodyText;
    var core := [QUOTE] + (BodyText(body) + BAD_ESCAPE);
    StemLeadAt(s, p, lead, core);
    assert core[1..] == BodyText(body) + BAD_ESCAPE;
  }

  lemma InValueAt(s: bytes, p: nat, lead: bytes, key: seq<Chunk>, gap: bytes, stem: Stem)
    requires At(s, p, MembersStemText(InValue(lead, key, gap, stem)))
    ensures var c := p + |lead| + |Quoted(key)|;
      At(s, p, lead + Quoted(key)) && At(s, c, gap + [COLON]) && At(s, c + |gap| + 1, StemText(stem))
  {
    hide At, Quoted, StemText;
    var head := lead + Quoted(key);
    AtConcat(s, p, head, (gap + [COLON]) + StemText(stem));
    AtConcat(s, p + |head|, gap + [COLON], StemText(stem));
  }

  lemma PastMemberAt(s: bytes, p: nat, m: MemberDoc, gap: bytes, rest: MembersStem)
    requires AllWs(gap) && At(s, p, MembersStemText(PastMember(m, gap, rest)))
    ensures var q := p + |MemberText(m)|;
      && At(s, p, MemberText(m)) && At(s, q, gap + [COMMA]) && Stops(s, q, m.doc)
      && At(s, q + |gap| + 1, MembersStemText(rest))
  {
    hide At, MemberText, NumberStops, AllWs;
    var t := MemberText(m);
    AtConcat(s, p, t, (gap + [COMMA]) + MembersStemText(rest));
    AtConcat(s, p + |t|, gap + [COMMA], MembersStemText(rest));
    StopsBefore(s, p + |t|, gap, COMMA, m.doc);
  }

  lemma {:induction false} MembersFail(s: bytes, p: nat, members: MembersStem, d: nat, acc: seq<Member>)
    requires WfMembersStem(members) && MembersStemFits(members, d)
    requires Breaks(s, p, MembersStemText(members), MembersThrow(members))
    ensures Fails(ReadMembers(s, p, d, acc), p + |MembersStemText(members)|, MembersThrow(members))
    decreases members, 3
  {
    hide At, ReadMembers, ReadValue, MemberText, StemText, NumberStops, Wf, WfStem, WfMember, StemFits, Throws;
    hide Eval, AllWs, Quoted, BodyText, BodyValue, Put, Slot, WfBody, Text;
    match members
    case InKey(lead, body) => InKeyFails(s, p, lead, body, d, acc);
    case InValue(lead, key, gap, stem) =>
      InValueAt(s, p, lead, key, gap, stem);
      StemFails(s, p + |lead| + |Quoted(key)| + |gap| + 1, stem, d, Slot(acc, BodyValue(key)));
      InValueFails(s, p, lead, key, gap, stem, d, acc);
    case PastMember(m, gap, rest) =>
      PastMemberAt(s, p, m, gap, rest);
      MemberWf(m);
      PastMemberReads(s, p, m, gap, d, acc);
      MembersFail(s, p + |MemberText(m)| + |gap| + 1, rest, d, Put(acc, BodyValue(m.key), Eval(m.doc)));
  }

  lemma InKeyFails(s: bytes, p: nat, lead: bytes, body: seq<Chunk>, d: nat, acc: seq<Member>)
    requires AllWs(lead) && WfBody(body) && At(s, p, MembersStemText(InKey(lead, body)))
    ensures Fails(ReadMembers(s, p, d, acc), p + |MembersStemText(InKey(lead, body))|, false)
  {
    hide At, ReadMembers, ReadValue, ScanString, SkipWs, Put, Slot, BodyText, AllWs, WfBody;
    InKeyAt(s, p, lead, body);
    MemberRound(s, p, d, acc);
    BodyFails(s, p + |lead| + 1, body, []);
  }

  lemma InValueFails(s: bytes, p: nat, lead: bytes, key: seq<Chunk>, gap: bytes, stem: Stem, d: nat, acc: seq<Member>)
    requires AllWs(lead) && WfBody(key) && AllWs(gap) && At(s, p, MembersStemText(InValue(lead, key, gap, stem)))
    requires var v := p + |lead| + |Quoted(key)| + |gap| + 1;
      v <= |s| && Fails(ReadValue(s, v, d, Slot(acc, BodyValue(key))), v + |StemText(stem)|, Throws(stem))
    ensures Fails(ReadMembers(s, p, d, acc), p + |MembersStemText(InValue(lead, key, gap, stem))|, Throws(stem))
  {
    hide At, ReadMembers, ReadValue, ScanString, SkipWs, Put, Slot, BodyText, BodyValue, AllWs, WfBody, StemText;
    hide Quoted, Throws, Expect;
    InValueAt(s, p, lead, key, gap, stem);
    KeyAt(s, p, lead, key);
    ExpectAt(s, p + |lead| + |Quoted(key)|, gap, COLON);
    MemberRound(s, p, d, acc);
  }

  lemma MemberWf(m: MemberDoc)
    requires WfMember(m)
    ensures WfBody(m.key) && Wf(m.doc)
  {
  }

  /** One round of the member loop over a whole member and its comma. */
  lemma PastMemberReads(s: bytes, p: nat, m: MemberDoc, gap: bytes, d: nat, acc: seq<Member>)
    requires WfMember(m) && Fits(m.doc, d) && AllWs(gap)
    requires At(s, p, MemberText(m)) && At(s, p + |MemberText(m)|, gap + [COMMA])
    requires Stops(s, p + |MemberText(m)|, m.doc)
    ensures p <= |s| && p + |MemberText(m)| + |gap| + 1 <= |s|
    ensures ReadMembers(s, p, d, acc)
         == ReadMembers(s, p + |MemberText(m)| + |gap| + 1, d, Put(acc, BodyValue(m.key), Eval(m.doc)))
  {
    hide At, ReadMembers, ReadValue, ScanString, Expect, SkipWs, Put, Slot, BodyText, BodyValue, AllWs, Text, Quoted;
    hide NumberStops, Wf, WfBody, Eval;
    MemberAt(s, p, m);
    KeyAt(s, p, m.lead, m.key);
    var k := p + |m.lead| + |Quoted(m.key)|;
    ExpectAt(s, k, m.gap, COLON);
    ReadDoc(s, k + |m.gap| + 1, m.doc, d, Slot(acc, BodyValue(m.key)));
    MemberRound(s, p, d, acc);
    ExpectAt(s, p + |MemberText(m)|, gap, COMMA);
  }

  // ---------- a reader that stops in either way has read a stem ----------

  /** The reader has thrown, or has stopped at an escaped newline. */
  ghost predicate Broke(s: bytes, r: Parsed) { !r.ok && (r.thrown || AfterBadEscape(s, r.pos)) }

  lemma {:induction false} BodyStemAt(s: bytes, p: nat, acc: bytes) returns (body: seq<Chunk>)
    requires Inked(s, p) && !ScanString(s, p, acc).ok && AfterBadEscape(s, ScanString(s, p, acc).pos)
    ensures WfBody(body) && At(s, p, BodyText(body) + BAD_ESCAPE)
    decreases |s| - p
  {
    hide ScanString, Codepoint, At, ChunkText, BodyText, ChunkValue, WfBody;
    ScanStep(s, p, acc);
    if s[p] == BACKSLASH && p + 1 < |s| && s[p + 1] != 0x75 && Unescape(s[p + 1]) == None {
      body := [];
      EmptyBodyAt(s, p, body);
    } else {
      var c, next := ChunkStep(s, p, acc);
      var rest := BodyStemAt(s, p + |ChunkText(c)|, next);
      body := [c] + rest;
      BodyCons(s, p, c, rest, BAD_ESCAPE);
      WfCons(c, rest);
    }
  }

  lemma EmptyBodyAt(s: bytes, p: nat, body: seq<Chunk>)
    requires body == [] && p + 2 <= |s| && s[p] == BACKSLASH && s[p + 1] == LF
    ensures WfBody(body) && At(s, p, BodyText(body) + BAD_ESCAPE)
  {
    assert s[p..p + 2] == BAD_ESCAPE;
    assert BodyText(body) + BAD_ESCAPE == BAD_ESCAPE;
  }

  lemma WfCons(c: Chunk, rest: seq<Chunk>)
    requires WfChunk(c) && WfBody(rest)
    ensures WfBody([c] + rest)
  {
  }

  /** Before the bad escape, every round of the string loop takes a chunk. */
  lemma ChunkStep(s: bytes, p: nat, acc: bytes) returns (c: Chunk, next: bytes)
    requires Inked(s, p) && !ScanString(s, p, acc).ok && AfterBadEscape(s, ScanString(s, p, acc).pos)
    requires !(p + 1 < |s| && s[p] == BACKSLASH && s[p + 1] != 0x75 && Unescape(s[p + 1]) == None)
    ensures WfChunk(c) && At(s, p, ChunkText(c)) && Inked(s, p + |ChunkText(c)|)
    ensures ScanString(s, p, acc) == ScanString(s, p + |ChunkText(c)|, next)
  {
    hide ScanString, Codepoint, ChunkValue;
    ScanStep(s, p, acc);
    if s[p] != BACKSLASH {
      c, next := Raw(s[p]), acc + [s[p]];
      AtCons(s, p, s[p], []);
    } else if s[p + 1] == 0x75 {
      InkedAfterCodepoint(s, p + 2);
      c := CodepointIsAt(s, p);
      EscapeReads(s, p, c);
      next := acc + ChunkValue(c);
    } else {
      c, next := Short(s[p + 1]), acc + [Unescape(s[p + 1]).value];
      assert s[p..p + 2] == [BACKSLASH, s[p + 1]];
    }
  }

  lemma {:induction false} ValueStemAt(s: bytes, p: nat, d: nat, prior: Value) returns (stem: Stem)
    requires Clean(s, p) && Broke(s, ReadValue(s, p, d, prior))
    ensures WfStem(stem) && StemFits(stem, d) && Throws(stem) == ReadValue(s, p, d, prior).thrown
    ensures Breaks(s, p, StemText(stem), Throws(stem))
    decreases |s| - p, 2
  {
    hide ScanString, Match, ReadValue, NumberEnd, TokenValue, SkipWs, AfterBracket, AfterBrace, At, BodyText, WfBody;
    hide NumberStops, Overflows, BadToken, AllWs, WfItemsStem, WfMembersStem, ItemsStemText, MembersStemText;
    hide ItemsStemFits, MembersStemFits, ItemsThrow, MembersThrow;
    CleanAfterWs(s, p);
    SkippedIsWs(s, p);
    var q := SkipWs(s, p);
    if NoStart(s, q) {
      NoValue(s, p, d, prior);
      assert false;
    } else if s[q] == LBRACKET {
      OpenArray(s, p, d, prior);
      var items := BracketStemAt(s, q + 1, d, prior);
      stem := InArray(s[p..q], items);
      PutLead(s, p, s[p..q], LBRACKET, ItemsStemText(items));
    } else if s[q] == LBRACE {
      OpenObject(s, p, d, prior);
      var members := BraceStemAt(s, q + 1, d, prior);
      stem := InObject(s[p..q], members);
      PutLead(s, p, s[p..q], LBRACE, MembersStemText(members));
    } else {
      stem := ScalarStemAt(s, q, p, d, prior);
    }
  }

  lemma ScalarStemAt(s: bytes, q: nat, p: nat, d: nat, prior: Value) returns (stem: Stem)
    requires Clean(s, p) && Broke(s, ReadValue(s, p, d, prior))
    requires q == SkipWs(s, p) && !NoStart(s, q) && s[q] != LBRACKET && s[q] != LBRACE
    ensures WfStem(stem) && StemFits(stem, d) && Throws(stem) == ReadValue(s, p, d, prior).thrown
    ensures Breaks(s, p, StemText(stem), Throws(stem))
  {
    hide ScanString, Match, ReadValue, NumberEnd, TokenValue, SkipWs, At, BodyText, WfBody;
    hide NumberStops, Overflows, BadToken, AllWs;
    CleanAfterWs(s, p);
    SkippedIsWs(s, p);
    if ReadValue(s, p, d, prior).thrown {
      var token := NumberStemAt(s, q, p, d, prior);
      stem := AtNumber(s[p..q], token);
      AtConcat(s, p, s[p..q], token);
    } else {
      ScalarStep(s, p, d, prior);
      NotLiteral(s, q, p, d, prior);
      var body := BodyStemAt(s, q + 1, []);
      stem := InString(s[p..q], body);
      PutLead(s, p, s[p..q], QUOTE, BodyText(body) + BAD_ESCAPE);
    }
  }

  /** Of the values that are no containers only a number can throw. */
  lemma NumberStemAt(s: bytes, q: nat, p: nat, d: nat, prior: Value) returns (token: bytes)
    requires p <= |s| && q == SkipWs(s, p) && !NoStart(s, q) && s[q] != LBRACKET && s[q] != LBRACE
    requires ReadValue(s, p, d, prior).thrown
    ensures BadToken(token) && Breaks(s, q, token, true)
  {
    hide ScanString, Match, ReadValue, NumberEnd, TokenValue, SkipWs, Overflows;
    ScalarStep(s, p, d, prior);
    NumberIsAt(s, q);
    token := s[q..NumberEnd(s, q)];
    NumberBegins(s, q);
  }

  lemma NumberBegins(s: bytes, q: nat)
    requires q < |s| && IsNumberByte(s[q])
    ensures q < NumberEnd(s, q)
  {
  }

  /** Of the values that are no containers only a string can stop at a bad escape. */
  lemma NotLiteral(s: bytes, q: nat, p: nat, d: nat, prior: Value)
    requires Clean(s, p) && q == SkipWs(s, p) && !NoStart(s, q) && s[q] != LBRACKET && s[q] != LBRACE
    requires !ReadValue(s, p, d, prior).ok && AfterBadEscape(s, ReadValue(s, p, d, prior).pos)
    ensures s[q] == QUOTE
  {
    hide ScanString, Match, ReadValue, NumberEnd, TokenValue, SkipWs, Overflows;
    CleanAfterWs(s, p);
    ScalarStep(s, p, d, prior);
    CleanAfterMatch(s, q + 1, ULL);
    CleanAfterMatch(s, q + 1, ALSE);
    CleanAfterMatch(s, q + 1, RUE);
    CleanAfterNumber(s, q);
  }

  /** White space and an opening byte in front of the rest of a stem. */
  lemma PutLead(s: bytes, p: nat, lead: bytes, b: byte, rest: bytes)
    requires At(s, p, lead) && p + |lead| < |s| && s[p + |lead|] == b && At(s, p + |lead| + 1, rest)
    ensures At(s, p, lead + ([b] + rest))
  {
    hide At;
    AtCons(s, p + |lead|, b, rest);
    AtConcat(s, p, lead, [b] + rest);
  }

  lemma {:induction false} BracketStemAt(s: bytes, p: nat, d: nat, prior: Value) returns (items: ItemsStem)
    requires Clean(s, p) && Inked(s, p) && Broke(s, AfterBracket(s, p, d, prior))
    ensures WfItemsStem(items) && d > 0 && ItemsStemFits(items, d - 1)
    ensures ItemsThrow(items) == AfterBracket(s, p, d, prior).thrown
    ensures Breaks(s, p, ItemsStemText(items), ItemsThrow(items))
    decreases |s| - p, 4
  {
    hide ReadItems, SkipWs, At, NumberStops;
    SkipTwice(s, p);
    ReadItemsAfterWs(s, p, SkipWs(s, p), d - 1, []);
    items := ItemsStemAt(s, p, d - 1, []);
  }

  lemma {:induction false} ItemsStemAt(s: bytes, p: nat, d: nat, acc: seq<Value>) returns (items: ItemsStem)
    requires Clean(s, p) && Broke(s, ReadItems(s, p, d, acc))
    ensures WfItemsStem(items) && ItemsStemFits(items, d) && ItemsThrow(items) == ReadItems(s, p, d, acc).thrown
    ensures Breaks(s, p, ItemsStemText(items), ItemsThrow(items))
    decreases |s| - p, 3
  {
    hide ReadValue, ReadItems, SkipWs, Expect, At, Text, Wf, StemText, WfStem, NumberStops;
    ItemRound(s, p, d, acc);
    var item := ReadValue(s, p, d, Null);
    if !item.ok {
      var stem := ValueStemAt(s, p, d, Null);
      items := InItem(stem);
    } else {
      var doc := ValueIsAt(s, p, d, Null);
      ReadDoc(s, p, doc, d, Null);
      ValueStops(s, p, d, Null);
      CleanAfterExpect(s, item.pos, COMMA);
      var comma := Expect(s, item.pos, COMMA);
      CleanAfterExpect(s, comma.pos, RBRACKET);
      var gap := ExpectedIsAt(s, item.pos, COMMA);
      var rest := ItemsStemAt(s, comma.pos, d, acc + [item.out]);
      items := PastItem(doc, gap, rest);
      PutPast(s, p, Text(doc), gap, ItemsStemText(rest));
    }
  }

  /** A finished item or member and its comma in front of the rest of a stem. */
  lemma PutPast(s: bytes, p: nat, t: bytes, gap: bytes, rest: bytes)
    requires At(s, p, t) && At(s, p + |t|, gap + [COMMA]) && At(s, p + |t| + |gap| + 1, rest)
    ensures At(s, p, t + ((gap + [COMMA]) + rest))
  {
    hide At;
    AtConcat(s, p + |t|, gap + [COMMA], rest);
    AtConcat(s, p, t, (gap + [COMMA]) + rest);
  }

  lemma {:induction false} BraceStemAt(s: bytes, p: nat, d: nat, prior: Value) returns (members: MembersStem)
    requires Clean(s, p) && Inked(s, p) && Broke(s, AfterBrace(s, p, d, prior))
    ensures WfMembersStem(members) && d > 0 && MembersStemFits(members, d)
    ensures MembersThrow(members) == AfterBrace(s, p, d, prior).thrown
    ensures Breaks(s, p, MembersStemText(members), MembersThrow(members))
    decreases |s| - p, 4
  {
    hide ReadMembers, SkipWs, At, NumberStops, WfMembersStem;
    SkipTwice(s, p);
    ReadMembersAfterWs(s, p, SkipWs(s, p), d, []);
    members := MembersStemAt(s, p, d, []);
  }

  lemma {:induction false} MembersStemAt(s: bytes, p: nat, d: nat, acc: seq<Member>) returns (members: MembersStem)
    requires Clean(s, p) && Broke(s, ReadMembers(s, p, d, acc))
    ensures WfMembersStem(members) && MembersStemFits(members, d)
    ensures MembersThrow(members) == ReadMembers(s, p, d, acc).thrown
    ensures Breaks(s, p, MembersStemText(members), MembersThrow(members))
    decreases |s| - p, 3
  {
    hide ReadValue, ReadMembers, ScanString, SkipWs, Expect, Slot, Put, At, BodyText, WfBody;
    hide Quoted, MemberText, StemText, WfMember, WfStem, NumberStops, AllWs;
    MemberRound(s, p, d, acc);
    CleanAfterExpect(s, p, QUOTE);
    QuoteSeen(s, p);
    SkippedIsWs(s, p);
    var k := SkipWs(s, p);
    var key := ScanString(s, k + 1, []);
    if !key.ok {
      var body := BodyStemAt(s, k + 1, []);
      members := InKey(s[p..k], body);
      PutLead(s, p, s[p..k], QUOTE, BodyText(body) + BAD_ESCAPE);
    } else {
      StringStops(s, k + 1, []);
      CleanAfterExpect(s, key.pos, COLON);
      var colon := Expect(s, key.pos, COLON);
      if !ReadValue(s, colon.pos, d, Slot(acc, key.out)).ok {
        members := InValueStemAt(s, p, d, acc);
      } else {
        members := PastMemberStemAt(s, p, d, acc);
      }
    }
  }

  /** The member loop fails in a value. */
  lemma {:induction false} InValueStemAt(s: bytes, p: nat, d: nat, acc: seq<Member>) returns (members: MembersStem)
    requires Clean(s, p) && KeyDone(s, p) && Broke(s, ValueOf(s, p, d, acc))
    ensures WfMembersStem(members) && MembersStemFits(members, d)
    ensures MembersThrow(members) == ValueOf(s, p, d, acc).thrown
    ensures Breaks(s, p, MembersStemText(members), MembersThrow(members))
    decreases |s| - p, 2
  {
    hide ReadValue, ScanString, SkipWs, Expect, Slot, At, BodyText, BodyValue, WfBody, Quoted, StemText, AllWs, WfStem;
    hide NumberStops;
    CleanAfterExpect(s, p, QUOTE);
    QuoteSeen(s, p);
    SkippedIsWs(s, p);
    var k := SkipWs(s, p);
    var body := QuotedIsAt(s, k);
    StringStops(s, k + 1, []);
    var c := k + |Quoted(body)|;
    CleanAfterExpect(s, c, COLON);
    var gap := ExpectedIsAt(s, c, COLON);
    var stem := ValueStemAt(s, c + |gap| + 1, d, Slot(acc, BodyValue(body)));
    members := InValue(s[p..k], body, gap, stem);
    PutKey(s, p, s[p..k], Quoted(body), gap, StemText(stem));
  }

  lemma PutKey(s: bytes, p: nat, lead: bytes, quoted: bytes, gap: bytes, rest: bytes)
    requires At(s, p, lead) && At(s, p + |lead|, quoted) && At(s, p + |lead| + |quoted|, gap + [COLON])
    requires At(s, p + |lead| + |quoted| + |gap| + 1, rest)
    ensures At(s, p, (lead + quoted) + ((gap + [COLON]) + rest))
  {
    hide At;
    AtConcat(s, p, lead, quoted);
    AtConcat(s, p + |lead| + |quoted|, gap + [COLON], rest);
    AtConcat(s, p, lead + quoted, (gap + [COLON]) + rest);
  }

  /** The member loop fails after a whole member. */
  lemma {:induction false} PastMemberStemAt(s: bytes, p: nat, d: nat, acc: seq<Member>) returns (members: MembersStem)
    requires Clean(s, p) && Broke(s, ReadMembers(s, p, d, acc)) && MemberDone(s, p, d, acc)
    ensures WfMembersStem(members) && MembersStemFits(members, d)
    ensures MembersThrow(members) == ReadMembers(s, p, d, acc).thrown
    ensures Breaks(s, p, MembersStemText(members), MembersThrow(members))
    decreases |s| - p, 2
  {
    hide ReadMembers, Expect, Put, At, MemberText, MemberDone, ValueOf, AfterPut, NumberStops, WfBody, Wf, AllWs;
    var m := MemberIsAt(s, p, d, acc);
    var item, acc' := ValueOf(s, p, d, acc), AfterPut(s, p, d, acc);
    MemberValue(s, p, d, acc);
    CleanAfterExpect(s, item.pos, COMMA);
    var comma := Expect(s, item.pos, COMMA);
    CleanAfterExpect(s, comma.pos, RBRACE);
    var gap := ExpectedIsAt(s, item.pos, COMMA);
    var rest := MembersStemAt(s, comma.pos, d, acc');
    members := PastMember(m, gap, rest);
    PutPast(s, p, MemberText(m), gap, MembersStemText(rest));
  }

  /** The members after the one that the loop reads. */
  ghost function AfterPut(s: bytes, p: nat, d: nat, acc: seq<Member>): seq<Member>
    requires p <= |s|
  {
    Put(acc, ScanString(s, Expect(s, p, QUOTE).pos, []).out, ValueOf(s, p, d, acc).out)
  }

  /** A whole member is read, and the loop goes on behind it. */
  lemma MemberValue(s: bytes, p: nat, d: nat, acc: seq<Member>)
    requires Clean(s, p) && MemberDone(s, p, d, acc)
    ensures var item := ValueOf(s, p, d, acc); var acc' := AfterPut(s, p, d, acc);
      && p < item.pos && Clean(s, item.pos)
      && var comma := Expect(s, item.pos, COMMA);
      && (comma.ok ==> ReadMembers(s, p, d, acc) == ReadMembers(s, comma.pos, d, acc'))
      && (!comma.ok ==> ReadMembers(s, p, d, acc) == Closed(Expect(s, comma.pos, RBRACE), Object(acc')))
  {
    hide ReadValue, ReadMembers, ScanString, SkipWs, Slot, Put;
    MemberRound(s, p, d, acc);
    CleanAfterExpect(s, p, QUOTE);
    StringStops(s, Expect(s, p, QUOTE).pos, []);
    var key := ScanString(s, Expect(s, p, QUOTE).pos, []);
    CleanAfterExpect(s, key.pos, COLON);
    ValueStops(s, Expect(s, key.pos, COLON).pos, d, Slot(acc, key.out));
  }

  // ---------- the wrong line and the exception ----------

  /** A well-formed stem within the budget starts the text. */
  ghost predicate BrokenOff(s: bytes, stem: Stem) {
    WfStem(stem) && StemFits(stem, MAX_DEPTHS) && Breaks(s, 0, StemText(stem), Throws(stem))
  }

  /**
    An exception is thrown exactly for the texts that a stem starts which breaks off at an overflowing number:
    whatever stands before that number is well-formed and within the budget, and nothing after it matters.
   */
  lemma ThrownExactly(s: bytes, prior: Value)
    ensures ReadText(s, prior).thrown <==> exists stem :: BrokenOff(s, stem) && Throws(stem)
  {
    hide ReadValue, Near, Newlines, At, StemText, WfStem, StemFits, Throws, ErrorText, NextLine, NumberStops;
    forall stem | BrokenOff(s, stem) ensures Throws(stem) ==> ReadText(s, prior).thrown {
      StemFails(s, 0, stem, MAX_DEPTHS, prior);
    }
    if ReadText(s, prior).thrown {
      var stem := ValueStemAt(s, 0, MAX_DEPTHS, prior);
      assert BrokenOff(s, stem) && Throws(stem);
    }
  }

  /**
    The parser names the wrong line exactly for the texts that a stem starts which breaks off at an escaped
    newline. It then names the line of the backslash, and quotes the line after it.
   */
  lemma WrongLineExactly(s: bytes, prior: Value)
    ensures var r := ReadText(s, prior); var pos := ReadValue(s, 0, MAX_DEPTHS, prior).pos;
      !r.ok && !r.thrown && r.err != Report(s, pos) <==> exists stem :: BrokenOff(s, stem) && !Throws(stem)
    ensures forall stem :: BrokenOff(s, stem) && !Throws(stem) ==>
      var n := |StemText(stem)|;
      2 <= n <= |s| && ReadText(s, prior).err == ErrorText(1 + Newlines(s[..n - 1]), Near(s, n))
  {
    hide ReadValue, Near, Newlines, At, StemText, WfStem, StemFits, Throws, ErrorText, NextLine, NumberStops;
    ErrorReport(s, prior);
    forall stem | BrokenOff(s, stem) && !Throws(stem)
      ensures var v := ReadValue(s, 0, MAX_DEPTHS, prior); var n := |StemText(stem)|;
        && !v.ok && !v.thrown && v.pos == n && AfterBadEscape(s, v.pos)
        && Newlines(s[..n]) == 1 + Newlines(s[..n - 1])
    {
      StemFails(s, 0, stem, MAX_DEPTHS, prior);
      StemEnds(s, 0, stem);
      NewlinesStep(s, |StemText(stem)| - 1);
    }
    var v := ReadValue(s, 0, MAX_DEPTHS, prior);
    if !v.ok && AfterBadEscape(s, v.pos) {
      var stem := ValueStemAt(s, 0, MAX_DEPTHS, prior);
      assert BrokenOff(s, stem) && !Throws(stem);
    }
  }

  /** A stem that does not throw ends with an escaped newline. */
  lemma {:induction false} StemEnds(s: bytes, p: nat, stem: Stem)
    requires At(s, p, StemText(stem)) && !Throws(stem)
    ensures |StemText(stem)| >= 2 && AfterBadEscape(s, p + |StemText(stem)|)
    decreases stem, 1
  {
    hide At, BodyText;
    AtConcat(s, p, stem.lead, StemCore(stem));
    var q := p + |stem.lead|;
    match stem
    case InString(_, body) =>
      AtConcat(s, q, [QUOTE], BodyText(body) + BAD_ESCAPE);
      AtConcat(s, q + 1, BodyText(body), BAD_ESCAPE);
      BadEscapeAt(s, q + 1 + |BodyText(body)|);
    case InArray(_, items) =>
      AtConcat(s, q, [LBRACKET], ItemsStemText(items));
      ItemsEnd(s, q + 1, items);
    case InObject(_, members) =>
      AtConcat(s, q, [LBRACE], MembersStemText(members));
      MembersBreak(s, q + 1, members);
  }

  lemma {:induction false} ItemsEnd(s: bytes, p: nat, items: ItemsStem)
    requires At(s, p, ItemsStemText(items)) && !ItemsThrow(items)
    ensures |ItemsStemText(items)| >= 2 && AfterBadEscape(s, p + |ItemsStemText(items)|)
    decreases items, 2
  {
    hide At, Text, StemText;
    match items
    case InItem(stem) => StemEnds(s, p, stem);
    case PastItem(doc, gap, rest) =>
      AtConcat(s, p, Text(doc), (gap + [COMMA]) + ItemsStemText(rest));
      AtConcat(s, p + |Text(doc)|, gap + [COMMA], ItemsStemText(rest));
      ItemsEnd(s, p + |Text(doc)| + |gap| + 1, rest);
  }

  lemma {:induction false} MembersBreak(s: bytes, p: nat, members: MembersStem)
    requires At(s, p, MembersStemText(members)) && !MembersThrow(members)
    ensures |MembersStemText(members)| >= 2 && AfterBadEscape(s, p + |MembersStemText(members)|)
    decreases members, 2
  {
    hide At, BodyText, MemberText, StemText, Quoted;
    match members
    case InKey(lead, body) =>
      AtConcat(s, p, lead, [QUOTE] + (BodyText(body) + BAD_ESCAPE));
      AtConcat(s, p + |lead|, [QUOTE], BodyText(body) + BAD_ESCAPE);
      AtConcat(s, p + |lead| + 1, BodyText(body), BAD_ESCAPE);
      BadEscapeAt(s, p + |lead| + 1 + |BodyText(body)|);
    case InValue(lead, key, gap, stem) =>
      InValueAt(s, p, lead, key, gap, stem);
      StemEnds(s, p + |lead| + |Quoted(key)| + |gap| + 1, stem);
    case PastMember(m, gap, rest) =>
      AtConcat(s, p, MemberText(m), (gap + [COMMA]) + MembersStemText(rest));
      AtConcat(s, p + |MemberText(m)|, gap + [COMMA], MembersStemText(rest));
      MembersBreak(s, p + |MemberText(m)| + |gap| + 1, rest);
  }

  /** The text has no newline directly after a backslash. */
  predicate NoEscapedNewline(s: bytes) { forall i :: 0 < i < |s| && s[i] == LF ==> s[i - 1] != BACKSLASH }

  /** Without escaped newlines the line is right. */
  lemma LineIsRight(s: bytes, prior: Value)
    requires NoEscapedNewline(s)
    ensures var r := ReadText(s, prior);
      !r.ok && !r.thrown ==> r.err == Report(s, ReadValue(s, 0, MAX_DEPTHS, prior).pos)
  {
    hide ReadValue, Near, Newlines, ErrorText, NextLine;
    ErrorReport(s, prior);
  }

  /** A text that makes the parser throw. */
  lemma OverflowingText(prior: Value)
    ensures ReadText(Ascii("{\"a\":1e999}"), prior).thrown
  {
    hide Overflows, ReadText, TokenValue, Ascii, StemText;
    var token: bytes := [0x31, 0x65, 0x39, 0x39, 0x39];
    var stem := InObject([], InValue([], [Raw(0x61)], [], AtNumber([], token)));
    OverflowingToken();
    OverflowingStem(token);
    AtPrefix(StemText(stem), [RBRACE]);
    assert BrokenOff(Ascii("{\"a\":1e999}"), stem) && Throws(stem);
    ThrownExactly(Ascii("{\"a\":1e999}"), prior);
  }

  lemma OverflowingStem(token: bytes)
    requires token == [0x31, 0x65, 0x39, 0x39, 0x39]
    ensures var text := StemText(InObject([], InValue([], [Raw(0x61)], [], AtNumber([], token))));
      |text| == 10 && Ascii("{\"a\":1e999}") == text + [RBRACE]
  {
    hide Ascii, BodyText, StemText, Quoted;
    OverflowingBytes();
    KeyText(0x61);
    NumberText(token);
    var members := InValue([], [Raw(0x61)], [], AtNumber([], token));
    MemberStemText([Raw(0x61)], AtNumber([], token));
    assert StemText(InObject([], members)) == [LBRACE] + MembersStemText(members) by { ObjectStemText(members); }
  }

  lemma OverflowingBytes()
    ensures Ascii("{\"a\":1e999}") ==
      ([LBRACE] + ([QUOTE, 0x61, QUOTE] + ([COLON] + [0x31, 0x65, 0x39, 0x39, 0x39]))) + [RBRACE]
  {
  }

  lemma KeyText(b: byte)
    ensures Quoted([Raw(b)]) == [QUOTE, b, QUOTE]
  {
    var body := [Raw(b)];
    assert body[1..] == [];
    assert BodyText(body) == [b];
  }

  lemma NumberText(token: bytes)
    ensures StemText(AtNumber([], token)) == token
  {
  }

  lemma MemberStemText(key: seq<Chunk>, stem: Stem)
    ensures MembersStemText(InValue([], key, [], stem)) == Quoted(key) + ([COLON] + StemText(stem))
  {
    hide Quoted, StemText;
  }

  lemma ObjectStemText(members: MembersStem)
    ensures StemText(InObject([], members)) == [LBRACE] + MembersStemText(members)
  {
    hide MembersStemText;
  }
}
