/**
  The accepted JSON texts, as a grammar: a `Doc` is a parse tree that keeps white space and the
  spelling of strings and numbers. `Text` writes it out and `Eval` is the value it denotes.
 */
module JsonGrammar {
  import opened Bytes
  import opened Numerals
  import opened Utf8
  import opened JsonValue
  import opened JsonReader

  /** One unit of a string body. */
  datatype Chunk =
    | Raw(b: byte)                   // a byte that stands for itself
    | Short(c: byte)                 // \n and the like
    | Unit(hex: bytes)               // \uXXXX
    | Pair(hi: bytes, lo: bytes)     // \uXXXX\uXXXX, a surrogate pair

  datatype Doc =
    | NullDoc(lead: bytes)
    | BoolDoc(lead: bytes, b: bool)
    | NumberDoc(lead: bytes, token: bytes)
    | StringDoc(lead: bytes, body: seq<Chunk>)
    | EmptyArray(lead: bytes, gap: bytes)
    | ArrayDoc(lead: bytes, items: Items, gap: bytes)
    | EmptyObject(lead: bytes, gap: bytes)
    | ObjectDoc(lead: bytes, members: Members, gap: bytes)

  datatype Items = OneItem(doc: Doc) | MoreItems(doc: Doc, gap: bytes, rest: Items)

  datatype Members = OneMember(m: MemberDoc) | MoreMembers(m: MemberDoc, gap: bytes, rest: Members)

  datatype MemberDoc = MemberDoc(lead: bytes, key: seq<Chunk>, gap: bytes, doc: Doc)

  // ---------- string bodies ----------

  predicate IsHex4(h: bytes) { |h| == 4 && AllDigits(h, 16) }

  function HexValue(h: bytes): (n: int)
    requires IsHex4(h)
    ensures 0 <= n < 0x10000
  {
    DigitValue(h[0]) * 0x1000 + DigitValue(h[1]) * 0x100 + DigitValue(h[2]) * 0x10 + DigitValue(h[3])
  }

  predicate WfChunk(c: Chunk) {
    match c
    case Raw(b) => b >= SPACE && b != QUOTE && b != BACKSLASH
    case Short(e) => Unescape(e).Some?
    case Unit(h) => IsHex4(h) && IsScalar(HexValue(h))
    case Pair(hi, lo) => IsHex4(hi) && IsHex4(lo) && 0xD800 <= HexValue(hi) < 0xDC00 && 0xDC00 <= HexValue(lo) <= 0xDFFF
  }

  function ChunkText(c: Chunk): (r: bytes)
    ensures r != []
  {
    match c
    case Raw(b) => [b]
    case Short(e) => [BACKSLASH, e]
    case Unit(h) => [BACKSLASH, 0x75] + h
    case Pair(hi, lo) => [BACKSLASH, 0x75] + hi + ([BACKSLASH, 0x75] + lo)
  }

  function ChunkValue(c: Chunk): (r: bytes)
    requires WfChunk(c)
  {
    match c
    case Raw(b) => [b]
    case Short(e) => [Unescape(e).value]
    case Unit(h) => Encode(HexValue(h))
    case Pair(hi, lo) => Encode(JoinPair(HexValue(hi), HexValue(lo)))
  }

  predicate WfBody(body: seq<Chunk>) { forall c <- body :: WfChunk(c) }

  function BodyText(body: seq<Chunk>): (r: bytes) {
    if body == [] then [] else ChunkText(body[0]) + BodyText(body[1..])
  }

  function BodyValue(body: seq<Chunk>): (r: bytes)
    requires WfBody(body)
  {
    if body == [] then [] else ChunkValue(body[0]) + BodyValue(body[1..])
  }

  // ---------- documents ----------

  predicate AllWs(t: bytes) { forall b <- t :: IsWs(b) }

  /** A number token: number bytes that begin as numbers do and read as an int64 or as a finite double. */
  predicate WfToken(t: bytes) {
    && t != [] && (IsDecimal(t[0]) || t[0] == MINUS)
    && (forall b <- t :: IsNumberByte(b))
    && TokenValue(t).Some?
  }

  predicate Wf(doc: Doc) {
    && AllWs(doc.lead)
    && match doc
       case NullDoc(_) => true
       case BoolDoc(_, _) => true
       case NumberDoc(_, token) => WfToken(token)
       case StringDoc(_, body) => WfBody(body)
       case EmptyArray(_, gap) => AllWs(gap)
       case ArrayDoc(_, items, gap) => AllWs(gap) && WfItems(items)
       case EmptyObject(_, gap) => AllWs(gap)
       case ObjectDoc(_, members, gap) => AllWs(gap) && WfMembers(members)
  }

  predicate WfItems(items: Items) {
    match items
    case OneItem(doc) => Wf(doc)
    case MoreItems(doc, gap, rest) => Wf(doc) && AllWs(gap) && WfItems(rest)
  }

  predicate WfMembers(members: Members) {
    && AllWs(members.m.lead) && WfBody(members.m.key) && AllWs(members.m.gap) && Wf(members.m.doc)
    && (members.MoreMembers? ==> AllWs(members.gap) && WfMembers(members.rest))
  }

  function Text(doc: Doc): (r: bytes)
    decreases doc, 1
  {
    doc.lead + Core(doc)
  }

  /** The text of a document without its leading white space. */
  function Core(doc: Doc): (r: bytes)
    decreases doc, 0
  {
    match doc
    case NullDoc(_) => [0x6E] + ULL
    case BoolDoc(_, b) => if b then [0x74] + RUE else [0x66] + ALSE
    case NumberDoc(_, token) => token
    case StringDoc(_, body) => Quoted(body)
    case EmptyArray(_, gap) => [LBRACKET] + (gap + [RBRACKET])
    case ArrayDoc(_, items, gap) => [LBRACKET] + (ItemsText(items) + (gap + [RBRACKET]))
    case EmptyObject(_, gap) => [LBRACE] + (gap + [RBRACE])
    case ObjectDoc(_, members, gap) => [LBRACE] + (MembersText(members) + (gap + [RBRACE]))
  }

  function Quoted(body: seq<Chunk>): (r: bytes) { [QUOTE] + (BodyText(body) + [QUOTE]) }

  function ItemsText(items: Items): (r: bytes)
    decreases items, 2
  {
    match items
    case OneItem(doc) => Text(doc)
    case MoreItems(doc, gap, rest) => Text(doc) + ((gap + [COMMA]) + ItemsText(rest))
  }

  function MembersText(members: Members): (r: bytes)
    decreases members, 2
  {
    match members
    case OneMember(m) => MemberText(m)
    case MoreMembers(m, gap, rest) => MemberText(m) + ((gap + [COMMA]) + MembersText(rest))
  }

  function MemberText(m: MemberDoc): (r: bytes)
    decreases m, 2
  {
    m.lead + (Quoted(m.key) + ((m.gap + [COLON]) + Text(m.doc)))
  }

  function Eval(doc: Doc): (v: Value)
    requires Wf(doc)
  {
    match doc
    case NullDoc(_) => Null
    case BoolDoc(_, b) => Bool(b)
    case NumberDoc(_, token) => TokenValue(token).value
    case StringDoc(_, body) => Str(BodyValue(body))
    case EmptyArray(_, _) => Array([])
    case ArrayDoc(_, items, _) => Array(EvalItems(items))
    case EmptyObject(_, _) => Object([])
    case ObjectDoc(_, members, _) => Object(EvalMembers(members, []))
  }

  function EvalItems(items: Items): (r: seq<Value>)
    requires WfItems(items)
  {
    match items
    case OneItem(doc) => [Eval(doc)]
    case MoreItems(doc, _, rest) => [Eval(doc)] + EvalItems(rest)
  }

  /** A left fold: a repeated key keeps the last of its values. */
  function EvalMembers(members: Members, acc: seq<Member>): (r: seq<Member>)
    requires WfMembers(members)
  {
    match members
    case OneMember(m) => Put(acc, BodyValue(m.key), Eval(m.doc))
    case MoreMembers(m, _, rest) => EvalMembers(rest, Put(acc, BodyValue(m.key), Eval(m.doc)))
  }

  // ---------- nesting ----------

  /** Every container of the document finds a budget left: arrays spend one, objects spend none. */
  predicate Fits(doc: Doc, d: nat) {
    match doc
    case EmptyArray(_, _) => d > 0
    case ArrayDoc(_, items, _) => d > 0 && FitsItems(items, d - 1)
    case EmptyObject(_, _) => d > 0
    case ObjectDoc(_, members, _) => d > 0 && FitsMembers(members, d)
    case _ => true
  }

  predicate FitsItems(items: Items, d: nat) {
    match items
    case OneItem(doc) => Fits(doc, d)
    case MoreItems(doc, _, rest) => Fits(doc, d) && FitsItems(rest, d)
  }

  predicate FitsMembers(members: Members, d: nat) {
    match members
    case OneMember(m) => Fits(m.doc, d)
    case MoreMembers(m, _, rest) => Fits(m.doc, d) && FitsMembers(rest, d)
  }

  /** For each container of the document, how many arrays enclose it (`above` of them from outside). */
  function ArraysAbove(doc: Doc, above: nat): (r: set<nat>) {
    match doc
    case EmptyArray(_, _) => {above}
    case ArrayDoc(_, items, _) => {above} + ArraysAboveItems(items, above + 1)
    case EmptyObject(_, _) => {above}
    case ObjectDoc(_, members, _) => {above} + ArraysAboveMembers(members, above)
    case _ => {}
  }

  function ArraysAboveItems(items: Items, above: nat): (r: set<nat>) {
    match items
    case OneItem(doc) => ArraysAbove(doc, above)
    case MoreItems(doc, _, rest) => ArraysAbove(doc, above) + ArraysAboveItems(rest, above)
  }

  function ArraysAboveMembers(members: Members, above: nat): (r: set<nat>) {
    match members
    case OneMember(m) => ArraysAbove(m.doc, above)
    case MoreMembers(m, _, rest) => ArraysAbove(m.doc, above) + ArraysAboveMembers(rest, above)
  }

  predicate Below(ns: set<nat>, k: nat) { forall n <- ns :: n < k }

  lemma BelowUnion(a: set<nat>, b: set<nat>, k: nat)
    ensures Below(a + b, k) <==> Below(a, k) && Below(b, k)
  {
    if Below(a + b, k) {
      forall n | n in a ensures n < k { assert n in a + b; }
      forall n | n in b ensures n < k { assert n in a + b; }
    }
  }

  lemma {:induction false} FitsMeansFewArrays(doc: Doc, above: nat, d: nat)
    ensures Fits(doc, d) <==> Below(ArraysAbove(doc, above), above + d)
    decreases doc
  {
    assert Below({above}, above + d) <==> d > 0 by {
      assert above in {above};
    }
    match doc
    case ArrayDoc(_, items, _) =>
      BelowUnion({above}, ArraysAboveItems(items, above + 1), above + d);
      if d > 0 { ItemsFit(items, above + 1, d - 1); }
    case ObjectDoc(_, members, _) =>
      BelowUnion({above}, ArraysAboveMembers(members, above), above + d);
      MembersFit(members, above, d);
    case _ =>
  }

  lemma {:induction false} ItemsFit(items: Items, above: nat, d: nat)
    ensures FitsItems(items, d) <==> Below(ArraysAboveItems(items, above), above + d)
    decreases items
  {
    FitsMeansFewArrays(items.doc, above, d);
    match items
    case OneItem(_) =>
    case MoreItems(doc, _, rest) =>
      ItemsFit(rest, above, d);
      BelowUnion(ArraysAbove(doc, above), ArraysAboveItems(rest, above), above + d);
  }

  lemma {:induction false} MembersFit(members: Members, above: nat, d: nat)
    ensures FitsMembers(members, d) <==> Below(ArraysAboveMembers(members, above), above + d)
    decreases members
  {
    FitsMeansFewArrays(members.m.doc, above, d);
    match members
    case OneMember(_) =>
    case MoreMembers(m, _, rest) =>
      MembersFit(rest, above, d);
      BelowUnion(ArraysAbove(m.doc, above), ArraysAboveMembers(rest, above), above + d);
  }
}
