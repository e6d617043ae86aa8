/** The serializer's output as documents of the grammar: its text, its value, its nesting. */
module JsonLayout {
  import opened Bytes
  import opened Numerals
  import opened JsonValue
  import opened JsonReader
  import opened JsonGrammar
  import opened JsonWriter

  // ---------- strings ----------

  function EscapeChunk(c: byte): (r: Chunk) {
    match c
    case 0x22 => Short(0x22)
    case 0x5C => Short(0x5C)
    case 0x2F => Short(0x2F)
    case 0x08 => Short(0x62)
    case 0x0C => Short(0x66)
    case 0x0A => Short(0x6E)
    case 0x0D => Short(0x72)
    case 0x09 => Short(0x74)
    case _ => if c < 0x20 || c == 0x7F then Unit(Hex04(c)) else Raw(c)
  }

  lemma EscapeChunkInverts(c: byte)
    ensures var k := EscapeChunk(c); WfChunk(k) && ChunkText(k) == EscapeByte(c) && ChunkValue(k) == [c]
    ensures forall b <- EscapeByte(c) :: b >= SPACE && b != 0x7F
  {
    if EscapeChunk(c).Unit? {
      var h := Hex04(c);
      assert DigitValue(h[0]) == 0 && DigitValue(h[1]) == 0;
      assert DigitValue(h[2]) == c / 16 && DigitValue(h[3]) == c % 16;
      assert HexValue(h) == c;
    }
  }

  function Chunks(t: bytes, k: nat): (r: seq<Chunk>)
    requires k <= |t|
    decreases |t| - k
  {
    if k == |t| then [] else [EscapeChunk(t[k])] + Chunks(t, k + 1)
  }

  lemma {:induction false} ChunksInvert(t: bytes, k: nat)
    requires k <= |t|
    ensures WfBody(Chunks(t, k)) && BodyText(Chunks(t, k)) == EscapeFrom(t, k) && BodyValue(Chunks(t, k)) == t[k..]
    ensures forall b <- EscapeFrom(t, k) :: b >= SPACE && b != 0x7F
    decreases |t| - k
  {
    hide EscapeByte, EscapeChunk, ChunkText, ChunkValue;
    if k < |t| {
      EscapeChunkInverts(t[k]);
      ChunksInvert(t, k + 1);
      assert Chunks(t, k)[1..] == Chunks(t, k + 1);
      assert t[k..] == [t[k]] + t[k + 1..];
    }
  }

  lemma QuotedIsWritten(t: bytes)
    ensures WfBody(Chunks(t, 0)) && Quoted(Chunks(t, 0)) == WriteString(t) && BodyValue(Chunks(t, 0)) == t
  {
    ChunksInvert(t, 0);
  }

  // ---------- documents ----------

  function Layout(v: Value, indent: int, lead: bytes, printer: Printer): (r: Doc)
    requires indent >= -1
    ensures r.lead == lead
    decreases v
  {
    match v
    case Null => NullDoc(lead)
    case Bool(b) => BoolDoc(lead, b)
    case Int(i) => NumberDoc(lead, PrintInt(i))
    case Double(t) => NumberDoc(lead, printer(t))
    case Str(t) => StringDoc(lead, Chunks(t, 0))
    case Array(items) =>
      if items == [] then EmptyArray(lead, [])
      else ArrayDoc(lead, LayoutItems(items, 0, Inner(indent), printer), Break(indent))
    case Object(members) =>
      if members == [] then EmptyObject(lead, [])
      else ObjectDoc(lead, LayoutMembers(members, 0, Inner(indent), printer), Break(indent))
  }

  function LayoutItems(items: seq<Value>, k: nat, inner: int, printer: Printer): (r: Items)
    requires k < |items| && inner >= -1
    decreases items, |items| - k
  {
    var doc := Layout(items[k], inner, Break(inner), printer);
    if k + 1 == |items| then OneItem(doc) else MoreItems(doc, [], LayoutItems(items, k + 1, inner, printer))
  }

  function LayoutMember(m: Member, inner: int, printer: Printer): (r: MemberDoc)
    requires inner >= -1
    decreases m
  {
    MemberDoc(Break(inner), Chunks(m.key, 0), [], Layout(m.value, inner, AfterKey(inner)[1..], printer))
  }

  function LayoutMembers(members: seq<Member>, k: nat, inner: int, printer: Printer): (r: Members)
    requires k < |members| && inner >= -1
    decreases members, |members| - k
  {
    var m := LayoutMember(members[k], inner, printer);
    if k + 1 == |members| then OneMember(m) else MoreMembers(m, [], LayoutMembers(members, k + 1, inner, printer))
  }

  // ---------- the text ----------

  lemma {:induction false} LayoutText(v: Value, indent: int, lead: bytes, printer: Printer)
    requires indent >= -1
    ensures Core(Layout(v, indent, lead, printer)) == WriteBody(v, indent, printer)
    decreases v
  {
    hide WriteItems, WriteMembers, Break, WriteString, Quoted, PrintInt, ItemsText, MembersText;
    hide LayoutItems, LayoutMembers;
    match v
    case Str(t) => QuotedIsWritten(t);
    case Array(items) => ArrayLayoutText(items, indent, lead, printer);
    case Object(members) => ObjectLayoutText(members, indent, lead, printer);
    case _ =>
  }

  lemma {:induction false} ArrayLayoutText(items: seq<Value>, indent: int, lead: bytes, printer: Printer)
    requires indent >= -1
    ensures Core(Layout(Array(items), indent, lead, printer)) == WriteBody(Array(items), indent, printer)
    decreases items, |items| + 1
  {
    hide WriteItems, WriteMembers, Break, ItemsText, LayoutItems;
    var inner := Inner(indent);
    if items == [] {
      NoItems(inner, printer);
    } else {
      ItemsLayoutText(items, 0, inner, printer);
      Assemble(LBRACKET, WriteItems(items, 0, inner, printer), Break(indent), RBRACKET);
    }
  }

  lemma {:induction false} ObjectLayoutText(members: seq<Member>, indent: int, lead: bytes, printer: Printer)
    requires indent >= -1
    ensures Core(Layout(Object(members), indent, lead, printer)) == WriteBody(Object(members), indent, printer)
    decreases members, |members| + 1
  {
    hide WriteItems, WriteMembers, Break, MembersText, LayoutMembers;
    var inner := Inner(indent);
    if members == [] {
      NoMembers(inner, printer);
    } else {
      MembersLayoutText(members, 0, inner, printer);
      Assemble(LBRACE, WriteMembers(members, 0, inner, printer), Break(indent), RBRACE);
    }
  }

  lemma NoItems(inner: int, printer: Printer)
    requires inner >= -1
    ensures WriteItems([], 0, inner, printer) == []
  {
  }

  lemma NoMembers(inner: int, printer: Printer)
    requires inner >= -1
    ensures WriteMembers([], 0, inner, printer) == []
  {
  }

  lemma Assemble(a: byte, b: bytes, c: bytes, d: byte)
    ensures [a] + b + c + [d] == [a] + (b + (c + [d]))
  {
  }

  lemma {:induction false} ItemsLayoutText(items: seq<Value>, k: nat, inner: int, printer: Printer)
    requires k < |items| && inner >= -1 && inner != 0
    ensures WriteItems(items, k, inner, printer) == Comma(k) + ItemsText(LayoutItems(items, k, inner, printer))
    decreases items, |items| - k
  {
    hide Break, WriteBody, Core, Comma;
    var lead, body := Break(inner), WriteBody(items[k], inner, printer);
    LayoutText(items[k], inner, lead, printer);
    if k + 1 == |items| {
      NoMoreItems(items, inner, printer);
      LastPart(Comma(k), lead, body);
    } else {
      ItemsLayoutText(items, k + 1, inner, printer);
      CommaLater(k + 1);
      NextPart(Comma(k), lead, body, [COMMA], ItemsText(LayoutItems(items, k + 1, inner, printer)));
    }
  }

  lemma LastPart(c: bytes, a: bytes, b: bytes)
    ensures c + a + b + [] == c + (a + b)
  {
  }

  lemma NextPart(c: bytes, a: bytes, b: bytes, comma: bytes, rest: bytes)
    ensures c + a + b + (comma + rest) == c + ((a + b) + (([] + comma) + rest))
  {
  }

  lemma NoMoreItems(items: seq<Value>, inner: int, printer: Printer)
    requires inner >= -1
    ensures WriteItems(items, |items|, inner, printer) == []
  {
  }

  lemma {:induction false} MembersLayoutText(members: seq<Member>, k: nat, inner: int, printer: Printer)
    requires k < |members| && inner >= -1 && inner != 0
    ensures WriteMembers(members, k, inner, printer)
         == Comma(k) + MembersText(LayoutMembers(members, k, inner, printer))
    decreases members, |members| - k
  {
    hide Break, WriteBody, Core, WriteString, MemberText, Comma, AfterKey, Write;
    var m := members[k];
    MemberLayoutText(m, inner, printer);
    var c, b, w, a, v := Comma(k), Break(inner), WriteString(m.key), AfterKey(inner), Write(m.value, inner, printer);
    WriteMembersStep(members, k, inner, printer);
    if k + 1 == |members| {
      NoMoreMembers(members, inner, printer);
      LastMember(c, b, w, a, v);
    } else {
      MembersLayoutText(members, k + 1, inner, printer);
      CommaLater(k + 1);
      NextMember(c, b, w, a, v, [COMMA], MembersText(LayoutMembers(members, k + 1, inner, printer)));
    }
  }

  lemma CommaLater(k: nat)
    requires k > 0
    ensures Comma(k) == [COMMA]
  {
  }

  lemma WriteMembersStep(members: seq<Member>, k: nat, inner: int, printer: Printer)
    requires k < |members| && inner >= -1
    ensures WriteMembers(members, k, inner, printer) ==
      (Comma(k) + Break(inner) + WriteString(members[k].key) + AfterKey(inner)
       + Write(members[k].value, inner, printer))
      + WriteMembers(members, k + 1, inner, printer)
  {
  }

  lemma LastMember(c: bytes, b: bytes, w: bytes, a: bytes, v: bytes)
    ensures (c + b + w + a + v) + [] == c + (b + w + a + v)
  {
  }

  lemma NextMember(c: bytes, b: bytes, w: bytes, a: bytes, v: bytes, comma: bytes, rest: bytes)
    ensures (c + b + w + a + v) + (comma + rest) == c + ((b + w + a + v) + (([] + comma) + rest))
  {
  }

  lemma NoMoreMembers(members: seq<Member>, inner: int, printer: Printer)
    requires inner >= -1
    ensures WriteMembers(members, |members|, inner, printer) == []
  {
  }

  lemma {:induction false} MemberLayoutText(m: Member, inner: int, printer: Printer)
    requires inner >= -1 && inner != 0
    ensures MemberText(LayoutMember(m, inner, printer))
         == Break(inner) + WriteString(m.key) + AfterKey(inner) + Write(m.value, inner, printer)
    decreases m
  {
    hide Break, WriteBody, Core, WriteString;
    QuotedIsWritten(m.key);
    var after := AfterKey(inner);
    LayoutText(m.value, inner, after[1..], printer);
    var body := WriteBody(m.value, inner, printer);
    assert ([] + [COLON]) + (after[1..] + body) == after + body;
    assert Break(inner) + (WriteString(m.key) + (after + body)) == Break(inner) + WriteString(m.key) + after + body;
  }

  // ---------- the value ----------

  lemma BreakIsWs(indent: int)
    requires indent >= -1
    ensures AllWs(Break(indent)) && AllWs(AfterKey(indent)[1..])
  {
  }

  /** What `to_str` prints for each double of the value is a number token. */
  ghost predicate Prints(v: Value, printer: Printer)
    decreases v
  {
    match v
    case Double(t) => WfToken(printer(t))
    case Array(items) => forall x <- items :: Prints(x, printer)
    case Object(members) => forall m <- members :: Prints(m.value, printer)
    case _ => true
  }

  /**
    The value with each double replaced by what its printed token reads as: an integral one may come back as
    an int64.
   */
  ghost function Reread(v: Value, printer: Printer): (r: Value)
    requires Prints(v, printer)
    decreases v
  {
    match v
    case Double(t) => TokenValue(printer(t)).value
    case Array(items) => Array(RereadItems(items, printer))
    case Object(members) => Object(RereadMembers(members, printer))
    case _ => v
  }

  ghost function RereadItems(items: seq<Value>, printer: Printer): (r: seq<Value>)
    requires forall x <- items :: Prints(x, printer)
    ensures |r| == |items|
    decreases items
  {
    seq(|items|, i requires 0 <= i < |items| => Reread(items[i], printer))
  }

  ghost function RereadMembers(members: seq<Member>, printer: Printer): (r: seq<Member>)
    requires forall m <- members :: Prints(m.value, printer)
    ensures |r| == |members|
    decreases members
  {
    seq(|members|, i requires 0 <= i < |members| => Member(members[i].key, Reread(members[i].value, printer)))
  }

  /** Without doubles nothing changes. */
  lemma {:induction false} RereadIntegral(v: Value, printer: Printer)
    requires Integral(v)
    ensures Prints(v, printer) && Reread(v, printer) == v
    decreases v
  {
    match v
    case Array(items) =>
      forall i | 0 <= i < |items| ensures Prints(items[i], printer) && Reread(items[i], printer) == items[i] {
        RereadIntegral(items[i], printer);
      }
      assert RereadItems(items, printer) == items;
    case Object(members) =>
      forall i | 0 <= i < |members|
        ensures var w := members[i].value; Prints(w, printer) && Reread(w, printer) == w
      {
        RereadIntegral(members[i].value, printer);
      }
      assert RereadMembers(members, printer) == members;
    case _ =>
  }

  lemma {:induction false} LayoutEval(v: Value, indent: int, lead: bytes, printer: Printer)
    requires Valid(v) && Prints(v, printer) && indent >= -1 && AllWs(lead)
    ensures Wf(Layout(v, indent, lead, printer)) && Eval(Layout(v, indent, lead, printer)) == Reread(v, printer)
    decreases v
  {
    BreakIsWs(indent);
    match v
    case Int(i) => PrintedToken(i);
    case Str(t) => QuotedIsWritten(t);
    case Array(items) =>
      if items != [] { LayoutEvalItems(items, 0, Inner(indent), printer); }
    case Object(members) =>
      if members != [] {
        LayoutEvalMembers(members, 0, Inner(indent), printer);
        assert RereadMembers(members, printer)[..0] == [];
      }
    case _ =>
  }

  lemma PrintedToken(i: int)
    requires INT64_MIN <= i <= INT64_MAX
    ensures WfToken(PrintInt(i)) && TokenValue(PrintInt(i)) == Some(Int(i))
  {
    PrintIntReads(i);
    var t := PrintInt(i);
    forall b | b in t ensures IsNumberByte(b) {
      var k :| 0 <= k < |t| && t[k] == b;
      assert k > 0 || t[0] != MINUS ==> IsDecimal(Unsigned(t)[if t[0] == MINUS then k - 1 else k]);
    }
  }

  lemma {:induction false} LayoutEvalItems(items: seq<Value>, k: nat, inner: int, printer: Printer)
    requires k < |items| && Valid(Array(items)) && Prints(Array(items), printer) && inner >= -1
    ensures var docs := LayoutItems(items, k, inner, printer);
      WfItems(docs) && EvalItems(docs) == RereadItems(items, printer)[k..]
    decreases items, |items| - k
  {
    BreakIsWs(inner);
    hide Break, Layout, Eval, Wf, Reread;
    LayoutEval(items[k], inner, Break(inner), printer);
    if k + 1 < |items| { LayoutEvalItems(items, k + 1, inner, printer); }
    var r := RereadItems(items, printer);
    assert r[k..] == [r[k]] + r[k + 1..];
  }

  lemma {:induction false} LayoutEvalMembers(members: seq<Member>, k: nat, inner: int, printer: Printer)
    requires k < |members| && Valid(Object(members)) && Prints(Object(members), printer) && inner >= -1
    ensures var docs := LayoutMembers(members, k, inner, printer); var r := RereadMembers(members, printer);
      WfMembers(docs) && EvalMembers(docs, r[..k]) == r
    decreases members, |members| - k
  {
    hide Break, AfterKey, Put, Layout, Eval, Wf, Chunks, BodyValue, Quoted, WriteString;
    var m, r := members[k], RereadMembers(members, printer);
    BreakIsWs(inner);
    QuotedIsWritten(m.key);
    LayoutEval(m.value, inner, AfterKey(inner)[1..], printer);
    PutLast(r[..k], m.key, Reread(m.value, printer));
    assert r[..k] + [r[k]] == r[..k + 1];
    if k + 1 < |members| {
      LayoutEvalMembers(members, k + 1, inner, printer);
    } else {
      assert r[..k + 1] == r;
    }
  }

  // ---------- the white space ----------

  /** A document without any white space between its tokens. */
  function Strip(doc: Doc): (r: Doc) {
    match doc
    case NullDoc(_) => NullDoc([])
    case BoolDoc(_, b) => BoolDoc([], b)
    case NumberDoc(_, token) => NumberDoc([], token)
    case StringDoc(_, body) => StringDoc([], body)
    case EmptyArray(_, _) => EmptyArray([], [])
    case ArrayDoc(_, items, _) => ArrayDoc([], StripItems(items), [])
    case EmptyObject(_, _) => EmptyObject([], [])
    case ObjectDoc(_, members, _) => ObjectDoc([], StripMembers(members), [])
  }

  function StripItems(items: Items): (r: Items) {
    match items
    case OneItem(doc) => OneItem(Strip(doc))
    case MoreItems(doc, _, rest) => MoreItems(Strip(doc), [], StripItems(rest))
  }

  function StripMembers(members: Members): (r: Members) {
    match members
    case OneMember(m) => OneMember(MemberDoc([], m.key, [], Strip(m.doc)))
    case MoreMembers(m, _, rest) => MoreMembers(MemberDoc([], m.key, [], Strip(m.doc)), [], StripMembers(rest))
  }

  /** Pretty output is compact output plus white space between tokens. */
  lemma {:induction false} PrettyIsSpacedCompact(v: Value, indent: int, lead: bytes, printer: Printer)
    requires indent >= -1
    ensures Strip(Layout(v, indent, lead, printer)) == Layout(v, -1, [], printer)
    decreases v
  {
    hide Chunks, PrintInt;
    match v
    case Array(items) =>
      if items != [] { SpacedItems(items, 0, Inner(indent), printer); }
    case Object(members) =>
      if members != [] { SpacedMembers(members, 0, Inner(indent), printer); }
    case _ =>
  }

  lemma {:induction false} SpacedItems(items: seq<Value>, k: nat, inner: int, printer: Printer)
    requires k < |items| && inner >= -1
    ensures StripItems(LayoutItems(items, k, inner, printer)) == LayoutItems(items, k, -1, printer)
    decreases items, |items| - k
  {
    PrettyIsSpacedCompact(items[k], inner, Break(inner), printer);
    if k + 1 < |items| { SpacedItems(items, k + 1, inner, printer); }
  }

  lemma {:induction false} SpacedMembers(members: seq<Member>, k: nat, inner: int, printer: Printer)
    requires k < |members| && inner >= -1
    ensures StripMembers(LayoutMembers(members, k, inner, printer)) == LayoutMembers(members, k, -1, printer)
    decreases members, |members| - k
  {
    PrettyIsSpacedCompact(members[k].value, inner, AfterKey(inner)[1..], printer);
    if k + 1 < |members| { SpacedMembers(members, k + 1, inner, printer); }
  }

  // ---------- the nesting ----------

  /** A value whose containers all have fewer than `d` arrays around them. */
  ghost predicate ValueFits(v: Value, d: nat)
    decreases v
  {
    match v
    case Array(items) => d > 0 && forall x <- items :: ValueFits(x, d - 1)
    case Object(members) => d > 0 && forall m <- members :: ValueFits(m.value, d)
    case _ => true
  }

  /** Values the builders make: lists of strings, objects of strings, objects with one member. */
  lemma StringsFit(items: seq<Value>, d: nat)
    requires d > 0 && forall x <- items :: x.Str?
    ensures Valid(Array(items)) && Integral(Array(items)) && ValueFits(Array(items), d)
  {
    forall x | x in items ensures Valid(x) && Integral(x) && ValueFits(x, d - 1) {
    }
  }

  lemma StringMembersFit(ms: seq<Member>, d: nat)
    requires d > 0 && Ascending(ms) && forall m <- ms :: m.value.Str?
    ensures Valid(Object(ms)) && Integral(Object(ms)) && ValueFits(Object(ms), d)
  {
    forall m | m in ms ensures Valid(m.value) && Integral(m.value) && ValueFits(m.value, d) {
    }
  }

  lemma SingleMemberFits(key: bytes, v: Value, d: nat)
    requires d > 0 && Valid(v) && Integral(v) && ValueFits(v, d)
    ensures var o := Object([Member(key, v)]); Valid(o) && Integral(o) && ValueFits(o, d)
  {
    var o := Object([Member(key, v)]);
    forall m | m in o.members ensures Valid(m.value) && Integral(m.value) && ValueFits(m.value, d) {
      assert m == Member(key, v);
    }
  }

  lemma {:induction false} LayoutFits(v: Value, indent: int, lead: bytes, d: nat, printer: Printer)
    requires indent >= -1
    ensures Fits(Layout(v, indent, lead, printer), d) <==> ValueFits(v, d)
    decreases v
  {
    hide Break, Chunks, PrintInt;
    match v
    case Array(items) =>
      if items != [] && d > 0 {
        LayoutFitsItems(items, 0, Inner(indent), d - 1, printer);
        assert items[0..] == items;
      }
    case Object(members) =>
      if members != [] {
        LayoutFitsMembers(members, 0, Inner(indent), d, printer);
        assert members[0..] == members;
      }
    case _ =>
  }

  lemma {:induction false} LayoutFitsItems(items: seq<Value>, k: nat, inner: int, d: nat, printer: Printer)
    requires k < |items| && inner >= -1
    ensures FitsItems(LayoutItems(items, k, inner, printer), d) <==> forall x <- items[k..] :: ValueFits(x, d)
    decreases items, |items| - k
  {
    LayoutFits(items[k], inner, Break(inner), d, printer);
    assert items[k..] == [items[k]] + items[k + 1..];
    if k + 1 < |items| { LayoutFitsItems(items, k + 1, inner, d, printer); }
  }

  lemma {:induction false} LayoutFitsMembers(members: seq<Member>, k: nat, inner: int, d: nat, printer: Printer)
    requires k < |members| && inner >= -1
    ensures var docs := LayoutMembers(members, k, inner, printer);
      FitsMembers(docs, d) <==> forall m <- members[k..] :: ValueFits(m.value, d)
    decreases members, |members| - k
  {
    LayoutFits(members[k].value, inner, AfterKey(inner)[1..], d, printer);
    assert members[k..] == [members[k]] + members[k + 1..];
    if k + 1 < |members| { LayoutFitsMembers(members, k + 1, inner, d, printer); }
  }
}
