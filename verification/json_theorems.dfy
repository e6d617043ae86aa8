/** What the JSON reader and writer guarantee together. */
module JsonTheorems {
  import opened Bytes
  import opened Utf8
  import opened JsonValue
  import opened JsonReader
  import opened JsonGrammar
  import opened JsonCompleteness
  import opened JsonSoundness
  import opened JsonWriter
  import opened JsonLayout
  import opened JsonText

  // ---------- the accepted texts ----------

  /** A text is accepted exactly when a document of the grammar starts it and nests fewer than 100 arrays. */
  lemma AcceptedExactly(s: bytes, prior: Value)
    ensures ReadText(s, prior).ok <==> exists doc :: Stands(s, 0, doc) && Below(ArraysAbove(doc, 0), 100)
    ensures forall doc :: Stands(s, 0, doc) && ReadText(s, prior).ok ==>
      ReadText(s, prior).value == Eval(doc) && ReadText(s, prior).end == |Text(doc)|
  {
    forall doc | Stands(s, 0, doc)
      ensures ReadText(s, prior).ok <==> Below(ArraysAbove(doc, 0), 100)
      ensures ReadText(s, prior).ok ==> ReadText(s, prior).value == Eval(doc) && ReadText(s, prior).end == |Text(doc)|
    {
      NestingBound(s, doc, prior);
    }
    if ReadText(s, prior).ok {
      var doc := ValueIsAt(s, 0, MAX_DEPTHS, prior);
      assert Stands(s, 0, doc);
    }
  }

  /**
    An otherwise well-formed text is accepted exactly when each of its arrays and objects has fewer
    than 100 arrays around it; then it reads as the value it denotes, whatever the target held before.
   */
  lemma NestingBound(s: bytes, doc: Doc, prior: Value)
    requires Stands(s, 0, doc)
    ensures var r := ReadText(s, prior);
      && (r.ok <==> Below(ArraysAbove(doc, 0), 100))
      && (r.ok ==> r.value == Eval(doc) && r.end == |Text(doc)|)
  {
    hide ReadValue, Stops, At;
    ReadDoc(s, 0, doc, MAX_DEPTHS, prior);
    FitsMeansFewArrays(doc, 0, MAX_DEPTHS);
  }

  // ---------- round trips ----------

  /** A number needs something after it that does not run on; the newline of the pretty layout is one. */
  predicate EndsNumber(v: Value, pretty: bool, suffix: bytes) {
    (v.Int? || v.Double?) && !pretty ==> NumberStops(suffix, 0)
  }

  /**
    Serialized text followed by anything that does not run on as a number is read back exactly when the
    value's nesting is within the budget. Reading stops after the value's last byte and gives the value with
    each double as its printed token reads: the same value, if there are no doubles.
   */
  lemma RoundTrip(v: Value, pretty: bool, suffix: bytes, prior: Value, printer: Printer)
    requires Valid(v) && Prints(v, printer) && EndsNumber(v, pretty, suffix)
    ensures var t := SerializeWith(v, pretty, printer); var r := ReadText(t + suffix, prior);
      && (r.ok <==> ValueFits(v, MAX_DEPTHS))
      && (r.ok ==> r.value == Reread(v, printer) && r.end == |t| - if pretty then 1 else 0)
    ensures Integral(v) ==> Reread(v, printer) == v
  {
    hide ReadValue, SerializeWith, Layout, Stops, Reread, Prints, Valid, Eval, Text, Near, NextLine;
    var t := SerializeWith(v, pretty, printer);
    var doc := Layout(v, if pretty then 0 else -1, [], printer);
    WrittenStands(v, pretty, suffix, printer);
    LayoutFits(v, if pretty then 0 else -1, [], MAX_DEPTHS, printer);
    ReadDoc(t + suffix, 0, doc, MAX_DEPTHS, prior);
    if Integral(v) { RereadIntegral(v, printer); }
  }

  lemma WrittenStands(v: Value, pretty: bool, suffix: bytes, printer: Printer)
    requires Valid(v) && Prints(v, printer) && EndsNumber(v, pretty, suffix)
    ensures var doc := Layout(v, if pretty then 0 else -1, [], printer); var t := SerializeWith(v, pretty, printer);
      && Stands(t + suffix, 0, doc) && Eval(doc) == Reread(v, printer)
      && |Text(doc)| == |t| - if pretty then 1 else 0
  {
    hide WriteBody, Layout, Reread, Prints, Valid, Wf, Eval, Core;
    var indent := if pretty then 0 else -1;
    var doc := Layout(v, indent, [], printer);
    LayoutText(v, indent, [], printer);
    LayoutEval(v, indent, [], printer);
    var body, tail := WriteBody(v, indent, printer), (if pretty then [LF] else []) + suffix;
    assert SerializeWith(v, pretty, printer) + suffix == body + tail;
    assert Text(doc) == body;
    AtPrefix(body, tail);
    if tail != [] { assert (body + tail)[|body|] == tail[0]; }
    if doc.NumberDoc? { NumberIsNumber(v, indent, printer); }
  }

  lemma NumberIsNumber(v: Value, indent: int, printer: Printer)
    requires indent >= -1 && Layout(v, indent, [], printer).NumberDoc?
    ensures v.Int? || v.Double?
  {
  }

  /** The round trip of a value without doubles, whatever the printer. */
  lemma PlainRoundTrip(v: Value, pretty: bool, suffix: bytes, prior: Value)
    requires Valid(v) && Integral(v) && EndsNumber(v, pretty, suffix)
    ensures var r := ReadText(Serialize(v, pretty) + suffix, prior);
      && (r.ok <==> ValueFits(v, MAX_DEPTHS))
      && (r.ok ==> r.value == v && r.end == |Serialize(v, pretty)| - if pretty then 1 else 0)
  {
    hide ReadText, SerializeWith;
    RereadIntegral(v, Verbatim);
    RoundTrip(v, pretty, suffix, prior, Verbatim);
  }

  /** Both layouts of a value denote it. */
  lemma LayoutsAgree(v: Value, prior: Value, printer: Printer)
    requires Valid(v) && Prints(v, printer)
    ensures var p, c := SerializeWith(v, true, printer), SerializeWith(v, false, printer);
      && (ReadText(p, prior).ok <==> ReadText(c, prior).ok)
      && (ReadText(p, prior).ok ==> ReadText(p, prior).value == ReadText(c, prior).value == Reread(v, printer))
  {
    hide ReadText, SerializeWith;
    RoundTrip(v, true, [], prior, printer);
    RoundTrip(v, false, [], prior, printer);
    assert forall t: bytes :: t + [] == t;
  }

  /** A printer that prints a printed token as it is: after one round trip nothing changes any more. */
  lemma {:induction false} RereadTwice(v: Value, printer: Printer)
    requires Prints(v, printer) && forall t :: printer(printer(t)) == printer(t)
    ensures Prints(Reread(v, printer), printer) && Reread(Reread(v, printer), printer) == Reread(v, printer)
    decreases v
  {
    match v
    case Array(items) =>
      var r := RereadItems(items, printer);
      forall i | 0 <= i < |items| ensures Prints(r[i], printer) && Reread(r[i], printer) == r[i] {
        RereadTwice(items[i], printer);
      }
      assert RereadItems(r, printer) == r;
    case Object(members) =>
      var r := RereadMembers(members, printer);
      forall i | 0 <= i < |members|
        ensures Prints(r[i].value, printer) && Reread(r[i].value, printer) == r[i].value
      {
        RereadTwice(members[i].value, printer);
      }
      assert RereadMembers(r, printer) == r;
    case _ =>
  }

  /** The value of a document is one the program can hold, nested no deeper than the document. */
  lemma {:induction false} EvalValid(doc: Doc, d: nat)
    requires Wf(doc)
    ensures Valid(Eval(doc)) && (Fits(doc, d) ==> ValueFits(Eval(doc), d))
    decreases doc
  {
    match doc
    case ArrayDoc(_, items, _) => EvalItemsValid(items, if d > 0 then d - 1 else 0);
    case ObjectDoc(_, members, _) => EvalMembersValid(members, [], FitsMembers(members, d), d);
    case _ =>
  }

  lemma {:induction false} EvalItemsValid(items: Items, d: nat)
    requires WfItems(items)
    ensures forall v <- EvalItems(items) :: Valid(v) && (FitsItems(items, d) ==> ValueFits(v, d))
    decreases items
  {
    EvalValid(items.doc, d);
    if items.MoreItems? { EvalItemsValid(items.rest, d); }
  }

  ghost predicate MembersOk(ms: seq<Member>, fits: bool, d: nat) {
    Ascending(ms) && forall m <- ms :: Valid(m.value) && (fits ==> ValueFits(m.value, d))
  }

  /** The fold, with a flag that says whether the nesting is to be kept too. */
  lemma {:induction false} EvalMembersValid(members: Members, acc: seq<Member>, fits: bool, d: nat)
    requires WfMembers(members) && MembersOk(acc, fits, d) && (fits ==> FitsMembers(members, d))
    ensures MembersOk(EvalMembers(members, acc), fits, d)
    decreases members
  {
    var m := members.m;
    var key, v := BodyValue(m.key), Eval(m.doc);
    EvalValid(m.doc, d);
    PutAscending(acc, key, v);
    PutKeys(acc, key, v);
    if members.MoreMembers? { EvalMembersValid(members.rest, Put(acc, key, v), fits, d); }
  }

  /**
    Canonicalisation: the value of any accepted text is valid, and its serialized text, in either layout, reads
    again; without doubles as the same value, which serializes to the same bytes.
   */
  lemma Canonical(s: bytes, prior: Value, pretty: bool, printer: Printer)
    requires ReadText(s, prior).ok && Prints(ReadText(s, prior).value, printer)
    ensures var v := ReadText(s, prior).value;
      var t := SerializeWith(v, pretty, printer); var again := ReadText(t, prior);
      && Valid(v) && again.ok && again.value == Reread(v, printer)
      && (Integral(v) ==> again.value == v && SerializeWith(again.value, pretty, printer) == t)
  {
    hide ReadText, SerializeWith;
    var v := ReadText(s, prior).value;
    ReadIsValid(s, prior);
    RoundTrip(v, pretty, [], prior, printer);
    assert SerializeWith(v, pretty, printer) + [] == SerializeWith(v, pretty, printer);
  }

  lemma ReadIsValid(s: bytes, prior: Value)
    requires ReadText(s, prior).ok
    ensures Valid(ReadText(s, prior).value) && ValueFits(ReadText(s, prior).value, MAX_DEPTHS)
  {
    hide ReadValue, Valid, ValueFits, Wf, Eval, Text, Stops;
    var doc := ValueIsAt(s, 0, MAX_DEPTHS, prior);
    ReadDoc(s, 0, doc, MAX_DEPTHS, prior);
    EvalValid(doc, MAX_DEPTHS);
  }

  /** A larger budget still fits. */
  lemma {:induction false} FitsMore(v: Value, d: nat, e: nat)
    requires ValueFits(v, d) && d <= e
    ensures ValueFits(v, e)
    decreases v
  {
    match v
    case Array(items) =>
      forall x | x in items ensures ValueFits(x, e - 1) { FitsMore(x, d - 1, e - 1); }
    case Object(members) =>
      forall m | m in members ensures ValueFits(m.value, e) { FitsMore(m.value, d, e); }
    case _ =>
  }

  /** Every value fits some budget. */
  lemma {:induction false} SomeBudget(v: Value) returns (d: nat)
    ensures d > 0 && ValueFits(v, d)
    decreases v
  {
    d := 1;
    match v
    case Array(items) =>
      for i := 0 to |items|
        invariant d > 0 && forall x <- items[..i] :: ValueFits(x, d)
      {
        var more := SomeBudget(items[i]);
        var sum := d + more;
        forall x | x in items[..i + 1] ensures ValueFits(x, sum) {
          FitsMore(x, if x in items[..i] then d else more, sum);
        }
        d := sum;
      }
      assert items[..|items|] == items;
      d := d + 1;
    case Object(members) =>
      for i := 0 to |members|
        invariant d > 0 && forall m <- members[..i] :: ValueFits(m.value, d)
      {
        var more := SomeBudget(members[i].value);
        var sum := d + more;
        forall m | m in members[..i + 1] ensures ValueFits(m.value, sum) {
          FitsMore(m.value, if m in members[..i] then d else more, sum);
        }
        d := sum;
      }
      assert members[..|members|] == members;
    case _ =>
  }

  /** With a budget that fits, the text of a value reads as that value and is read to its last byte. */
  lemma WrittenReads(v: Value, pretty: bool, d: nat, printer: Printer)
    requires Valid(v) && Prints(v, printer) && ValueFits(v, d)
    ensures var t := SerializeWith(v, pretty, printer); var r := ReadValue(t, 0, d, Null);
      r.ok && r.out == Reread(v, printer) && r.pos == |t| - if pretty then 1 else 0
  {
    hide ReadValue, SerializeWith, Layout, Stops, ValueFits, Reread;
    var indent := if pretty then 0 else -1;
    var t := SerializeWith(v, pretty, printer);
    WrittenStands(v, pretty, [], printer);
    LayoutFits(v, indent, [], d, printer);
    assert t + [] == t;
    ReadDoc(t, 0, Layout(v, indent, [], printer), d, Null);
  }

  /**
    Different values have different texts, in any mix of layouts and however deep; doubles count as
    different when their printed tokens do.
   */
  lemma SerializeInjective(v: Value, w: Value, p: bool, q: bool, printer: Printer)
    requires Valid(v) && Prints(v, printer) && Valid(w) && Prints(w, printer)
    requires SerializeWith(v, p, printer) == SerializeWith(w, q, printer)
    ensures Reread(v, printer) == Reread(w, printer)
    ensures Integral(v) && Integral(w) ==> v == w
  {
    hide ReadValue, SerializeWith, Valid, Integral, Reread, Prints;
    var d := SomeBudget(v);
    var e := SomeBudget(w);
    FitsMore(v, d, d + e);
    FitsMore(w, e, d + e);
    WrittenReads(v, p, d + e, printer);
    WrittenReads(w, q, d + e, printer);
    if Integral(v) && Integral(w) {
      RereadIntegral(v, printer);
      RereadIntegral(w, printer);
    }
  }

  /** The text of a value without doubles is the same for every printer. */
  lemma {:induction false} PrinterIrrelevant(v: Value, indent: int, p: Printer, q: Printer)
    requires Integral(v) && indent >= -1
    ensures WriteBody(v, indent, p) == WriteBody(v, indent, q)
    decreases v
  {
    match v
    case Array(items) => ItemsIrrelevant(items, 0, Inner(indent), p, q);
    case Object(members) => MembersIrrelevant(members, 0, Inner(indent), p, q);
    case _ =>
  }

  lemma {:induction false} ItemsIrrelevant(items: seq<Value>, k: nat, inner: int, p: Printer, q: Printer)
    requires k <= |items| && (forall x <- items :: Integral(x)) && inner >= -1
    ensures WriteItems(items, k, inner, p) == WriteItems(items, k, inner, q)
    decreases items, |items| - k
  {
    hide WriteBody;
    if k < |items| {
      PrinterIrrelevant(items[k], inner, p, q);
      ItemsIrrelevant(items, k + 1, inner, p, q);
    }
  }

  lemma {:induction false} MembersIrrelevant(members: seq<Member>, k: nat, inner: int, p: Printer, q: Printer)
    requires k <= |members| && (forall m <- members :: Integral(m.value)) && inner >= -1
    ensures WriteMembers(members, k, inner, p) == WriteMembers(members, k, inner, q)
    decreases members, |members| - k
  {
    hide WriteBody;
    if k < |members| {
      PrinterIrrelevant(members[k].value, inner, p, q);
      MembersIrrelevant(members, k + 1, inner, p, q);
    }
  }

  // ---------- strings ----------

  /** Parsing inverts escaping for every byte string; the escaped body has no raw control byte. */
  lemma EscapeInverse(t: bytes, suffix: bytes)
    ensures ScanString(EscapeFrom(t, 0) + [QUOTE] + suffix, 0, []) == TextScan(true, t, |EscapeFrom(t, 0)| + 1, true)
    ensures forall b <- EscapeFrom(t, 0) :: b >= SPACE && b != 0x7F
  {
    ChunksInvert(t, 0);
    var body := Chunks(t, 0);
    AtPrefix(BodyText(body) + [QUOTE], suffix);
    ScanBody(EscapeFrom(t, 0) + [QUOTE] + suffix, 0, body, []);
  }

  /** A \u escape or a pair of them stands at `p`. */
  ghost predicate EscapeStands(s: bytes, p: nat, c: Chunk) {
    (c.Unit? || c.Pair?) && WfChunk(c) && At(s, p, ChunkText(c))
  }

  /** The code point that an escape spells. */
  function CodeOf(c: Chunk): (u: int)
    requires (c.Unit? || c.Pair?) && WfChunk(c)
  {
    match c
    case Unit(h) => HexValue(h)
    case Pair(hi, lo) => 0x10000 + (HexValue(hi) - 0xD800) * 0x400 + (HexValue(lo) - 0xDC00)
  }

  /**
    A \u escape is accepted exactly when it spells a scalar value, alone or as a surrogate pair; it emits
    the one UTF-8 character of that code point and is read to its end.
   */
  lemma CodepointExactly(s: bytes, p: nat)
    requires p + 2 <= |s| && s[p] == BACKSLASH && s[p + 1] == 0x75
    ensures Codepoint(s, p + 2).ok <==> exists c: Chunk :: EscapeStands(s, p, c)
    ensures forall c: Chunk :: EscapeStands(s, p, c) ==>
      var r := Codepoint(s, p + 2);
      0 < CharLength(r.out) == |r.out| && Scalar(r.out) == CodeOf(c) && r.pos == p + |ChunkText(c)|
  {
    hide Codepoint, At, ChunkText, ChunkValue, WfChunk, CharLength, Scalar, CodeOf;
    forall c: Chunk | EscapeStands(s, p, c)
      ensures Codepoint(s, p + 2) == TextScan(true, ChunkValue(c), p + |ChunkText(c)|, true)
      ensures 0 < CharLength(ChunkValue(c)) == |ChunkValue(c)| && Scalar(ChunkValue(c)) == CodeOf(c)
    {
      EscapeReads(s, p, c);
      EscapeIsScalar(c);
    }
    if Codepoint(s, p + 2).ok {
      var c := CodepointIsAt(s, p);
      assert EscapeStands(s, p, c);
    }
  }

  lemma EscapeIsScalar(c: Chunk)
    requires (c.Unit? || c.Pair?) && WfChunk(c)
    ensures 0 < CharLength(ChunkValue(c)) == |ChunkValue(c)|
    ensures IsScalar(CodeOf(c)) && Scalar(ChunkValue(c)) == CodeOf(c)
  {
    hide Encode, CharLength, Scalar;
    match c
    case Unit(h) => EncodeCorrect(HexValue(h));
    case Pair(hi, lo) => EncodeCorrect(JoinPair(HexValue(hi), HexValue(lo)));
  }

  /** Surrogate pairs and the code points above 0xFFFF correspond one to one. */
  lemma PairsCoverSupplementary(u: int)
    requires 0x10000 <= u <= 0x10FFFF
    ensures var hi, lo := 0xD800 + (u - 0x10000) / 0x400, 0xDC00 + (u - 0x10000) % 0x400;
      && 0xD800 <= hi < 0xDC00 && 0xDC00 <= lo <= 0xDFFF && JoinPair(hi, lo) == u
      && forall h, l :: 0xD800 <= h < 0xDC00 && 0xDC00 <= l <= 0xDFFF && JoinPair(h, l) == u ==> h == hi && l == lo
  {
  }

  // ---------- duplicate keys ----------

  /** The key/value pairs of an object in text order. */
  function Pairs(members: Members): (r: seq<(bytes, Value)>)
    requires WfMembers(members)
  {
    [(BodyValue(members.m.key), Eval(members.m.doc))] + if members.MoreMembers? then Pairs(members.rest) else []
  }

  function Assign(pairs: seq<(bytes, Value)>, m: map<bytes, Value>): (r: map<bytes, Value>) {
    if pairs == [] then m else Assign(pairs[1..], m[pairs[0].0 := pairs[0].1])
  }

  lemma {:induction false} ObjectIsFold(members: Members, acc: seq<Member>)
    requires WfMembers(members)
    ensures AsMap(EvalMembers(members, acc)) == Assign(Pairs(members), AsMap(acc))
    decreases members
  {
    var key, v := BodyValue(members.m.key), Eval(members.m.doc);
    PutIsUpdate(acc, key, v);
    if members.MoreMembers? {
      ObjectIsFold(members.rest, Put(acc, key, v));
      assert Pairs(members)[1..] == Pairs(members.rest);
    } else {
      assert Pairs(members)[1..] == [];
    }
  }

  lemma {:induction false} AssignKeepsLast(pairs: seq<(bytes, Value)>, m: map<bytes, Value>, i: nat)
    requires i < |pairs| && forall j :: i < j < |pairs| ==> pairs[j].0 != pairs[i].0
    ensures pairs[i].0 in Assign(pairs, m) && Assign(pairs, m)[pairs[i].0] == pairs[i].1
    decreases |pairs|
  {
    var m' := m[pairs[0].0 := pairs[0].1];
    if i > 0 {
      AssignKeepsLast(pairs[1..], m', i - 1);
    } else {
      AssignSkips(pairs[1..], m', pairs[0].0);
    }
  }

  lemma {:induction false} AssignSkips(pairs: seq<(bytes, Value)>, m: map<bytes, Value>, key: bytes)
    requires forall j :: 0 <= j < |pairs| ==> pairs[j].0 != key
    ensures key in Assign(pairs, m) <==> key in m
    ensures key in m ==> Assign(pairs, m)[key] == m[key]
    decreases |pairs|
  {
    if pairs != [] { AssignSkips(pairs[1..], m[pairs[0].0 := pairs[0].1], key); }
  }

  /** A repeated key keeps its last value, and only keys of the text are found. */
  lemma DuplicateKeys(members: Members, key: bytes)
    requires WfMembers(members)
    ensures var found := Find(EvalMembers(members, []), key); var pairs := Pairs(members);
      && ((forall j :: 0 <= j < |pairs| ==> pairs[j].0 != key) ==> found == None)
      && (forall i :: 0 <= i < |pairs| && pairs[i].0 == key && (forall j :: i < j < |pairs| ==> pairs[j].0 != key)
            ==> found == Some(pairs[i].1))
  {
    var pairs := Pairs(members);
    ObjectIsFold(members, []);
    FindInMap(EvalMembers(members, []), key);
    if forall j :: 0 <= j < |pairs| ==> pairs[j].0 != key {
      AssignSkips(pairs, map[], key);
    }
    forall i | 0 <= i < |pairs| && pairs[i].0 == key && (forall j :: i < j < |pairs| ==> pairs[j].0 != key)
      ensures Find(EvalMembers(members, []), key) == Some(pairs[i].1)
    {
      AssignKeepsLast(pairs, map[], i);
    }
  }
}
