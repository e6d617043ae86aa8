/** Reading preserves UTF-8: from a well-formed text only well-formed strings are read. */
module JsonUtf8 {
  import opened Bytes
  import opened Utf8
  import opened JsonValue
  import opened JsonReader
  import opened JsonGrammar
  import opened JsonCompleteness
  import opened JsonSoundness
  import opened JsonText

  /** Every string and every key of the value is well-formed UTF-8. */
  ghost predicate AllUtf8(v: Value)
    decreases v
  {
    match v
    case Str(t) => WellFormed(t)
    case Array(items) => forall x <- items :: AllUtf8(x)
    case Object(members) => forall m <- members :: WellFormed(m.key) && AllUtf8(m.value)
    case _ => true
  }

  predicate IsAscii(t: bytes) { forall b <- t :: b < 0x80 }

  lemma {:induction false} DropAscii(a: bytes, b: bytes)
    requires IsAscii(a) && WellFormed(a + b)
    ensures WellFormed(b)
    decreases |a|
  {
    if a == [] {
      assert a + b == b;
    } else {
      assert a[0] in a && (a + b)[0] == a[0];
      assert (a + b)[1..] == a[1..] + b;
      assert forall x <- a[1..] :: x in a;
      DropAscii(a[1..], b);
    }
  }

  /** Text between two ASCII surroundings. */
  lemma Between(a: bytes, b: bytes, c: bytes)
    requires IsAscii(a) && WellFormed(a + (b + c)) && c != [] && c[0] < 0x80
    ensures WellFormed(b) && WellFormed(c)
  {
    DropAscii(a, b + c);
    SplitBefore(b, c);
  }

  lemma WsIsAscii(t: bytes)
    requires AllWs(t)
    ensures IsAscii(t)
  {
  }

  // ---------- strings ----------

  lemma EscapeIsAscii(c: Chunk)
    requires WfChunk(c) && !c.Raw?
    ensures IsAscii(ChunkText(c)) && WellFormed(ChunkValue(c))
  {
    match c
    case Short(e) => assert [Unescape(e).value][1..] == [];
    case Unit(h) =>
      HexIsAscii(h);
      EncodeCorrect(HexValue(h));
    case Pair(hi, lo) =>
      HexIsAscii(hi);
      HexIsAscii(lo);
      EncodeCorrect(JoinPair(HexValue(hi), HexValue(lo)));
  }

  lemma HexIsAscii(h: bytes)
    requires IsHex4(h)
    ensures IsAscii(h)
  {
  }

  /** Bytes from 0x80 up are raw chunks. */
  lemma {:induction false} RawRun(body: seq<Chunk>, n: nat)
    requires WfBody(body) && n <= |BodyText(body)|
    requires forall i :: 0 <= i < n ==> BodyText(body)[i] >= 0x80
    ensures n <= |body| && BodyText(body) == BodyText(body)[..n] + BodyText(body[n..])
    ensures BodyValue(body) == BodyText(body)[..n] + BodyValue(body[n..])
    decreases n
  {
    hide BodyText, BodyValue;
    if n == 0 {
      assert body[0..] == body;
    } else {
      RawFirst(body);
      var t, rest := BodyText(body), BodyText(body[1..]);
      assert forall i :: 0 <= i < n - 1 ==> rest[i] == t[i + 1];
      RawRun(body[1..], n - 1);
      assert body[1..][n - 1..] == body[n..];
      Prepend(body[0].b, rest, n, BodyText(body[n..]));
      Regroup([body[0].b], rest[..n - 1], BodyValue(body[n..]));
    }
  }

  lemma Prepend(b: byte, rest: bytes, n: nat, tail: bytes)
    requires 0 < n <= |rest| + 1 && rest == rest[..n - 1] + tail
    ensures ([b] + rest)[..n] == [b] + rest[..n - 1] && [b] + rest == ([b] + rest)[..n] + tail
  {
  }

  lemma RawFirst(body: seq<Chunk>)
    requires WfBody(body) && BodyText(body) != [] && BodyText(body)[0] >= 0x80
    ensures body != [] && body[0].Raw? && BodyText(body) == [body[0].b] + BodyText(body[1..])
    ensures BodyValue(body) == [body[0].b] + BodyValue(body[1..])
  {
    assert BodyText(body)[0] == ChunkText(body[0])[0];
  }

  lemma {:induction false} BodyUtf8(body: seq<Chunk>)
    requires WfBody(body) && WellFormed(BodyText(body))
    ensures WellFormed(BodyValue(body))
    decreases |body|
  {
    if body != [] {
      var c, t := body[0], BodyText(body);
      if c.Raw? {
        RawChar(body);
      } else {
        EscapeIsAscii(c);
        DropAscii(ChunkText(c), BodyText(body[1..]));
        BodyUtf8(body[1..]);
        Concat(ChunkValue(c), BodyValue(body[1..]));
      }
    }
  }

  /** A character that is spelled by raw bytes. */
  lemma {:induction false} RawChar(body: seq<Chunk>)
    requires body != [] && WfBody(body) && WellFormed(BodyText(body)) && body[0].Raw?
    ensures WellFormed(BodyValue(body))
    decreases |body|, 0
  {
    var t := BodyText(body);
    var n := CharLength(t);
    RawPrefix(body, n);
    var c := t[..n];
    assert t[n..] == BodyText(body[n..]) by {
      assert t == c + BodyText(body[n..]);
    }
    BodyUtf8(body[n..]);
    SameChar(t, c);
    assert c[n..] == [];
    Concat(c, BodyValue(body[n..]));
  }

  lemma RawPrefix(body: seq<Chunk>, n: nat)
    requires body != [] && WfBody(body) && body[0].Raw? && n == CharLength(BodyText(body)) > 0
    ensures n <= |body| && BodyText(body) == BodyText(body)[..n] + BodyText(body[n..])
    ensures BodyValue(body) == BodyText(body)[..n] + BodyValue(body[n..])
  {
    var t := BodyText(body);
    if t[0] < 0x80 {
      assert t == [body[0].b] + BodyText(body[1..]);
    } else {
      assert forall i :: 0 <= i < n ==> t[i] >= 0x80;
      RawRun(body, n);
    }
  }

  lemma QuotedUtf8(body: seq<Chunk>)
    requires WfBody(body) && WellFormed(Quoted(body))
    ensures WellFormed(BodyValue(body))
  {
    Between([QUOTE], BodyText(body), [QUOTE]);
    BodyUtf8(body);
  }

  // ---------- documents ----------

  lemma GapStart(gap: bytes, b: byte)
    requires AllWs(gap) && b < 0x80
    ensures IsAscii(gap + [b]) && gap + [b] != [] && (gap + [b])[0] < 0x80
  {
    WsIsAscii(gap);
    assert (gap + [b])[0] in gap + [b];
  }

  lemma {:induction false} DocUtf8(doc: Doc)
    requires Wf(doc) && WellFormed(Text(doc))
    ensures AllUtf8(Eval(doc))
    decreases doc
  {
    WsIsAscii(doc.lead);
    DropAscii(doc.lead, Core(doc));
    match doc
    case StringDoc(_, body) => QuotedUtf8(body);
    case ArrayDoc(_, items, gap) =>
      GapStart(gap, RBRACKET);
      Between([LBRACKET], ItemsText(items), gap + [RBRACKET]);
      ItemsUtf8(items);
    case ObjectDoc(_, members, gap) =>
      GapStart(gap, RBRACE);
      Between([LBRACE], MembersText(members), gap + [RBRACE]);
      MembersUtf8(members, []);
    case _ =>
  }

  lemma {:induction false} ItemsUtf8(items: Items)
    requires WfItems(items) && WellFormed(ItemsText(items))
    ensures forall v <- EvalItems(items) :: AllUtf8(v)
    decreases items
  {
    match items
    case OneItem(doc) => DocUtf8(doc);
    case MoreItems(doc, gap, rest) =>
      GapStart(gap, COMMA);
      SplitBefore(Text(doc), (gap + [COMMA]) + ItemsText(rest));
      DropAscii(gap + [COMMA], ItemsText(rest));
      DocUtf8(doc);
      ItemsUtf8(rest);
  }

  ghost predicate MembersAllUtf8(ms: seq<Member>) { forall m <- ms :: WellFormed(m.key) && AllUtf8(m.value) }

  lemma {:induction false} MembersUtf8(members: Members, acc: seq<Member>)
    requires WfMembers(members) && WellFormed(MembersText(members)) && MembersAllUtf8(acc)
    ensures MembersAllUtf8(EvalMembers(members, acc))
    decreases members
  {
    var m := members.m;
    if members.MoreMembers? {
      var gap, rest := members.gap, members.rest;
      GapStart(gap, COMMA);
      SplitBefore(MemberText(m), (gap + [COMMA]) + MembersText(rest));
      DropAscii(gap + [COMMA], MembersText(rest));
    }
    MemberUtf8(m);
    PutKeys(acc, BodyValue(m.key), Eval(m.doc));
    if members.MoreMembers? { MembersUtf8(members.rest, Put(acc, BodyValue(m.key), Eval(m.doc))); }
  }

  lemma {:induction false} MemberUtf8(m: MemberDoc)
    requires AllWs(m.lead) && WfBody(m.key) && AllWs(m.gap) && Wf(m.doc) && WellFormed(MemberText(m))
    ensures WellFormed(BodyValue(m.key)) && AllUtf8(Eval(m.doc))
    decreases m
  {
    var tail := (m.gap + [COLON]) + Text(m.doc);
    WsIsAscii(m.lead);
    GapStart(m.gap, COLON);
    Between(m.lead, Quoted(m.key), tail);
    QuotedUtf8(m.key);
    DropAscii(m.gap + [COLON], Text(m.doc));
    DocUtf8(m.doc);
  }

  lemma EndsAscii(doc: Doc)
    requires Wf(doc)
    ensures Text(doc) != [] && Text(doc)[|Text(doc)| - 1] < 0x80
  {
    hide TokenValue, ItemsText, MembersText, BodyText, WfBody, WfItems, WfMembers;
    CoreStart(doc);
    var core := Core(doc);
    assert Text(doc)[|Text(doc)| - 1] == core[|core| - 1];
    match doc
    case NumberDoc(_, token) => assert token[|token| - 1] in token;
    case _ =>
  }

  /** If the text is well-formed UTF-8, so is every string and key that is read from it. */
  lemma ReadingPreservesUtf8(s: bytes, prior: Value)
    requires WellFormed(s) && ReadText(s, prior).ok
    ensures AllUtf8(ReadText(s, prior).value)
  {
    hide ReadValue, Text, Eval, Wf, WellFormed, AllUtf8, Stops;
    var doc := ValueIsAt(s, 0, MAX_DEPTHS, prior);
    ReadDoc(s, 0, doc, MAX_DEPTHS, prior);
    var t := Text(doc);
    EndsAscii(doc);
    assert s == t + s[|t|..];
    PrefixUtf8(t, s[|t|..]);
    DocUtf8(doc);
  }

  /** A prefix that ends with an ASCII byte. */
  lemma PrefixUtf8(t: bytes, rest: bytes)
    requires t != [] && t[|t| - 1] < 0x80 && WellFormed(t + rest)
    ensures WellFormed(t)
  {
    var head, last := t[..|t| - 1], t[|t| - 1];
    assert t == head + [last];
    SplitAfter(head, last, rest);
    assert [last][1..] == [];
    Concat(head, [last]);
  }
}
