/** What the response writer puts on the wire, read by the reference client. */
module HttpFraming {
  import opened Bytes
  import opened Numerals
  import opened HttpHeaders
  import opened HttpResponse
  import opened HttpClient

  // ---------- lines ----------

  lemma {:induction false} LineAt(s: bytes, p: nat, line: bytes)
    requires NoBreak(line) && At(s, p, line + CRLF)
    ensures FindLine(s, p) == Some(p + |line|) && s[p..p + |line|] == line && p + |line| + 2 <= |s|
    decreases |line|
  {
    AtConcat(s, p, line, CRLF);
    if line == [] {
      AtCons(s, p, CR, [LF]);
      assert CRLF == [CR] + [LF];
      AtCons(s, p + 1, LF, []);
      assert [LF] == [LF] + [];
    } else {
      assert line + CRLF == [line[0]] + (line[1..] + CRLF);
      AtCons(s, p, line[0], line[1..] + CRLF);
      assert line[0] in line && forall b <- line[1..] :: b in line;
      LineAt(s, p + 1, line[1..]);
    }
  }

  // ---------- the status line ----------

  /** The statuses that a status line can carry. */
  predicate ThreeDigits(status: int) { 100 <= status <= 999 }

  lemma PrintedStatus(status: int)
    ensures ThreeDigits(status) ==>
      PrintInt(status) == [0x30 + status / 100, 0x30 + status / 10 % 10, 0x30 + status % 10]
    ensures !ThreeDigits(status) ==>
      var t := PrintInt(status); t[0] == MINUS || |t| < 3 || (|t| > 3 && IsDecimal(t[3]))
  {
    if ThreeDigits(status) {
      assert ToBase(status / 100, 10) == [Digit(status / 100)];
      assert ToBase(status / 10, 10) == ToBase(status / 100, 10) + [Digit(status / 10 % 10)];
    } else if status >= 1000 {
      FourDigits(status);
      PrintIntReads(status);
      DecimalDigits(status);
    } else if status >= 0 {
      assert status >= 10 ==> ToBase(status / 10, 10) == [Digit(status / 10)];
    }
  }

  lemma FourDigits(n: nat)
    requires n >= 1000
    ensures |ToBase(n, 10)| >= 4
  {
    assert n / 10 / 10 / 10 >= 1;
    assert |ToBase(n / 10 / 10 / 10, 10)| >= 1;
    assert |ToBase(n / 10 / 10, 10)| >= 2;
    assert |ToBase(n / 10, 10)| >= 3;
  }

  /** A client reads the status back exactly when it has three digits. */
  lemma StatusLineReads(status: int, message: bytes)
    ensures DecodeStatus(StatusLine(status, message)) == if ThreeDigits(status) then Some(status) else None
  {
    hide PrintInt, ToBase;
    var version, t := Ascii("HTTP/1.1 "), PrintInt(status);
    var line := StatusLine(status, message);
    assert line == version + (t + [SPACE] + message);
    assert line[..9] == version;
    assert forall k :: 0 <= k < |t| ==> line[9 + k] == t[k];
    assert line[9 + |t|] == SPACE;
    PrintedStatus(status);
  }

  lemma StatusLineNoBreak(status: int, message: bytes)
    requires NoBreak(message)
    ensures NoBreak(StatusLine(status, message))
  {
    var t := PrintInt(status);
    var n := if status < 0 then -status else status;
    DecimalDigits(n);
    forall b | b in t ensures b != CR && b != LF {
      var k :| 0 <= k < |t| && t[k] == b;
      if status < 0 && k > 0 { assert t[k] == ToBase(n, 10)[k - 1]; }
    }
    assert NoBreak(Ascii("HTTP/1.1 "));
  }

  // ---------- fields ----------

  /** A header field that can be written as one field line. */
  predicate Clean(f: Field) {
    f.name != [] && NoBreak(f.value) && forall b <- f.name :: b != CR && b != LF && b != COLON && !IsBlank(b)
  }

  predicate AllClean(h: seq<Field>) { forall f <- h :: Clean(f) }

  /** The field as the client reads it: without white space around the value. */
  function Received(f: Field): (r: Field) { Field(f.name, Trim(f.value)) }

  function AllReceived(h: seq<Field>): (r: seq<Field>)
    ensures |r| == |h|
  {
    seq(|h|, i requires 0 <= i < |h| => Received(h[i]))
  }

  lemma {:induction false} ColonAt(line: bytes, i: nat, n: nat)
    requires i <= n < |line| && line[n] == COLON && forall k :: i <= k < n ==> line[k] != COLON
    ensures FindColon(line, i) == Some(n)
    decreases n - i
  {
    if i < n { ColonAt(line, i + 1, n); }
  }

  lemma FieldLineReads(f: Field)
    requires Clean(f)
    ensures NoBreak(FieldLine(f)) && FieldLine(f) != [] && DecodeField(FieldLine(f)) == Some(Received(f))
  {
    var line, n := FieldLine(f), |f.name|;
    assert forall k :: 0 <= k < n ==> line[k] == f.name[k] && f.name[k] in f.name;
    assert line[..n] == f.name && line[n] == COLON;
    assert line[n + 1..] == [SPACE] + f.value;
    ColonAt(line, 0, n);
    assert TrimLeft([SPACE] + f.value) == TrimLeft(f.value) by {
      assert ([SPACE] + f.value)[1..] == f.value;
    }
  }

  lemma {:induction false} FieldLinesRead(s: bytes, p: nat, h: seq<Field>, k: nat)
    requires k <= |h| && AllClean(h) && At(s, p, FieldLines(h, k) + CRLF)
    ensures DecodeFields(s, p) == Some((AllReceived(h[k..]), p + |FieldLines(h, k)| + 2))
    decreases |h| - k
  {
    hide At, Clean, FieldLine, DecodeField;
    if k == |h| {
      assert FieldLines(h, k) + CRLF == [] + CRLF;
      LineAt(s, p, []);
      AtWithin(s, p, CRLF);
      assert AllReceived(h[k..]) == [];
    } else {
      var line, rest := FieldLine(h[k]), FieldLines(h, k + 1);
      FieldLineReads(h[k]);
      ThreeParts(line, CRLF, rest, CRLF);
      AtConcat(s, p, line + CRLF, rest + CRLF);
      LineAt(s, p, line);
      FieldLinesRead(s, p + |line| + 2, h, k + 1);
      assert AllReceived(h[k..]) == [Received(h[k])] + AllReceived(h[k + 1..]);
    }
  }

  lemma ThreeParts(a: bytes, b: bytes, c: bytes, d: bytes)
    ensures a + b + c + d == (a + b) + (c + d)
  {
  }

  // ---------- the head ----------

  /** Status line and header section are read back, and the body starts after them. */
  lemma HeadReads(s: bytes, p: nat, status: int, message: bytes, h: seq<Field>)
    requires NoBreak(message) && AllClean(h) && At(s, p, Head(status, message, h))
    ensures var q := p + |Head(status, message, h)|;
      && q <= |s|
      && (!ThreeDigits(status) ==> Decode(s, p) == None)
      && (ThreeDigits(status) ==>
            Decode(s, p) ==
              match DecodeBody(s, q, FramingOf(status, AllReceived(h)))
              case None => None
              case Some((body, next)) => Some(Message(status, AllReceived(h), body, next)))
  {
    hide At, FindLine, DecodeStatus, DecodeFields, DecodeBody, FramingOf, StatusLine, FieldLines, NoBreak;
    var line := StatusLine(status, message);
    ThreeParts(line, CRLF, FieldLines(h, 0), CRLF);
    AtWithin(s, p, Head(status, message, h));
    AtConcat(s, p, line + CRLF, FieldLines(h, 0) + CRLF);
    StatusLineNoBreak(status, message);
    LineAt(s, p, line);
    StatusLineReads(status, message);
    FieldLinesRead(s, p + |line| + 2, h, 0);
    assert h[0..] == h;
  }

  // ---------- the header values that frame the body ----------

  /** A value that trimming keeps. */
  predicate Tight(t: bytes) { t != [] && !IsBlank(t[0]) && !IsBlank(t[|t| - 1]) }

  lemma {:induction false} ReceivedValues(h: seq<Field>, key: bytes)
    ensures |Values(AllReceived(h), key)| == |Values(h, key)|
    ensures forall k :: 0 <= k < |Values(h, key)| ==> Values(AllReceived(h), key)[k] == Trim(Values(h, key)[k])
  {
    if h != [] {
      assert AllReceived(h)[1..] == AllReceived(h[1..]);
      ReceivedValues(h[1..], key);
    }
  }

  lemma NamesDiffer()
    ensures !Same(ContentLength(), TransferEncoding())
  {
    assert |LowerAll(ContentLength())| != |LowerAll(TransferEncoding())|;
  }

  /** What `set` does to the two framing fields. */
  lemma SetValues(h: seq<Field>, key: bytes, value: bytes)
    requires Sorted(h) && AllClean(h) && Clean(Field(key, value))
    ensures var r := Set(h, key, value, true);
      && Sorted(r) && AllClean(r)
      && forall other :: Values(r, other) == if Same(key, other) then [value] else Values(h, other)
  {
    hide Values, Clean;
    var e := Erase(h, key);
    EraseSorted(h, key);
    EraseValues(h, key, key);
    EmplaceSorted(e, key, value);
    forall other
      ensures Values(Set(h, key, value, true), other) == if Same(key, other) then [value] else Values(h, other)
    {
      EraseValues(h, key, other);
      EmplaceValues(e, key, value, other);
    }
    forall f | f in Set(h, key, value, true) ensures Clean(f) {
      if f != Field(key, value) {
        var i := UpperBound(e, key);
        assert f in e[..i] || f in e[i..];
        assert f in e;
      }
    }
  }

  lemma LengthIsClean(n: nat)
    ensures Clean(Field(ContentLength(), PrintInt(n))) && IsLength(PrintInt(n)) && FromLength(PrintInt(n)) == n
    ensures Tight(PrintInt(n)) && PrintInt(n) != Chunked()
  {
    DecimalDigits(n);
    FromToBase(n, 10);
    var t := PrintInt(n);
    forall b | b in t ensures IsDecimal(b) {
      var k :| 0 <= k < |t| && t[k] == b;
    }
    assert t[0] in t && t[|t| - 1] in t;
    assert Chunked()[0] == 0x63;
  }

  function FromLength(t: bytes): (n: nat)
    requires IsLength(t)
  {
    LengthIsNumeral(t);
    FromBase(t, 10)
  }

  lemma ChunkedIsClean()
    ensures Clean(Field(TransferEncoding(), Chunked())) && Tight(Chunked()) && LowerAll(Chunked()) == Chunked()
  {
  }

  /** A response whose headers are still to be sent. */
  ghost predicate Fresh(r: Response) {
    !r.sent && !r.chunked && NoBreak(r.message) && Sorted(r.headers) && AllClean(r.headers)
  }

  // ---------- bodies of known length ----------

  /** The headers that `end(data)` sends. */
  function SizedHeaders(h: seq<Field>, n: nat): (r: seq<Field>) { Set(h, ContentLength(), PrintInt(n), true) }

  lemma SizedFraming(h: seq<Field>, n: nat, status: int)
    requires Sorted(h) && AllClean(h) && !Has(h, TransferEncoding())
    ensures var h' := SizedHeaders(h, n);
      && AllClean(h') && Has(h', ContentLength()) && Get(h', TransferEncoding()) == []
      && FramingOf(status, AllReceived(h')) == if Bodyless(status) then NoBody else Sized(n)
  {
    hide Values, Clean, Set, Trim, Get, Same;
    var h' := SizedHeaders(h, n);
    LengthIsClean(n);
    SetValues(h, ContentLength(), PrintInt(n));
    assert Same(ContentLength(), ContentLength()) by { SameSelf(ContentLength()); }
    NamesDiffer();
    GetIsFirst(h', TransferEncoding());
    ReceivedValues(h', TransferEncoding());
    ReceivedValues(h', ContentLength());
    TightTrim(PrintInt(n));
  }

  lemma SameSelf(a: bytes)
    ensures Same(a, a)
  {
  }

  lemma TightTrim(t: bytes)
    requires Tight(t)
    ensures Trim(t) == t
  {
  }

  lemma SizedWire(r: Response, data: bytes)
    requires Fresh(r) && !Has(r.headers, TransferEncoding())
    ensures var h' := SizedHeaders(r.headers, |data|);
      EndWith(r, data) == Written(RESET, Head(r.status, r.message, h') + data)
  {
    hide Head, Has, Get, Set;
    SizedFraming(r.headers, |data|, r.status);
    var h' := SizedHeaders(r.headers, |data|);
    assert Chunked() != [];
    assert Head(r.status, r.message, h') + data + [] == Head(r.status, r.message, h') + data;
  }

  /**
    One `end(data)` on a fresh response: the client reads back status, headers and body, and stops at the
    end of the message, exactly when the status has three digits and allows the body.
   */
  lemma SizedResponse(r: Response, data: bytes, s: bytes, p: nat)
    requires Fresh(r) && !Has(r.headers, TransferEncoding()) && At(s, p, EndWith(r, data).wire)
    ensures var m := Message(r.status, AllReceived(SizedHeaders(r.headers, |data|)), data, p + |EndWith(r, data).wire|);
      p <= |s| && (Decode(s, p) == Some(m) <==> ThreeDigits(r.status) && (Bodyless(r.status) ==> data == []))
  {
    hide At, Head, Has, Get, Set, EndWith, Decode, FramingOf, SizedHeaders;
    var h' := SizedHeaders(r.headers, |data|);
    var head := Head(r.status, r.message, h');
    SizedWire(r, data);
    SizedFraming(r.headers, |data|, r.status);
    AtConcat(s, p, head, data);
    HeadReads(s, p, r.status, r.message, h');
    SliceAt(s, p + |head|, data);
  }

  lemma SliceAt(s: bytes, p: nat, t: bytes)
    requires At(s, p, t)
    ensures p + |t| <= |s| && s[p..p + |t|] == t
  {
  }

  // ---------- chunked bodies ----------

  /** The data that the chunks of one `send_data` carry: every chunk starts again at the first byte. */
  function Payload(data: bytes, len: nat): (r: bytes)
    requires len <= |data|
    ensures |r| == len
  {
    if len == 0 then []
    else
      var small := Min(len, UINT16_MAX);
      data[..small] + Payload(data, len - small)
  }

  /** The byte that stands at index `i` of the payload: the block number is lost. */
  function InFirstBlock(data: bytes, i: nat): (b: byte)
    requires i < |data|
  {
    data[i % 65535]
  }

  lemma {:induction false} PayloadRepeats(data: bytes, len: nat)
    requires len <= |data|
    ensures forall i :: 0 <= i < len ==> Payload(data, len)[i] == InFirstBlock(data, i)
    decreases len
  {
    if len > 0 {
      var small := Min(len, UINT16_MAX);
      PayloadRepeats(data, len - small);
      forall i | 0 <= i < len ensures Payload(data, len)[i] == InFirstBlock(data, i) {
        if i >= small {
          assert Payload(data, len)[i] == Payload(data, len - small)[i - small];
          assert InFirstBlock(data, i) == InFirstBlock(data, i - small);
        }
      }
    }
  }

  /** Each 65535-byte block of the data repeats the first. */
  ghost predicate Repeats(data: bytes) { forall i :: 0 <= i < |data| ==> data[i] == InFirstBlock(data, i) }

  /** The payload is the data exactly when each block of it repeats the first. */
  lemma {:induction false} PayloadIsData(data: bytes)
    ensures Payload(data, |data|) == data <==> Repeats(data)
  {
    hide InFirstBlock, Payload;
    PayloadRepeats(data, |data|);
    EqualByIndex(Payload(data, |data|), data);
  }

  lemma ShortRepeats(data: bytes)
    requires |data| <= 65535
    ensures Repeats(data)
  {
  }

  lemma EqualByIndex(a: bytes, b: bytes)
    requires |a| == |b|
    ensures a == b <==> forall i :: 0 <= i < |a| ==> a[i] == b[i]
  {
  }

  lemma SizeReads(n: nat)
    ensures NoBreak(ToBase(n, 16)) && DecodeSize(ToBase(n, 16)) == Some(n)
  {
    FromToBase(n, 16);
    var t := ToBase(n, 16);
    forall b | b in t ensures b != CR && b != LF {
      var k :| 0 <= k < |t| && t[k] == b;
      assert 0 <= DigitValue(t[k]) < 16;
    }
    HexRunAll(t, 0);
    assert t[0..|t|] == t;
  }

  lemma {:induction false} HexRunAll(t: bytes, i: nat)
    requires i <= |t| && AllDigits(t, 16)
    ensures HexRun(t, i) == |t|
    decreases |t| - i
  {
    if i < |t| {
      assert 0 <= DigitValue(t[i]) < 16;
      HexRunAll(t, i + 1);
    }
  }

  /** Chunk data in front of what decoding the rest gives. */
  function Before(d: bytes, r: Option<(bytes, nat)>): Option<(bytes, nat)> {
    match r
    case None => None
    case Some((rest, next)) => Some((d + rest, next))
  }

  lemma BeforeTwice(a: bytes, b: bytes, r: Option<(bytes, nat)>)
    ensures Before(a, Before(b, r)) == Before(a + b, r) && Before([], r) == r
  {
    match r
    case None =>
    case Some((rest, _)) =>
      assert a + b + rest == a + (b + rest);
      assert [] + rest == rest;
  }

  lemma ChunkParts(s: bytes, p: nat, data: bytes, n: nat)
    requires 0 < n <= |data| && At(s, p, ChunkOf(data, n))
    ensures var size := ToBase(n, 16); var q := p + |size| + 2;
      && At(s, p, size + CRLF) && q + n + 2 == p + |ChunkOf(data, n)| <= |s|
      && s[q..q + n] == data[..n] && s[q + n] == CR && s[q + n + 1] == LF
  {
    hide At, ToBase;
    var size := ToBase(n, 16);
    ThreeParts(size, CRLF, data[..n], CRLF);
    AtConcat(s, p, size + CRLF, data[..n] + CRLF);
    AtConcat(s, p + |size| + 2, data[..n], CRLF);
    SliceAt(s, p + |size| + 2, data[..n]);
    CrlfAt(s, p + |size| + 2 + n);
  }

  lemma ChunkAt(s: bytes, p: nat, data: bytes, n: nat)
    requires 0 < n <= |data| && At(s, p, ChunkOf(data, n))
    ensures var q := p + |ChunkOf(data, n)|; q <= |s| && DecodeChunks(s, p) == Before(data[..n], DecodeChunks(s, q))
  {
    hide At, FindLine, DecodeSize, ToBase, NoBreak, ChunkOf, DecodeChunks;
    ChunkParts(s, p, data, n);
    SizeReads(n);
    LineAt(s, p, ToBase(n, 16));
    DecodeChunkStep(s, p, p + |ToBase(n, 16)|, n);
  }

  /** The decoder at a chunk of `n` bytes whose size line ends at `e`. */
  lemma DecodeChunkStep(s: bytes, p: nat, e: nat, n: nat)
    requires p <= |s| && FindLine(s, p) == Some(e) && DecodeSize(s[p..e]) == Some(n) && n > 0
    requires e + 2 + n + 2 <= |s| && s[e + 2 + n] == CR && s[e + 2 + n + 1] == LF
    ensures DecodeChunks(s, p) == Before(s[e + 2..e + 2 + n], DecodeChunks(s, e + 2 + n + 2))
  {
    hide FindLine, DecodeSize, DecodeFields;
  }

  lemma CrlfAt(s: bytes, p: nat)
    requires At(s, p, CRLF)
    ensures p + 2 <= |s| && s[p] == CR && s[p + 1] == LF
  {
    assert s[p..p + 2] == [s[p], s[p + 1]];
  }

  lemma ChunksStep(data: bytes, len: nat)
    requires len <= |data|
    ensures len == 0 ==> ChunksOf(data, len) == [] && Payload(data, len) == []
    ensures len > 0 ==>
      var small := Min(len, UINT16_MAX);
      && ChunksOf(data, len) == ChunkOf(data, small) + ChunksOf(data, len - small)
      && Payload(data, len) == data[..small] + Payload(data, len - small)
  {
    hide ChunkOf;
  }

  lemma {:induction false} ChunksAt(s: bytes, p: nat, data: bytes, len: nat)
    requires len <= |data| && At(s, p, ChunksOf(data, len))
    ensures var q := p + |ChunksOf(data, len)|;
      q <= |s| && DecodeChunks(s, p) == Before(Payload(data, len), DecodeChunks(s, q))
    decreases len
  {
    hide At, DecodeChunks, ChunkOf, Before, ChunksOf, Payload;
    AtWithin(s, p, ChunksOf(data, len));
    ChunksStep(data, len);
    if len == 0 {
      BeforeTwice([], [], DecodeChunks(s, p));
    } else {
      var small := Min(len, UINT16_MAX);
      var first := ChunkOf(data, small);
      AtConcat(s, p, first, ChunksOf(data, len - small));
      ChunkAt(s, p, data, small);
      ChunksAt(s, p + |first|, data, len - small);
      BeforeTwice(data[..small], Payload(data, len - small), DecodeChunks(s, p + |ChunksOf(data, len)|));
    }
  }

  lemma LastChunkAt(s: bytes, p: nat)
    requires At(s, p, LAST_CHUNK)
    ensures p + 5 <= |s| && DecodeChunks(s, p) == Some(([], p + 5))
  {
    var zero: bytes := [0x30];
    assert LAST_CHUNK == (zero + CRLF) + ([] + CRLF);
    AtConcat(s, p, zero + CRLF, [] + CRLF);
    assert NoBreak(zero) && NoBreak([]);
    LineAt(s, p, zero);
    LineAt(s, p + 3, []);
    assert zero == ToBase(0, 16);
    SizeReads(0);
  }

  /** Several `send_data` calls in a row. */
  function SendAll(r: Response, ds: seq<bytes>): (w: Written)
    decreases |ds|
  {
    if ds == [] then Written(r, [])
    else
      var first := SendData(r, ds[0]);
      var rest := SendAll(first.state, ds[1..]);
      Written(rest.state, first.wire + rest.wire)
  }

  /** The chunks of all calls, and what they carry. */
  function AllChunks(ds: seq<bytes>): (r: bytes) {
    if ds == [] then [] else ChunksOf(ds[0], |ds[0]|) + AllChunks(ds[1..])
  }

  function AllPayloads(ds: seq<bytes>): (r: bytes) {
    if ds == [] then [] else Payload(ds[0], |ds[0]|) + AllPayloads(ds[1..])
  }

  /** Several calls carry the concatenation of their data exactly when each call carries its own. */
  lemma {:induction false} PayloadsAreData(ds: seq<bytes>)
    ensures AllPayloads(ds) == Joined(ds) <==> forall d <- ds :: Repeats(d)
    ensures |AllPayloads(ds)| == |Joined(ds)|
  {
    hide Repeats, Payload;
    if ds != [] {
      var p, rest := Payload(ds[0], |ds[0]|), AllPayloads(ds[1..]);
      PayloadIsData(ds[0]);
      PayloadsAreData(ds[1..]);
      SameParts(p, rest, ds[0], Joined(ds[1..]));
      assert ds == [ds[0]] + ds[1..];
    }
  }

  lemma SameParts(a: bytes, b: bytes, c: bytes, d: bytes)
    requires |a| == |c|
    ensures a + b == c + d <==> a == c && b == d
  {
    if a + b == c + d {
      assert (a + b)[..|a|] == a && (c + d)[..|a|] == c;
      assert (a + b)[|a|..] == b && (c + d)[|a|..] == d;
    }
  }

  lemma {:induction false} SendAllSent(r: Response, ds: seq<bytes>)
    requires r.sent && r.chunked
    ensures SendAll(r, ds) == Written(r, AllChunks(ds))
    decreases |ds|
  {
    if ds != [] {
      assert [] + ChunksOf(ds[0], |ds[0]|) == ChunksOf(ds[0], |ds[0]|);
      SendAllSent(r, ds[1..]);
    }
  }

  lemma {:induction false} AllChunksAt(s: bytes, p: nat, ds: seq<bytes>)
    requires At(s, p, AllChunks(ds) + LAST_CHUNK)
    ensures DecodeChunks(s, p) == Some((AllPayloads(ds), p + |AllChunks(ds)| + 5)) && p + |AllChunks(ds)| + 5 <= |s|
    decreases |ds|
  {
    hide At, DecodeChunks, ChunksOf, Payload;
    if ds == [] {
      assert AllChunks(ds) + LAST_CHUNK == LAST_CHUNK;
      LastChunkAt(s, p);
    } else {
      var first := ChunksOf(ds[0], |ds[0]|);
      Regroup(first, AllChunks(ds[1..]), LAST_CHUNK);
      AtConcat(s, p, first, AllChunks(ds[1..]) + LAST_CHUNK);
      ChunksAt(s, p, ds[0], |ds[0]|);
      AllChunksAt(s, p + |first|, ds[1..]);
    }
  }

  /** The headers that `send_data` sends when no framing was set. */
  function StreamHeaders(h: seq<Field>): (r: seq<Field>) { Set(h, TransferEncoding(), Chunked(), true) }

  lemma StreamFraming(h: seq<Field>, status: int)
    requires Sorted(h) && AllClean(h)
    ensures var h' := StreamHeaders(h);
      && AllClean(h') && Get(h', TransferEncoding()) == Chunked()
      && FramingOf(status, AllReceived(h')) == if Bodyless(status) then NoBody else ChunkedBody
  {
    hide Values, Clean, Set, Trim, Get, Same;
    var h' := StreamHeaders(h);
    ChunkedIsClean();
    SetValues(h, TransferEncoding(), Chunked());
    assert Same(TransferEncoding(), TransferEncoding()) by { SameSelf(TransferEncoding()); }
    GetIsFirst(h', TransferEncoding());
    ReceivedValues(h', TransferEncoding());
    TightTrim(Chunked());
  }

  lemma StreamWire(r: Response, ds: seq<bytes>)
    requires Fresh(r) && !Has(r.headers, ContentLength()) && !Has(r.headers, TransferEncoding()) && ds != []
    ensures var w := SendAll(r, ds);
      w.wire + End(w.state).wire == Head(r.status, r.message, StreamHeaders(r.headers)) + (AllChunks(ds) + LAST_CHUNK)
  {
    hide Head, Has, Get, Set, ChunksOf, SendData, End, SendAll, StreamHeaders;
    var head, first := Head(r.status, r.message, StreamHeaders(r.headers)), ChunksOf(ds[0], |ds[0]|);
    var state := Response(r.status, [], [], true, true);
    FirstCall(r, ds[0]);
    SendAllSent(state, ds[1..]);
    SendAllStep(r, ds);
    LastChunkWire(state);
    AssembleWire(head, first, AllChunks(ds[1..]), LAST_CHUNK);
  }

  /** The first call sends the head and its own chunks. */
  lemma FirstCall(r: Response, data: bytes)
    requires Fresh(r) && !Has(r.headers, ContentLength()) && !Has(r.headers, TransferEncoding())
    ensures SendData(r, data) == Written(Response(r.status, [], [], true, true),
                                         Head(r.status, r.message, StreamHeaders(r.headers)) + ChunksOf(data, |data|))
  {
    hide Head, Has, Get, Set, ChunksOf;
    StreamFraming(r.headers, r.status);
  }

  lemma SendAllStep(r: Response, ds: seq<bytes>)
    requires ds != []
    ensures var first := SendData(r, ds[0]); var rest := SendAll(first.state, ds[1..]);
      SendAll(r, ds) == Written(rest.state, first.wire + rest.wire)
  {
  }

  lemma LastChunkWire(r: Response)
    requires r.sent && r.chunked
    ensures End(r).wire == LAST_CHUNK
  {
    assert [] + LAST_CHUNK == LAST_CHUNK;
  }

  lemma AssembleWire(a: bytes, b: bytes, c: bytes, d: bytes)
    ensures (a + b) + c + d == a + ((b + c) + d)
  {
  }

  /**
    Any number of `send_data` calls and `end()` on a fresh response without framing headers: the client
    reads back the payloads of the calls in order, exactly when the status has three digits and allows a body;
    they are the concatenated data exactly when in each call every block of 65535 bytes repeats the first.
   */
  lemma StreamedResponse(r: Response, ds: seq<bytes>, s: bytes, p: nat)
    requires Fresh(r) && !Has(r.headers, ContentLength()) && !Has(r.headers, TransferEncoding()) && ds != []
    requires At(s, p, SendAll(r, ds).wire + End(SendAll(r, ds).state).wire)
    ensures var wire := SendAll(r, ds).wire + End(SendAll(r, ds).state).wire;
      var m := Message(r.status, AllReceived(StreamHeaders(r.headers)), AllPayloads(ds), p + |wire|);
      p <= |s| && (Decode(s, p) == Some(m) <==> ThreeDigits(r.status) && !Bodyless(r.status))
    ensures AllPayloads(ds) == Joined(ds) <==> forall d <- ds :: Repeats(d)
    ensures forall d <- ds :: |d| <= 65535 ==> Repeats(d)
  {
    hide At, Has, End, SendAll, Decode, StreamHeaders, AllPayloads, Joined, Repeats, Fresh, Bodyless;
    StreamDecodes(r, ds, s, p);
    PayloadsAreData(ds);
    forall d | d in ds && |d| <= 65535 ensures Repeats(d) { ShortRepeats(d); }
  }

  lemma StreamDecodes(r: Response, ds: seq<bytes>, s: bytes, p: nat)
    requires Fresh(r) && !Has(r.headers, ContentLength()) && !Has(r.headers, TransferEncoding()) && ds != []
    requires At(s, p, SendAll(r, ds).wire + End(SendAll(r, ds).state).wire)
    ensures var wire := SendAll(r, ds).wire + End(SendAll(r, ds).state).wire;
      var m := Message(r.status, AllReceived(StreamHeaders(r.headers)), AllPayloads(ds), p + |wire|);
      p <= |s| && (Decode(s, p) == Some(m) <==> ThreeDigits(r.status) && !Bodyless(r.status))
  {
    hide At, Head, Has, Get, Set, End, SendAll, Decode, FramingOf, StreamHeaders, AllChunks, DecodeChunks;
    var h' := StreamHeaders(r.headers);
    var head, chunks := Head(r.status, r.message, h'), AllChunks(ds) + LAST_CHUNK;
    StreamWire(r, ds);
    StreamFraming(r.headers, r.status);
    AtConcat(s, p, head, chunks);
    HeadReads(s, p, r.status, r.message, h');
    AllChunksAt(s, p + |head|, ds);
  }

  /** A body of 65536 bytes that the client gets, but not as it was sent. */
  lemma LongBodyIsGarbled()
    ensures var data: bytes := seq(65536, i => if i == 65535 then 1 else 0);
      var w := SendData(RESET, data); var s := w.wire + End(w.state).wire;
      Decode(s, 0).Some? && |Decode(s, 0).value.body| == |data| && Decode(s, 0).value.body != data
  {
    hide SendData, End, Decode, AllPayloads, Has, StreamHeaders;
    var data: bytes := seq(65536, i => if i == 65535 then 1 else 0);
    assert !Repeats(data) by { assert data[65535] == 1 && InFirstBlock(data, 65535) == data[0] == 0; }
    OneCall(RESET, data);
    var w := SendData(RESET, data);
    var s := w.wire + End(w.state).wire;
    AtPrefix(s, []);
    assert s + [] == s;
    assert !Has([], ContentLength()) && !Has([], TransferEncoding()) by { NoFields(); }
    PayloadsAreData([data]);
    StreamedResponse(RESET, [data], s, 0);
  }

  lemma NoFields()
    ensures !Has([], ContentLength()) && !Has([], TransferEncoding())
  {
  }

  lemma OneCall(r: Response, data: bytes)
    ensures SendAll(r, [data]) == SendData(r, data) && Joined([data]) == data
  {
    hide SendData;
    assert [data][1..] == [];
    var w := SendData(r, data);
    assert w.wire + [] == w.wire && data + [] == data;
  }

  /** `end()` alone: an empty body of length 0. */
  lemma EmptyResponse(r: Response, s: bytes, p: nat)
    requires Fresh(r) && !Has(r.headers, ContentLength()) && !Has(r.headers, TransferEncoding())
    requires At(s, p, End(r).wire)
    ensures var m := Message(r.status, AllReceived(SizedHeaders(r.headers, 0)), [], p + |End(r).wire|);
      p <= |s| && (Decode(s, p) == Some(m) <==> ThreeDigits(r.status))
  {
    hide At, Has, Get, Set, Decode, FramingOf, StatusLine, FieldLines;
    assert End(r).wire == EndWith(r, []).wire by { EmptyWire(r); }
    SizedResponse(r, [], s, p);
  }

  lemma EmptyWire(r: Response)
    requires Fresh(r) && !Has(r.headers, ContentLength()) && !Has(r.headers, TransferEncoding())
    ensures End(r).wire == EndWith(r, []).wire
  {
    hide Head, Has, Get, Set;
    SizedWire(r, []);
    SizedFraming(r.headers, 0, r.status);
    assert PrintInt(0) == [0x30];
    assert Chunked() != [];
  }
}
