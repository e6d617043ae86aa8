/** A reference client: the response message decoder of RFC 9112 (sections 2.1, 4, 5, 6.3 and 7.1). */
module HttpClient {
  import opened Bytes
  import opened Numerals
  import opened HttpHeaders

  /** A decoded message and the position after it. */
  datatype Message = Message(status: int, fields: seq<Field>, body: bytes, next: nat)

  datatype Framing = NoBody | ChunkedBody | Sized(n: nat) | UntilClose | Invalid

  /** The first CRLF at or after `p`. */
  function FindLine(s: bytes, p: nat): (r: Option<nat>)
    requires p <= |s|
    ensures r.Some? ==> p <= r.value && r.value + 2 <= |s|
    decreases |s| - p
  {
    if p + 2 > |s| then None
    else if s[p] == CR && s[p + 1] == LF then Some(p)
    else FindLine(s, p + 1)
  }

  /** Section 4: HTTP-version SP three digits SP [reason-phrase]. */
  function DecodeStatus(line: bytes): (r: Option<int>) {
    if |line| >= 13 && line[..9] == Ascii("HTTP/1.1 ") && line[12] == SPACE
       && IsDecimal(line[9]) && IsDecimal(line[10]) && IsDecimal(line[11])
    then Some((line[9] as int - 0x30) * 100 + (line[10] as int - 0x30) * 10 + (line[11] as int - 0x30))
    else None
  }

  predicate IsBlank(b: byte) { b == SPACE || b == TAB }

  function TrimLeft(t: bytes): (r: bytes) {
    if t != [] && IsBlank(t[0]) then TrimLeft(t[1..]) else t
  }

  function TrimRight(t: bytes): (r: bytes) {
    if t != [] && IsBlank(t[|t| - 1]) then TrimRight(t[..|t| - 1]) else t
  }

  function Trim(t: bytes): (r: bytes) { TrimRight(TrimLeft(t)) }

  function FindColon(line: bytes, i: nat): (r: Option<nat>)
    requires i <= |line|
    ensures r.Some? ==> i <= r.value < |line|
    decreases |line| - i
  {
    if i == |line| then None else if line[i] == COLON then Some(i) else FindColon(line, i + 1)
  }

  /** Section 5: field-name ":" OWS field-value OWS; the name is not empty and holds no blank. */
  function DecodeField(line: bytes): (r: Option<Field>) {
    match FindColon(line, 0)
    case None => None
    case Some(i) =>
      if i == 0 || exists k :: 0 <= k < i && IsBlank(line[k]) then None
      else Some(Field(line[..i], Trim(line[i + 1..])))
  }

  /** Field lines up to an empty line. */
  function DecodeFields(s: bytes, p: nat): (r: Option<(seq<Field>, nat)>)
    requires p <= |s|
    ensures r.Some? ==> p < r.value.1 <= |s|
    decreases |s| - p
  {
    match FindLine(s, p)
    case None => None
    case Some(e) =>
      if e == p then Some(([], p + 2))
      else
        match DecodeField(s[p..e])
        case None => None
        case Some(f) =>
          match DecodeFields(s, e + 2)
          case None => None
          case Some((fs, q)) => Some(([f] + fs, q))
  }

  /** Responses that end with their header section whatever the fields say. */
  predicate Bodyless(status: int) { 100 <= status <= 199 || status == 204 || status == 304 }

  predicate IsLength(t: bytes) { t != [] && forall b <- t :: IsDecimal(b) }

  lemma LengthIsNumeral(t: bytes)
    requires IsLength(t)
    ensures AllDigits(t, 10)
  {
    forall i | 0 <= i < |t| ensures 0 <= DigitValue(t[i]) < 10 {
      assert t[i] in t;
    }
  }

  /** Section 6.3: what delimits the body. */
  function FramingOf(status: int, fields: seq<Field>): (r: Framing) {
    var codings := Values(fields, Ascii("transfer-encoding"));
    var lengths := Values(fields, Ascii("content-length"));
    if Bodyless(status) then NoBody
    else if codings != [] then
      if |codings| == 1 && LowerAll(codings[0]) == Ascii("chunked") then ChunkedBody else UntilClose
    else if lengths != [] then
      if IsLength(lengths[0]) && forall k :: 0 <= k < |lengths| ==> lengths[k] == lengths[0]
      then LengthIsNumeral(lengths[0]); Sized(FromBase(lengths[0], 10))
      else Invalid
    else UntilClose
  }

  function HexRun(t: bytes, i: nat): (e: nat)
    requires i <= |t|
    ensures i <= e <= |t| && AllDigits(t[i..e], 16)
    decreases |t| - i
  {
    if i < |t| && DigitValue(t[i]) != -1 then
      assert t[i..HexRun(t, i + 1)] == [t[i]] + t[i + 1..HexRun(t, i + 1)];
      HexRun(t, i + 1)
    else i
  }

  /** chunk-size [ chunk-ext ] */
  function DecodeSize(line: bytes): (r: Option<nat>) {
    var e := HexRun(line, 0);
    if e == 0 || (e < |line| && line[e] != 0x3B && !IsBlank(line[e])) then None else Some(FromBase(line[0..e], 16))
  }

  /** Section 7.1: chunks up to the last one, then the trailer section. */
  function DecodeChunks(s: bytes, p: nat): (r: Option<(bytes, nat)>)
    requires p <= |s|
    ensures r.Some? ==> p < r.value.1 <= |s|
    decreases |s| - p
  {
    match FindLine(s, p)
    case None => None
    case Some(e) =>
      match DecodeSize(s[p..e])
      case None => None
      case Some(n) =>
        if n == 0 then
          match DecodeFields(s, e + 2)
          case None => None
          case Some((_, q)) => Some(([], q))
        else if e + 2 + n + 2 > |s| || s[e + 2 + n] != CR || s[e + 2 + n + 1] != LF then None
        else
          match DecodeChunks(s, e + 2 + n + 2)
          case None => None
          case Some((rest, q)) => Some((s[e + 2..e + 2 + n] + rest, q))
  }

  function DecodeBody(s: bytes, p: nat, framing: Framing): (r: Option<(bytes, nat)>)
    requires p <= |s|
    ensures r.Some? ==> p <= r.value.1 <= |s|
  {
    match framing
    case NoBody => Some(([], p))
    case ChunkedBody => DecodeChunks(s, p)
    case Sized(n) => if p + n <= |s| then Some((s[p..p + n], p + n)) else None
    case UntilClose => Some((s[p..], |s|))
    case Invalid => None
  }

  /** One response message. */
  function Decode(s: bytes, p: nat): (r: Option<Message>)
    requires p <= |s|
    ensures r.Some? ==> p < r.value.next <= |s|
  {
    match FindLine(s, p)
    case None => None
    case Some(e) =>
      match DecodeStatus(s[p..e])
      case None => None
      case Some(status) =>
        match DecodeFields(s, e + 2)
        case None => None
        case Some((fields, q)) =>
          match DecodeBody(s, q, FramingOf(status, fields))
          case None => None
          case Some((body, next)) => Some(Message(status, fields, body, next))
  }

  /** All messages of the stream. */
  function DecodeAll(s: bytes, p: nat): (r: Option<seq<Message>>)
    requires p <= |s|
    decreases |s| - p
  {
    if p == |s| then Some([])
    else
      match Decode(s, p)
      case None => None
      case Some(m) =>
        match DecodeAll(s, m.next)
        case None => None
        case Some(ms) => Some([m] + ms)
  }
}
