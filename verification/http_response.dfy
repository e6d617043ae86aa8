/** The response side of `http_connection`: what each call writes, and the state it leaves. */
module HttpResponse {
  import opened Bytes
  import opened Numerals
  import opened HttpHeaders

  const CRLF: bytes := [CR, LF]
  const UINT16_MAX: nat := 65535

  function ContentLength(): (r: bytes) { Ascii("content-length") }

  function TransferEncoding(): (r: bytes) { Ascii("transfer-encoding") }

  function Chunked(): (r: bytes) { Ascii("chunked") }

  datatype Response = Response(status: int, message: bytes, headers: seq<Field>, sent: bool, chunked: bool)

  /** The state after a call and the bytes it wrote. */
  datatype Written = Written(state: Response, wire: bytes)

  datatype Entry = Entry(status: int, phrase: Printed)

  const INFORMATIONAL: seq<Entry> := [
    Entry(100, "Continue"), Entry(101, "Switching Protocols"), Entry(102, "Processing")
  ]

  const SUCCESS: seq<Entry> := [
    Entry(200, "OK"), Entry(201, "Created"), Entry(202, "Accepted"), Entry(203, "Non-authoritative Information"),
    Entry(204, "No Content"), Entry(205, "Reset Content"), Entry(206, "Partial Content"), Entry(207, "Multi-Status"),
    Entry(208, "Already Reported"), Entry(226, "IM Used")
  ]

  const REDIRECTION: seq<Entry> := [
    Entry(300, "Multiple Choices"), Entry(301, "Moved Permanently"), Entry(302, "Found"), Entry(303, "See Other"),
    Entry(304, "Not Modified"), Entry(305, "Use Proxy"), Entry(307, "Temporary Redirect"),
    Entry(308, "Permanent Redirect")
  ]

  const CLIENT_40X: seq<Entry> := [
    Entry(400, "Bad Request"), Entry(401, "Unauthorized"), Entry(402, "Payment Required"), Entry(403, "Forbidden"),
    Entry(404, "Not Found"), Entry(405, "Method Not Allowed"), Entry(406, "Not Acceptable"),
    Entry(407, "Proxy Authentication Required"), Entry(408, "Request Timeout"), Entry(409, "Conflict")
  ]

  const CLIENT_41X: seq<Entry> := [
    Entry(410, "Gone"), Entry(411, "Length Required"), Entry(412, "Precondition Failed"),
    Entry(413, "Payload Too Large"), Entry(414, "Request-URI Too Long"), Entry(415, "Unsupported Media Type"),
    Entry(416, "Requested Range Not Satisfiable"), Entry(417, "Expectation Failed"), Entry(418, "I'm a teapot")
  ]

  const CLIENT_42X: seq<Entry> := [
    Entry(421, "Misdirected Request"), Entry(422, "Unprocessable Entity"), Entry(423, "Locked"),
    Entry(424, "Failed Dependency"), Entry(426, "Upgrade Required"), Entry(428, "Precondition Required"),
    Entry(429, "Too Many Requests"), Entry(431, "Request Header Fields Too Large"),
    Entry(444, "Connection Closed Without Response")
  ]

  const CLIENT_REST: seq<Entry> := [
    Entry(451, "Unavailable For Legal Reasons"), Entry(499, "Client Closed Request")
  ]

  const SERVER_50X: seq<Entry> := [
    Entry(500, "Internal Server Error"), Entry(501, "Not Implemented"), Entry(502, "Bad Gateway"),
    Entry(503, "Service Unavailable"), Entry(504, "Gateway Timeout"), Entry(505, "HTTP Version Not Supported")
  ]

  const SERVER_REST: seq<Entry> := [
    Entry(506, "Variant Also Negotiates"), Entry(507, "Insufficient Storage"), Entry(508, "Loop Detected"),
    Entry(510, "Not Extended"), Entry(511, "Network Authentication Required"),
    Entry(599, "Network Connect Timeout Error")
  ]

  /** `http_status_map` */
  const PHRASES: seq<Entry> :=
    INFORMATIONAL + SUCCESS + REDIRECTION + CLIENT_40X
    + CLIENT_41X + CLIENT_42X + CLIENT_REST + SERVER_50X + SERVER_REST

  /** The phrase of the last of the first `n` entries with that status; "OK" when there is none. */
  function LastPhrase(table: seq<Entry>, status: int, n: nat): (r: Printed)
    requires n <= |table|
  {
    if n == 0 then "OK"
    else if table[n - 1].status == status then table[n - 1].phrase
    else LastPhrase(table, status, n - 1)
  }

  /** The phrase is the one of the status, if the table has the status once; "OK" if it does not have it. */
  lemma {:induction false} PhraseFound(table: seq<Entry>, status: int, n: nat, i: nat)
    requires n <= |table|
    ensures (forall k :: 0 <= k < n ==> table[k].status != status) ==> LastPhrase(table, status, n) == "OK"
    ensures i < n && table[i].status == status && (forall k :: i < k < n ==> table[k].status != status)
      ==> LastPhrase(table, status, n) == table[i].phrase
  {
    if n > 0 { PhraseFound(table, status, n - 1, i); }
  }

  function Phrase(status: int): (r: bytes)
    ensures NoBreak(r)
  {
    var t := LastPhrase(PHRASES, status, |PHRASES|);
    PrintedNoBreak(t);
    Ascii(t)
  }

  lemma PrintedNoBreak(t: Printed)
    ensures NoBreak(Ascii(t))
  {
    forall b | b in Ascii(t) ensures b != CR && b != LF {
      var i :| 0 <= i < |t| && Ascii(t)[i] == b;
      assert t[i] >= ' ';
    }
  }

  /** No CR and no LF. */
  predicate NoBreak(t: bytes) { forall b <- t :: b != CR && b != LF }

  function SetStatus(r: Response, status: int, msg: bytes): (w: Response) {
    r.(status := status, message := if msg == [] then Phrase(status) else msg)
  }

  function StatusLine(status: int, message: bytes): (r: bytes) {
    Ascii("HTTP/1.1 ") + PrintInt(status) + [SPACE] + message
  }

  function FieldLine(f: Field): (r: bytes) { f.name + [COLON, SPACE] + f.value }

  function FieldLines(h: seq<Field>, k: nat): (r: bytes)
    requires k <= |h|
    decreases |h| - k
  {
    if k == |h| then [] else FieldLine(h[k]) + CRLF + FieldLines(h, k + 1)
  }

  function Head(status: int, message: bytes, h: seq<Field>): (r: bytes) {
    StatusLine(status, message) + CRLF + FieldLines(h, 0) + CRLF
  }

  /** `send_headers` */
  function SendHeaders(r: Response): (w: Written) {
    if r.sent then Written(r, [])
    else
      Written(Response(r.status, [], [], true, r.chunked || Get(r.headers, TransferEncoding()) == Chunked()),
              Head(r.status, r.message, r.headers))
  }

  function Min(a: nat, b: nat): nat { if a < b then a else b }

  function ChunkHead(n: nat): (r: bytes) { ToBase(n, 16) + CRLF }

  /** One chunk: its size and the first `n` bytes of `data`. */
  function ChunkOf(data: bytes, n: nat): (r: bytes)
    requires n <= |data|
  {
    ChunkHead(n) + data[..n] + CRLF
  }

  /** The chunk loop of `send_data`: `data` is not advanced between chunks. */
  function ChunksOf(data: bytes, len: nat): (r: bytes)
    requires len <= |data|
  {
    if len == 0 then []
    else
      var small := Min(len, UINT16_MAX);
      ChunkOf(data, small) + ChunksOf(data, len - small)
  }

  /** The headers `send_data` sends: chunked coding unless the framing was set. */
  function DataHeaders(h: seq<Field>): (r: seq<Field>) {
    if !Has(h, ContentLength()) && !Has(h, TransferEncoding()) then Set(h, TransferEncoding(), Chunked(), true) else h
  }

  /** `send_data` */
  function SendData(r: Response, data: bytes): (w: Written) {
    var head := if r.sent then Written(r, []) else SendHeaders(r.(headers := DataHeaders(r.headers)));
    Written(head.state, head.wire + if head.state.chunked then ChunksOf(data, |data|) else data)
  }

  const LAST_CHUNK: bytes := [0x30, CR, LF, CR, LF]

  /** The response state after `end`: the reason phrase is empty, not the initial "OK". */
  const RESET: Response := Response(200, [], [], false, false)

  /** `end()` */
  function End(r: Response): (w: Written) {
    var head :=
      if r.sent then Written(r, [])
      else
        SendHeaders(if Has(r.headers, ContentLength()) then r
                    else r.(headers := Set(r.headers, ContentLength(), [0x30], true)));
    Written(RESET, head.wire + if head.state.chunked then LAST_CHUNK else [])
  }

  /** `end(data)` */
  function EndWith(r: Response, data: bytes): (w: Written) {
    var r1 := if r.sent then r else r.(headers := Set(r.headers, ContentLength(), PrintInt(|data|), true));
    var body := SendData(r1, data);
    var tail := End(body.state);
    Written(tail.state, body.wire + tail.wire)
  }
}
