/**
  The connection object: the fields and methods of `http_connection` and of `plugin_http_connection`
  in one class, each method tied to the state machine of `PluginSpec`.
 */
module PluginConnection {
  import opened Bytes
  import opened Numerals
  import opened JsonValue
  import opened JsonLayout
  import opened HttpHeaders
  import opened HttpResponse
  import opened PluginSpec
  import JsonWriter

  class Connection {
    const drivers: Drivers
    const requestHeaders: HeaderSet
    const responseHeaders: HeaderSet
    var buffer: bytes
    var bufferBody: bool
    var bufferHeaders: bool
    var current: Option<nat>
    var url: bytes
    var responseStatus: int
    var responseMessage: bytes
    var headersSent: bool
    var responseChunked: bool
    /** Everything written to the socket, when every send succeeds. */
    var wire: bytes
    /** `on_read` has closed the socket. */
    var closed: bool

    ghost predicate Valid()
      reads this, requestHeaders, responseHeaders
    {
      requestHeaders != responseHeaders && Sorted(responseHeaders.fields)
    }

    ghost function Resp(): Response
      reads this, responseHeaders
    {
      Response(responseStatus, responseMessage, responseHeaders.fields, headersSent, responseChunked)
    }

    ghost function State(): Conn
      reads this, requestHeaders, responseHeaders
    {
      Conn(buffer, bufferBody, bufferHeaders, requestHeaders.fields, current, url, Resp())
    }

    constructor (registered: Drivers)
      ensures Valid() && drivers == registered && wire == [] && !closed
      ensures fresh(requestHeaders) && fresh(responseHeaders)
      ensures State() == Conn([], false, false, [], None, [], Response(200, Ascii("OK"), [], false, false))
    {
      drivers := registered;
      requestHeaders := new HeaderSet();
      responseHeaders := new HeaderSet();
      buffer, bufferBody, bufferHeaders, current, url := [], false, false, None, [];
      responseStatus, responseMessage, headersSent, responseChunked := 200, Ascii("OK"), false, false;
      wire, closed := [], false;
    }

    /** `uds_connection::write`, when every send succeeds. */
    method Write(data: bytes)
      modifies this`wire
      ensures wire == old(wire) + data
    {
      wire := wire + data;
    }

    method SetResponseStatus(status: int, msg: bytes)
      requires Valid()
      modifies this`responseStatus, this`responseMessage
      ensures Valid() && Resp() == SetStatus(old(Resp()), status, msg)
    {
      responseStatus := status;
      if msg == [] {
        var phrase := FindPhrase(PHRASES, status);
        responseMessage := Ascii(phrase);
      } else {
        responseMessage := msg;
      }
    }

    /** The loop over the phrase table. */
    static method FindPhrase(table: seq<Entry>, status: int) returns (phrase: Printed)
      ensures phrase == LastPhrase(table, status, |table|)
    {
      phrase := "OK";
      for i := 0 to |table|
        invariant phrase == LastPhrase(table, status, i)
      {
        if table[i].status == status {
          phrase := table[i].phrase;
        }
      }
    }

    /** The text of the header section. */
    method HeaderText() returns (text: bytes)
      ensures text == Head(responseStatus, responseMessage, responseHeaders.fields)
    {
      var fields := responseHeaders.fields;
      text := StatusLine(responseStatus, responseMessage) + CRLF;
      ghost var all := text + FieldLines(fields, 0);
      for i := 0 to |fields|
        invariant text + FieldLines(fields, i) == all
      {
        ghost var before := text;
        text := text + (FieldLine(fields[i]) + CRLF);
        Regroup(before, FieldLine(fields[i]) + CRLF, FieldLines(fields, i + 1));
      }
      assert text + FieldLines(fields, |fields|) == text;
      text := text + CRLF;
    }

    method SendHeaders()
      requires Valid()
      modifies this`wire, this`headersSent, this`responseChunked, this`responseMessage, responseHeaders
      ensures Valid()
      ensures var w := HttpResponse.SendHeaders(old(Resp())); Resp() == w.state && wire == old(wire) + w.wire
      ensures headersSent
    {
      hide Head, Get;
      if headersSent {
        return;
      }
      var text := HeaderText();
      Write(text);
      headersSent := true;
      var coding := responseHeaders.GetField(TransferEncoding());
      GetIsFirst(responseHeaders.fields, TransferEncoding());
      if coding == Chunked() {
        responseChunked := true;
      }
      responseMessage := [];
      responseHeaders.Clear();
    }

    method SendChunks(data: bytes)
      modifies this`wire
      ensures wire == old(wire) + ChunksOf(data, |data|)
    {
      var len := |data|;
      ghost var pre, done: bytes := wire, [];
      while len != 0
        invariant 0 <= len <= |data| && wire == pre + done && done + ChunksOf(data, len) == ChunksOf(data, |data|)
        decreases len
      {
        var small := Min(len, UINT16_MAX);
        SendChunk(data, small);
        len := len - small;
        Regroup(pre, done, ChunkOf(data, small));
        Regroup(done, ChunkOf(data, small), ChunksOf(data, len));
        done := done + ChunkOf(data, small);
      }
      assert done + ChunksOf(data, 0) == done;
    }

    method SendChunk(data: bytes, n: nat)
      requires n <= |data|
      modifies this`wire
      ensures wire == old(wire) + ChunkOf(data, n)
    {
      hide ToBase;
      Write(ToBase(n, 16) + CRLF);
      Write(data[..n]);
      Write(CRLF);
    }

    method SendData(data: bytes)
      requires Valid()
      modifies this`wire, this`headersSent, this`responseChunked, this`responseMessage, responseHeaders
      ensures Valid() && headersSent
      ensures var w := HttpResponse.SendData(old(Resp()), data); Resp() == w.state && wire == old(wire) + w.wire
    {
      hide HttpResponse.SendHeaders, ChunksOf, Values, Set;
      if !headersSent {
        var sized := responseHeaders.HasField(ContentLength());
        var coded := responseHeaders.HasField(TransferEncoding());
        if !sized && !coded {
          SetSorted(responseHeaders.fields, TransferEncoding(), Chunked());
          responseHeaders.SetField(TransferEncoding(), Chunked(), true);
        }
        SendHeaders();
      }
      label sent:
      if responseChunked {
        SendChunks(data);
      } else {
        Write(data);
      }
    }

    lemma SetSorted(h: seq<Field>, key: bytes, value: bytes)
      requires Sorted(h)
      ensures Sorted(Set(h, key, value, true))
    {
      EraseSorted(h, key);
      EmplaceSorted(Erase(h, key), key, value);
    }

    method End()
      requires Valid()
      modifies this, requestHeaders, responseHeaders
      ensures Valid() && closed == old(closed)
      ensures var w := HttpResponse.End(old(Resp()));
        State() == Ended(old(State()), w.state) && wire == old(wire) + w.wire
    {
      hide HttpResponse.SendHeaders, Values, Set, Less;
      if !headersSent {
        var sized := responseHeaders.HasField(ContentLength());
        if !sized {
          SetSorted(responseHeaders.fields, ContentLength(), [0x30]);
          responseHeaders.SetField(ContentLength(), [0x30], true);
        }
        SendHeaders();
      }
      if responseChunked {
        Write(LAST_CHUNK);
      }
      Reset();
    }

    /** The second half of `end`: everything but the URL is as for a new request. */
    method Reset()
      modifies this`buffer, this`bufferBody, this`bufferHeaders, this`current, this`responseStatus
      modifies this`responseMessage, this`headersSent, this`responseChunked, requestHeaders, responseHeaders
      ensures State() == Ended(old(State()), RESET)
    {
      buffer := [];
      bufferBody := false;
      bufferHeaders := false;
      requestHeaders.Clear();
      current := None;
      responseStatus := 200;
      responseMessage := [];
      responseHeaders.Clear();
      headersSent := false;
      responseChunked := false;
    }

    method EndWithData(data: bytes)
      requires Valid()
      modifies this, requestHeaders, responseHeaders
      ensures Valid() && closed == old(closed)
      ensures var w := EndWith(old(Resp()), data); State() == Ended(old(State()), w.state) && wire == old(wire) + w.wire
    {
      hide HttpResponse.SendData, HttpResponse.End, Set;
      if !headersSent {
        SetSorted(responseHeaders.fields, ContentLength(), PrintInt(|data|));
        responseHeaders.SetField(ContentLength(), PrintInt(|data|), true);
      }
      SendData(data);
      End();
    }

    method Send(reply: Reply)
      requires Valid()
      modifies this, requestHeaders, responseHeaders
      ensures Valid() && closed == old(closed)
      ensures var w := SendReply(old(Resp()), reply);
        State() == Ended(old(State()), w.state) && wire == old(wire) + w.wire
    {
      hide EndWith, Set, Phrase;
      if reply.typed {
        SetSorted(responseHeaders.fields, ContentType(), PluginJson());
        responseHeaders.SetField(ContentType(), PluginJson(), true);
      }
      SetResponseStatus(reply.status, []);
      EndWithData(reply.body);
    }

    // ---------- parser callbacks ----------

    method OnMessageBegin() returns (code: int)
      requires Valid()
      modifies this`buffer, this`bufferHeaders, this`bufferBody
      ensures Valid() && Step(State(), [], code) == Next(old(State()), MessageBegin, drivers)
    {
      buffer := [];
      bufferHeaders := true;
      bufferBody := true;
      return 0;
    }

    method OnUrl(t: bytes) returns (code: int)
      requires Valid()
      modifies this`buffer
      ensures Valid() && Step(State(), [], code) == Next(old(State()), UrlFragment(t), drivers)
    {
      buffer := buffer + t;
      return 0;
    }

    method OnUrlComplete(m: Method) returns (code: int)
      requires Valid()
      modifies this, requestHeaders, responseHeaders
      ensures Valid() && closed == old(closed)
      ensures var s := Next(old(State()), UrlComplete(m), drivers);
        State() == s.conn && wire == old(wire) + s.wire && code == s.code
    {
      hide SendReply;
      if m != Post {
        Send(MethodNotAllowed());
        code := 1;
      } else {
        url := buffer;
        code := 0;
        assert wire == wire + [];
      }
      buffer := [];
    }

    method OnHeaderField(t: bytes) returns (code: int)
      requires Valid()
      modifies this`buffer
      ensures Valid() && Step(State(), [], code) == Next(old(State()), FieldFragment(t), drivers)
    {
      buffer := buffer + t;
      return 0;
    }

    method OnHeaderFieldComplete() returns (code: int)
      requires Valid()
      modifies this`buffer, this`current, requestHeaders
      ensures Valid() && Step(State(), [], code) == Next(old(State()), FieldComplete, drivers)
    {
      if bufferHeaders {
        buffer := LowerAll(buffer);
        current := Some(UpperBound(requestHeaders.fields, buffer));
        requestHeaders.fields := Emplace(requestHeaders.fields, buffer, []);
      }
      buffer := [];
      return 0;
    }

    method OnHeaderValue(t: bytes) returns (code: int)
      requires Valid()
      modifies this`buffer
      ensures Valid() && Step(State(), [], code) == Next(old(State()), ValueFragment(t), drivers)
    {
      buffer := buffer + t;
      return 0;
    }

    method OnHeaderValueComplete() returns (code: int)
      requires Valid()
      modifies this`buffer, requestHeaders
      ensures Valid() && Step(State(), [], code) == Next(old(State()), ValueComplete, drivers)
    {
      if bufferHeaders && current.Some? && current.value < |requestHeaders.fields| {
        var i := current.value;
        requestHeaders.fields := requestHeaders.fields[i := requestHeaders.fields[i].(value := buffer)];
      }
      buffer := [];
      return 0;
    }

    method OnHeadersComplete() returns (code: int)
      requires Valid()
      modifies this`buffer
      ensures Valid() && Step(State(), [], code) == Next(old(State()), HeadersComplete, drivers)
    {
      buffer := [];
      return 0;
    }

    method OnBody(t: bytes) returns (code: int)
      requires Valid()
      modifies this`buffer
      ensures Valid() && Step(State(), [], code) == Next(old(State()), BodyFragment(t), drivers)
    {
      if bufferBody {
        buffer := buffer + t;
      }
      return 0;
    }

    method OnMessageComplete(handler: Handler) returns (code: int)
      requires Valid()
      modifies this, requestHeaders, responseHeaders
      ensures Valid() && closed == old(closed)
      ensures var s := Next(old(State()), MessageComplete(handler), drivers);
        State() == s.conn && wire == old(wire) + s.wire && code == s.code
    {
      hide SendReply, Answer;
      if !bufferBody {
        buffer := [];
      }
      var reply := AnswerRequest(handler);
      Send(reply);
      return 0;
    }

    method OnEvent(e: Event) returns (code: int)
      requires Valid()
      modifies this, requestHeaders, responseHeaders
      ensures Valid() && closed == old(closed)
      ensures var s := Next(old(State()), e, drivers);
        State() == s.conn && wire == old(wire) + s.wire && code == s.code
    {
      hide SendReply, Answer, UpperBound, Emplace, LowerAll;
      match e {
        case MessageBegin => code := OnMessageBegin();
        case UrlFragment(t) => code := OnUrl(t);
        case UrlComplete(m) => code := OnUrlComplete(m);
        case FieldFragment(t) => code := OnHeaderField(t);
        case FieldComplete => code := OnHeaderFieldComplete();
        case ValueFragment(t) => code := OnHeaderValue(t);
        case ValueComplete => code := OnHeaderValueComplete();
        case HeadersComplete => code := OnHeadersComplete();
        case BodyFragment(t) => code := OnBody(t);
        case MessageComplete(handler) => code := OnMessageComplete(handler);
      }
      assert old(wire) + [] == old(wire);
    }

    /**
      `on_read`: the callbacks that the parser makes, and a close when one of them fails or when the parser
      then finds the bytes `malformed`.
     */
    method OnRead(es: seq<Event>, malformed: bool)
      requires Valid()
      modifies this, requestHeaders, responseHeaders
      ensures Valid()
      ensures var s := Run(old(State()), es, drivers);
        State() == s.conn && wire == old(wire) + s.wire && closed == (old(closed) || s.code != 0 || malformed)
    {
      hide Next;
      ghost var pre, done: bytes := wire, [];
      var code := 0;
      var i := 0;
      while i < |es| && code == 0
        invariant 0 <= i <= |es| && Valid() && closed == old(closed) && wire == pre + done
        invariant code == 0 ==> var rest := Run(State(), es[i..], drivers);
          Run(old(State()), es, drivers) == Step(rest.conn, done + rest.wire, rest.code)
        invariant code != 0 ==> Run(old(State()), es, drivers) == Step(State(), done, code)
      {
        ghost var s := Next(State(), es[i], drivers);
        assert es[i..][1..] == es[i + 1..];
        code := OnEvent(es[i]);
        i := i + 1;
        Regroup(pre, done, s.wire);
        if code == 0 { Regroup(done, s.wire, Run(State(), es[i..], drivers).wire); }
        done := done + s.wire;
      }
      if code != 0 || malformed {
        closed := true;
      }
    }

    /** The dispatch of `on_message_complete` and the body of `invoke_plugin_handler`. */
    method AnswerRequest(handler: Handler) returns (reply: Reply)
      ensures reply == Answer(drivers, handler, Call(url, requestHeaders.fields, buffer))
    {
      hide Spells, MemberOf;
      var route := RouteOf(url);
      match route {
        case Unknown => return Reply(404, false, NotFound());
        case Activate =>
          var json := ActivateJson();
          return Reply(200, true, json);
        case ToDriver(target) =>
          if !IsRegistered(drivers, target.driver) {
            return Reply(404, true, NotFound());
          }
          match handler(target, Call(url, requestHeaders.fields, buffer)) {
            case Returned(json) => return Reply(200, true, json);
            case ErrorResponse(status, error) =>
              var json := ErrorJson(error);
              return Reply(status, true, json);
            case InvalidArgument(what) =>
              var json := ErrorJson(what);
              return Reply(400, true, json);
            case OtherException(what) =>
              var json := ErrorJson(what);
              return Reply(500, true, json);
          }
      }
    }

    method ErrorJson(error: bytes) returns (json: bytes)
      ensures json == JsonWriter.Serialize(ErrorValue(error), false)
    {
      var obj := Put([], ErrKey(), Str(error));
      json := ToText(Object(obj));
    }

    method ToText(v: Value) returns (json: bytes)
      requires Integral(v)
      ensures json == JsonWriter.Serialize(v, false)
    {
      hide JsonWriter.Write;
      var oi := new JsonWriter.Sink();
      JsonWriter.SerializeTo(v, oi, -1, JsonWriter.Verbatim);
      assert [] + oi.text == oi.text;
      return oi.text;
    }

    /** `plugin_activate` and its `to_json` */
    method ActivateJson() returns (json: bytes)
      ensures json == JsonWriter.Serialize(ActivateValue(drivers), false)
    {
      var implements: seq<bytes> := [];
      if drivers.volume {
        implements := InsertName(implements, Ascii("VolumeDriver"));
      }
      if drivers.network {
        implements := InsertName(implements, Ascii("NetworkDriver"));
      }
      if drivers.ipam {
        implements := InsertName(implements, Ascii("IpamDriver"));
      }
      assert implements == Implemented(drivers);
      var impls: seq<Value> := [];
      for i := 0 to |implements|
        invariant impls == Strings(implements)[..i]
      {
        impls := impls + [Str(implements[i])];
      }
      assert impls == Strings(implements);
      var obj := Put([], ImplementsKey(), Array(impls));
      assert Object(obj) == ActivateValue(drivers);
      StringsFit(impls, 1);
      SingleMemberFits(ImplementsKey(), Array(impls), 1);
      json := ToText(ActivateValue(drivers));
    }
  }
}
