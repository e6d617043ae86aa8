/** One message through every layer: a create-endpoint request on the wire, and what the client reads back. */
module PluginEndpoint {
  import opened Bytes
  import opened Numerals
  import opened JsonValue
  import opened JsonText
  import opened JsonStems
  import opened JsonWriter
  import opened HttpHeaders
  import opened HttpResponse
  import opened HttpClient
  import opened HttpFraming
  import opened PluginSpec
  import opened PluginRun
  import E = EndpointWire
  import Q = EndpointRequest

  /** What the driver's member returns or throws. */
  datatype Outcome =
    | Created(interface: E.EndpointInterface)
    | ThrewResponse(status: int, error: bytes)
    | ThrewInvalid(what: bytes)
    | Threw(what: bytes)

  type EndpointDriver = E.CreateEndpointRequest -> Outcome

  const CREATE_ENDPOINT := Target(NetworkDriver, 5)

  /** The body of the try block of `invoke_plugin_handler` for this member. */
  function CreateEndpoint(driver: EndpointDriver, body: bytes): (r: HandlerResult) {
    match E.ReadRequest(body)
    case InvalidArgument(what) => HandlerResult.InvalidArgument(what)
    case RuntimeError(what) => OtherException(what)
    case OverflowError => OtherException([])
    case Ok(request) =>
      match driver(request)
      case Created(ei) => Returned(E.WriteResponse(ei))
      case ThrewResponse(status, error) => ErrorResponse(status, error)
      case ThrewInvalid(what) => HandlerResult.InvalidArgument(what)
      case Threw(what) => OtherException(what)
  }

  /** A POST to `/NetworkDriver.CreateEndpoint` of a plugin whose network driver is `driver`. */
  ghost predicate Asks(rq: Request, drivers: Drivers, driver: EndpointDriver) {
    && rq.m == Post && drivers.network && Joined(rq.url) == Ascii("/NetworkDriver.CreateEndpoint")
    && rq.handler(CREATE_ENDPOINT, CallOf(rq)) == CreateEndpoint(driver, Joined(rq.body))
  }

  lemma UrlIsCreateEndpoint()
    ensures IsUrlOf(Ascii("/NetworkDriver.CreateEndpoint"), CREATE_ENDPOINT)
  {
    var url := Ascii("/NetworkDriver.CreateEndpoint");
    assert NETWORK_CALLS[5] == "CreateEndpoint";
    assert url[..15] == Ascii("/NetworkDriver.") && url[15..] == Ascii("CreateEndpoint");
  }

  /** The request reaches the member, and its result is the one that is answered. */
  lemma AsksCreateEndpoint(rq: Request, drivers: Drivers, driver: EndpointDriver)
    requires Asks(rq, drivers, driver)
    ensures CallsDriver(drivers, rq) && ResultOf(rq, drivers) == CreateEndpoint(driver, Joined(rq.body))
  {
    hide IsUrlOf, RouteOf, Collected;
    UrlIsCreateEndpoint();
    RoutesExclude(CallOf(rq).url, CREATE_ENDPOINT);
  }

  // ---------- the message at the client ----------

  lemma LengthBeforeType()
    ensures Less(ContentLength(), ContentType()) && !Less(ContentType(), ContentLength())
    ensures LowerAll(ContentType()) != LowerAll(ContentLength())
  {
    var a, b := ContentLength(), ContentType();
    assert a[8] == 0x6C && b[8] == 0x74 && a[..8] == b[..8];
    LessAt(a, b, 8);
    EquivalenceIsSame(a, b);
    assert |LowerAll(a)| == 14 && |LowerAll(b)| == 12;
  }

  lemma {:induction false} LessAt(a: bytes, b: bytes, k: nat)
    requires k < |a| && k < |b| && a[..k] == b[..k] && Rank(a[k]) < Rank(b[k])
    ensures Less(a, b)
    decreases k
  {
    if k > 0 {
      assert a[0] == a[..k][0] == b[..k][0] == b[0];
      assert a[1..][..k - 1] == a[..k][1..] && b[1..][..k - 1] == b[..k][1..];
      LessAt(a[1..], b[1..], k - 1);
    }
  }

  lemma FieldsSent(typed: bool, n: nat)
    ensures SizedHeaders(TypedHeaders([], typed), n) ==
      [Field(ContentLength(), PrintInt(n))] + if typed then [Field(ContentType(), PluginJson())] else []
  {
    LengthBeforeType();
    hide Less, LowerAll, PrintInt, ContentLength, ContentType, PluginJson;
    var length, kind := Field(ContentLength(), PrintInt(n)), Field(ContentType(), PluginJson());
    if typed {
      FirstField(kind);
      assert Erase([kind], length.name) == [kind];
      assert UpperBound([kind], length.name) == 0;
    } else {
      FirstField(length);
    }
  }

  /** The fields of a message with a body of `n` bytes, and with the content type of the protocol or none. */
  ghost predicate FieldsAre(fields: seq<Field>, typed: bool, n: nat) {
    fields ==
      [Field(Ascii("content-length"), PrintInt(n))]
      + if typed then [Field(Ascii("content-type"), Ascii("application/vnd.docker.plugins.v1.1+json"))] else []
  }

  /** They are received as they are sent. */
  lemma FieldsReceived(typed: bool, n: nat)
    ensures FieldsAre(AllReceived(SizedHeaders(TypedHeaders([], typed), n)), typed, n)
  {
    FieldsSent(typed, n);
    PrintIntReads(n);
    DecimalDigits(n);
    TightTrim(PrintInt(n));
    TightTrim(PluginJson());
    hide PrintInt, Ascii;
    var h := SizedHeaders(TypedHeaders([], typed), n);
    assert forall k :: 0 <= k < |h| ==> AllReceived(h)[k] == h[k];
    assert AllReceived(h) == h;
  }

  /** The one message that the client decodes from the wire: its status, its fields and its body. */
  ghost predicate Receives(c: Conn, rq: Request, drivers: Drivers, status: int, typed: bool, body: bytes) {
    var read := DecodeAll(Run(c, EventsOfAll([rq]), drivers).wire, 0);
    && read.Some? && |read.value| == 1
    && read.value[0].status == status && FieldsAre(read.value[0].fields, typed, |body|) && read.value[0].body == body
  }

  lemma FramedReplyReceived(c: Conn, rq: Request, drivers: Drivers)
    requires Idle(c) && Framed(ReplyTo(drivers, rq))
    ensures var reply := ReplyTo(drivers, rq); Receives(c, rq, drivers, reply.status, reply.typed, reply.body)
  {
    hide DecodeAll, Run, Framed, Collected, RouteOf, Answer, FieldsAre, Idle;
    var reply := ReplyTo(drivers, rq);
    assert Replies([rq], drivers) == [reply];
    PipelinedResponses(c, [rq], drivers);
    FieldsReceived(reply.typed, |reply.body|);
    assert |Expected([reply], 0)| == 1 && Expected([reply], 0)[0].status == reply.status;
  }

  ghost predicate IsError(body: bytes, error: bytes) {
    ReadText(body, Null).ok && ReadText(body, Null).value == Object([Member(Ascii("Err"), Str(error))])
  }

  /** The client finds the message under `Err` in the body it receives with that status. */
  ghost predicate ReadsError(c: Conn, rq: Request, drivers: Drivers, status: int, error: bytes) {
    exists body ::
      && Receives(c, rq, drivers, status, true, body)
      && IsError(body, error)
  }

  lemma ErrorIsRead(c: Conn, rq: Request, drivers: Drivers, status: int, error: bytes)
    requires Idle(c) && ThreeDigits(status) && !Bodyless(status)
    requires ReplyTo(drivers, rq) == Reply(status, true, Serialize(ErrorValue(error), false))
    ensures ReadsError(c, rq, drivers, status, error)
  {
    hide Receives, Serialize, ReadText, Collected, RouteOf, Answer;
    FramedReplyReceived(c, rq, drivers);
    ErrorBodyReads(error, Null);
    assert Receives(c, rq, drivers, status, true, Serialize(ErrorValue(error), false));
  }

  /** A body that the parser rejects is answered 400 with the parser's own error text, unless the parser throws. */
  lemma MalformedBody(c: Conn, rq: Request, drivers: Drivers, driver: EndpointDriver)
    requires Idle(c) && Asks(rq, drivers, driver)
    requires var read := ReadText(Joined(rq.body), Null); !read.ok && !read.thrown
    ensures ReadsError(c, rq, drivers, 400, ReadText(Joined(rq.body), Null).err)
  {
    hide Serialize, Collected, RouteOf, ReadText, Idle, ReadsError, Asks, E.ReadRequest, Q.NoObjectText;
    AsksCreateEndpoint(rq, drivers, driver);
    Q.RequestFails(Joined(rq.body));
    ErrorIsRead(c, rq, drivers, 400, ReadText(Joined(rq.body), Null).err);
  }

  /** So is a body that is not an object. */
  lemma NoObject(c: Conn, rq: Request, drivers: Drivers, driver: EndpointDriver)
    requires Idle(c) && Asks(rq, drivers, driver)
    requires var read := ReadText(Joined(rq.body), Null); read.ok && !read.value.Object?
    ensures ReadsError(c, rq, drivers, 400, Q.NoObjectText())
  {
    hide Serialize, Collected, RouteOf, ReadText, Idle, ReadsError, Asks, E.ReadRequest, Q.NoObjectText;
    AsksCreateEndpoint(rq, drivers, driver);
    Q.RequestFails(Joined(rq.body));
    ErrorIsRead(c, rq, drivers, 400, Q.NoObjectText());
  }

  /** A body in which a number overflows, after anything well-formed, is answered 500 with an empty error. */
  lemma OverflowingBody(c: Conn, rq: Request, drivers: Drivers, driver: EndpointDriver)
    requires Idle(c) && Asks(rq, drivers, driver)
    requires exists stem :: BrokenOff(Joined(rq.body), stem) && Throws(stem)
    ensures ReadsError(c, rq, drivers, 500, [])
  {
    hide Serialize, Collected, RouteOf, Idle, ReadsError, ReadText, BrokenOff, Throws;
    AsksCreateEndpoint(rq, drivers, driver);
    ThrownExactly(Joined(rq.body), Null);
    assert CreateEndpoint(driver, Joined(rq.body)) == OtherException([]);
    ErrorIsRead(c, rq, drivers, 500, []);
  }

  function HugeNumberText(): (r: bytes) { Ascii("{\"a\":1e999}") }

  /** One such body. */
  lemma OverflowingRequest(c: Conn, rq: Request, drivers: Drivers, driver: EndpointDriver)
    requires Idle(c) && Asks(rq, drivers, driver) && Joined(rq.body) == HugeNumberText()
    ensures ReadsError(c, rq, drivers, 500, [])
  {
    hide Serialize, Collected, RouteOf, Idle, ReadsError, ReadText, BrokenOff, Throws, Asks;
    OverflowingText(Null);
    assert ReadText(HugeNumberText(), Null).thrown;
    hide HugeNumberText;
    ThrownExactly(Joined(rq.body), Null);
    OverflowingBody(c, rq, drivers, driver);
  }

  /** Options that are not an object are answered 500. */
  lemma MalformedOptions(c: Conn, rq: Request, drivers: Drivers, driver: EndpointDriver)
    requires Idle(c) && Asks(rq, drivers, driver)
    requires var read := ReadText(Joined(rq.body), Null);
      read.ok && read.value.Object? && !Q.HasOptions(read.value.members)
    ensures ReadsError(c, rq, drivers, 500, Q.MismatchText())
  {
    hide ReadText, Serialize, Collected, RouteOf, Q.MismatchText, E.ReadRequest, Idle, Asks, Q.HasOptions, ReadsError;
    AsksCreateEndpoint(rq, drivers, driver);
    Q.RequestFails(Joined(rq.body));
    ErrorIsRead(c, rq, drivers, 500, Q.MismatchText());
  }

  /**
    Any other body has the driver asked with the network, the endpoint and the interface that its members name; the
    interface that the driver returns is the one that the client reads from the response.
   */
  lemma EndpointCreated(c: Conn, rq: Request, drivers: Drivers, driver: EndpointDriver,
                        request: E.CreateEndpointRequest, ei: E.EndpointInterface)
    returns (body: bytes)
    requires Idle(c) && Asks(rq, drivers, driver)
    requires Q.IsRequest(Joined(rq.body), request) && driver(request) == Created(ei)
    ensures Receives(c, rq, drivers, 200, true, body) && Q.ReadsInterface(body, ei)
  {
    hide E.ReadRequest, E.WriteResponse, Collected, RouteOf, Receives, Idle, Asks, Q.IsRequest, Q.ReadsInterface;
    AsksCreateEndpoint(rq, drivers, driver);
    Q.RequestExactly(Joined(rq.body), request);
    body := E.WriteResponse(ei);
    assert ReplyTo(drivers, rq) == Reply(200, true, body);
    FramedReplyReceived(c, rq, drivers);
    Q.ResponseReads(ei);
  }

  /** What the driver throws is read as the error: with its own status, as an invalid argument, or as any other. */
  lemma EndpointRefused(c: Conn, rq: Request, drivers: Drivers, driver: EndpointDriver,
                        request: E.CreateEndpointRequest)
    requires Idle(c) && Asks(rq, drivers, driver) && Q.IsRequest(Joined(rq.body), request)
    ensures match driver(request)
      case Created(_) => true
      case ThrewResponse(status, error) =>
        200 <= status <= 999 && status != 204 && status != 304 ==> ReadsError(c, rq, drivers, status, error)
      case ThrewInvalid(what) => ReadsError(c, rq, drivers, 400, what)
      case Threw(what) => ReadsError(c, rq, drivers, 500, what)
  {
    hide E.ReadRequest, Collected, RouteOf, Receives, Idle, Asks, Q.IsRequest, ReadsError, Serialize;
    AsksCreateEndpoint(rq, drivers, driver);
    Q.RequestExactly(Joined(rq.body), request);
    match driver(request)
    case Created(_) =>
    case ThrewResponse(status, error) =>
      if 200 <= status <= 999 && status != 204 && status != 304 { ErrorIsRead(c, rq, drivers, status, error); }
    case ThrewInvalid(what) => ErrorIsRead(c, rq, drivers, 400, what);
    case Threw(what) => ErrorIsRead(c, rq, drivers, 500, what);
  }
}
