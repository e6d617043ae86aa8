/** Replies on the wire and at the client: bytes, status, fields and body, for every kind of request. */
module PluginReplies {
  import opened Bytes
  import opened Numerals
  import opened JsonValue
  import opened JsonText
  import opened JsonWriter
  import opened HttpHeaders
  import opened HttpResponse
  import opened HttpClient
  import opened HttpFraming
  import opened PluginSpec
  import opened PluginRun
  import opened PluginEndpoint
  import opened PluginUrls

  // ---------- reason phrases ----------

  ghost predicate Between(table: seq<Entry>, lo: int, hi: int) {
    forall i :: 0 <= i < |table| ==> lo <= table[i].status <= hi
  }

  lemma PhraseRanges()
    ensures Between(INFORMATIONAL, 100, 199) && Between(SUCCESS, 200, 299) && Between(REDIRECTION, 300, 399)
  {
  }

  lemma ClientRanges()
    ensures Between(CLIENT_40X, 400, 409) && Between(CLIENT_41X, 410, 419) && Between(CLIENT_42X, 420, 450)
    ensures Between(CLIENT_REST, 451, 499) && Between(SERVER_50X, 500, 505) && Between(SERVER_REST, 506, 599)
  {
  }

  /** A part of the table without the status does not matter. */
  lemma {:induction false} LaterPart(a: seq<Entry>, b: seq<Entry>, lo: int, hi: int, status: int)
    requires Between(b, lo, hi) && !(lo <= status <= hi)
    ensures LastPhrase(a + b, status, |a + b|) == LastPhrase(a, status, |a|)
  {
    SkipPart(a, b, status, |b|);
  }

  lemma {:induction false} SkipPart(a: seq<Entry>, b: seq<Entry>, status: int, n: nat)
    requires n <= |b| && forall i :: 0 <= i < n ==> b[i].status != status
    ensures LastPhrase(a + b, status, |a| + n) == LastPhrase(a, status, |a|)
  {
    if n > 0 { SkipPart(a, b, status, n - 1); } else { SameStart(a, b, status, |a|); }
  }

  lemma {:induction false} SameStart(a: seq<Entry>, b: seq<Entry>, status: int, n: nat)
    requires n <= |a|
    ensures LastPhrase(a + b, status, n) == LastPhrase(a, status, n)
  {
    if n > 0 { SameStart(a, b, status, n - 1); }
  }

  /** A part that has the status decides. */
  lemma {:induction false} DecidingPart(a: seq<Entry>, b: seq<Entry>, status: int, n: nat, i: nat)
    requires i < n <= |b| && b[i].status == status
    ensures LastPhrase(a + b, status, |a| + n) == LastPhrase(b, status, n)
  {
    if b[n - 1].status != status { DecidingPart(a, b, status, n - 1, i); }
  }

  function BeforeClient(): (r: seq<Entry>) { INFORMATIONAL + SUCCESS + REDIRECTION }

  function BeforeServer(): (r: seq<Entry>) {
    BeforeClient() + CLIENT_40X + CLIENT_41X + CLIENT_42X + CLIENT_REST
  }

  lemma TableParts()
    ensures PHRASES == BeforeServer() + SERVER_50X + SERVER_REST
  {
  }

  lemma AllRanges()
    ensures Between(REDIRECTION, 300, 399)
    ensures Between(CLIENT_40X, 400, 409) && Between(CLIENT_41X, 410, 419) && Between(CLIENT_42X, 420, 450)
    ensures Between(CLIENT_REST, 451, 499) && Between(SERVER_50X, 500, 505) && Between(SERVER_REST, 506, 599)
  {
    PhraseRanges();
    ClientRanges();
    hide Between;
  }

  lemma ClientPhrase(status: int, i: nat)
    requires i < |CLIENT_40X| && CLIENT_40X[i].status == status && 400 <= status <= 409
    ensures LastPhrase(PHRASES, status, |PHRASES|) == LastPhrase(CLIENT_40X, status, |CLIENT_40X|)
  {
    AllRanges();
    TableParts();
    var a := BeforeClient();
    hide Between, LastPhrase;
    LaterPart(BeforeServer() + SERVER_50X, SERVER_REST, 506, 599, status);
    LaterPart(BeforeServer(), SERVER_50X, 500, 505, status);
    LaterPart(a + CLIENT_40X + CLIENT_41X + CLIENT_42X, CLIENT_REST, 451, 499, status);
    LaterPart(a + CLIENT_40X + CLIENT_41X, CLIENT_42X, 420, 450, status);
    LaterPart(a + CLIENT_40X, CLIENT_41X, 410, 419, status);
    DecidingPart(a, CLIENT_40X, status, |CLIENT_40X|, i);
  }

  lemma ServerPhrase()
    ensures LastPhrase(PHRASES, 500, |PHRASES|) == LastPhrase(SERVER_50X, 500, |SERVER_50X|)
  {
    AllRanges();
    TableParts();
    hide Between, LastPhrase;
    LaterPart(BeforeServer() + SERVER_50X, SERVER_REST, 506, 599, 500);
    DecidingPart(BeforeServer(), SERVER_50X, 500, |SERVER_50X|, 0);
  }

  lemma SuccessPhrase()
    ensures LastPhrase(PHRASES, 200, |PHRASES|) == LastPhrase(SUCCESS, 200, |SUCCESS|)
  {
    AllRanges();
    TableParts();
    var a := INFORMATIONAL + SUCCESS + REDIRECTION;
    hide Between, LastPhrase;
    LaterPart(BeforeServer() + SERVER_50X, SERVER_REST, 506, 599, 200);
    LaterPart(BeforeServer(), SERVER_50X, 500, 505, 200);
    LaterPart(a + CLIENT_40X + CLIENT_41X + CLIENT_42X, CLIENT_REST, 451, 499, 200);
    LaterPart(a + CLIENT_40X + CLIENT_41X, CLIENT_42X, 420, 450, 200);
    LaterPart(a + CLIENT_40X, CLIENT_41X, 410, 419, 200);
    LaterPart(a, CLIENT_40X, 400, 409, 200);
    LaterPart(INFORMATIONAL + SUCCESS, REDIRECTION, 300, 399, 200);
    DecidingPart(INFORMATIONAL, SUCCESS, 200, |SUCCESS|, 0);
  }

  /** The phrases of the statuses that the plugin itself answers with. */
  lemma SuccessAndServerPhrase()
    ensures Phrase(200) == Ascii("OK") && Phrase(500) == Ascii("Internal Server Error")
  {
    SuccessPhrase();
    ServerPhrase();
    PhraseFound(SUCCESS, 200, |SUCCESS|, 0);
    PhraseFound(SERVER_50X, 500, |SERVER_50X|, 0);
    hide LastPhrase, Ascii;
  }

  lemma BadRequestPhrase()
    ensures Phrase(400) == Ascii("Bad Request")
  {
    ClientPhrase(400, 0);
    PhraseFound(CLIENT_40X, 400, |CLIENT_40X|, 0);
    hide LastPhrase, Ascii;
  }

  lemma NotFoundPhrase()
    ensures Phrase(404) == Ascii("Not Found")
  {
    ClientPhrase(404, 4);
    PhraseFound(CLIENT_40X, 404, |CLIENT_40X|, 4);
    hide LastPhrase, Ascii;
  }

  lemma NotAllowedPhrase()
    ensures Phrase(405) == Ascii("Method Not Allowed")
  {
    ClientPhrase(405, 5);
    PhraseFound(CLIENT_40X, 405, |CLIENT_40X|, 5);
    hide LastPhrase, Ascii;
  }

  /** The reason phrases of the replies that the plugin makes itself. */
  function OwnPhrase(status: int): (r: string) {
    match status
    case 200 => "OK"
    case 400 => "Bad Request"
    case 404 => "Not Found"
    case 405 => "Method Not Allowed"
    case _ => "Internal Server Error"
  }

  lemma PhraseTexts(status: int)
    requires status in {200, 400, 404, 405, 500}
    ensures Spells(Phrase(status), OwnPhrase(status))
  {
    SuccessAndServerPhrase();
    BadRequestPhrase();
    NotFoundPhrase();
    NotAllowedPhrase();
    hide Phrase;
  }

  // ---------- the bytes of a reply ----------

  function TypedLine(typed: bool): (r: bytes) {
    if typed then Ascii("content-type: ") + Ascii("application/vnd.docker.plugins.v1.1+json") + Ascii("\r\n") else []
  }

  /**
    The bytes of a reply: status line with the phrase of the status, the length of the body in decimal, the content
    type if there is one, an empty line, and the body.
   */
  lemma ReplyBytes(reply: Reply)
    ensures ReplyWire(reply) ==
      Ascii("HTTP/1.1 ") + PrintInt(reply.status) + Ascii(" ") + Phrase(reply.status) + Ascii("\r\n")
      + (Ascii("content-length: ") + PrintInt(|reply.body|) + Ascii("\r\n"))
      + TypedLine(reply.typed) + Ascii("\r\n") + reply.body
  {
    hide PrintInt, Phrase, TypedLine, TypedHeaders, EndWith, SizedHeaders, Head;
    var h := TypedHeaders([], reply.typed);
    TypedClean(reply.typed);
    SizedWire(SetStatus(RESET.(headers := h), reply.status, []), reply.body);
    FieldsSent(reply.typed, |reply.body|);
    HeadBytes(reply.status, Phrase(reply.status), |reply.body|, reply.typed);
  }

  lemma HeadBytes(status: int, phrase: bytes, n: nat, typed: bool)
    ensures
      Head(status, phrase, [Field(ContentLength(), PrintInt(n))]
                           + if typed then [Field(ContentType(), PluginJson())] else [])
      == Ascii("HTTP/1.1 ") + PrintInt(status) + Ascii(" ") + phrase + Ascii("\r\n")
         + (Ascii("content-length: ") + PrintInt(n) + Ascii("\r\n")) + TypedLine(typed) + Ascii("\r\n")
  {
    LengthLine(n);
    TypeLine();
    assert Ascii("\r\n") == CRLF && Ascii(" ") == [SPACE];
    hide Ascii, PrintInt, ContentLength, ContentType, PluginJson, FieldLine, TypedLine;
    var length, kind := Field(ContentLength(), PrintInt(n)), Field(ContentType(), PluginJson());
    var h := [length] + if typed then [kind] else [];
    assert FieldLines(h, |h|) == [];
    assert FieldLine(length) + CRLF + [] == FieldLine(length) + CRLF;
    assert FieldLine(kind) + CRLF + [] == FieldLine(kind) + CRLF;
    if typed {
      assert FieldLines(h, 1) == TypedLine(true);
    } else {
      assert TypedLine(false) == [] by { NoTypedLine(); }
    }
    assert FieldLines(h, 0) == FieldLine(length) + CRLF + TypedLine(typed);
  }

  lemma NoTypedLine()
    ensures TypedLine(false) == []
  {
  }

  lemma LengthLine(n: nat)
    ensures FieldLine(Field(ContentLength(), PrintInt(n))) == Ascii("content-length: ") + PrintInt(n)
  {
    hide PrintInt;
    assert Ascii("content-length: ") == Ascii("content-length") + [COLON, SPACE];
  }

  lemma TypeLine()
    ensures FieldLine(Field(ContentType(), PluginJson())) + CRLF == TypedLine(true)
  {
    assert Ascii("content-type: ") == Ascii("content-type") + [COLON, SPACE];
    assert Ascii("\r\n") == CRLF;
    hide Ascii;
  }

  // ---------- what the client receives ----------

  /** A POST of an idle connection to one of the URLs. */
  ghost predicate Posts(c: Conn, rq: Request, url: string) {
    Idle(c) && rq.m == Post && Is(Joined(rq.url), url)
  }

  lemma PlainReply(c: Conn, rq: Request, drivers: Drivers, reply: Reply)
    requires Idle(c) && ReplyTo(drivers, rq) == reply && 200 <= reply.status <= 999
    requires reply.status != 204 && reply.status != 304
    ensures Receives(c, rq, drivers, reply.status, reply.typed, reply.body)
  {
    hide Receives, Idle, ReplyTo;
    FramedReplyReceived(c, rq, drivers);
  }

  /** The names of the registered drivers, in alphabetical order. */
  ghost predicate AreRegistered(items: seq<Value>, drivers: Drivers) {
    && (forall v :: v in items <==>
          || (drivers.volume && v == Str(Ascii("VolumeDriver")))
          || (drivers.network && v == Str(Ascii("NetworkDriver")))
          || (drivers.ipam && v == Str(Ascii("IpamDriver"))))
    && forall i, j :: 0 <= i < j < |items| ==> items[i].Str? && items[j].Str? && LexLess(items[i].text, items[j].text)
  }

  lemma RegisteredNames(drivers: Drivers)
    ensures AreRegistered(Strings(Registered(drivers)), drivers)
  {
    var i, n, v := Ascii("IpamDriver"), Ascii("NetworkDriver"), Ascii("VolumeDriver");
    assert i[0] < n[0] < v[0];
    assert LexLess(i, n) && LexLess(n, v) && LexLess(i, v);
    hide LexLess, Ascii;
    var items := Strings(Registered(drivers));
    assert items == (if drivers.ipam then [Str(i)] else []) + (if drivers.network then [Str(n)] else [])
      + if drivers.volume then [Str(v)] else [];
  }

  /** The body reads as an object with that list alone. */
  ghost predicate ReadsList(body: bytes, items: seq<Value>) {
    ReadText(body, Null).ok && ReadText(body, Null).value == Object([Member(Ascii("Implements"), Array(items))])
  }

  /** The activation is answered 200, and its body reads as the list of exactly the registered drivers. */
  lemma ActivationReceived(c: Conn, rq: Request, drivers: Drivers) returns (body: bytes, items: seq<Value>)
    requires Posts(c, rq, "/Plugin.Activate")
    ensures Receives(c, rq, drivers, 200, true, body) && ReadsList(body, items) && AreRegistered(items, drivers)
  {
    hide Receives, ReadText, Serialize, Collected, RouteOf, Is, Idle, ActivateValue, AreRegistered, Registered;
    RoutesExactly(Joined(rq.url), Target(VolumeDriver, 0));
    ActivateIntegral(drivers);
    body, items := Serialize(ActivateValue(drivers), false), Strings(Registered(drivers));
    ActivationReads(drivers, Null);
    RegisteredNames(drivers);
    PlainReply(c, rq, drivers, Reply(200, true, body));
  }

  lemma ActivateIntegral(drivers: Drivers)
    ensures Integral(ActivateValue(drivers))
  {
    ActivateValid(drivers);
  }

  /** A URL that the protocol does not have is answered 404. */
  lemma ForeignReceived(c: Conn, rq: Request, drivers: Drivers)
    requires Idle(c) && rq.m == Post && IsForeign(Joined(rq.url))
    ensures Receives(c, rq, drivers, 404, false, Ascii("Not found"))
  {
    hide Receives, Collected, RouteOf, IsForeign, Idle;
    ForeignIsUnknown(Joined(rq.url));
    PlainReply(c, rq, drivers, Reply(404, false, NotFound()));
  }

  /** So is a member of a driver that is not registered. */
  lemma UnregisteredReceived(c: Conn, rq: Request, drivers: Drivers, t: Target)
    requires t.member < |UrlsOf(t.driver)| && Posts(c, rq, UrlsOf(t.driver)[t.member])
    requires match t.driver
             case VolumeDriver => !drivers.volume
             case NetworkDriver => !drivers.network
             case IpamDriver => !drivers.ipam
    ensures Receives(c, rq, drivers, 404, true, Ascii("Not found"))
  {
    hide Receives, Collected, RouteOf, UrlsOf, Is, Idle;
    RoutesExactly(Joined(rq.url), t);
    PlainReply(c, rq, drivers, Reply(404, true, NotFound()));
  }

  /** Whatever its URL, a request that is not a POST is answered 405, and nothing after it is answered. */
  lemma OtherMethodReceived(c: Conn, rq: Request, drivers: Drivers)
    requires Idle(c) && rq.m != Post
    ensures Receives(c, rq, drivers, 405, false, Ascii("Method not allowed")) && Run(c, EventsOf(rq), drivers).code != 0
  {
    hide Receives, Run, Idle, ReplyWire, Answer, EventsOf;
    RequestRun(c, rq, drivers);
    PlainReply(c, rq, drivers, Reply(405, false, Ascii("Method not allowed")));
  }

  /**
    The URL of a member of a registered driver has that member called, with the whole request. What it returns comes
    back with 200; what it throws comes back as the message under `Err`, with the status that
    was thrown, 400 for an invalid argument, or 500.
   */
  lemma MemberReceived(c: Conn, rq: Request, drivers: Drivers, t: Target)
    requires t.member < |UrlsOf(t.driver)| && Posts(c, rq, UrlsOf(t.driver)[t.member])
    requires match t.driver
             case VolumeDriver => drivers.volume
             case NetworkDriver => drivers.network
             case IpamDriver => drivers.ipam
    ensures match rq.handler(t, CallOf(rq))
      case Returned(json) => Receives(c, rq, drivers, 200, true, json)
      case ErrorResponse(status, error) =>
        200 <= status <= 999 && status != 204 && status != 304 ==> ReadsError(c, rq, drivers, status, error)
      case InvalidArgument(what) => ReadsError(c, rq, drivers, 400, what)
      case OtherException(what) => ReadsError(c, rq, drivers, 500, what)
  {
    hide Receives, ReadsError, Collected, RouteOf, UrlsOf, Is, Idle, Serialize;
    RoutesExactly(Joined(rq.url), t);
    match rq.handler(t, CallOf(rq))
    case Returned(json) => PlainReply(c, rq, drivers, Reply(200, true, json));
    case ErrorResponse(status, error) =>
      if 200 <= status <= 999 && status != 204 && status != 304 { ErrorIsRead(c, rq, drivers, status, error); }
    case InvalidArgument(what) => ErrorIsRead(c, rq, drivers, 400, what);
    case OtherException(what) => ErrorIsRead(c, rq, drivers, 500, what);
  }
}
