/** Whole runs of one connection: fragments in, responses out. */
module PluginRun {
  import opened Bytes
  import opened JsonValue
  import opened JsonReader
  import opened JsonLayout
  import opened JsonText
  import opened JsonWriter
  import opened JsonTheorems
  import opened HttpHeaders
  import opened HttpResponse
  import opened HttpClient
  import opened HttpFraming
  import opened PluginSpec

  // ---------- requests and their events ----------

  /** A header field as the parser reports it: the pieces of its name and of its value. */
  datatype FieldText = FieldText(name: seq<bytes>, value: seq<bytes>)

  /** A request without trailers, cut into pieces; `handler` is what the driver does with it. */
  datatype Request = Request(m: Method, url: seq<bytes>, fields: seq<FieldText>, body: seq<bytes>, handler: Handler)

  function UrlEvents(ts: seq<bytes>): (r: seq<Event>) { seq(|ts|, i requires 0 <= i < |ts| => UrlFragment(ts[i])) }

  function NameEvents(ts: seq<bytes>): (r: seq<Event>) { seq(|ts|, i requires 0 <= i < |ts| => FieldFragment(ts[i])) }

  function ValueEvents(ts: seq<bytes>): (r: seq<Event>) { seq(|ts|, i requires 0 <= i < |ts| => ValueFragment(ts[i])) }

  function BodyEvents(ts: seq<bytes>): (r: seq<Event>) { seq(|ts|, i requires 0 <= i < |ts| => BodyFragment(ts[i])) }

  function FieldEvents(fs: seq<FieldText>): (r: seq<Event>) {
    if fs == [] then []
    else
      NameEvents(fs[0].name)
      + ([FieldComplete] + (ValueEvents(fs[0].value) + ([ValueComplete] + FieldEvents(fs[1..]))))
  }

  /** The callbacks of one request. */
  function EventsOf(rq: Request): (r: seq<Event>) {
    [MessageBegin] + (UrlEvents(rq.url) + ([UrlComplete(rq.m)] + (FieldEvents(rq.fields)
      + ([HeadersComplete] + (BodyEvents(rq.body) + [MessageComplete(rq.handler)])))))
  }

  function EventsOfAll(rqs: seq<Request>): (r: seq<Event>) {
    if rqs == [] then [] else EventsOf(rqs[0]) + EventsOfAll(rqs[1..])
  }

  /** The header multimap of a request: lower-case names, in arrival order under each name. */
  function Collected(fs: seq<FieldText>, h: seq<Field>): (r: seq<Field>)
    decreases |fs|
  {
    if fs == [] then h else Collected(fs[1..], Emplace(h, LowerAll(Joined(fs[0].name)), Joined(fs[0].value)))
  }

  /** What the handler gets to see. */
  function CallOf(rq: Request): (r: Call) { Call(Joined(rq.url), Collected(rq.fields, []), Joined(rq.body)) }

  function ReplyTo(drivers: Drivers, rq: Request): (r: Reply) {
    if rq.m == Post then Answer(drivers, rq.handler, CallOf(rq)) else MethodNotAllowed()
  }

  // ---------- steps ----------

  /** After quiet steps the run goes on from `c'`. */
  lemma {:induction false} RunConcat(c: Conn, a: seq<Event>, b: seq<Event>, drivers: Drivers)
    ensures var first := Run(c, a, drivers); var rest := Run(first.conn, b, drivers);
      Run(c, a + b, drivers) == if first.code != 0 then first else Step(rest.conn, first.wire + rest.wire, rest.code)
    decreases |a|
  {
    if a == [] {
      assert a + b == b;
      assert forall w: bytes :: [] + w == w;
    } else {
      var s := Next(c, a[0], drivers);
      assert (a + b)[0] == a[0] && (a + b)[1..] == a[1..] + b;
      if s.code == 0 {
        RunConcat(s.conn, a[1..], b, drivers);
        var first := Run(s.conn, a[1..], drivers);
        Regroup(s.wire, first.wire, Run(first.conn, b, drivers).wire);
      }
    }
  }

  lemma RunOne(c: Conn, e: Event, drivers: Drivers)
    ensures Run(c, [e], drivers) == Next(c, e, drivers)
  {
    var s := Next(c, e, drivers);
    assert [e][1..] == [];
    assert s.wire + [] == s.wire;
  }

  /** An event that succeeds without writing, then the rest. */
  lemma RunQuiet(c: Conn, e: Event, rest: seq<Event>, drivers: Drivers)
    requires var s := Next(c, e, drivers); s.code == 0 && s.wire == []
    ensures Run(c, [e] + rest, drivers) == Run(Next(c, e, drivers).conn, rest, drivers)
  {
    var s := Next(c, e, drivers);
    assert ([e] + rest)[1..] == rest;
    var r := Run(s.conn, rest, drivers);
    assert [] + r.wire == r.wire;
  }

  predicate IsFragment(e: Event) { e.UrlFragment? || e.FieldFragment? || e.ValueFragment? || e.BodyFragment? }

  /** Fragments are appended to the buffer, however the text was cut. */
  lemma {:induction false} FragmentsAppend(c: Conn, es: seq<Event>, ts: seq<bytes>, rest: seq<Event>, drivers: Drivers)
    requires |es| == |ts| && c.bufferBody && forall i :: 0 <= i < |es| ==> IsFragment(es[i]) && es[i].t == ts[i]
    ensures Run(c, es + rest, drivers) == Run(c.(buffer := c.buffer + Joined(ts)), rest, drivers)
    decreases |es|
  {
    if es == [] {
      assert es + rest == rest;
      assert c.buffer + Joined(ts) == c.buffer;
    } else {
      assert es + rest == [es[0]] + (es[1..] + rest);
      RunQuiet(c, es[0], es[1..] + rest, drivers);
      var c' := c.(buffer := c.buffer + ts[0]);
      FragmentsAppend(c', es[1..], ts[1..], rest, drivers);
      Regroup(c.buffer, ts[0], Joined(ts[1..]));
    }
  }

  lemma EmplaceThenFill(h: seq<Field>, name: bytes, value: bytes)
    ensures var i := UpperBound(h, name); var r := Emplace(h, name, []);
      r[i := r[i].(value := value)] == Emplace(h, name, value)
  {
    var i := UpperBound(h, name);
    var r := Emplace(h, name, []);
    assert r[i] == Field(name, []);
  }

  /** The header callbacks collect the fields; `cur` is where they leave the current field. */
  lemma {:induction false} FieldsCollect(c: Conn, fs: seq<FieldText>, rest: seq<Event>, drivers: Drivers)
    returns (cur: Option<nat>)
    requires c.bufferBody && c.bufferHeaders && c.buffer == []
    ensures Run(c, FieldEvents(fs) + rest, drivers)
         == Run(c.(headers := Collected(fs, c.headers), current := cur), rest, drivers)
    decreases |fs|
  {
    hide Run, Emplace, UpperBound;
    if fs == [] {
      assert FieldEvents(fs) + rest == rest;
      cur := c.current;
    } else {
      var f := fs[0];
      var name, value := LowerAll(Joined(f.name)), Joined(f.value);
      var tail := FieldEvents(fs[1..]) + rest;
      SplitFieldEvents(fs, rest);
      var afterName := ValueEvents(f.value) + ([ValueComplete] + tail);
      FragmentsAppend(c, NameEvents(f.name), f.name, [FieldComplete] + afterName, drivers);
      assert [] + Joined(f.name) == Joined(f.name);
      var c1 := c.(buffer := Joined(f.name));
      RunQuiet(c1, FieldComplete, afterName, drivers);
      var i := UpperBound(c.headers, name);
      var c2 := c.(headers := Emplace(c.headers, name, []), current := Some(i), buffer := []);
      FragmentsAppend(c2, ValueEvents(f.value), f.value, [ValueComplete] + tail, drivers);
      assert [] + value == value;
      var c3 := c2.(buffer := value);
      RunQuiet(c3, ValueComplete, tail, drivers);
      EmplaceThenFill(c.headers, name, value);
      var c4 := c.(headers := Emplace(c.headers, name, value), current := Some(i), buffer := []);
      cur := FieldsCollect(c4, fs[1..], rest, drivers);
    }
  }

  lemma SplitFieldEvents(fs: seq<FieldText>, rest: seq<Event>)
    requires fs != []
    ensures var tail := FieldEvents(fs[1..]) + rest;
      FieldEvents(fs) + rest ==
        NameEvents(fs[0].name) + ([FieldComplete] + (ValueEvents(fs[0].value) + ([ValueComplete] + tail)))
  {
    var n, v, t := NameEvents(fs[0].name), ValueEvents(fs[0].value), FieldEvents(fs[1..]);
    Nest(n, FieldComplete, v, ValueComplete, t, rest);
  }

  lemma Nest(n: seq<Event>, a: Event, v: seq<Event>, b: Event, t: seq<Event>, rest: seq<Event>)
    ensures (n + ([a] + (v + ([b] + t)))) + rest == n + ([a] + (v + ([b] + (t + rest))))
  {
  }

  // ---------- one request ----------

  /** Between requests: nothing of the last one is left in what the next one uses. */
  predicate Idle(c: Conn) {
    c.headers == [] && c.resp.headers == [] && !c.resp.sent && !c.resp.chunked
  }

  /** The bytes of a reply. */
  function ReplyWire(reply: Reply): (w: bytes) { SendReply(RESET, reply).wire }

  lemma ReplyFromIdle(resp: Response, reply: Reply)
    requires resp.headers == [] && !resp.sent && !resp.chunked
    ensures SendReply(resp, reply) == Written(RESET, ReplyWire(reply))
  {
    hide SendData, Set, Phrase;
  }

  /** From any idle state: the request is answered once, and the connection is idle again. */
  lemma RequestRun(c: Conn, rq: Request, drivers: Drivers)
    requires Idle(c)
    ensures var s := Run(c, EventsOf(rq), drivers);
      && s.wire == ReplyWire(ReplyTo(drivers, rq)) && (s.code == 0 <==> rq.m == Post) && Idle(s.conn)
  {
    hide Run, SendReply, Collected, Answer;
    var body := BodyEvents(rq.body) + [MessageComplete(rq.handler)];
    var afterUrl := FieldEvents(rq.fields) + ([HeadersComplete] + body);
    RunQuiet(c, MessageBegin, UrlEvents(rq.url) + ([UrlComplete(rq.m)] + afterUrl), drivers);
    var c1 := c.(buffer := [], bufferHeaders := true, bufferBody := true);
    FragmentsAppend(c1, UrlEvents(rq.url), rq.url, [UrlComplete(rq.m)] + afterUrl, drivers);
    assert [] + Joined(rq.url) == Joined(rq.url);
    var c2 := c1.(buffer := Joined(rq.url));
    if rq.m == Post {
      RunQuiet(c2, UrlComplete(rq.m), afterUrl, drivers);
      var c3 := c1.(url := Joined(rq.url));
      var cur := FieldsCollect(c3, rq.fields, [HeadersComplete] + body, drivers);
      var c4 := c3.(headers := Collected(rq.fields, []), current := cur);
      RunQuiet(c4, HeadersComplete, body, drivers);
      FragmentsAppend(c4, BodyEvents(rq.body), rq.body, [MessageComplete(rq.handler)], drivers);
      assert [] + Joined(rq.body) == Joined(rq.body);
      RunOne(c4.(buffer := Joined(rq.body)), MessageComplete(rq.handler), drivers);
      ReplyFromIdle(c.resp, ReplyTo(drivers, rq));
    } else {
      RunConcat(c2, [UrlComplete(rq.m)], afterUrl, drivers);
      RunOne(c2, UrlComplete(rq.m), drivers);
      ReplyFromIdle(c.resp, MethodNotAllowed());
    }
  }

  /** Two ways of cutting the same request into pieces. */
  predicate SameRequest(a: Request, b: Request) {
    && a.m == b.m && Joined(a.url) == Joined(b.url) && Joined(a.body) == Joined(b.body) && |a.fields| == |b.fields|
    && forall i :: 0 <= i < |a.fields| ==>
         Joined(a.fields[i].name) == Joined(b.fields[i].name) && Joined(a.fields[i].value) == Joined(b.fields[i].value)
  }

  lemma {:induction false} SameCollected(a: seq<FieldText>, b: seq<FieldText>, h: seq<Field>)
    requires |a| == |b| && forall i :: 0 <= i < |a| ==>
      Joined(a[i].name) == Joined(b[i].name) && Joined(a[i].value) == Joined(b[i].value)
    ensures Collected(a, h) == Collected(b, h)
    decreases |a|
  {
    if a != [] {
      SameCollected(a[1..], b[1..], Emplace(h, LowerAll(Joined(a[0].name)), Joined(a[0].value)));
    }
  }

  /** Fragmentation and earlier requests do not matter: the handler sees the same, and so does the client. */
  lemma FragmentationIndependent(a: Request, b: Request, c: Conn, d: Conn, drivers: Drivers)
    requires SameRequest(a, b) && a.handler == b.handler && Idle(c) && Idle(d)
    ensures CallOf(a) == CallOf(b)
    ensures Run(c, EventsOf(a), drivers).wire == Run(d, EventsOf(b), drivers).wire
  {
    SameCollected(a.fields, b.fields, []);
    RequestRun(c, a, drivers);
    RequestRun(d, b, drivers);
  }

  /** The values under a name are those of the request's fields with that name, in order. */
  function ValuesOf(fs: seq<FieldText>, key: bytes): (r: seq<bytes>) {
    if fs == [] then []
    else (if LowerAll(Joined(fs[0].name)) == LowerAll(key) then [Joined(fs[0].value)] else []) + ValuesOf(fs[1..], key)
  }

  lemma LowerTwice(t: bytes)
    ensures LowerAll(LowerAll(t)) == LowerAll(t)
  {
  }

  lemma {:induction false} CollectedValues(fs: seq<FieldText>, h: seq<Field>, key: bytes)
    requires Sorted(h)
    ensures Sorted(Collected(fs, h)) && Values(Collected(fs, h), key) == Values(h, key) + ValuesOf(fs, key)
    ensures (forall f <- h :: LowerAll(f.name) == f.name) ==> forall f <- Collected(fs, h) :: LowerAll(f.name) == f.name
    decreases |fs|
  {
    hide Values, UpperBound;
    if fs != [] {
      var name, value := LowerAll(Joined(fs[0].name)), Joined(fs[0].value);
      var h' := Emplace(h, name, value);
      LowerTwice(Joined(fs[0].name));
      EmplaceSorted(h, name, value);
      EmplaceValues(h, name, value, key);
      EmplaceMembers(h, name, value);
      CollectedValues(fs[1..], h', key);
    }
  }

  lemma EmplaceMembers(h: seq<Field>, name: bytes, value: bytes)
    ensures forall f <- Emplace(h, name, value) :: f in h || f == Field(name, value)
  {
    var i := UpperBound(h, name);
    assert forall f <- Emplace(h, name, value) :: f in h[..i] || f == Field(name, value) || f in h[i..];
  }

  /** The handler of a POST request sees its URL, its lower-cased headers and its body. */
  lemma HandlerSees(rq: Request, key: bytes)
    ensures var call := CallOf(rq);
      && call.url == Joined(rq.url) && call.body == Joined(rq.body)
      && Values(call.headers, key) == ValuesOf(rq.fields, key)
      && forall f <- call.headers :: LowerAll(f.name) == f.name
  {
    CollectedValues(rq.fields, [], key);
    assert Values([], key) == [];
    assert [] + ValuesOf(rq.fields, key) == ValuesOf(rq.fields, key);
  }

  // ---------- pipelined responses ----------

  /** The replies of a run: one per request, up to the first that is not a POST. */
  function Replies(rqs: seq<Request>, drivers: Drivers): (r: seq<Reply>) {
    if rqs == [] then []
    else [ReplyTo(drivers, rqs[0])] + if rqs[0].m == Post then Replies(rqs[1..], drivers) else []
  }

  function ReplyWires(replies: seq<Reply>): (w: bytes) {
    if replies == [] then [] else ReplyWire(replies[0]) + ReplyWires(replies[1..])
  }

  lemma {:induction false} RequestsRun(c: Conn, rqs: seq<Request>, drivers: Drivers)
    requires Idle(c)
    ensures Run(c, EventsOfAll(rqs), drivers).wire == ReplyWires(Replies(rqs, drivers))
    decreases |rqs|
  {
    hide Run, EventsOf, ReplyWire, ReplyTo;
    if rqs == [] {
      NoEvents(c, drivers);
    } else {
      var reply := ReplyTo(drivers, rqs[0]);
      RequestRun(c, rqs[0], drivers);
      RunConcat(c, EventsOf(rqs[0]), EventsOfAll(rqs[1..]), drivers);
      if rqs[0].m == Post {
        var s := Run(c, EventsOf(rqs[0]), drivers);
        RequestsRun(s.conn, rqs[1..], drivers);
        assert Replies(rqs, drivers)[1..] == Replies(rqs[1..], drivers);
      } else {
        assert ReplyWires([reply]) == ReplyWire(reply) + [];
      }
    }
  }

  lemma NoEvents(c: Conn, drivers: Drivers)
    ensures Run(c, [], drivers).wire == []
  {
  }

  /** The status line can carry the status, and the status allows the body. */
  predicate Framed(reply: Reply) { ThreeDigits(reply.status) && (Bodyless(reply.status) ==> reply.body == []) }

  function ReplyFields(reply: Reply): (r: seq<Field>) {
    AllReceived(SizedHeaders(TypedHeaders([], reply.typed), |reply.body|))
  }

  /** The messages that a client should read, from position `p`. */
  function Expected(replies: seq<Reply>, p: nat): (r: seq<Message>)
    decreases |replies|
  {
    if replies == [] then []
    else
      var q := p + |ReplyWire(replies[0])|;
      [Message(replies[0].status, ReplyFields(replies[0]), replies[0].body, q)] + Expected(replies[1..], q)
  }

  lemma TypedClean(typed: bool)
    ensures var h := TypedHeaders([], typed); Sorted(h) && AllClean(h) && !Has(h, TransferEncoding())
  {
    if typed {
      TypeIsClean();
      var f := Field(ContentType(), PluginJson());
      assert TypedHeaders([], typed) == [f] by { FirstField(f); }
      assert |LowerAll(f.name)| != |LowerAll(TransferEncoding())|;
      NoValues([f], TransferEncoding());
    }
  }

  lemma FirstField(f: Field)
    ensures Set([], f.name, f.value, true) == [f]
  {
    assert Erase([], f.name) == [] && UpperBound([], f.name) == 0;
  }

  lemma TypeIsClean()
    ensures Clean(Field(ContentType(), PluginJson()))
  {
    PrintedNoBreak("application/vnd.docker.plugins.v1.1+json");
  }

  lemma {:induction false} RepliesDecode(replies: seq<Reply>, s: bytes, p: nat)
    requires p <= |s| && At(s, p, ReplyWires(replies)) && p + |ReplyWires(replies)| == |s|
    ensures DecodeAll(s, p) == Some(Expected(replies, p)) <==> forall r <- replies :: Framed(r)
    decreases |replies|
  {
    hide At, Decode, EndWith, ReplyFields, Set, Phrase, Framed, ReplyWire;
    if replies != [] {
      var reply := replies[0];
      AtConcat(s, p, ReplyWire(reply), ReplyWires(replies[1..]));
      ReplyDecodes(reply, s, p);
      var q := p + |ReplyWire(reply)|;
      RepliesDecode(replies[1..], s, q);
      assert replies == [reply] + replies[1..];
      assert Expected(replies, p)[0].next == q && Expected(replies, p)[1..] == Expected(replies[1..], q);
    }
  }

  lemma ReplyDecodes(reply: Reply, s: bytes, p: nat)
    requires At(s, p, ReplyWire(reply))
    ensures p + |ReplyWire(reply)| <= |s| && p < |s|
    ensures var m := Message(reply.status, ReplyFields(reply), reply.body, p + |ReplyWire(reply)|);
      Decode(s, p) == Some(m) <==> Framed(reply)
  {
    hide At, Decode, EndWith, Set, Phrase, Bodyless, Has, SizedHeaders, AllClean;
    var h := TypedHeaders([], reply.typed);
    TypedClean(reply.typed);
    var r := SetStatus(RESET.(headers := h), reply.status, []);
    SizedResponse(r, reply.body, s, p);
    AtWithin(s, p, ReplyWire(reply));
    SizedWire(r, reply.body);
    assert Head(r.status, r.message, SizedHeaders(h, |reply.body|)) != [];
  }

  /**
    For every run of requests on a connection whose sends succeed: a client that decodes the bytes on the wire
    gets exactly one response per request, in order, with exact status and body, if and only if every
    status has three digits and allows its body. A request that is not a POST is answered with 405 and
    is the last one.
   */
  lemma PipelinedResponses(c: Conn, rqs: seq<Request>, drivers: Drivers)
    requires Idle(c)
    ensures var wire := Run(c, EventsOfAll(rqs), drivers).wire; var replies := Replies(rqs, drivers);
      DecodeAll(wire, 0) == Some(Expected(replies, 0)) <==> forall r <- replies :: Framed(r)
  {
    hide DecodeAll, Run, ReplyWires, Replies, Framed, Expected;
    RequestsRun(c, rqs, drivers);
    var wire := ReplyWires(Replies(rqs, drivers));
    assert wire + [] == wire;
    AtPrefix(wire, []);
    RepliesDecode(Replies(rqs, drivers), wire, 0);
  }

  /** The request reaches a registered driver. */
  predicate CallsDriver(drivers: Drivers, rq: Request) {
    var route := RouteOf(CallOf(rq).url);
    rq.m == Post && route.ToDriver? && IsRegistered(drivers, route.target.driver)
  }

  /** What the driver's member makes of the request. */
  function ResultOf(rq: Request, drivers: Drivers): (r: HandlerResult)
    requires CallsDriver(drivers, rq)
  {
    rq.handler(RouteOf(CallOf(rq).url).target, CallOf(rq))
  }

  /** Replies are framed unless a driver throws a status that cannot carry its error object. */
  lemma OnlyThrownStatusesMatter(rq: Request, drivers: Drivers)
    ensures Framed(ReplyTo(drivers, rq)) <==>
      (CallsDriver(drivers, rq) && ResultOf(rq, drivers).ErrorResponse? ==>
         var status := ResultOf(rq, drivers).status; ThreeDigits(status) && !Bodyless(status))
  {
    hide Spells, MemberOf, Collected;
    if CallsDriver(drivers, rq) && ResultOf(rq, drivers).ErrorResponse? {
      ErrorBodyStarts(ResultOf(rq, drivers).error);
    }
  }

  /** Nothing that a client decodes is the reply, when a driver throws such a status. */
  lemma ThrownStatusBreaks(c: Conn, rq: Request, drivers: Drivers, status: int, error: bytes)
    requires Idle(c) && CallsDriver(drivers, rq) && ResultOf(rq, drivers) == ErrorResponse(status, error)
    ensures var reply := Reply(status, true, Serialize(ErrorValue(error), false));
      var read := DecodeAll(Run(c, EventsOfAll([rq]), drivers).wire, 0);
      read == Some(Expected([reply], 0)) <==> ThreeDigits(status) && !Bodyless(status)
  {
    hide DecodeAll, Run, Framed, Expected, Collected, Spells, MemberOf, RouteOf, IsRegistered;
    OnlyThrownStatusesMatter(rq, drivers);
    assert Replies([rq], drivers) == [ReplyTo(drivers, rq)];
    PipelinedResponses(c, [rq], drivers);
  }

  /** The status that `error_response` has when a driver does not set it. */
  lemma DefaultStatusBreaks(c: Conn, rq: Request, drivers: Drivers)
    requires Idle(c) && CallsDriver(drivers, rq) && ResultOf(rq, drivers) == ErrorResponse(0, [])
    ensures DecodeAll(Run(c, EventsOfAll([rq]), drivers).wire, 0) != Some(Expected(Replies([rq], drivers), 0))
  {
    hide DecodeAll, Run, Expected, Collected, Spells, MemberOf, RouteOf, IsRegistered;
    assert Replies([rq], drivers) == [ReplyTo(drivers, rq)];
    ThrownStatusBreaks(c, rq, drivers, 0, []);
  }

  /** 204 does not allow the error object that follows it. */
  lemma NoContentBreaks(c: Conn, rq: Request, drivers: Drivers, error: bytes)
    requires Idle(c) && CallsDriver(drivers, rq) && ResultOf(rq, drivers) == ErrorResponse(204, error)
    ensures DecodeAll(Run(c, EventsOfAll([rq]), drivers).wire, 0) != Some(Expected(Replies([rq], drivers), 0))
  {
    hide DecodeAll, Run, Expected, Collected, Spells, MemberOf, RouteOf, IsRegistered;
    assert Replies([rq], drivers) == [ReplyTo(drivers, rq)];
    ThrownStatusBreaks(c, rq, drivers, 204, error);
  }

  lemma ErrorBodyStarts(error: bytes)
    ensures Serialize(ErrorValue(error), false) != []
  {
    hide WriteMembers;
    assert WriteBody(ErrorValue(error), -1, Verbatim) != [];
  }

  // ---------- what the bodies mean ----------

  /** A client that parses an error body finds the message, for every byte string. */
  lemma ErrorBodyReads(error: bytes, prior: Value)
    ensures var r := ReadText(Serialize(ErrorValue(error), false), prior); r.ok && r.value == ErrorValue(error)
  {
    hide ReadText, Serialize;
    var v := ErrorValue(error);
    SingleMemberFits(ErrKey(), Str(error), MAX_DEPTHS);
    PlainRoundTrip(v, false, [], prior);
    assert Serialize(v, false) + [] == Serialize(v, false);
  }

  /** A client that parses the activation reply finds exactly the registered drivers, in map order. */
  lemma ActivationReads(drivers: Drivers, prior: Value)
    ensures var r := ReadText(Serialize(ActivateValue(drivers), false), prior);
      r.ok && r.value == Object([Member(ImplementsKey(), Array(Strings(Registered(drivers))))])
  {
    hide ReadText, Serialize, Implemented, Registered, LexLess;
    ImplementedNames(drivers);
    var v := ActivateValue(drivers);
    ActivateValid(drivers);
    PlainRoundTrip(v, false, [], prior);
    assert Serialize(v, false) + [] == Serialize(v, false);
  }

  /** The registered drivers in alphabetical order. */
  function Registered(drivers: Drivers): (r: seq<bytes>) {
    (if drivers.ipam then [Ascii("IpamDriver")] else [])
    + (if drivers.network then [Ascii("NetworkDriver")] else [])
    + (if drivers.volume then [Ascii("VolumeDriver")] else [])
  }

  lemma ActivateValid(drivers: Drivers)
    ensures var v := ActivateValue(drivers); Valid(v) && Integral(v) && ValueFits(v, MAX_DEPTHS)
  {
    hide Implemented;
    var names := Strings(Implemented(drivers));
    StringsFit(names, MAX_DEPTHS);
    SingleMemberFits(ImplementsKey(), Array(names), MAX_DEPTHS);
  }

  /** Insertion into the set, in any combination, gives the alphabetical list. */
  lemma ImplementedNames(drivers: Drivers)
    ensures Implemented(drivers) == Registered(drivers)
  {
    var i, n, v := Ascii("IpamDriver"), Ascii("NetworkDriver"), Ascii("VolumeDriver");
    assert i[0] < n[0] < v[0];
    assert LexLess(i, n) && LexLess(n, v) && LexLess(i, v);
  }
}
