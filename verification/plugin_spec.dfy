/**
  One connection of the plugin server as a state machine: the parser callbacks of `http_connection`
  with the hooks of `plugin_http_connection`. The HTTP request parser is the source of the events.
 */
module PluginSpec {
  import opened Bytes
  import opened JsonValue
  import opened JsonWriter
  import opened HttpHeaders
  import opened HttpResponse

  datatype Method = Post | OtherMethod

  /** What a handler can see of a request. */
  datatype Call = Call(url: bytes, headers: seq<Field>, body: bytes)

  /** How the body of the try block ends: `from_json`, the driver's member and `to_json` together. */
  datatype HandlerResult =
    | Returned(json: bytes)
    | ErrorResponse(status: int, error: bytes)
    | InvalidArgument(what: bytes)
    | OtherException(what: bytes)

  type Handler = (Target, Call) -> HandlerResult

  /** Which drivers are registered. */
  datatype Drivers = Drivers(volume: bool, network: bool, ipam: bool)

  datatype Event =
    | MessageBegin
    | UrlFragment(t: bytes)
    | UrlComplete(m: Method)
    | FieldFragment(t: bytes)
    | FieldComplete
    | ValueFragment(t: bytes)
    | ValueComplete
    | HeadersComplete
    | BodyFragment(t: bytes)
    | MessageComplete(handler: Handler)

  datatype Conn = Conn(buffer: bytes, bufferBody: bool, bufferHeaders: bool, headers: seq<Field>,
                       current: Option<nat>, url: bytes, resp: Response)

  /** State after a callback, bytes written by it, and its return code. */
  datatype Step = Step(conn: Conn, wire: bytes, code: int)

  // ---------- routing ----------

  predicate Spells(url: bytes, t: string) {
    |url| == |t| && forall i :: 0 <= i < |t| ==> url[i] == t[i] as int
  }

  const ACTIVATE := "/Plugin.Activate"
  const VOLUME := "/VolumeDriver."
  const NETWORK := "/NetworkDriver."
  const IPAM := "/IpamDriver."

  const VOLUME_CALLS: seq<string> := [
    "Create", "Remove", "Mount", "Path", "Unmount", "Get", "List", "Capabilities"
  ]

  const NETWORK_CALLS: seq<string> := [
    "GetCapabilities", "CreateNetwork", "AllocateNetwork", "DeleteNetwork", "FreeNetwork", "CreateEndpoint",
    "DeleteEndpoint", "EndpointOperInfo", "Join", "Leave", "DiscoverNew", "DiscoverDelete",
    "ProgramExternalConnectivity", "RevokeExternalConnectivity"
  ]

  const IPAM_CALLS: seq<string> := [
    "GetCapabilities", "GetDefaultAddressSpaces", "RequestPool", "ReleasePool", "RequestAddress", "ReleaseAddress"
  ]

  datatype Driver = VolumeDriver | NetworkDriver | IpamDriver

  /** A driver's member, counted in the order of its URLs. */
  datatype Target = Target(driver: Driver, member: nat)

  datatype Route = Activate | ToDriver(target: Target) | Unknown

  function PrefixOf(d: Driver): (r: string) {
    match d
    case VolumeDriver => VOLUME
    case NetworkDriver => NETWORK
    case IpamDriver => IPAM
  }

  function CallsOf(d: Driver): (r: seq<string>) {
    match d
    case VolumeDriver => VOLUME_CALLS
    case NetworkDriver => NETWORK_CALLS
    case IpamDriver => IPAM_CALLS
  }

  /** The URL is the prefix followed by the name. */
  predicate Joins(url: bytes, prefix: string, name: string) {
    |prefix| <= |url| && Spells(url[..|prefix|], prefix) && Spells(url[|prefix|..], name)
  }

  /** The URL of a driver's member. */
  predicate IsUrlOf(url: bytes, t: Target) {
    t.member < |CallsOf(t.driver)| && Joins(url, PrefixOf(t.driver), CallsOf(t.driver)[t.member])
  }

  /** The comparisons with the URLs of one driver, from name `k` on. */
  function MemberOf(url: bytes, prefix: string, names: seq<string>, k: nat): (r: Option<nat>)
    requires k <= |names|
    decreases |names| - k
  {
    if k == |names| then None
    else if Joins(url, prefix, names[k]) then Some(k)
    else MemberOf(url, prefix, names, k + 1)
  }

  function MemberOfDriver(url: bytes, d: Driver): (r: Option<nat>) { MemberOf(url, PrefixOf(d), CallsOf(d), 0) }

  /** The chain of comparisons in `on_message_complete`. */
  function RouteOf(url: bytes): (r: Route) {
    if Spells(url, ACTIVATE) then Activate
    else
      match MemberOfDriver(url, VolumeDriver)
      case Some(k) => ToDriver(Target(VolumeDriver, k))
      case None =>
        match MemberOfDriver(url, NetworkDriver)
        case Some(k) => ToDriver(Target(NetworkDriver, k))
        case None =>
          match MemberOfDriver(url, IpamDriver)
          case Some(k) => ToDriver(Target(IpamDriver, k))
          case None => Unknown
  }

  function IsRegistered(drivers: Drivers, d: Driver): (r: bool) {
    match d
    case VolumeDriver => drivers.volume
    case NetworkDriver => drivers.network
    case IpamDriver => drivers.ipam
  }

  ghost predicate Distinct(names: seq<string>) {
    forall i, j :: 0 <= i < j < |names| ==> names[i] != names[j]
  }

  lemma NamesDistinct(d: Driver)
    ensures Distinct(CallsOf(d))
  {
  }

  lemma SpellsOne(url: bytes, a: string, b: string)
    requires Spells(url, a) && Spells(url, b)
    ensures a == b
  {
    assert forall i :: 0 <= i < |a| ==> a[i] as int == b[i] as int;
  }

  /** The comparisons find a member exactly when the URL is its own; there is at most one. */
  lemma {:induction false} MemberFound(url: bytes, prefix: string, names: seq<string>, k: nat, i: nat)
    requires Distinct(names) && k <= i < |names|
    ensures MemberOf(url, prefix, names, k) == Some(i) <==> Joins(url, prefix, names[i])
    decreases |names| - k
  {
    if k < i {
      MemberFound(url, prefix, names, k + 1, i);
      if Joins(url, prefix, names[k]) && Joins(url, prefix, names[i]) {
        SpellsOne(url[|prefix|..], names[k], names[i]);
      }
    } else if !Joins(url, prefix, names[k]) {
      MemberLater(url, prefix, names, k + 1);
    }
  }

  lemma {:induction false} MemberLater(url: bytes, prefix: string, names: seq<string>, k: nat)
    requires k <= |names|
    ensures var r := MemberOf(url, prefix, names, k);
      r.Some? ==> k <= r.value < |names| && Joins(url, prefix, names[r.value])
    decreases |names| - k
  {
    if k < |names| { MemberLater(url, prefix, names, k + 1); }
  }

  /** The second byte of a URL tells the driver. */
  lemma SecondByte(url: bytes, d: Driver)
    ensures MemberOfDriver(url, d).Some? ==> |url| >= 2 && url[1] == PrefixOf(d)[1] as int
  {
    MemberLater(url, PrefixOf(d), CallsOf(d), 0);
    if MemberOfDriver(url, d).Some? { assert url[..|PrefixOf(d)|][1] == PrefixOf(d)[1] as int; }
  }

  /** Each URL test of the chain decides its route alone: the order of the tests does not matter. */
  lemma RoutesExclude(url: bytes, t: Target)
    ensures RouteOf(url) == Activate <==> Spells(url, ACTIVATE)
    ensures RouteOf(url) == ToDriver(t) <==> IsUrlOf(url, t)
  {
    SecondByte(url, VolumeDriver);
    SecondByte(url, NetworkDriver);
    SecondByte(url, IpamDriver);
    if Spells(url, ACTIVATE) { assert url[1] == 'P' as int; }
    NamesDistinct(t.driver);
    MemberLater(url, PrefixOf(t.driver), CallsOf(t.driver), 0);
    if t.member < |CallsOf(t.driver)| { MemberFound(url, PrefixOf(t.driver), CallsOf(t.driver), 0, t.member); }
    hide MemberOf, Joins, Spells, CallsOf;
  }

  // ---------- replies ----------

  function ErrKey(): (r: bytes) { Ascii("Err") }

  function ImplementsKey(): (r: bytes) { Ascii("Implements") }

  /** The value of `to_json<error_response>`. */
  function ErrorValue(error: bytes): (r: Value) { Object([Member(ErrKey(), Str(error))]) }

  /** `std::set::insert` of a name. */
  function InsertName(names: seq<bytes>, name: bytes): (r: seq<bytes>) {
    if names == [] then [name]
    else if names[0] == name then names
    else if LexLess(name, names[0]) then [name] + names
    else [names[0]] + InsertName(names[1..], name)
  }

  /** The set that `plugin_activate` builds, in iteration order. */
  function Implemented(drivers: Drivers): (r: seq<bytes>) {
    var a := if drivers.volume then InsertName([], Ascii("VolumeDriver")) else [];
    var b := if drivers.network then InsertName(a, Ascii("NetworkDriver")) else a;
    if drivers.ipam then InsertName(b, Ascii("IpamDriver")) else b
  }

  function Strings(names: seq<bytes>): (r: seq<Value>)
    ensures |r| == |names|
  {
    seq(|names|, i requires 0 <= i < |names| => Str(names[i]))
  }

  /** The value of `to_json<activate_response>`. */
  function ActivateValue(drivers: Drivers): (r: Value) {
    Object([Member(ImplementsKey(), Array(Strings(Implemented(drivers))))])
  }

  /** What a request is answered with; `typed` says whether a content-type is set. */
  datatype Reply = Reply(status: int, typed: bool, body: bytes)

  function NotFound(): (r: bytes) { Ascii("Not found") }

  /** `on_message_complete` and `invoke_plugin_handler` */
  function Answer(drivers: Drivers, handler: Handler, call: Call): (r: Reply) {
    match RouteOf(call.url)
    case Unknown => Reply(404, false, NotFound())
    case Activate => Reply(200, true, Serialize(ActivateValue(drivers), false))
    case ToDriver(target) =>
      if !IsRegistered(drivers, target.driver) then Reply(404, true, NotFound())
      else
        match handler(target, call)
        case Returned(json) => Reply(200, true, json)
        case ErrorResponse(status, error) => Reply(status, true, Serialize(ErrorValue(error), false))
        case InvalidArgument(what) => Reply(400, true, Serialize(ErrorValue(what), false))
        case OtherException(what) => Reply(500, true, Serialize(ErrorValue(what), false))
  }

  function ContentType(): (r: bytes) { Ascii("content-type") }

  function PluginJson(): (r: bytes) { Ascii("application/vnd.docker.plugins.v1.1+json") }

  function TypedHeaders(h: seq<Field>, typed: bool): (r: seq<Field>) {
    if typed then Set(h, ContentType(), PluginJson(), true) else h
  }

  /** Set the headers and the status, and send the body. */
  function SendReply(resp: Response, reply: Reply): (w: Written) {
    EndWith(SetStatus(resp.(headers := TypedHeaders(resp.headers, reply.typed)), reply.status, []), reply.body)
  }

  // ---------- the callbacks ----------

  /** What `end` leaves of the connection. */
  function Ended(c: Conn, resp: Response): (r: Conn) { Conn([], false, false, [], None, c.url, resp) }

  function MethodNotAllowed(): (r: Reply) { Reply(405, false, Ascii("Method not allowed")) }

  function Next(c: Conn, e: Event, drivers: Drivers): (r: Step) {
    match e
    case MessageBegin => Step(c.(buffer := [], bufferHeaders := true, bufferBody := true), [], 0)
    case UrlFragment(t) => Step(c.(buffer := c.buffer + t), [], 0)
    case UrlComplete(m) =>
      if m == Post then Step(c.(url := c.buffer, buffer := []), [], 0)
      else
        var w := SendReply(c.resp, MethodNotAllowed());
        Step(Ended(c, w.state), w.wire, 1)
    case FieldFragment(t) => Step(c.(buffer := c.buffer + t), [], 0)
    case FieldComplete =>
      if c.bufferHeaders then
        var name := LowerAll(c.buffer);
        var i := UpperBound(c.headers, name);
        Step(c.(headers := Emplace(c.headers, name, []), current := Some(i), buffer := []), [], 0)
      else Step(c.(buffer := []), [], 0)
    case ValueFragment(t) => Step(c.(buffer := c.buffer + t), [], 0)
    case ValueComplete =>
      if c.bufferHeaders && c.current.Some? && c.current.value < |c.headers| then
        var i := c.current.value;
        Step(c.(headers := c.headers[i := c.headers[i].(value := c.buffer)], buffer := []), [], 0)
      else Step(c.(buffer := []), [], 0)
    case HeadersComplete => Step(c.(buffer := []), [], 0)
    case BodyFragment(t) => Step(if c.bufferBody then c.(buffer := c.buffer + t) else c, [], 0)
    case MessageComplete(handler) =>
      var body := if c.bufferBody then c.buffer else [];
      var w := SendReply(c.resp, Answer(drivers, handler, Call(c.url, c.headers, body)));
      Step(Ended(c, w.state), w.wire, 0)
  }

  /** A run of callbacks; the parser stops at the first one that fails. */
  function Run(c: Conn, es: seq<Event>, drivers: Drivers): (r: Step)
    decreases |es|
  {
    if es == [] then Step(c, [], 0)
    else
      var s := Next(c, es[0], drivers);
      if s.code != 0 then s
      else
        var rest := Run(s.conn, es[1..], drivers);
        Step(rest.conn, s.wire + rest.wire, rest.code)
  }
}
