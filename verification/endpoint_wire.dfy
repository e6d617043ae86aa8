/** Endpoint interfaces on the wire: the object builders and readers of `serialize.cpp` around the JSON core. */
module EndpointWire {
  import opened Bytes
  import opened JsonValue
  import opened JsonReader
  import opened JsonErrors
  import opened JsonLayout
  import opened JsonWriter
  import opened JsonText
  import opened JsonTheorems

  /** What a reader returns or throws. */
  datatype Result<+T> = Ok(value: T) | InvalidArgument(what: bytes) | RuntimeError(what: bytes) | OverflowError

  datatype EndpointInterface = EndpointInterface(ipv4: bytes, ipv6: bytes, mac: bytes)

  datatype CreateEndpointRequest =
    CreateEndpointRequest(networkId: bytes, endpointId: bytes, interface: EndpointInterface, options: map<bytes, bytes>)

  const NO_INTERFACE := EndpointInterface([], [], [])

  function AddressKey(): (r: bytes) { Ascii("Address") }

  function AddressV6Key(): (r: bytes) { Ascii("AddressIPv6") }

  function MacKey(): (r: bytes) { Ascii("MacAddress") }

  function InterfaceKey(): (r: bytes) { Ascii("Interface") }

  function OptionsKey(): (r: bytes) { Ascii("Options") }

  /** `parse_object` */
  function ParseObject(s: bytes): (r: Result<seq<Member>>) {
    var read := ReadText(s, Null);
    if read.thrown then OverflowError
    else if read.err != [] then InvalidArgument(read.err)
    else if !read.value.Object? then InvalidArgument(Ascii("not a json object"))
    else Ok(read.value.members)
  }

  /** The string member of that name, or the empty string. */
  function StringMember(ms: seq<Member>, key: bytes): (r: bytes) {
    match Find(ms, key)
    case Some(Str(t)) => t
    case _ => []
  }

  /** `serialize_endpoint_interface` */
  function InterfaceValue(ei: EndpointInterface): (r: Value) {
    Object(Put(Put(Put([], AddressKey(), Str(ei.ipv4)), AddressV6Key(), Str(ei.ipv6)), MacKey(), Str(ei.mac)))
  }

  /** `parse_endpoint_interface` */
  function ReadInterface(v: Value): (r: EndpointInterface) {
    if !v.Object? then NO_INTERFACE
    else
      EndpointInterface(StringMember(v.members, AddressKey()), StringMember(v.members, AddressV6Key()),
                        StringMember(v.members, MacKey()))
  }

  /** The value of `to_json<create_endpoint_response>`. */
  function ResponseValue(ei: EndpointInterface): (r: Value) {
    Object(if ei == NO_INTERFACE then [] else Put([], InterfaceKey(), InterfaceValue(ei)))
  }

  /** `to_json<create_endpoint_response>` */
  function WriteResponse(ei: EndpointInterface): (r: bytes) {
    ResponseIsValid(ei);
    Serialize(ResponseValue(ei), false)
  }

  /** What `get<object>` throws for a value that is not an object. */
  function TypeMismatch(): (r: bytes) {
    Ascii("\"type mismatch! call is<type>() ") + Ascii("before get<type>()\" && ") + Ascii("is<object>()")
  }

  /** The reading `convert_map`: it returns at once for an object, and `get<object>` throws for anything else. */
  function ConvertMap(m: map<bytes, bytes>, v: Value): (r: Result<map<bytes, bytes>>) {
    if v.Object? then Ok(m) else RuntimeError(TypeMismatch())
  }

  /** `from_json<create_endpoint_request>` */
  function ReadRequest(s: bytes): (r: Result<CreateEndpointRequest>) {
    match ParseObject(s)
    case InvalidArgument(what) => InvalidArgument(what)
    case RuntimeError(what) => RuntimeError(what)
    case OverflowError => OverflowError
    case Ok(ms) =>
      var ei := match Find(ms, InterfaceKey()) case Some(v) => ReadInterface(v) case None => NO_INTERFACE;
      var options := match Find(ms, OptionsKey()) case Some(v) => ConvertMap(map[], v) case None => Ok(map[]);
      if options.Ok? then
        Ok(CreateEndpointRequest(StringMember(ms, Ascii("NetworkID")), StringMember(ms, Ascii("EndpointID")), ei,
                                 options.value))
      else RuntimeError(TypeMismatch())
  }

  // ---------- the interface survives ----------

  lemma KeysAscend()
    ensures LexLess(AddressKey(), AddressV6Key()) && LexLess(AddressV6Key(), MacKey())
    ensures LexLess(AddressKey(), MacKey())
    ensures AddressKey() != AddressV6Key() && AddressV6Key() != MacKey() && AddressKey() != MacKey()
  {
    var a, b, m := AddressKey(), AddressV6Key(), MacKey();
    PrefixLess(a, b);
    assert a[0] == b[0] < m[0];
  }

  lemma {:induction false} PrefixLess(a: bytes, b: bytes)
    requires |a| < |b| && a == b[..|a|]
    ensures LexLess(a, b)
    decreases |a|
  {
    if a != [] { PrefixLess(a[1..], b[1..]); }
  }

  lemma InterfaceMembers(ei: EndpointInterface)
    ensures InterfaceValue(ei) ==
      Object([Member(AddressKey(), Str(ei.ipv4)), Member(AddressV6Key(), Str(ei.ipv6)), Member(MacKey(), Str(ei.mac))])
  {
    hide LexLess, Put;
    KeysAscend();
    var a, b := Member(AddressKey(), Str(ei.ipv4)), Member(AddressV6Key(), Str(ei.ipv6));
    PutLast([], AddressKey(), Str(ei.ipv4));
    PutLast([a], AddressV6Key(), Str(ei.ipv6));
    PutLast([a, b], MacKey(), Str(ei.mac));
    assert Put([], AddressKey(), Str(ei.ipv4)) == [a];
    assert Put([a], AddressV6Key(), Str(ei.ipv6)) == [a, b];
  }

  lemma ResponseIsValid(ei: EndpointInterface)
    ensures var v := ResponseValue(ei); Valid(v) && Integral(v) && ValueFits(v, MAX_DEPTHS)
  {
    hide LexLess, InterfaceValue;
    KeysAscend();
    InterfaceMembers(ei);
    var v := InterfaceValue(ei);
    StringMembersFit(v.members, MAX_DEPTHS);
    if ei != NO_INTERFACE { SingleMemberFits(InterfaceKey(), v, MAX_DEPTHS); }
  }

  lemma InterfaceReads(ei: EndpointInterface)
    ensures ReadInterface(InterfaceValue(ei)) == ei
  {
    hide LexLess;
    KeysAscend();
    InterfaceMembers(ei);
    hide Find, InterfaceValue;
    var ms := InterfaceValue(ei).members;
    FindAt(ms, 0);
    FindAt(ms, 1);
    FindAt(ms, 2);
  }

  /**
    The request read from the text written for an endpoint response has that interface, empty or not,
    for all byte strings, and nothing else.
   */
  lemma InterfaceSurvives(ei: EndpointInterface)
    ensures ReadRequest(WriteResponse(ei)) == Ok(CreateEndpointRequest([], [], ei, map[]))
  {
    hide LexLess, Put, Serialize, ReadText;
    ResponseIsValid(ei);
    var v := ResponseValue(ei);
    PlainRoundTrip(v, false, [], Null);
    var text := WriteResponse(ei);
    assert text + [] == text;
    ErrorReport(text, Null);
    assert ParseObject(text) == Ok(v.members);
    ResponseMembers(ei);
    InterfaceReads(ei);
  }

  lemma ResponseMembers(ei: EndpointInterface)
    ensures var ms := ResponseValue(ei).members;
      && Find(ms, InterfaceKey()) == (if ei == NO_INTERFACE then None else Some(InterfaceValue(ei)))
      && Find(ms, OptionsKey()) == None && StringMember(ms, Ascii("NetworkID")) == []
      && StringMember(ms, Ascii("EndpointID")) == []
  {
    hide LexLess;
    var ms := ResponseValue(ei).members;
    assert InterfaceKey()[0] == 0x49 && OptionsKey()[0] == 0x4F;
    assert Ascii("NetworkID")[0] == 0x4E && Ascii("EndpointID")[0] == 0x45;
    assert ms == [] || ms == [Member(InterfaceKey(), InterfaceValue(ei))];
    FindNone(ms, OptionsKey());
    FindNone(ms, Ascii("NetworkID"));
    FindNone(ms, Ascii("EndpointID"));
  }

  /** The members of the options of a request, if they are an object. */
  function OptionsOf(ms: seq<Member>): (r: seq<Member>) {
    match Find(ms, OptionsKey())
    case Some(Object(options)) => options
    case _ => []
  }

  /** What the loop of `convert_map` is there to collect: the members that are strings. */
  function StringMembers(ms: seq<Member>): (r: map<bytes, bytes>) {
    if ms == [] then map[]
    else
      var rest := StringMembers(ms[1..]);
      match ms[0].value
      case Str(t) => rest[ms[0].key := t]
      case _ => rest
  }

  lemma {:induction false} NoStringMembers(ms: seq<Member>)
    ensures StringMembers(ms) == map[] <==> forall m <- ms :: !m.value.Str?
  {
    if ms != [] {
      NoStringMembers(ms[1..]);
      assert ms == [ms[0]] + ms[1..];
      if ms[0].value.Str? { assert ms[0].key in StringMembers(ms); }
    }
  }

  /**
    A request is read exactly when the text is an object whose options, if present, are an object, and reading
    throws an overflow exactly when the parser does. The options read are then the string members of that object
    if and only if there are none.
   */
  lemma OptionsSurviveExactly(s: bytes)
    ensures var r := ReadText(s, Null);
      ReadRequest(s).Ok? <==>
        r.ok && r.value.Object? && (Find(r.value.members, OptionsKey()) == None
                                    || Find(r.value.members, OptionsKey()).value.Object?)
    ensures ReadRequest(s) == OverflowError <==> ReadText(s, Null).thrown
    ensures ReadRequest(s).Ok? ==>
      var options := OptionsOf(ReadText(s, Null).value.members);
      ReadRequest(s).value.options == StringMembers(options) <==> forall m <- options :: !m.value.Str?
  {
    hide ReadText, StringMembers;
    ErrorReport(s, Null);
    if ReadRequest(s).Ok? { NoStringMembers(OptionsOf(ReadText(s, Null).value.members)); }
  }

  function LostText(): (r: bytes) { Ascii("{\"Options\":{\"a\":\"b\"}}") }

  /** A request whose one option is lost. */
  lemma LostOption()
    ensures var s := LostText();
      && ReadRequest(s).Ok? && ReadRequest(s).value.options == map[]
      && StringMembers(OptionsOf(ReadText(s, Null).value.members)) == map[[0x61] := [0x62]]
  {
    hide ReadText, LostText, StringMembers;
    var ms: seq<Member> := [Member([0x61], Str([0x62]))];
    LostOptionReads();
    ErrorReport(LostText(), Null);
    assert Find([Member(OptionsKey(), Object(ms))], OptionsKey()) == Some(Object(ms));
    OneStringMember([0x61], [0x62]);
  }

  lemma OneStringMember(key: bytes, t: bytes)
    ensures StringMembers([Member(key, Str(t))]) == map[key := t]
  {
    assert [Member(key, Str(t))][1..] == [];
  }

  lemma LostOptionReads()
    ensures var r := ReadText(LostText(), Null);
      r.ok && r.value == Object([Member(OptionsKey(), Object([Member([0x61], Str([0x62]))]))])
  {
    hide ReadText, Serialize, LexLess, LostText;
    var inner := Object([Member([0x61], Str([0x62]))]);
    var v := Object([Member(OptionsKey(), inner)]);
    SingleMemberFits([0x61], Str([0x62]), MAX_DEPTHS);
    SingleMemberFits(OptionsKey(), inner, MAX_DEPTHS);
    PlainRoundTrip(v, false, [], Null);
    LostOptionText();
    assert Serialize(v, false) + [] == Serialize(v, false);
  }

  lemma LostOptionText()
    ensures var inner := Object([Member([0x61], Str([0x62]))]);
      Serialize(Object([Member(OptionsKey(), inner)]), false) == LostText()
  {
    hide Write, WriteString, OptionsKey, LostText;
    var inner := Object([Member([0x61], Str([0x62]))]);
    OneMemberText(OptionsKey(), inner);
    OneMemberText([0x61], Str([0x62]));
    StringText([0x62]);
    LettersText([0x61]);
    LettersText([0x62]);
    OptionsLetters();
    LettersText(OptionsKey());
    LostOptionBytes();
  }

  lemma LostOptionBytes()
    ensures LostText() ==
      [LBRACE] + ([QUOTE] + [0x4F, 0x70, 0x74, 0x69, 0x6F, 0x6E, 0x73] + [QUOTE] + [COLON]
        + ([LBRACE] + ([QUOTE] + [0x61] + [QUOTE] + [COLON] + ([QUOTE] + [0x62] + [QUOTE])) + [RBRACE])) + [RBRACE]
  {
  }

  lemma OptionsLetters()
    ensures forall b <- OptionsKey() :: 0x41 <= b <= 0x5A || 0x61 <= b <= 0x7A
    ensures OptionsKey() == [0x4F, 0x70, 0x74, 0x69, 0x6F, 0x6E, 0x73]
  {
  }

  lemma StringText(t: bytes)
    ensures Write(Str(t), -1, Verbatim) == WriteString(t)
  {
  }

  /** The compact text of an object with one member. */
  lemma OneMemberText(key: bytes, v: Value)
    ensures Write(Object([Member(key, v)]), -1, Verbatim)
         == [LBRACE] + (WriteString(key) + [COLON] + Write(v, -1, Verbatim)) + [RBRACE]
  {
    hide WriteString;
    var ms := [Member(key, v)];
    assert WriteMembers(ms, 1, -1, Verbatim) == [];
    assert WriteMembers(ms, 0, -1, Verbatim) == WriteString(key) + [COLON] + Write(v, -1, Verbatim);
  }

  lemma LettersText(t: bytes)
    requires forall b <- t :: 0x41 <= b <= 0x5A || 0x61 <= b <= 0x7A
    ensures WriteString(t) == [QUOTE] + t + [QUOTE]
  {
    EscapeLetters(t, 0);
    assert t[0..] == t;
  }

  lemma {:induction false} EscapeLetters(t: bytes, k: nat)
    requires k <= |t| && forall b <- t :: 0x41 <= b <= 0x5A || 0x61 <= b <= 0x7A
    ensures EscapeFrom(t, k) == t[k..]
    decreases |t| - k
  {
    hide EscapeByte;
    if k < |t| {
      assert t[k] in t;
      LetterText(t[k]);
      EscapeLetters(t, k + 1);
      assert t[k..] == [t[k]] + t[k + 1..];
    }
  }

  lemma LetterText(b: byte)
    requires 0x41 <= b <= 0x5A || 0x61 <= b <= 0x7A
    ensures EscapeByte(b) == [b]
  {
  }
}
