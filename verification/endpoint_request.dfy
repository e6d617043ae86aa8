/** Create-endpoint requests: which member of the text becomes which field. */
module EndpointRequest {
  import opened Bytes
  import opened JsonValue
  import opened JsonErrors
  import opened JsonLayout
  import opened JsonReader
  import opened JsonText
  import opened JsonTheorems
  import opened JsonWriter
  import opened EndpointWire

  /** The string under the key, or the empty string where none is. */
  ghost predicate Holds(ms: seq<Member>, key: bytes, t: bytes) {
    Member(key, Str(t)) in ms || (t == [] && forall u :: Member(key, Str(u)) !in ms)
  }

  ghost predicate HoldsInterface(ms: seq<Member>, ei: EndpointInterface) {
    if exists inner :: Member(Ascii("Interface"), Object(inner)) in ms then
      exists inner :: Member(Ascii("Interface"), Object(inner)) in ms && HoldsAddresses(inner, ei)
    else ei == EndpointInterface([], [], [])
  }

  ghost predicate HoldsAddresses(ms: seq<Member>, ei: EndpointInterface) {
    && Holds(ms, Ascii("Address"), ei.ipv4) && Holds(ms, Ascii("AddressIPv6"), ei.ipv6)
    && Holds(ms, Ascii("MacAddress"), ei.mac)
  }

  /** The options are absent or an object. */
  ghost predicate HasOptions(ms: seq<Member>) {
    forall m <- ms :: m.key == Ascii("Options") ==> m.value.Object?
  }

  lemma Unique(ms: seq<Member>, i: nat, j: nat)
    requires Ascending(ms) && i < |ms| && j < |ms| && ms[i].key == ms[j].key
    ensures i == j
  {
    LexIrreflexive(ms[i].key);
  }

  /** In map order the member found is the only one with its key. */
  lemma FindExactly(ms: seq<Member>, key: bytes, v: Value)
    requires Ascending(ms)
    ensures Find(ms, key) == Some(v) <==> Member(key, v) in ms
    ensures Find(ms, key) == None <==> forall m <- ms :: m.key != key
  {
    hide Ascending, Find;
    if i :| 0 <= i < |ms| && ms[i].key == key {
      forall j | 0 <= j < |ms| && ms[j].key == key ensures j == i { Unique(ms, i, j); }
      FindAt(ms, i);
    } else {
      FindNone(ms, key);
    }
  }

  lemma HoldsExactly(ms: seq<Member>, key: bytes, t: bytes)
    requires Ascending(ms)
    ensures Holds(ms, key, t) <==> t == StringMember(ms, key)
  {
    hide Ascending, Find;
    forall u ensures Find(ms, key) == Some(Str(u)) <==> Member(key, Str(u)) in ms { FindExactly(ms, key, Str(u)); }
  }

  lemma AddressesExactly(ms: seq<Member>, ei: EndpointInterface)
    requires Ascending(ms)
    ensures HoldsAddresses(ms, ei) <==> ei == ReadInterface(Object(ms))
  {
    hide Ascending, StringMember, Holds, Ascii;
    HoldsExactly(ms, AddressKey(), ei.ipv4);
    HoldsExactly(ms, AddressV6Key(), ei.ipv6);
    HoldsExactly(ms, MacKey(), ei.mac);
  }

  function InterfaceOf(ms: seq<Member>): (r: EndpointInterface) {
    match Find(ms, InterfaceKey()) case Some(v) => ReadInterface(v) case None => NO_INTERFACE
  }

  lemma InterfaceExactly(ms: seq<Member>, ei: EndpointInterface)
    requires Valid(Object(ms))
    ensures HoldsInterface(ms, ei) <==> ei == InterfaceOf(ms)
  {
    hide Find, ReadInterface, HoldsAddresses, Ascii;
    var key := InterfaceKey();
    if inner :| Member(key, Object(inner)) in ms {
      FindExactly(ms, key, Object(inner));
      forall other | Member(key, Object(other)) in ms ensures other == inner { FindExactly(ms, key, Object(other)); }
      assert Valid(Object(inner));
      AddressesExactly(inner, ei);
    } else {
      if Find(ms, key).Some? { FindExactly(ms, key, Find(ms, key).value); }
      NoInterfaceRead(Find(ms, key));
    }
  }

  lemma NoInterfaceRead(v: Option<Value>)
    ensures v.Some? && !v.value.Object? ==> ReadInterface(v.value) == EndpointInterface([], [], [])
  {
  }

  lemma OptionsExactly(ms: seq<Member>)
    requires Ascending(ms)
    ensures HasOptions(ms) <==> (Find(ms, OptionsKey()) == None || Find(ms, OptionsKey()).value.Object?)
  {
    hide Find, Ascii, Ascending;
    var found := Find(ms, OptionsKey());
    if found.Some? {
      FindExactly(ms, OptionsKey(), found.value);
      forall m | m in ms && m.key == OptionsKey() ensures m.value == found.value {
        FindExactly(ms, OptionsKey(), m.value);
      }
    } else {
      FindExactly(ms, OptionsKey(), Null);
    }
  }

  /** The members of the text make this request. */
  ghost predicate Makes(ms: seq<Member>, request: CreateEndpointRequest) {
    && Holds(ms, Ascii("NetworkID"), request.networkId) && Holds(ms, Ascii("EndpointID"), request.endpointId)
    && HoldsInterface(ms, request.interface) && request.options == map[]
  }

  lemma MakesExactly(ms: seq<Member>, request: CreateEndpointRequest)
    requires Valid(Object(ms))
    ensures Makes(ms, request) <==>
      request == CreateEndpointRequest(StringMember(ms, Ascii("NetworkID")), StringMember(ms, Ascii("EndpointID")),
                                       InterfaceOf(ms), map[])
  {
    hide Ascii, Holds, HoldsInterface, StringMember, InterfaceOf, Ascending;
    HoldsExactly(ms, Ascii("NetworkID"), request.networkId);
    HoldsExactly(ms, Ascii("EndpointID"), request.endpointId);
    InterfaceExactly(ms, request.interface);
  }

  function NoObjectText(): (r: bytes) { Ascii("not a json object") }

  function MismatchText(): (r: bytes) {
    Ascii("\"type mismatch! call is<type>() ") + Ascii("before get<type>()\" && ") + Ascii("is<object>()")
  }

  /** The text is an object whose members make the request. */
  ghost predicate IsRequest(s: bytes, request: CreateEndpointRequest) {
    var r := ReadText(s, Null);
    r.ok && r.value.Object? && HasOptions(r.value.members) && Makes(r.value.members, request)
  }

  /**
    Reading a request succeeds exactly for an object whose options, if there are any, are an object; each field is
    then the string under its own key.
   */
  lemma RequestExactly(s: bytes, request: CreateEndpointRequest)
    ensures ReadRequest(s) == Ok(request) <==> IsRequest(s, request)
  {
    hide ReadText, Valid, Makes, HasOptions, Find, StringMember, ReadInterface, Ascii, TypeMismatch;
    ErrorReport(s, Null);
    var r := ReadText(s, Null);
    if r.ok && r.value.Object? {
      ReadIsValid(s, Null);
      ValidAscends(r.value.members);
      MakesExactly(r.value.members, request);
      OptionsExactly(r.value.members);
    }
  }

  /** Any other text fails: with an exception of the parser, with its error text, as no object, or for its options. */
  lemma RequestFails(s: bytes)
    ensures var r := ReadText(s, Null);
      && (ReadRequest(s) == OverflowError <==> r.thrown)
      && (!r.thrown && !r.ok ==> ReadRequest(s) == InvalidArgument(r.err))
      && (r.ok && !r.value.Object? ==> ReadRequest(s) == InvalidArgument(NoObjectText()))
      && (r.ok && r.value.Object? && !HasOptions(r.value.members) ==> ReadRequest(s) == RuntimeError(MismatchText()))
  {
    hide ReadText, Valid, HasOptions, Find, StringMember, ReadInterface, Ascii;
    ErrorReport(s, Null);
    var r := ReadText(s, Null);
    if r.ok && r.value.Object? {
      ReadIsValid(s, Null);
      ValidAscends(r.value.members);
      OptionsExactly(r.value.members);
    }
  }

  lemma ValidAscends(ms: seq<Member>)
    requires Valid(Object(ms))
    ensures Ascending(ms)
  {
  }

  // ---------- round trip ----------

  /** The members of an interface on the wire. */
  function InterfaceTexts(ei: EndpointInterface): (r: seq<Member>) {
    [Member(Ascii("Address"), Str(ei.ipv4)), Member(Ascii("AddressIPv6"), Str(ei.ipv6)),
     Member(Ascii("MacAddress"), Str(ei.mac))]
  }

  /** A request as an object of all its members. */
  function RequestMembers(request: CreateEndpointRequest): (r: seq<Member>) {
    [Member(Ascii("EndpointID"), Str(request.endpointId)),
     Member(Ascii("Interface"), Object(InterfaceTexts(request.interface))),
     Member(Ascii("NetworkID"), Str(request.networkId))]
  }

  /** A text that carries all members of a request, in either layout, reads as that request. */
  lemma RequestSurvives(request: CreateEndpointRequest, pretty: bool)
    requires request.options == map[]
    ensures Integral(Object(RequestMembers(request)))
    ensures ReadRequest(Serialize(Object(RequestMembers(request)), pretty)) == Ok(request)
  {
    hide ReadText, Serialize, ReadRequest, RequestMembers, Makes, HasOptions;
    var v := Object(RequestMembers(request));
    RequestIsValid(request);
    PlainRoundTrip(v, pretty, [], Null);
    var text := Serialize(v, pretty);
    assert text + [] == text;
    RequestIsMade(request);
    RequestExactly(text, request);
  }

  lemma KeysOrdered()
    ensures LexLess(Ascii("EndpointID"), Ascii("Interface")) && LexLess(Ascii("Interface"), Ascii("NetworkID"))
    ensures LexLess(Ascii("EndpointID"), Ascii("NetworkID"))
    ensures Ascii("Options") != Ascii("EndpointID") && Ascii("Options") != Ascii("Interface")
    ensures Ascii("Options") != Ascii("NetworkID")
  {
    var e, i, n, o := Ascii("EndpointID"), Ascii("Interface"), Ascii("NetworkID"), Ascii("Options");
    assert e[0] == 0x45 && i[0] == 0x49 && n[0] == 0x4E && o[0] == 0x4F;
  }

  lemma RequestIsValid(request: CreateEndpointRequest)
    ensures var v := Object(RequestMembers(request)); Valid(v) && Integral(v) && ValueFits(v, MAX_DEPTHS)
  {
    var inner := RequestMembers(request)[1].value;
    InterfaceMembers(request.interface);
    KeysAscend();
    KeysOrdered();
    hide Ascii, LexLess, InterfaceValue;
    StringMembersFit(inner.members, MAX_DEPTHS);
    forall m | m in RequestMembers(request)
      ensures Valid(m.value) && Integral(m.value) && ValueFits(m.value, MAX_DEPTHS)
    {
    }
  }

  lemma RequestIsMade(request: CreateEndpointRequest)
    requires request.options == map[]
    ensures var ms := RequestMembers(request); HasOptions(ms) && Makes(ms, request)
  {
    KeysOrdered();
    hide Ascii, LexLess;
    var ms := RequestMembers(request);
    var inner := ms[1].value.members;
    assert ms[0] in ms && ms[1] in ms && ms[2] in ms;
    assert inner[0] in inner && inner[1] in inner && inner[2] in inner;
    assert HoldsAddresses(inner, request.interface);
  }

  // ---------- the response ----------

  /** The text reads as the object of that interface, which is empty for an empty interface. */
  ghost predicate ReadsInterface(text: bytes, ei: EndpointInterface) {
    var r := ReadText(text, Null);
    && r.ok && r.value.Object?
    && r.value.members ==
         if ei == EndpointInterface([], [], []) then [] else [Member(Ascii("Interface"), Object(InterfaceTexts(ei)))]
  }

  lemma ResponseReads(ei: EndpointInterface)
    ensures ReadsInterface(WriteResponse(ei), ei)
  {
    hide ReadText, Serialize, Ascii, Valid, Integral, ValueFits;
    ResponseIsValid(ei);
    InterfaceMembers(ei);
    PlainRoundTrip(ResponseValue(ei), false, [], Null);
    assert WriteResponse(ei) + [] == WriteResponse(ei);
    hide InterfaceValue;
  }
}
