/**
  The recursive-descent reader of picojson as functions of the text and an integer position.
  Every result carries `held`: whether the byte before the position is still un-gettable.
 */
module JsonReader {
  import opened Bytes
  import opened Bits
  import opened Numerals
  import opened Utf8
  import opened JsonValue

  const MAX_DEPTHS: nat := 100

  datatype Scan = Scan(ok: bool, pos: nat, held: bool)
  datatype HexScan = HexScan(value: int, pos: nat, held: bool)
  datatype TextScan = TextScan(ok: bool, out: bytes, pos: nat, held: bool)

  /** `thrown` says that reading ended in an exception; `out` is what the target then holds. */
  datatype Parsed = Parsed(ok: bool, out: Value, pos: nat, held: bool, thrown: bool := false)

  predicate IsWs(b: byte) { b == SPACE || b == TAB || b == LF || b == CR }

  predicate Sees(s: bytes, p: nat, b: byte) { p < |s| && s[p] == b }

  function SkipWs(s: bytes, p: nat): (q: nat)
    requires p <= |s|
    ensures p <= q <= |s|
    decreases |s| - p
  {
    if p < |s| && IsWs(s[p]) then SkipWs(s, p + 1) else p
  }

  function Expect(s: bytes, p: nat, b: byte): (r: Scan)
    requires p <= |s|
    ensures p <= r.pos <= |s| && (r.ok ==> p < r.pos) && r.held == r.ok
  {
    var q := SkipWs(s, p);
    if Sees(s, q, b) then Scan(true, q + 1, true) else Scan(false, q, false)
  }

  function Match(s: bytes, p: nat, pattern: bytes): (r: Scan)
    requires p <= |s|
    ensures p <= r.pos <= |s|
    decreases pattern
  {
    if pattern == [] then Scan(true, p, true)
    else if Sees(s, p, pattern[0]) then Match(s, p + 1, pattern[1..])
    else Scan(false, p, false)
  }

  /** What 4 - n digits can reach. */
  function HexLimit(n: nat): nat {
    if n >= 4 then 1 else if n == 3 then 0x10 else if n == 2 then 0x100 else if n == 1 then 0x1000 else 0x10000
  }

  /** The last `n` of the four digits of a \u escape, after `acc`. */
  function QuadHex(s: bytes, p: nat, n: nat, acc: nat): (r: HexScan)
    requires p <= |s| && n <= 4 && acc < HexLimit(n)
    ensures p <= r.pos <= |s| && -1 <= r.value < 0x10000 && r.held == (r.value != -1)
    decreases n
  {
    if n == 0 then HexScan(acc, p, true)
    else if p == |s| || DigitValue(s[p]) == -1 then HexScan(-1, p, false)
    else QuadHex(s, p + 1, n - 1, acc * 16 + DigitValue(s[p]))
  }

  function FourHex(s: bytes, p: nat): (r: HexScan)
    requires p <= |s|
    ensures p <= r.pos <= |s| && -1 <= r.value < 0x10000 && r.held == (r.value != -1)
  {
    QuadHex(s, p, 4, 0)
  }

  /** `t` writes `n` in four hexadecimal digits, the most significant first. */
  predicate Spelled(n: nat, t: bytes)
    requires n < 0x10000
  {
    && |t| == 4
    && Writes(t[0], n / 0x1000) && Writes(t[1], n / 0x100 % 16) && Writes(t[2], n / 0x10 % 16) && Writes(t[3], n % 16)
  }

  /** The first byte from `p` on that is no digit, at most four bytes on. */
  ghost predicate NoDigitAt(s: bytes, p: nat, q: nat) {
    && p <= q < p + 4 && q <= |s|
    && (forall k :: p <= k < q ==> exists d: nat :: d < 16 && Writes(s[k], d))
    && (q < |s| ==> forall d: nat :: d < 16 ==> !Writes(s[q], d))
  }

  /** Four digits are read as the number they spell; anything else fails at its first byte that is no digit. */
  lemma FourHexExactly(s: bytes, p: nat)
    requires p <= |s|
    ensures var r := FourHex(s, p);
      && (r.value != -1 ==> r.pos == p + 4 <= |s| && Spelled(r.value, s[p..p + 4]))
      && (r.value == -1 <==> NoDigitAt(s, p, r.pos))
  {
    hide Writes, DigitValue, Spelled;
    var r := FourHex(s, p);
    FourSteps(s, p);
    forall k | p <= k < p + 4 && k < |s|
      ensures DigitValue(s[k]) == -1 <==> forall d: nat :: d < 16 ==> !Writes(s[k], d)
      ensures DigitValue(s[k]) != -1 <==> exists d: nat :: d < 16 && Writes(s[k], d)
    {
      DigitsExactly(s[k]);
    }
    if r.value != -1 { SpelledByDigits(r.value, s[p..p + 4]); }
  }

  lemma FourSteps(s: bytes, p: nat)
    requires p <= |s|
    ensures var r := FourHex(s, p);
      && (r.value == -1 ==>
            p <= r.pos < p + 4 && (forall k :: p <= k < r.pos ==> DigitValue(s[k]) != -1)
            && (r.pos < |s| ==> DigitValue(s[r.pos]) == -1))
      && (r.value != -1 ==>
            r.pos == p + 4 && (forall k :: p <= k < p + 4 ==> DigitValue(s[k]) != -1)
            && r.value == ((DigitValue(s[p]) * 16 + DigitValue(s[p + 1])) * 16 + DigitValue(s[p + 2])) * 16
                          + DigitValue(s[p + 3]))
  {
    hide DigitValue;
  }

  lemma SpelledByDigits(n: nat, t: bytes)
    requires |t| == 4 && n < 0x10000 && forall k :: 0 <= k < 4 ==> DigitValue(t[k]) != -1
    ensures Spelled(n, t) <==>
      n == ((DigitValue(t[0]) * 16 + DigitValue(t[1])) * 16 + DigitValue(t[2])) * 16 + DigitValue(t[3])
  {
    hide Writes, DigitValue;
    DigitsExactly(t[0]);
    DigitsExactly(t[1]);
    DigitsExactly(t[2]);
    DigitsExactly(t[3]);
    HexPlaces(n, DigitValue(t[0]), DigitValue(t[1]), DigitValue(t[2]), DigitValue(t[3]));
  }

  lemma HexPlaces(n: nat, a: nat, b: nat, c: nat, d: nat)
    requires a < 16 && b < 16 && c < 16 && d < 16
    ensures n == ((a * 16 + b) * 16 + c) * 16 + d <==>
      n / 0x1000 == a && n / 0x100 % 16 == b && n / 0x10 % 16 == c && n % 16 == d
  {
    assert n / 0x100 == n / 0x10 / 16 && n / 0x1000 == n / 0x100 / 16;
  }

  /** Four bytes spell one number. */
  lemma SpelledOnce(m: nat, n: nat, t: bytes)
    requires m < 0x10000 && n < 0x10000 && Spelled(m, t) && Spelled(n, t)
    ensures m == n && forall k :: 0 <= k < 4 ==> DigitValue(t[k]) != -1
  {
    hide Writes, DigitValue;
    DigitsExactly(t[0]);
    DigitsExactly(t[1]);
    DigitsExactly(t[2]);
    DigitsExactly(t[3]);
    SpelledByDigits(m, t);
    SpelledByDigits(n, t);
  }

  /** The code point of a surrogate pair, as the source computes it. */
  function JoinPair(hi: int, lo: int): (u: int)
    requires 0xD800 <= hi < 0xDC00 && 0xDC00 <= lo <= 0xDFFF
    ensures u == 0x10000 + (hi - 0xD800) * 0x400 + (lo - 0xDC00)
    ensures 0x10000 <= u <= 0x10FFFF
  {
    TenBits(hi - 0xD800, lo - 0xDC00);
    BitOr(Shl(hi - 0xD800, 10), BitAnd(lo - 0xDC00, 0x3FF)) + 0x10000
  }

  lemma TenBits(a: nat, b: nat)
    requires b < 0x400
    ensures BitOr(Shl(a, 10), BitAnd(b, 0x3FF)) == a * 0x400 + b
  {
    Powers();
    OrShifted(a, 10, b);
  }

  /** What follows the `u` of a \u escape. */
  function Codepoint(s: bytes, p: nat): (r: TextScan)
    requires p <= |s|
    ensures p <= r.pos <= |s|
  {
    var first := FourHex(s, p);
    if first.value == -1 then TextScan(false, [], first.pos, first.held)
    else if 0xD800 <= first.value <= 0xDFFF then
      if 0xDC00 <= first.value then TextScan(false, [], first.pos, true)
      else if !Sees(s, first.pos, BACKSLASH) then TextScan(false, [], first.pos, false)
      else if !Sees(s, first.pos + 1, 0x75) then TextScan(false, [], first.pos + 1, false)
      else
        var second := FourHex(s, first.pos + 2);
        if !(0xDC00 <= second.value <= 0xDFFF) then TextScan(false, [], second.pos, second.held)
        else TextScan(true, Encode(JoinPair(first.value, second.value)), second.pos, true)
    else TextScan(true, Encode(first.value), first.pos, true)
  }

  /** The byte that a one-letter escape stands for. */
  function Unescape(c: byte): (r: Option<byte>) {
    match c
    case 0x22 => Some(0x22)
    case 0x5C => Some(0x5C)
    case 0x2F => Some(0x2F)
    case 0x62 => Some(0x08)
    case 0x66 => Some(0x0C)
    case 0x6E => Some(0x0A)
    case 0x72 => Some(0x0D)
    case 0x74 => Some(0x09)
    case _ => None
  }

  /** The body of a string, after its opening quote. */
  function ScanString(s: bytes, p: nat, acc: bytes): (r: TextScan)
    requires p <= |s|
    ensures p <= r.pos <= |s| && (r.ok ==> p < r.pos && r.held)
    decreases |s| - p
  {
    if p == |s| || s[p] < SPACE then TextScan(false, acc, p, false)
    else if s[p] == QUOTE then TextScan(true, acc, p + 1, true)
    else if s[p] == BACKSLASH then
      if p + 1 == |s| then TextScan(false, acc, p + 1, false)
      else if s[p + 1] == 0x75 then
        var cp := Codepoint(s, p + 2);
        if cp.ok then ScanString(s, cp.pos, acc + cp.out) else TextScan(false, acc, cp.pos, cp.held)
      else
        match Unescape(s[p + 1])
        case Some(b) => ScanString(s, p + 2, acc + [b])
        case None => TextScan(false, acc, p + 2, true)
    else ScanString(s, p + 1, acc + [s[p]])
  }

  predicate IsNumberByte(b: byte) {
    IsDecimal(b) || b == PLUS || b == MINUS || b == 0x65 || b == 0x45 || b == DOT
  }

  function NumberEnd(s: bytes, p: nat): (q: nat)
    requires p <= |s|
    ensures p <= q <= |s|
    decreases |s| - p
  {
    if p < |s| && IsNumberByte(s[p]) then NumberEnd(s, p + 1) else p
  }

  /** What `set_int64` or `set_number` stores for a token, if the token is accepted and not too large. */
  function TokenValue(t: bytes): (r: Option<Value>) {
    if IsInt64Token(t) then Some(Int(IntValue(t)))
    else if IsDoubleToken(t) && !Overflows(t) then Some(Double(t))
    else None
  }

  const ULL: bytes := [0x75, 0x6C, 0x6C]
  const ALSE: bytes := [0x61, 0x6C, 0x73, 0x65]
  const RUE: bytes := [0x72, 0x75, 0x65]

  function Literal(m: Scan, v: Value, prior: Value): Parsed {
    Parsed(m.ok, if m.ok then v else prior, m.pos, m.held)
  }

  /** `_parse` with a default context of budget `d` that points at a value holding `prior`. */
  function ReadValue(s: bytes, p: nat, d: nat, prior: Value): (r: Parsed)
    requires p <= |s|
    ensures p <= r.pos <= |s| && (r.ok ==> p < r.pos) && (r.thrown ==> !r.ok && !r.held)
    decreases |s| - p, 0
  {
    var q := SkipWs(s, p);
    if q == |s| then Parsed(false, prior, q, false)
    else
      var ch := s[q];
      if ch == 0x6E then Literal(Match(s, q + 1, ULL), Null, prior)
      else if ch == 0x66 then Literal(Match(s, q + 1, ALSE), Bool(false), prior)
      else if ch == 0x74 then Literal(Match(s, q + 1, RUE), Bool(true), prior)
      else if ch == QUOTE then
        var t := ScanString(s, q + 1, []);
        Parsed(t.ok, Str(t.out), t.pos, t.held)
      else if ch == LBRACKET then
        if d == 0 then Parsed(false, prior, q + 1, true)
        else
          var close := Expect(s, q + 1, RBRACKET);
          if close.ok then Parsed(true, Array([]), close.pos, true)
          else ReadItems(s, close.pos, d - 1, [])
      else if ch == LBRACE then
        if d == 0 then Parsed(false, prior, q + 1, true)
        else
          var close := Expect(s, q + 1, RBRACE);
          if close.ok then Parsed(true, Object([]), close.pos, true)
          else ReadMembers(s, close.pos, d, [])
      else if IsDecimal(ch) || ch == MINUS then
        var e := NumberEnd(s, q);
        match TokenValue(s[q..e])
        case Some(v) => Parsed(true, v, e, false)
        case None => Parsed(false, prior, e, false, Overflows(s[q..e]))
      else Parsed(false, prior, q, false)
  }

  /** The items of an array from a position after `[` or `,`; each item has budget `d`. */
  function ReadItems(s: bytes, p: nat, d: nat, acc: seq<Value>): (r: Parsed)
    requires p <= |s|
    ensures p <= r.pos <= |s| && (r.ok ==> p < r.pos) && (r.thrown ==> !r.ok && !r.held)
    decreases |s| - p, 1
  {
    var item := ReadValue(s, p, d, Null);
    var items := acc + [item.out];
    if !item.ok then Parsed(false, Array(items), item.pos, item.held, item.thrown)
    else
      var comma := Expect(s, item.pos, COMMA);
      if comma.ok then ReadItems(s, comma.pos, d, items)
      else
        var close := Expect(s, comma.pos, RBRACKET);
        Parsed(close.ok, Array(items), close.pos, close.held)
  }

  /** The members of an object from a position after `{` or `,`. */
  function ReadMembers(s: bytes, p: nat, d: nat, acc: seq<Member>): (r: Parsed)
    requires p <= |s|
    ensures p <= r.pos <= |s| && (r.ok ==> p < r.pos) && (r.thrown ==> !r.ok && !r.held)
    decreases |s| - p, 1
  {
    var open := Expect(s, p, QUOTE);
    if !open.ok then Parsed(false, Object(acc), open.pos, open.held)
    else
      var key := ScanString(s, open.pos, []);
      if !key.ok then Parsed(false, Object(acc), key.pos, key.held)
      else
        var colon := Expect(s, key.pos, COLON);
        if !colon.ok then Parsed(false, Object(acc), colon.pos, colon.held)
        else
          var item := ReadValue(s, colon.pos, d, Slot(acc, key.out));
          var members := Put(acc, key.out, item.out);
          if !item.ok then Parsed(false, Object(members), item.pos, item.held, item.thrown)
          else
            var comma := Expect(s, item.pos, COMMA);
            if comma.ok then ReadMembers(s, comma.pos, d, members)
            else
              var close := Expect(s, comma.pos, RBRACE);
              Parsed(close.ok, Object(members), close.pos, close.held)
  }

  // ---------- single rounds ----------

  /** One round of the string loop. */
  lemma ScanStep(s: bytes, p: nat, acc: bytes)
    requires p <= |s|
    ensures var r := ScanString(s, p, acc);
      && (p == |s| || s[p] < SPACE ==> r == TextScan(false, acc, p, false))
      && (p < |s| && s[p] >= SPACE ==>
            && (s[p] == QUOTE ==> r == TextScan(true, acc, p + 1, true))
            && (s[p] == BACKSLASH ==> r == AfterBackslash(s, p + 1, acc))
            && (s[p] != QUOTE && s[p] != BACKSLASH ==> r == ScanString(s, p + 1, acc + [s[p]])))
  {
    hide Codepoint, Unescape;
  }

  function AfterBackslash(s: bytes, p: nat, acc: bytes): TextScan
    requires p <= |s|
  {
    if p == |s| then TextScan(false, acc, p, false)
    else if s[p] == 0x75 then
      var cp := Codepoint(s, p + 1);
      if cp.ok then ScanString(s, cp.pos, acc + cp.out) else TextScan(false, acc, cp.pos, cp.held)
    else
      match Unescape(s[p])
      case Some(b) => ScanString(s, p + 1, acc + [b])
      case None => TextScan(false, acc, p + 1, true)
  }

  function Closed(close: Scan, out: Value): Parsed { Parsed(close.ok, out, close.pos, close.held) }

  /** What `_parse_array` does at the position after the bracket. */
  function AfterBracket(s: bytes, p: nat, d: nat, prior: Value): Parsed
    requires p <= |s|
  {
    if d == 0 then Parsed(false, prior, p, true)
    else
      var close := Expect(s, p, RBRACKET);
      if close.ok then Parsed(true, Array([]), close.pos, true) else ReadItems(s, close.pos, d - 1, [])
  }

  /** What `_parse_object` does at the position after the brace. */
  function AfterBrace(s: bytes, p: nat, d: nat, prior: Value): Parsed
    requires p <= |s|
  {
    if d == 0 then Parsed(false, prior, p, true)
    else
      var close := Expect(s, p, RBRACE);
      if close.ok then Parsed(true, Object([]), close.pos, true) else ReadMembers(s, close.pos, d, [])
  }

  /** One round of the item loop, all outcomes. */
  lemma ItemRound(s: bytes, p: nat, d: nat, acc: seq<Value>)
    requires p <= |s|
    ensures var item := ReadValue(s, p, d, Null); var items := acc + [item.out];
      var comma := Expect(s, item.pos, COMMA);
      && (!item.ok ==> ReadItems(s, p, d, acc) == Parsed(false, Array(items), item.pos, item.held, item.thrown))
      && (item.ok && comma.ok ==> ReadItems(s, p, d, acc) == ReadItems(s, comma.pos, d, items))
      && (item.ok && !comma.ok ==>
            ReadItems(s, p, d, acc) == Closed(Expect(s, comma.pos, RBRACKET), Array(items)))
  {
  }

  /** Key and colon of a member, then what one round of the member loop makes of them. */
  lemma MemberRound(s: bytes, p: nat, d: nat, acc: seq<Member>)
    requires p <= |s|
    ensures var r := ReadMembers(s, p, d, acc); var open := Expect(s, p, QUOTE);
      && (!open.ok ==> r == Closed(open, Object(acc)))
      && (open.ok ==>
            var key := ScanString(s, open.pos, []);
            && (!key.ok ==> r == Parsed(false, Object(acc), key.pos, key.held))
            && (key.ok ==>
                  var colon := Expect(s, key.pos, COLON);
                  && (!colon.ok ==> r == Closed(colon, Object(acc)))
                  && (colon.ok ==>
                        var item := ReadValue(s, colon.pos, d, Slot(acc, key.out));
                        r == AfterMember(s, item, d, Put(acc, key.out, item.out)))))
  {
    hide ScanString, SkipWs, ReadValue, Put, Slot;
  }

  function AfterMember(s: bytes, item: Parsed, d: nat, members: seq<Member>): Parsed
    requires item.pos <= |s|
  {
    if !item.ok then Parsed(false, Object(members), item.pos, item.held, item.thrown)
    else
      var comma := Expect(s, item.pos, COMMA);
      if comma.ok then ReadMembers(s, comma.pos, d, members)
      else Closed(Expect(s, comma.pos, RBRACE), Object(members))
  }
}
