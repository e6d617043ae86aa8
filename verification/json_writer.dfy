/** The serializer of picojson, compact (`indent` -1) and pretty (`indent` 0 and up). */
module JsonWriter {
  import opened Bytes
  import opened Numerals
  import opened JsonValue

  const INDENT_WIDTH: nat := 2

  /** What `to_str` prints for the double that a token denotes. */
  type Printer = bytes -> bytes

  /** One byte of a string, escaped. */
  function EscapeByte(c: byte): (r: bytes) {
    match c
    case 0x22 => [BACKSLASH, 0x22]
    case 0x5C => [BACKSLASH, 0x5C]
    case 0x2F => [BACKSLASH, 0x2F]
    case 0x08 => [BACKSLASH, 0x62]
    case 0x0C => [BACKSLASH, 0x66]
    case 0x0A => [BACKSLASH, 0x6E]
    case 0x0D => [BACKSLASH, 0x72]
    case 0x09 => [BACKSLASH, 0x74]
    case _ => if c < 0x20 || c == 0x7F then [BACKSLASH, 0x75] + Hex04(c) else [c]
  }

  /** `%04x` of a byte. */
  function Hex04(c: byte): (r: bytes) { [0x30, 0x30, Digit(c / 16), Digit(c % 16)] }

  function EscapeFrom(t: bytes, k: nat): (r: bytes)
    requires k <= |t|
    decreases |t| - k
  {
    if k == |t| then [] else EscapeByte(t[k]) + EscapeFrom(t, k + 1)
  }

  function WriteString(t: bytes): (r: bytes) { [QUOTE] + (EscapeFrom(t, 0) + [QUOTE]) }

  function Spaces(n: nat): (r: bytes)
    ensures |r| == n && forall b <- r :: b == SPACE
  {
    seq(n, _ => SPACE)
  }

  /** The line break before an item; compact output has none. */
  function Break(indent: int): (r: bytes)
    requires indent >= -1
  {
    if indent == -1 then [] else [LF] + Spaces(indent * INDENT_WIDTH)
  }

  function Inner(indent: int): (r: int)
    requires indent >= -1
  {
    if indent == -1 then -1 else indent + 1
  }

  /** `to_str` of the scalars that are not strings. */
  function ScalarText(v: Value, printer: Printer): (r: bytes)
    requires v.Null? || v.Bool? || v.Int? || v.Double?
  {
    match v
    case Null => Ascii("null")
    case Bool(b) => if b then Ascii("true") else Ascii("false")
    case Int(i) => PrintInt(i)
    case Double(t) => printer(t)
  }

  function Write(v: Value, indent: int, printer: Printer): (r: bytes)
    requires indent >= -1
    decreases v
  {
    WriteBody(v, indent, printer) + if indent == 0 then [LF] else []
  }

  function WriteBody(v: Value, indent: int, printer: Printer): (r: bytes)
    requires indent >= -1
    decreases v, 0
  {
    if v.Str? then WriteString(v.text)
    else if v.Array? then
      [LBRACKET] + WriteItems(v.items, 0, Inner(indent), printer) + Closing(v.items == [], indent) + [RBRACKET]
    else if v.Object? then
      [LBRACE] + WriteMembers(v.members, 0, Inner(indent), printer) + Closing(v.members == [], indent) + [RBRACE]
    else ScalarText(v, printer)
  }

  /** The line break before a closing bracket. */
  function Closing(empty: bool, indent: int): (r: bytes)
    requires indent >= -1
  {
    if empty then [] else Break(indent)
  }

  function Comma(k: nat): (r: bytes) { if k == 0 then [] else [COMMA] }

  /** The items from index `k` on, each after its comma and line break. */
  function WriteItems(items: seq<Value>, k: nat, inner: int, printer: Printer): (r: bytes)
    requires k <= |items| && inner >= -1
    decreases items, |items| - k
  {
    if k == |items| then []
    else (Comma(k) + Break(inner) + Write(items[k], inner, printer)) + WriteItems(items, k + 1, inner, printer)
  }

  function WriteMembers(members: seq<Member>, k: nat, inner: int, printer: Printer): (r: bytes)
    requires k <= |members| && inner >= -1
    decreases members, |members| - k
  {
    if k == |members| then []
    else
      (Comma(k) + Break(inner) + WriteString(members[k].key) + AfterKey(inner)
       + Write(members[k].value, inner, printer))
      + WriteMembers(members, k + 1, inner, printer)
  }

  function AfterKey(inner: int): (r: bytes)
    ensures r != []
  {
    if inner == -1 then [COLON] else [COLON, SPACE]
  }

  /** `serialize(prettify)` */
  function SerializeWith(v: Value, pretty: bool, printer: Printer): (r: bytes) {
    Write(v, if pretty then 0 else -1, printer)
  }

  function Verbatim(t: bytes): (r: bytes) { t }

  /** The text of a value without doubles, on which the printer has no influence. */
  function Serialize(v: Value, pretty: bool): (r: bytes)
    requires Integral(v)
  {
    SerializeWith(v, pretty, Verbatim)
  }

  // ---------- the imperative serializer ----------

  /** An output iterator that appends to a string. */
  class Sink {
    var text: bytes

    constructor ()
      ensures text == []
    {
      text := [];
    }

    method Put(b: byte)
      modifies this
      ensures text == old(text) + [b]
    {
      text := text + [b];
    }

    method Copy(t: bytes)
      modifies this
      ensures text == old(text) + t
    {
      text := text + t;
    }
  }

  method SerializeStr(t: bytes, oi: Sink)
    modifies oi
    ensures oi.text == old(oi.text) + WriteString(t)
  {
    hide EscapeByte;
    oi.Put(QUOTE);
    ghost var pre, done: bytes := oi.text, [];
    for k := 0 to |t|
      invariant oi.text == pre + done
      invariant done + EscapeFrom(t, k) == EscapeFrom(t, 0)
    {
      oi.Copy(EscapeByte(t[k]));
      ghost var more := EscapeByte(t[k]);
      Append(pre, done, more, EscapeFrom(t, k + 1));
      done := done + more;
    }
    assert done + EscapeFrom(t, |t|) == done;
    oi.Put(QUOTE);
  }

  /** Appending `more` to what is done keeps the whole of done and rest. */
  lemma Append(pre: bytes, done: bytes, more: bytes, rest: bytes)
    ensures pre + done + more == pre + (done + more)
    ensures done + more + rest == done + (more + rest)
  {
  }

  method Indent(oi: Sink, indent: int)
    requires indent >= 0
    modifies oi
    ensures oi.text == old(oi.text) + Break(indent)
  {
    oi.Put(LF);
    for i := 0 to indent * INDENT_WIDTH
      invariant oi.text == old(oi.text) + ([LF] + Spaces(i))
    {
      oi.Put(SPACE);
    }
  }

  method SerializeTo(v: Value, oi: Sink, indent: int, printer: Printer)
    requires indent >= -1
    modifies oi
    ensures oi.text == old(oi.text) + Write(v, indent, printer)
    decreases v, 2
  {
    if v.Str? {
      SerializeStr(v.text, oi);
    } else if v.Array? {
      SerializeArray(v.items, oi, indent, printer);
    } else if v.Object? {
      SerializeObject(v.members, oi, indent, printer);
    } else {
      oi.Copy(ScalarText(v, printer));
    }
    assert oi.text == old(oi.text) + WriteBody(v, indent, printer);
    if indent == 0 {
      oi.Put(LF);
    }
  }

  /** The line break of a container that is not empty, before its closing bracket. */
  method EndLine(empty: bool, oi: Sink, indent: int)
    requires indent >= -1
    modifies oi
    ensures oi.text == old(oi.text) + Closing(empty, indent)
  {
    hide Spaces;
    if indent != -1 && !empty {
      Indent(oi, indent);
    }
  }

  lemma Enclose(pre: bytes, a: bytes, b: bytes, c: bytes, d: bytes)
    ensures pre + a + b + c + d == pre + (a + b + c + d)
  {
  }

  lemma ArrayBody(items: seq<Value>, indent: int, printer: Printer)
    requires indent >= -1
    ensures WriteBody(Array(items), indent, printer)
         == [LBRACKET] + WriteItems(items, 0, Inner(indent), printer) + Closing(items == [], indent) + [RBRACKET]
  {
  }

  lemma ObjectBody(members: seq<Member>, indent: int, printer: Printer)
    requires indent >= -1
    ensures WriteBody(Object(members), indent, printer)
         == [LBRACE] + WriteMembers(members, 0, Inner(indent), printer) + Closing(members == [], indent) + [RBRACE]
  {
  }

  method SerializeArray(items: seq<Value>, oi: Sink, indent: int, printer: Printer)
    requires indent >= -1
    modifies oi
    ensures oi.text == old(oi.text) + WriteBody(Array(items), indent, printer)
    decreases items, 2
  {
    hide WriteItems, Closing, WriteBody;
    oi.Put(LBRACKET);
    var inner := if indent != -1 then indent + 1 else indent;
    SerializeItems(items, oi, inner, printer);
    EndLine(items == [], oi, indent);
    oi.Put(RBRACKET);
    Enclose(old(oi.text), [LBRACKET], WriteItems(items, 0, inner, printer), Closing(items == [], indent), [RBRACKET]);
    ArrayBody(items, indent, printer);
  }

  method SerializeItems(items: seq<Value>, oi: Sink, inner: int, printer: Printer)
    requires inner >= -1
    modifies oi
    ensures oi.text == old(oi.text) + WriteItems(items, 0, inner, printer)
    decreases items, 1
  {
    hide Write, Spaces, WriteString;
    ghost var pre, done: bytes := oi.text, [];
    for i := 0 to |items|
      invariant oi.text == pre + done
      invariant done + WriteItems(items, i, inner, printer) == WriteItems(items, 0, inner, printer)
    {
      SerializeItem(items, i, oi, inner, printer);
      ghost var more := Comma(i) + Break(inner) + Write(items[i], inner, printer);
      Append(pre, done, more, WriteItems(items, i + 1, inner, printer));
      done := done + more;
    }
    assert done + WriteItems(items, |items|, inner, printer) == done;
  }

  /** The comma before every child but the first, and the line break before it in the pretty layout. */
  method Separate(i: nat, oi: Sink, inner: int)
    requires inner >= -1
    modifies oi
    ensures oi.text == old(oi.text) + (Comma(i) + Break(inner))
  {
    hide Spaces, Break;
    if i != 0 {
      oi.Put(COMMA);
    }
    assert oi.text == old(oi.text) + Comma(i);
    if inner != -1 {
      Indent(oi, inner);
      Regroup(old(oi.text), Comma(i), Break(inner));
    } else {
      NoBreakAt(inner);
    }
  }

  lemma NoBreakAt(indent: int)
    requires indent == -1
    ensures Break(indent) == []
  {
  }

  method SerializeItem(items: seq<Value>, i: nat, oi: Sink, inner: int, printer: Printer)
    requires i < |items| && inner >= -1
    modifies oi
    ensures oi.text == old(oi.text) + (Comma(i) + Break(inner) + Write(items[i], inner, printer))
    decreases items, 0
  {
    hide Write, Comma, Break;
    Separate(i, oi, inner);
    SerializeTo(items[i], oi, inner, printer);
  }

  method SerializeObject(members: seq<Member>, oi: Sink, indent: int, printer: Printer)
    requires indent >= -1
    modifies oi
    ensures oi.text == old(oi.text) + WriteBody(Object(members), indent, printer)
    decreases members, 2
  {
    hide WriteMembers, Closing, WriteBody;
    oi.Put(LBRACE);
    var inner := if indent != -1 then indent + 1 else indent;
    SerializeMembers(members, oi, inner, printer);
    EndLine(members == [], oi, indent);
    oi.Put(RBRACE);
    Enclose(old(oi.text), [LBRACE], WriteMembers(members, 0, inner, printer), Closing(members == [], indent), [RBRACE]);
    ObjectBody(members, indent, printer);
  }

  method SerializeMembers(members: seq<Member>, oi: Sink, inner: int, printer: Printer)
    requires inner >= -1
    modifies oi
    ensures oi.text == old(oi.text) + WriteMembers(members, 0, inner, printer)
    decreases members, 1
  {
    hide Write, Spaces, WriteString;
    ghost var pre, done: bytes := oi.text, [];
    for i := 0 to |members|
      invariant oi.text == pre + done
      invariant done + WriteMembers(members, i, inner, printer) == WriteMembers(members, 0, inner, printer)
    {
      SerializeMember(members, i, oi, inner, printer);
      ghost var more := Comma(i) + Break(inner) + WriteString(members[i].key) + AfterKey(inner)
                        + Write(members[i].value, inner, printer);
      Append(pre, done, more, WriteMembers(members, i + 1, inner, printer));
      done := done + more;
    }
    assert done + WriteMembers(members, |members|, inner, printer) == done;
  }

  method SerializeMember(members: seq<Member>, i: nat, oi: Sink, inner: int, printer: Printer)
    requires i < |members| && inner >= -1
    modifies oi
    ensures oi.text == old(oi.text)
      + (Comma(i) + Break(inner) + WriteString(members[i].key) + AfterKey(inner)
         + Write(members[i].value, inner, printer))
    decreases members, 0
  {
    hide Write, WriteString, Break, AfterKey, Comma;
    ghost var head := Comma(i) + Break(inner) + WriteString(members[i].key) + AfterKey(inner);
    SerializeKey(members[i].key, i, oi, inner);
    SerializeTo(members[i].value, oi, inner, printer);
    Append(old(oi.text), head, Write(members[i].value, inner, printer), []);
  }

  method SerializeKey(key: bytes, i: nat, oi: Sink, inner: int)
    requires inner >= -1
    modifies oi
    ensures oi.text == old(oi.text) + (Comma(i) + Break(inner) + WriteString(key) + AfterKey(inner))
  {
    hide WriteString, Comma, Break;
    Separate(i, oi, inner);
    ghost var head := Comma(i) + Break(inner);
    SerializeStr(key, oi);
    oi.Put(COLON);
    if inner != -1 {
      oi.Put(SPACE);
    }
    ghost var space := if inner == -1 then [] else [SPACE];
    assert AfterKey(inner) == [COLON] + space;
    assert oi.text == old(oi.text) + head + WriteString(key) + [COLON] + space;
    Join(old(oi.text), head, WriteString(key), [COLON], space);
  }

  lemma Join(pre: bytes, a: bytes, b: bytes, c: bytes, d: bytes)
    ensures pre + a + b + c + d == pre + (a + b + (c + d))
  {
  }
}
