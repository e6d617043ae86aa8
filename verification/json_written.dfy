/** The serializer's text on literals: what stands between the parts of a value, in either layout. */
module JsonWritten {
  import opened Bytes
  import opened Numerals
  import opened JsonValue
  import opened JsonWriter
  import opened JsonTokens

  /** Escapes: eight letters, other control bytes and 0x7F as four lower-case digits, anything else as it is. */
  lemma EscapedByte(c: byte)
    ensures var special: bytes := [0x22, 0x5C, 0x2F, 0x08, 0x0C, 0x0A, 0x0D, 0x09];
      var digits := Ascii("0123456789abcdef");
      && (forall k :: 0 <= k < 8 && c == special[k] ==> EscapeByte(c) == Ascii("\\") + [Ascii("\"\\/bfnrt")[k]])
      && (c !in special && (c < 0x20 || c == 0x7F) ==>
            EscapeByte(c) == Ascii("\\u00") + [digits[c / 16], digits[c % 16]])
      && (c !in special && c >= 0x20 && c != 0x7F ==> EscapeByte(c) == [c])
  {
    assert Ascii("\"\\/bfnrt") == [0x22, 0x5C, 0x2F, 0x62, 0x66, 0x6E, 0x72, 0x74];
    assert Ascii("\\") == [0x5C] && Ascii("\\u00") == [0x5C, 0x75, 0x30, 0x30];
    DigitLetter(c / 16);
    DigitLetter(c % 16);
  }

  lemma DigitLetter(d: nat)
    requires d < 16
    ensures Digit(d) == Ascii("0123456789abcdef")[d]
  {
  }

  /** Integers are written with a sign only if negative and without leading zeros. */
  lemma {:induction false} NumeralText(n: nat)
    ensures Decimals(ToBase(n, 10)) && DecimalNumber(ToBase(n, 10)) == n
    ensures ToBase(n, 10)[0] == '0' as int ==> n == 0 && ToBase(n, 10) == Ascii("0")
  {
    hide Decimals;
    DecimalDigits(n);
    DecimalsAreDigits(ToBase(n, 10));
    FromToBase(n, 10);
    DecimalValue(ToBase(n, 10));
    NoLeadingZero(n);
  }

  lemma {:induction false} NoLeadingZero(n: nat)
    ensures ToBase(n, 10)[0] == '0' as int ==> n == 0 && ToBase(n, 10) == Ascii("0")
  {
    if n >= 10 { NoLeadingZero(n / 10); }
  }

  lemma IntegerWritten(i: int)
    ensures var t := PrintInt(i); var digits := if i < 0 then t[1..] else t;
      && Decimals(digits) && digits != [] && (digits[0] == '0' as int ==> t == Ascii("0"))
      && (i < 0 ==> t[0] == '-' as int) && DecimalNumber(digits) == (if i < 0 then -i else i)
  {
    NumeralText(if i < 0 then -i else i);
  }

  /** The line break of a level, two spaces deep for each; compact text has none. */
  function NewLine(level: int): (r: bytes)
    requires level >= -1
  {
    if level == -1 then [] else Ascii("\n") + seq(2 * level, _ => ' ' as int)
  }

  function Between(ts: seq<bytes>): (r: bytes) {
    if ts == [] then [] else if |ts| == 1 then ts[0] else ts[0] + Ascii(",") + Between(ts[1..])
  }

  function ItemTexts(items: seq<Value>, level: int, printer: Printer): (r: seq<bytes>)
    requires level >= -1
  {
    seq(|items|, i requires 0 <= i < |items| => NewLine(level) + Write(items[i], level, printer))
  }

  function MemberTexts(members: seq<Member>, level: int, printer: Printer): (r: seq<bytes>)
    requires level >= -1
  {
    seq(|members|, i requires 0 <= i < |members| =>
      NewLine(level) + WriteString(members[i].key) + (if level == -1 then Ascii(":") else Ascii(": "))
      + Write(members[i].value, level, printer))
  }

  lemma BreakIsNewLine(level: int)
    requires level >= -1
    ensures Break(level) == NewLine(level) && Comma(0) == [] && forall k: nat :: k > 0 ==> Comma(k) == Ascii(",")
    ensures AfterKey(level) == if level == -1 then Ascii(":") else Ascii(": ")
  {
    assert Ascii(",") == [COMMA] && Ascii(":") == [COLON] && Ascii(": ") == [COLON, SPACE] && Ascii("\n") == [LF];
  }

  lemma {:induction false} ItemsBetween(items: seq<Value>, k: nat, level: int, printer: Printer)
    requires k < |items| && level >= -1
    ensures WriteItems(items, k, level, printer) == Comma(k) + Between(ItemTexts(items, level, printer)[k..])
    decreases |items| - k
  {
    hide Break, NewLine, Write, Comma;
    BreakIsNewLine(level);
    var ts := ItemTexts(items, level, printer)[k..];
    var one, w := Comma(k), ts[0];
    assert w == Break(level) + Write(items[k], level, printer);
    assert one + Break(level) + Write(items[k], level, printer) == one + w;
    if k + 1 < |items| {
      ItemsBetween(items, k + 1, level, printer);
      assert ts[1..] == ItemTexts(items, level, printer)[k + 1..];
      Chain(one, w, Comma(k + 1), Between(ts[1..]));
    } else {
      assert WriteItems(items, k + 1, level, printer) == [];
      Chain(one, w, [], []);
    }
  }

  lemma Chain(a: bytes, b: bytes, c: bytes, d: bytes)
    ensures (a + b) + (c + d) == a + (b + c + d)
    ensures a + (b + [] + []) == a + b
  {
  }

  lemma {:induction false} MembersBetween(members: seq<Member>, k: nat, level: int, printer: Printer)
    requires k < |members| && level >= -1
    ensures WriteMembers(members, k, level, printer) == Comma(k) + Between(MemberTexts(members, level, printer)[k..])
    decreases |members| - k
  {
    hide Break, NewLine, Write, Comma, WriteString, AfterKey;
    BreakIsNewLine(level);
    var ts := MemberTexts(members, level, printer)[k..];
    var one, w, m := Comma(k), ts[0], members[k];
    MemberChain(one, Break(level), WriteString(m.key), AfterKey(level), Write(m.value, level, printer));
    assert w == Break(level) + WriteString(m.key) + AfterKey(level) + Write(m.value, level, printer);
    if k + 1 < |members| {
      MembersBetween(members, k + 1, level, printer);
      assert ts[1..] == MemberTexts(members, level, printer)[k + 1..];
      Chain(one, w, Comma(k + 1), Between(ts[1..]));
    } else {
      assert WriteMembers(members, k + 1, level, printer) == [];
      Chain(one, w, [], []);
    }
  }

  lemma MemberChain(a: bytes, b: bytes, c: bytes, d: bytes, e: bytes)
    ensures a + b + c + d + e == a + (b + c + d + e)
  {
  }

  /** The text of a value without the newline that ends a pretty text. */
  lemma ValueText(v: Value, indent: int, printer: Printer)
    requires indent >= -1
    ensures var t := WriteBody(v, indent, printer); var level := if indent == -1 then -1 else indent + 1;
      match v
      case Null => t == Ascii("null")
      case Bool(b) => t == if b then Ascii("true") else Ascii("false")
      case Int(i) => t == PrintInt(i)
      case Double(token) => t == printer(token)
      case Str(text) => t == Ascii("\"") + EscapeFrom(text, 0) + Ascii("\"")
      case Array(items) =>
        t == if items == [] then Ascii("[]")
             else Ascii("[") + Between(ItemTexts(items, level, printer)) + NewLine(indent) + Ascii("]")
      case Object(members) =>
        t == if members == [] then Ascii("{}")
             else Ascii("{") + Between(MemberTexts(members, level, printer)) + NewLine(indent) + Ascii("}")
    ensures indent != 0 ==> Write(v, indent, printer) == WriteBody(v, indent, printer)
    ensures SerializeWith(v, true, printer) == WriteBody(v, 0, printer) + Ascii("\n")
    ensures SerializeWith(v, false, printer) == WriteBody(v, -1, printer)
  {
    hide Between, ItemTexts, MemberTexts, NewLine, Break, WriteItems, WriteMembers, EscapeFrom, PrintInt, AfterKey;
    BreakIsNewLine(indent);
    var level := if indent == -1 then -1 else indent + 1;
    assert Ascii("\n") == [LF];
    match v
    case Str(_) => assert Ascii("\"") == [QUOTE];
    case Array(items) => ArrayText(items, indent, level, printer);
    case Object(members) => ObjectText(members, indent, level, printer);
    case _ =>
  }

  lemma ArrayText(items: seq<Value>, indent: int, level: int, printer: Printer)
    requires indent >= -1 && level == if indent == -1 then -1 else indent + 1
    ensures WriteBody(Array(items), indent, printer) ==
      if items == [] then Ascii("[]")
      else Ascii("[") + Between(ItemTexts(items, level, printer)) + NewLine(indent) + Ascii("]")
  {
    hide Between, ItemTexts, NewLine, Break, WriteItems;
    BreakIsNewLine(indent);
    assert Ascii("[") == [LBRACKET] && Ascii("]") == [RBRACKET] && Ascii("[]") == [LBRACKET, RBRACKET];
    if items == [] {
      NothingWritten(level, printer);
    } else {
      ItemsBetween(items, 0, level, printer);
      assert ItemTexts(items, level, printer)[0..] == ItemTexts(items, level, printer);
    }
  }

  lemma ObjectText(members: seq<Member>, indent: int, level: int, printer: Printer)
    requires indent >= -1 && level == if indent == -1 then -1 else indent + 1
    ensures WriteBody(Object(members), indent, printer) ==
      if members == [] then Ascii("{}")
      else Ascii("{") + Between(MemberTexts(members, level, printer)) + NewLine(indent) + Ascii("}")
  {
    hide Between, MemberTexts, NewLine, Break, WriteMembers;
    BreakIsNewLine(indent);
    assert Ascii("{") == [LBRACE] && Ascii("}") == [RBRACE] && Ascii("{}") == [LBRACE, RBRACE];
    if members == [] {
      NothingWritten(level, printer);
    } else {
      MembersBetween(members, 0, level, printer);
      assert MemberTexts(members, level, printer)[0..] == MemberTexts(members, level, printer);
    }
  }

  lemma NothingWritten(level: int, printer: Printer)
    requires level >= -1
    ensures WriteItems([], 0, level, printer) == [] && WriteMembers([], 0, level, printer) == []
  {
  }
}
