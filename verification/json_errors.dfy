/** Where reading stops on an error, and which line the error text names. */
module JsonErrors {
  import opened Bytes
  import opened Numerals
  import opened JsonValue
  import opened JsonReader
  import opened JsonInput
  import opened JsonText
  import opened JsonCompleteness
  import opened JsonTokens
  import opened JsonWritten

  /** The two bytes before `pos` are a backslash and a newline. */
  ghost predicate AfterBadEscape(s: bytes, pos: nat) {
    2 <= pos <= |s| && s[pos - 2] == '\\' as int && s[pos - 1] == '\n' as int
  }

  /** A position that reading can go on from. */
  ghost predicate Clean(s: bytes, p: nat) {
    p <= |s| && !AfterBadEscape(s, p) && (p > 0 ==> s[p - 1] != BACKSLASH)
  }

  /** Reading that fails with a newline still held has failed at an escaped newline, and only then. */
  ghost predicate Stopped(s: bytes, ok: bool, pos: nat, held: bool) {
    && pos <= |s|
    && (ok ==> Clean(s, pos))
    && (!ok ==> (AfterBadEscape(s, pos) <==> held && pos > 0 && s[pos - 1] == LF))
  }

  ghost predicate Inked(s: bytes, p: nat) { 0 < p <= |s| && s[p - 1] != LF }

  ghost predicate Plain(t: bytes) { forall b <- t :: b != LF && b != BACKSLASH }

  lemma {:induction false} CleanAfterWs(s: bytes, p: nat)
    requires Clean(s, p)
    ensures Clean(s, SkipWs(s, p))
    decreases |s| - p
  {
    if p < |s| && IsWs(s[p]) { CleanAfterWs(s, p + 1); }
  }

  lemma CleanAfterExpect(s: bytes, p: nat, b: byte)
    requires Clean(s, p) && b != LF && b != BACKSLASH
    ensures Clean(s, Expect(s, p, b).pos) && (Expect(s, p, b).ok ==> Inked(s, Expect(s, p, b).pos))
  {
    CleanAfterWs(s, p);
  }

  lemma {:induction false} CleanAfterMatch(s: bytes, p: nat, t: bytes)
    requires Clean(s, p) && Plain(t)
    ensures var m := Match(s, p, t); Clean(s, m.pos) && (!m.ok ==> !m.held)
    decreases |t|
  {
    if t != [] && Sees(s, p, t[0]) {
      assert t[0] in t && forall b <- t[1..] :: b in t;
      CleanAfterMatch(s, p + 1, t[1..]);
    }
  }

  lemma {:induction false} CleanAfterNumber(s: bytes, p: nat)
    requires Clean(s, p)
    ensures Clean(s, NumberEnd(s, p))
    decreases |s| - p
  {
    if p < |s| && IsNumberByte(s[p]) { CleanAfterNumber(s, p + 1); }
  }

  lemma {:induction false} InkedAfterHex(s: bytes, p: nat, n: nat, acc: nat)
    requires Inked(s, p) && n <= 4 && acc < HexLimit(n)
    ensures Inked(s, QuadHex(s, p, n, acc).pos)
    decreases n
  {
    if n > 0 && p < |s| && DigitValue(s[p]) != -1 { InkedAfterHex(s, p + 1, n - 1, acc * 16 + DigitValue(s[p])); }
  }

  lemma InkedAfterCodepoint(s: bytes, p: nat)
    requires Inked(s, p)
    ensures Inked(s, Codepoint(s, p).pos)
  {
    InkedAfterHex(s, p, 4, 0);
    var q := FourHex(s, p).pos + 2;
    if q <= |s| && s[q - 1] == 0x75 { InkedAfterHex(s, q, 4, 0); }
  }

  lemma {:induction false} StringStops(s: bytes, p: nat, acc: bytes)
    requires Inked(s, p)
    ensures var r := ScanString(s, p, acc); Stopped(s, r.ok, r.pos, r.held)
    decreases |s| - p
  {
    hide ScanString, Codepoint;
    ScanStep(s, p, acc);
    if p < |s| && s[p] >= SPACE && s[p] != QUOTE {
      if s[p] != BACKSLASH {
        StringStops(s, p + 1, acc + [s[p]]);
      } else if p + 1 < |s| && s[p + 1] == 0x75 {
        InkedAfterCodepoint(s, p + 2);
        var cp := Codepoint(s, p + 2);
        if cp.ok { StringStops(s, cp.pos, acc + cp.out); }
      } else if p + 1 < |s| && Unescape(s[p + 1]).Some? {
        StringStops(s, p + 2, acc + [Unescape(s[p + 1]).value]);
      }
    }
  }

  /** Nothing that can start a value stands after the white space. */
  predicate NoStart(s: bytes, q: nat)
    requires q <= |s|
  {
    q == |s| || !(s[q] in {0x6E, 0x66, 0x74, QUOTE, LBRACKET, LBRACE, MINUS} || IsDecimal(s[q]))
  }

  lemma NoValue(s: bytes, p: nat, d: nat, prior: Value)
    requires p <= |s| && NoStart(s, SkipWs(s, p))
    ensures ReadValue(s, p, d, prior) == Parsed(false, prior, SkipWs(s, p), false)
  {
  }

  lemma {:induction false} ValueStops(s: bytes, p: nat, d: nat, prior: Value)
    requires Clean(s, p)
    ensures var r := ReadValue(s, p, d, prior); Stopped(s, r.ok, r.pos, r.held)
    decreases |s| - p, 2
  {
    hide ScanString, Match, ReadValue, NumberEnd, TokenValue, SkipWs, AfterBracket, AfterBrace;
    CleanAfterWs(s, p);
    var q := SkipWs(s, p);
    if NoStart(s, q) {
      NoValue(s, p, d, prior);
    } else if s[q] == LBRACKET {
      OpenArray(s, p, d, prior);
      BracketStops(s, q + 1, d, prior);
    } else if s[q] == LBRACE {
      OpenObject(s, p, d, prior);
      BraceStops(s, q + 1, d, prior);
    } else {
      ScalarStep(s, p, d, prior);
      CleanAfterMatch(s, q + 1, ULL);
      CleanAfterMatch(s, q + 1, ALSE);
      CleanAfterMatch(s, q + 1, RUE);
      CleanAfterNumber(s, q);
      StringStops(s, q + 1, []);
    }
  }

  lemma {:induction false} BracketStops(s: bytes, p: nat, d: nat, prior: Value)
    requires Clean(s, p) && Inked(s, p)
    ensures var r := AfterBracket(s, p, d, prior); Stopped(s, r.ok, r.pos, r.held)
    decreases |s| - p, 4
  {
    hide ReadItems, SkipWs;
    CleanAfterExpect(s, p, RBRACKET);
    if d > 0 { ItemsStop(s, Expect(s, p, RBRACKET).pos, d - 1, []); }
  }

  lemma {:induction false} BraceStops(s: bytes, p: nat, d: nat, prior: Value)
    requires Clean(s, p) && Inked(s, p)
    ensures var r := AfterBrace(s, p, d, prior); Stopped(s, r.ok, r.pos, r.held)
    decreases |s| - p, 4
  {
    hide ReadMembers, SkipWs;
    CleanAfterExpect(s, p, RBRACE);
    if d > 0 { MembersStop(s, Expect(s, p, RBRACE).pos, d, []); }
  }

  lemma {:induction false} ItemsStop(s: bytes, p: nat, d: nat, acc: seq<Value>)
    requires Clean(s, p)
    ensures var r := ReadItems(s, p, d, acc); Stopped(s, r.ok, r.pos, r.held)
    decreases |s| - p, 3
  {
    hide ReadValue, ReadItems, SkipWs;
    ItemRound(s, p, d, acc);
    ValueStops(s, p, d, Null);
    var item := ReadValue(s, p, d, Null);
    if item.ok {
      CleanAfterExpect(s, item.pos, COMMA);
      var comma := Expect(s, item.pos, COMMA);
      CleanAfterExpect(s, comma.pos, RBRACKET);
      if comma.ok { ItemsStop(s, comma.pos, d, acc + [item.out]); }
    }
  }

  lemma {:induction false} MembersStop(s: bytes, p: nat, d: nat, acc: seq<Member>)
    requires Clean(s, p)
    ensures var r := ReadMembers(s, p, d, acc); Stopped(s, r.ok, r.pos, r.held)
    decreases |s| - p, 3
  {
    hide ReadValue, ReadMembers, SkipWs, ScanString, Slot, Put;
    MemberRound(s, p, d, acc);
    CleanAfterExpect(s, p, QUOTE);
    var open := Expect(s, p, QUOTE);
    if open.ok {
      StringStops(s, open.pos, []);
      var key := ScanString(s, open.pos, []);
      if key.ok {
        CleanAfterExpect(s, key.pos, COLON);
        var colon := Expect(s, key.pos, COLON);
        if colon.ok { MemberValueStops(s, colon.pos, d, acc, key.out); }
      }
    }
  }

  lemma {:induction false} MemberValueStops(s: bytes, p: nat, d: nat, acc: seq<Member>, key: bytes)
    requires Clean(s, p)
    ensures var item := ReadValue(s, p, d, Slot(acc, key)); var r := AfterMember(s, item, d, Put(acc, key, item.out));
      Stopped(s, r.ok, r.pos, r.held)
    decreases |s| - p, 3
  {
    hide ReadValue, ReadMembers, SkipWs, Slot, Put;
    ValueStops(s, p, d, Slot(acc, key));
    var item := ReadValue(s, p, d, Slot(acc, key));
    if item.ok {
      CleanAfterExpect(s, item.pos, COMMA);
      var comma := Expect(s, item.pos, COMMA);
      CleanAfterExpect(s, comma.pos, RBRACE);
      if comma.ok { MembersStop(s, comma.pos, d, Put(acc, key, item.out)); }
    }
  }

  // ---------- the error text ----------

  /** The text that names the line of `pos` and quotes the rest of that line. */
  ghost function Report(s: bytes, pos: nat): (r: bytes)
    requires pos <= |s|
  {
    ErrorText(1 + Newlines(s[..pos]), Near(s, pos))
  }

  /**
    Unless an exception is thrown, the error text is empty exactly on success. On failure it names the line on
    which reading stopped, exactly when that was not at an escaped newline; there the line named is the one before.
   */
  lemma ErrorReport(s: bytes, prior: Value)
    ensures var r := ReadText(s, prior); var pos := ReadValue(s, 0, MAX_DEPTHS, prior).pos;
      && (r.thrown ==> !r.ok && !AfterBadEscape(s, pos))
      && (!r.thrown ==> (r.err == [] <==> r.ok))
      && (!r.ok && !r.thrown ==>
            && (r.err == Report(s, pos) <==> !AfterBadEscape(s, pos))
            && (AfterBadEscape(s, pos) ==> r.err == ErrorText(Newlines(s[..pos]), Near(s, pos)))
            && r.end == NextLine(s, pos))
  {
    hide ReadValue, ErrorText, Near, NextLine;
    var v := ReadValue(s, 0, MAX_DEPTHS, prior);
    ValueStops(s, 0, MAX_DEPTHS, prior);
    if v.held && v.pos > 0 { NewlinesStep(s, v.pos - 1); }
    if AfterBadEscape(s, v.pos) { LinesDiffer(Newlines(s[..v.pos]), Near(s, v.pos)); }
  }

  lemma LinesDiffer(line: nat, near: bytes)
    ensures ErrorText(line, near) != ErrorText(line + 1, near)
  {
    if ErrorText(line, near) == ErrorText(line + 1, near) {
      SameMiddle(Ascii("syntax error at line "), PrintInt(line), PrintInt(line + 1), Ascii(" near: "), near);
      PrintIntReads(line);
      PrintIntReads(line + 1);
    }
  }

  lemma SameMiddle(a: bytes, b: bytes, c: bytes, d: bytes, e: bytes)
    requires a + b + d + e == a + c + d + e
    ensures b == c
  {
    var x, y := a + b + d + e, a + c + d + e;
    assert |x| == |y| && |b| == |c|;
    assert x[|a|..|a| + |b|] == b && y[|a|..|a| + |b|] == c;
  }

  // ---------- the error text, byte by byte ----------

  lemma {:induction false} NewlinesAreCounted(t: bytes)
    ensures Newlines(t) == multiset(t)['\n' as int]
  {
    if t != [] {
      NewlinesAreCounted(t[..|t| - 1]);
      assert t == t[..|t| - 1] + [t[|t| - 1]];
    }
  }

  /** `near` holds the bytes of `s` at the ascending places `kept` between `p` and `e`. */
  ghost predicate Picks(s: bytes, p: nat, e: nat, near: bytes, kept: seq<nat>) {
    && e <= |s| && |near| == |kept|
    && (forall i :: 0 <= i < |kept| ==> p <= kept[i] < e && near[i] == s[kept[i]])
    && (forall i, j :: 0 <= i < j < |kept| ==> kept[i] < kept[j])
  }

  /** The places between `p` and `e` where no control byte stands. */
  ghost predicate NoControls(s: bytes, p: nat, e: nat, kept: seq<nat>) {
    e <= |s| && forall k :: p <= k < e ==> (k in kept <==> s[k] >= 0x20)
  }

  /** From `p` to `e` is the rest of the line. */
  ghost predicate RestIs(s: bytes, p: nat, e: nat) {
    p <= e <= |s| && (forall k :: p <= k < e ==> s[k] != '\n' as int) && (e == |s| || s[e] == '\n' as int)
  }

  lemma {:induction false} NearIsRest(s: bytes, p: nat) returns (e: nat, kept: seq<nat>)
    requires p <= |s|
    ensures p <= e && RestIs(s, p, e) && Picks(s, p, e, Near(s, p), kept) && NoControls(s, p, e, kept)
    ensures NextLine(s, p) == if e == |s| then e else e + 1
    decreases |s| - p
  {
    hide Picks, NoControls, RestIs;
    if p == |s| || s[p] == LF {
      NothingLeft(s, p);
      e, kept := p, [];
    } else {
      e, kept := NearIsRest(s, p + 1);
      PicksOneMore(s, p, e, Near(s, p + 1), kept);
      ControlsSkipped(s, p, e, Near(s, p + 1), kept);
      RestIsLonger(s, p, e);
      assert [] + Near(s, p + 1) == Near(s, p + 1);
      if s[p] >= SPACE { kept := [p] + kept; }
    }
  }

  lemma NothingLeft(s: bytes, p: nat)
    requires p <= |s| && (p == |s| || s[p] == LF)
    ensures RestIs(s, p, p) && Picks(s, p, p, [], []) && NoControls(s, p, p, [])
  {
  }

  lemma RestIsLonger(s: bytes, p: nat, e: nat)
    requires p < e && RestIs(s, p + 1, e) && s[p] != LF
    ensures RestIs(s, p, e)
  {
  }

  lemma PicksOneMore(s: bytes, p: nat, e: nat, near: bytes, later: seq<nat>)
    requires p < e && Picks(s, p + 1, e, near, later)
    ensures Picks(s, p, e, [s[p]] + near, [p] + later) && Picks(s, p, e, near, later)
  {
  }

  lemma ControlsSkipped(s: bytes, p: nat, e: nat, near: bytes, later: seq<nat>)
    requires p < e && NoControls(s, p + 1, e, later) && Picks(s, p + 1, e, near, later)
    ensures NoControls(s, p, e, if s[p] >= SPACE then [p] + later else later)
  {
  }

  /**
    The error text of a failure without an exception: a decimal numeral without leading zeros names the line, which
    is 1 plus the newlines before the stopping position, one less right behind an escaped newline; the
    rest of that line follows without its control bytes, and reading goes on behind it.
   */
  lemma ErrorBytes(s: bytes, prior: Value) returns (line: bytes, near: bytes, e: nat, kept: seq<nat>)
    requires !ReadText(s, prior).ok && !ReadText(s, prior).thrown
    ensures var r := ReadText(s, prior); var pos := ReadValue(s, 0, 100, prior).pos;
      && r.err == Ascii("syntax error at line ") + line + Ascii(" near: ") + near
      && line != [] && line[0] != '0' as int && Decimals(line)
      && DecimalNumber(line) == 1 + multiset(s[..pos])['\n' as int] - (if AfterBadEscape(s, pos) then 1 else 0)
      && RestIs(s, pos, e) && Picks(s, pos, e, near, kept) && NoControls(s, pos, e, kept)
      && r.end == (if e == |s| then e else e + 1)
  {
    hide ReadValue, Near, NextLine, AfterBadEscape, DecimalNumber, Decimals, PrintInt, RestIs, Picks, NoControls;
    var v := ReadValue(s, 0, 100, prior);
    var lines := Newlines(s[..v.pos]);
    NewlinesAreCounted(s[..v.pos]);
    near := Near(s, v.pos);
    e, kept := NearIsRest(s, v.pos);
    line := LineOfError(s, prior);
  }

  lemma LineOfError(s: bytes, prior: Value) returns (line: bytes)
    requires !ReadText(s, prior).ok && !ReadText(s, prior).thrown
    ensures var r := ReadText(s, prior); var v := ReadValue(s, 0, 100, prior);
      && v.pos <= |s| && r.err == Ascii("syntax error at line ") + line + Ascii(" near: ") + Near(s, v.pos)
      && r.end == NextLine(s, v.pos) && line != [] && line[0] != '0' as int && Decimals(line)
      && DecimalNumber(line) == 1 + Newlines(s[..v.pos]) - if AfterBadEscape(s, v.pos) then 1 else 0
  {
    hide ReadValue, Near, NextLine, DecimalNumber, Decimals, PrintInt, AfterBadEscape, Stopped;
    var v := ReadValue(s, 0, 100, prior);
    var number := LineNumber(s, prior);
    line := PrintInt(number);
    LineText(number);
  }

  lemma LineNumber(s: bytes, prior: Value) returns (number: nat)
    requires !ReadText(s, prior).ok && !ReadText(s, prior).thrown
    ensures var r := ReadText(s, prior); var v := ReadValue(s, 0, 100, prior);
      && v.pos <= |s| && r.err == ErrorText(number, Near(s, v.pos)) && r.end == NextLine(s, v.pos)
      && number == 1 + Newlines(s[..v.pos]) - (if AfterBadEscape(s, v.pos) then 1 else 0) && number >= 1
  {
    hide ReadValue, Near, NextLine, ErrorText;
    var v := ReadValue(s, 0, 100, prior);
    ValueStops(s, 0, MAX_DEPTHS, prior);
    if v.held && v.pos > 0 { NewlinesStep(s, v.pos - 1); }
    number := 1 + Newlines(s[..CursorOf(v)]);
  }

  lemma LineText(number: nat)
    requires number >= 1
    ensures var line := PrintInt(number);
      line != [] && line[0] != '0' as int && Decimals(line) && DecimalNumber(line) == number
  {
    hide DecimalNumber, Decimals, PrintInt;
    IntegerWritten(number);
    ZeroText();
  }

  lemma ZeroText()
    ensures DecimalNumber(Ascii("0")) == 0
  {
    assert Ascii("0") == ['0' as int] && ['0' as int][..0] == [];
  }

  /** A text whose first byte cannot start a value. */
  lemma FirstLineError(prior: Value)
    ensures !ReadText(Ascii("x"), prior).ok && ReadText(Ascii("x"), prior).err == ErrorAtLineOne(Ascii("x"))
  {
    var s := Ascii("x");
    hide TokenValue, Overflows, NumberEnd, ReadItems, ReadMembers, Match;
    NoValue(s, 0, MAX_DEPTHS, prior);
    assert s[..0] == [];
    FirstLine(Ascii("x"));
    assert Near(s, 0) == s[..1] + Near(s, 1);
  }

  function ErrorAtLineOne(near: bytes): (r: bytes) { Ascii("syntax error at line 1") + Ascii(" near: ") + near }

  lemma FirstLine(near: bytes)
    ensures ErrorText(1, near) == ErrorAtLineOne(near)
  {
    assert Ascii("syntax error at line 1") == Ascii("syntax error at line ") + Ascii("1");
    assert PrintInt(1) == Ascii("1");
  }

  function EscapedNewlineText(): (r: bytes) { Ascii("\"\\\n") }

  /** The escaped newline of a string body: the error is on line 2 and reported for line 1. */
  lemma EscapedNewline(prior: Value)
    ensures var s := EscapedNewlineText();
      && !ReadText(s, prior).ok && ReadText(s, prior).err == ErrorAtLineOne([])
      && |s| == 3 && Report(s, 3) == ErrorText(2, [])
  {
    assert EscapedNewlineText() == [QUOTE, BACKSLASH, LF];
    hide EscapedNewlineText;
    StopsAtNewline(prior);
    FirstLine([]);
  }

  lemma StopsAtNewline(prior: Value)
    ensures var s := [QUOTE, BACKSLASH, LF];
      !ReadText(s, prior).ok && ReadText(s, prior).err == ErrorText(1, []) && Report(s, 3) == ErrorText(2, [])
  {
    hide TokenValue, Overflows, NumberEnd, ReadItems, ReadMembers, Match;
    var s: bytes := [QUOTE, BACKSLASH, LF];
    ScanStep(s, 1, []);
    assert ReadValue(s, 0, MAX_DEPTHS, prior) == Parsed(false, Str([]), 3, true);
    assert s[..3] == s && s[..2] == [QUOTE, BACKSLASH] && s[..1] == [QUOTE] && s[..0] == [];
    NewlinesStep(s, 0);
    NewlinesStep(s, 1);
    NewlinesStep(s, 2);
  }

  /** The quoted rest of the line holds no control byte. */
  lemma {:induction false} NearIsPrintable(s: bytes, p: nat)
    requires p <= |s|
    ensures forall b <- Near(s, p) :: b >= SPACE
    decreases |s| - p
  {
    if p < |s| && s[p] != LF { NearIsPrintable(s, p + 1); }
  }
}
