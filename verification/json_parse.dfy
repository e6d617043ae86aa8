/**
  The stateful parser of picojson: the same reader as `JsonReader`, run on the lazy cursor and
  on contexts that write the value being read.
 */
module JsonParse {
  import opened Bytes
  import opened Numerals
  import opened Utf8
  import opened JsonValue
  import opened JsonInput
  import R = JsonReader

  method ParseQuadhex(inp: Input) returns (value: int)
    requires inp.Valid()
    modifies inp
    ensures var r := R.FourHex(inp.src, old(inp.Pos())); value == r.value && inp.Stands(r.pos, r.held)
    ensures var s, p := inp.src, old(inp.Pos());
      && (value != -1 ==> p + 4 <= |s| && 0 <= value < 0x10000 && R.Spelled(value, s[p..p + 4]))
      && (value == -1 <==> R.NoDigitAt(s, p, inp.Pos()))
  {
    hide R.QuadHex, R.HexLimit, R.Spelled, R.NoDigitAt, R.FourHex;
    R.FourHexExactly(inp.src, inp.Pos());
    var uni := 0;
    assert 0 < R.HexLimit(4) && R.FourHex(inp.src, inp.Pos()) == R.QuadHex(inp.src, inp.Pos(), 4, 0) by {
      StartHex(inp.src, inp.Pos());
    }
    for i := 0 to 4
      invariant inp.Valid() && (i > 0 ==> inp.consumed) && 0 <= uni < R.HexLimit(4 - i)
      invariant R.QuadHex(inp.src, inp.Pos(), 4 - i, uni) == R.FourHex(inp.src, old(inp.Pos()))
    {
      HexStep(inp.src, inp.Pos(), 4 - i, uni);
      var hex := inp.Getc();
      if hex == -1 {
        return -1;
      }
      if 0x30 <= hex <= 0x39 {
        hex := hex - 0x30;
      } else if 0x41 <= hex <= 0x46 {
        hex := hex - (0x41 - 0xA);
      } else if 0x61 <= hex <= 0x66 {
        hex := hex - (0x61 - 0xA);
      } else {
        inp.Ungetc();
        return -1;
      }
      uni := uni * 16 + hex;
    }
    HexDone(inp.src, inp.Pos(), uni);
    return uni;
  }

  lemma StartHex(s: bytes, p: nat)
    requires p <= |s|
    ensures 0 < R.HexLimit(4) && R.FourHex(s, p) == R.QuadHex(s, p, 4, 0)
  {
  }

  lemma HexStep(s: bytes, p: nat, n: nat, acc: nat)
    requires p <= |s| && 0 < n <= 4 && acc < R.HexLimit(n)
    ensures p == |s| || DigitValue(s[p]) == -1 ==> R.QuadHex(s, p, n, acc) == R.HexScan(-1, p, false)
    ensures p < |s| && DigitValue(s[p]) != -1 ==>
      var next := acc * 16 + DigitValue(s[p]);
      next < R.HexLimit(n - 1) && R.QuadHex(s, p, n, acc) == R.QuadHex(s, p + 1, n - 1, next)
  {
  }

  lemma HexDone(s: bytes, p: nat, acc: nat)
    requires p <= |s| && acc < R.HexLimit(0)
    ensures R.QuadHex(s, p, 0, acc) == R.HexScan(acc, p, true)
  {
  }

  method ParseCodepoint(out: bytes, inp: Input) returns (ok: bool, r: bytes)
    requires inp.Valid()
    modifies inp
    ensures var c := R.Codepoint(inp.src, old(inp.Pos()));
      ok == c.ok && r == (if ok then out + c.out else out) && inp.Stands(c.pos, c.held)
  {
    hide R.QuadHex, R.FourHex, R.JoinPair, Encode;
    r := out;
    var uni := ParseQuadhex(inp);
    if uni == -1 {
      return false, r;
    }
    if 0xD800 <= uni <= 0xDFFF {
      if 0xDC00 <= uni {
        return false, r;
      }
      var ch := inp.Getc();
      if ch == BACKSLASH {
        ch := inp.Getc();
        ok := ch == 0x75;
      } else {
        ok := false;
      }
      if !ok {
        inp.Ungetc();
        return false, r;
      }
      var second := ParseQuadhex(inp);
      if !(0xDC00 <= second <= 0xDFFF) {
        return false, r;
      }
      uni := R.JoinPair(uni, second);
    }
    return true, r + Encode(uni);
  }

  method ParseStringBody(inp: Input) returns (ok: bool, out: bytes)
    requires inp.Valid()
    modifies inp
    ensures var r := R.ScanString(inp.src, old(inp.Pos()), []);
      ok == r.ok && out == r.out && inp.Stands(r.pos, r.held)
  {
    hide R.ScanString, R.Codepoint;
    out := [];
    while true
      invariant inp.Valid() && R.ScanString(inp.src, inp.Pos(), out) == R.ScanString(inp.src, old(inp.Pos()), [])
      decreases |inp.src| - inp.Pos()
    {
      R.ScanStep(inp.src, inp.Pos(), out);
      var ch := inp.Getc();
      if ch < SPACE {
        inp.Ungetc();
        return false, out;
      } else if ch == QUOTE {
        return true, out;
      } else if ch == BACKSLASH {
        ch := inp.Getc();
        if ch == -1 {
          return false, out;
        }
        if ch == 0x75 {
          ok, out := ParseCodepoint(out, inp);
          if !ok {
            return false, out;
          }
        } else {
          match R.Unescape(ch)
          case Some(b) => out := out + [b];
          case None => return false, out;
        }
      } else {
        out := out + [ch];
      }
    }
  }

  method ParseNumber(inp: Input) returns (num: bytes)
    requires inp.Valid()
    modifies inp
    ensures var e := R.NumberEnd(inp.src, old(inp.Pos()));
      num == inp.src[old(inp.Pos())..e] && inp.Stands(e, false)
  {
    num := [];
    ghost var p := inp.Pos();
    while true
      invariant inp.Valid() && p <= inp.Pos() && num == inp.src[p..inp.Pos()]
      invariant R.NumberEnd(inp.src, inp.Pos()) == R.NumberEnd(inp.src, p)
      decreases |inp.src| - inp.Pos()
    {
      var ch := inp.Getc();
      if 0x30 <= ch <= 0x39 || ch == PLUS || ch == MINUS || ch == 0x65 || ch == 0x45 || ch == DOT {
        num := num + [ch];
      } else {
        inp.Ungetc();
        break;
      }
    }
  }

  /** A context: where the value goes, and how many arrays may still be opened around it. */
  class Context {
    var out: Value
    var depths: nat

    constructor (target: Value, budget: nat)
      ensures out == target && depths == budget
    {
      out, depths := target, budget;
    }

    method SetNull() returns (ok: bool)
      modifies this`out
      ensures ok && out == Null
    {
      out := Null;
      return true;
    }

    method SetBool(b: bool) returns (ok: bool)
      modifies this`out
      ensures ok && out == Bool(b)
    {
      out := Bool(b);
      return true;
    }

    method ParseString(inp: Input) returns (ok: bool)
      requires inp.Valid()
      modifies this`out, inp
      ensures var r := R.ScanString(inp.src, old(inp.Pos()), []);
        ok == r.ok && out == Str(r.out) && inp.Stands(r.pos, r.held)
    {
      out := Str([]);
      var text;
      ok, text := ParseStringBody(inp);
      out := Str(text);
    }

    method ParseArrayStart() returns (ok: bool)
      modifies this
      ensures ok == (old(depths) != 0)
      ensures if ok then out == Array([]) && depths == old(depths) - 1 else out == old(out) && depths == old(depths)
    {
      if depths == 0 {
        return false;
      }
      depths := depths - 1;
      out := Array([]);
      return true;
    }

    method ParseArrayStop() returns (ok: bool)
      modifies this`depths
      ensures ok && depths == old(depths) + 1
    {
      depths := depths + 1;
      return true;
    }

    /** Unlike an array, an object does not spend the budget. */
    method ParseObjectStart() returns (ok: bool)
      modifies this
      ensures ok == (old(depths) != 0) && depths == old(depths)
      ensures out == if ok then Object([]) else old(out)
    {
      if depths == 0 {
        return false;
      }
      out := Object([]);
      return true;
    }

    method ParseObjectStop() returns (ok: bool)
      modifies this`depths
      ensures ok && depths == old(depths) + 1
    {
      depths := depths + 1;
      return true;
    }
  }

  method ParseArrayItem(ctx: Context, inp: Input) returns (ok: bool, thrown: bool)
    requires inp.Valid() && ctx.out.Array?
    modifies ctx`out, inp
    ensures var r := R.ReadValue(inp.src, old(inp.Pos()), ctx.depths, Null);
      ok == r.ok && thrown == r.thrown && ctx.out == Array(old(ctx.out).items + [r.out]) && inp.Stands(r.pos, r.held)
    decreases |inp.src| - inp.Pos(), 2
  {
    var item := new Context(Null, ctx.depths);
    ok, thrown := Parse(item, inp);
    ctx.out := Array(ctx.out.items + [item.out]);
  }

  method ParseArray(ctx: Context, inp: Input) returns (ok: bool, thrown: bool)
    requires inp.Valid() && inp.consumed
    modifies ctx, inp
    ensures var r := R.AfterBracket(inp.src, old(inp.Pos()), old(ctx.depths), old(ctx.out));
      ok == r.ok && thrown == r.thrown && ctx.out == r.out && inp.Stands(r.pos, r.held)
    decreases |inp.src| - inp.Pos(), 3
  {
    hide R.ReadValue, R.SkipWs, R.ReadItems;
    var started := ctx.ParseArrayStart();
    thrown := false;
    if !started {
      return false, false;
    }
    var close := inp.Expect(RBRACKET);
    if close {
      ok := ctx.ParseArrayStop();
      return;
    }
    ghost var s, p, d := inp.src, inp.Pos(), ctx.depths;
    var more := true;
    while more
      invariant inp.Valid() && !thrown && p <= inp.Pos() && ctx.out.Array? && ctx.depths == d
      invariant more ==> R.ReadItems(s, p, d, []) == R.ReadItems(s, inp.Pos(), d, ctx.out.items)
      invariant !more ==> R.ReadItems(s, p, d, []) == R.Closed(R.Expect(s, inp.Pos(), RBRACKET), ctx.out)
      decreases more, |s| - inp.Pos()
    {
      R.ItemRound(s, inp.Pos(), d, ctx.out.items);
      ok, thrown := ParseArrayItem(ctx, inp);
      if !ok {
        return;
      }
      more := inp.Expect(COMMA);
    }
    ok := inp.Expect(RBRACKET);
    if ok {
      ok := ctx.ParseArrayStop();
    }
  }

  method ParseObjectItem(ctx: Context, inp: Input, key: bytes) returns (ok: bool, thrown: bool)
    requires inp.Valid() && ctx.out.Object?
    modifies ctx`out, inp
    ensures var members := old(ctx.out).members;
      var r := R.ReadValue(inp.src, old(inp.Pos()), ctx.depths, Slot(members, key));
      ok == r.ok && thrown == r.thrown && ctx.out == Object(Put(members, key, r.out)) && inp.Stands(r.pos, r.held)
    decreases |inp.src| - inp.Pos(), 2
  {
    var item := new Context(Slot(ctx.out.members, key), ctx.depths);
    ok, thrown := Parse(item, inp);
    ctx.out := Object(Put(ctx.out.members, key, item.out));
  }

  method ParseObject(ctx: Context, inp: Input) returns (ok: bool, thrown: bool)
    requires inp.Valid() && inp.consumed
    modifies ctx, inp
    ensures var r := R.AfterBrace(inp.src, old(inp.Pos()), old(ctx.depths), old(ctx.out));
      ok == r.ok && thrown == r.thrown && ctx.out == r.out && inp.Stands(r.pos, r.held)
    decreases |inp.src| - inp.Pos(), 3
  {
    hide R.ReadValue, R.SkipWs, R.ReadMembers, R.ScanString, Put, Slot;
    var started := ctx.ParseObjectStart();
    thrown := false;
    if !started {
      return false, false;
    }
    var close := inp.Expect(RBRACE);
    if close {
      ok := ctx.ParseObjectStop();
      return;
    }
    ghost var s, p, d := inp.src, inp.Pos(), ctx.depths;
    var more := true;
    while more
      invariant inp.Valid() && !thrown && p <= inp.Pos() && ctx.out.Object? && ctx.depths == d
      invariant more ==> R.ReadMembers(s, p, d, []) == R.ReadMembers(s, inp.Pos(), d, ctx.out.members)
      invariant !more ==> R.ReadMembers(s, p, d, []) == R.Closed(R.Expect(s, inp.Pos(), RBRACE), ctx.out)
      decreases more, |s| - inp.Pos()
    {
      R.MemberRound(s, inp.Pos(), d, ctx.out.members);
      ok := inp.Expect(QUOTE);
      if !ok {
        return;
      }
      var key;
      ok, key := ParseStringBody(inp);
      if !ok {
        return;
      }
      ok := inp.Expect(COLON);
      if !ok {
        return;
      }
      ok, thrown := ParseObjectItem(ctx, inp, key);
      if !ok {
        return;
      }
      more := inp.Expect(COMMA);
    }
    ok := inp.Expect(RBRACE);
    if ok {
      ok := ctx.ParseObjectStop();
    }
  }

  /** `thrown`: the constructor of a double has thrown, and the exception passes through all callers. */
  method Parse(ctx: Context, inp: Input) returns (ok: bool, thrown: bool)
    requires inp.Valid()
    modifies ctx, inp
    ensures var r := R.ReadValue(inp.src, old(inp.Pos()), old(ctx.depths), old(ctx.out));
      ok == r.ok && thrown == r.thrown && ctx.out == r.out && inp.Stands(r.pos, r.held)
    decreases |inp.src| - inp.Pos(), 1
  {
    hide R.ScanString, R.NumberEnd, R.ReadItems, R.ReadMembers, R.TokenValue, R.Match, Overflows;
    thrown := false;
    inp.SkipWs();
    var ch := inp.Getc();
    if ch == 0x6E {
      ok := inp.Match(R.ULL);
      if ok {
        ok := ctx.SetNull();
      }
    } else if ch == 0x66 {
      ok := inp.Match(R.ALSE);
      if ok {
        ok := ctx.SetBool(false);
      }
    } else if ch == 0x74 {
      ok := inp.Match(R.RUE);
      if ok {
        ok := ctx.SetBool(true);
      }
    } else if ch == QUOTE {
      ok := ctx.ParseString(inp);
    } else if ch == LBRACKET {
      ok, thrown := ParseArray(ctx, inp);
    } else if ch == LBRACE {
      ok, thrown := ParseObject(ctx, inp);
    } else if 0x30 <= ch <= 0x39 || ch == MINUS {
      inp.Ungetc();
      var num := ParseNumber(inp);
      match R.TokenValue(num)
      case Some(v) =>
        ctx.out := v;
        ok := true;
      case None => ok, thrown := false, Overflows(num);
    } else {
      inp.Ungetc();
      ok := false;
    }
  }
}
