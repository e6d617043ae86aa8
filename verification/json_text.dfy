/** Parsing a whole string: the value, the error text and the position where reading ended. */
module JsonText {
  import opened Bytes
  import opened Numerals
  import opened JsonValue
  import opened JsonReader
  import opened JsonInput
  import P = JsonParse

  /**
    What `parse` leaves in its target and returns. When it has `thrown` it returns nothing: then `err` and `end`
    have no meaning.
   */
  datatype Reading = Reading(ok: bool, value: Value, err: bytes, end: nat, thrown: bool := false)

  /** The rest of the line from `p`, without control bytes. */
  function Near(s: bytes, p: nat): (r: bytes)
    requires p <= |s|
    decreases |s| - p
  {
    if p == |s| || s[p] == LF then []
    else (if s[p] >= SPACE then [s[p]] else []) + Near(s, p + 1)
  }

  /** The position after that line. */
  function NextLine(s: bytes, p: nat): (q: nat)
    requires p <= |s|
    ensures p <= q <= |s|
    decreases |s| - p
  {
    if p == |s| then p else if s[p] == LF then p + 1 else NextLine(s, p + 1)
  }

  /** The index of the byte the cursor stands on when reading stops with `r`. */
  function CursorOf(r: Parsed): (i: nat) {
    if r.held && r.pos > 0 then r.pos - 1 else r.pos
  }

  function ErrorText(line: nat, near: bytes): (r: bytes)
    ensures r != []
  {
    Ascii("syntax error at line ") + PrintInt(line) + Ascii(" near: ") + near
  }

  /** `parse` into a value that holds `prior`. */
  function ReadText(s: bytes, prior: Value): (r: Reading) {
    var v := ReadValue(s, 0, MAX_DEPTHS, prior);
    if v.ok then Reading(true, v.out, [], v.pos)
    else if v.thrown then Reading(false, v.out, [], v.pos, true)
    else Reading(false, v.out, ErrorText(1 + Newlines(s[..CursorOf(v)]), Near(s, v.pos)), NextLine(s, v.pos))
  }

  /** One round of the loop: the line ends, or its next byte is quoted or left out. */
  lemma NearStep(s: bytes, q: nat, near: bytes)
    requires q <= |s|
    ensures q == |s| ==> near + Near(s, q) == near && NextLine(s, q) == q
    ensures q < |s| && s[q] == LF ==> near + Near(s, q) == near && NextLine(s, q) == q + 1
    ensures q < |s| && s[q] != LF ==>
      && NextLine(s, q) == NextLine(s, q + 1)
      && near + Near(s, q) == (if s[q] >= SPACE then near + [s[q]] else near) + Near(s, q + 1)
  {
    if q < |s| && s[q] != LF { Regroup(near, [s[q]], Near(s, q + 1)); }
  }

  /** The printable bytes of the rest of the line. */
  method RestOfLine(inp: Input) returns (near: bytes)
    requires inp.Valid()
    modifies inp
    ensures inp.Valid() && near == Near(inp.src, old(inp.Pos())) && inp.Pos() == NextLine(inp.src, old(inp.Pos()))
  {
    hide Near, NextLine;
    near := [];
    ghost var s, p := inp.src, inp.Pos();
    while true
      invariant inp.Valid() && near + Near(s, inp.Pos()) == Near(s, p) && NextLine(s, inp.Pos()) == NextLine(s, p)
      decreases |s| - inp.Pos()
    {
      NearStep(s, inp.Pos(), near);
      var ch := inp.Getc();
      if ch == -1 || ch == LF {
        break;
      } else if ch >= SPACE {
        near := near + [ch];
      }
    }
  }

  method Parse(s: bytes, prior: Value) returns (value: Value, err: bytes, end: nat, thrown: bool)
    ensures var r := ReadText(s, prior);
      thrown == r.thrown && value == r.value && (!thrown ==> err == r.err && end == r.end)
    ensures !thrown ==> (err == [] <==> ReadValue(s, 0, MAX_DEPTHS, prior).ok)
  {
    hide ReadValue, Near, NextLine;
    var inp := new Input(s);
    var ctx := new P.Context(prior, MAX_DEPTHS);
    var ok;
    ok, thrown := P.Parse(ctx, inp);
    value, err, end := ctx.out, [], 0;
    if thrown {
      return;
    }
    if !ok {
      assert inp.cur == CursorOf(ReadValue(s, 0, MAX_DEPTHS, prior));
      var line := inp.line;
      var near := RestOfLine(inp);
      err := ErrorText(line, near);
    }
    end := inp.Cur();
  }
}
