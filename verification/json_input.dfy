/** The cursor of the reader: one byte of look-ahead, consumed lazily. */
module JsonInput {
  import opened Bytes
  import R = JsonReader

  function Newlines(t: bytes): (n: nat) {
    if t == [] then 0 else Newlines(t[..|t| - 1]) + if t[|t| - 1] == LF then 1 else 0
  }

  lemma NewlinesStep(s: bytes, i: nat)
    requires i < |s|
    ensures Newlines(s[..i + 1]) == Newlines(s[..i]) + if s[i] == LF then 1 else 0
  {
    assert s[..i + 1][..i] == s[..i];
  }

  class Input {
    const src: bytes
    var cur: nat
    var consumed: bool
    var line: nat

    /** The line number counts the newlines before `cur`; a consumed byte is still at `cur`. */
    ghost predicate Valid()
      reads this
    {
      cur <= |src| && (consumed ==> cur < |src|) && line == 1 + Newlines(src[..cur])
    }

    /** The abstract position: how many bytes have been got. */
    ghost function Pos(): (p: nat)
      requires Valid()
      reads this
      ensures p <= |src|
    {
      if consumed then cur + 1 else cur
    }

    ghost predicate Stands(pos: nat, held: bool)
      reads this
    {
      Valid() && Pos() == pos && consumed == held
    }

    constructor (text: bytes)
      ensures src == text && Stands(0, false)
    {
      src, cur, consumed, line := text, 0, false, 1;
    }

    method Getc() returns (ch: int)
      requires Valid()
      modifies this
      ensures old(Pos()) == |src| ==> ch == -1 && Stands(|src|, false)
      ensures old(Pos()) < |src| ==> ch == src[old(Pos())] && Stands(old(Pos()) + 1, true)
    {
      if consumed {
        NewlinesStep(src, cur);
        if src[cur] == LF {
          line := line + 1;
        }
        cur := cur + 1;
      }
      if cur == |src| {
        consumed := false;
        return -1;
      }
      consumed := true;
      return src[cur];
    }

    method Ungetc()
      requires Valid()
      modifies this`consumed
      ensures Stands(cur, false)
    {
      consumed := false;
    }

    /** The end position of a parse. The line is not counted on: the input is not used after this. */
    method Cur() returns (p: nat)
      requires Valid()
      modifies this`cur, this`consumed
      ensures p == old(Pos()) && cur == p && !consumed
    {
      if consumed {
        consumed := false;
        cur := cur + 1;
      }
      return cur;
    }

    method SkipWs()
      requires Valid()
      modifies this
      ensures Stands(R.SkipWs(src, old(Pos())), false)
    {
      while true
        invariant Valid() && R.SkipWs(src, Pos()) == R.SkipWs(src, old(Pos()))
        decreases |src| - Pos()
      {
        var ch := Getc();
        if !(ch == SPACE || ch == TAB || ch == LF || ch == CR) {
          Ungetc();
          break;
        }
      }
    }

    method Expect(expected: byte) returns (ok: bool)
      requires Valid()
      modifies this
      ensures var r := R.Expect(src, old(Pos()), expected); ok == r.ok && Stands(r.pos, r.held)
    {
      SkipWs();
      var ch := Getc();
      if ch != expected {
        Ungetc();
        return false;
      }
      return true;
    }

    method Match(pattern: bytes) returns (ok: bool)
      requires Valid()
      modifies this
      ensures var r := R.Match(src, old(Pos()), pattern);
        ok == r.ok && Stands(r.pos, if pattern == [] then old(consumed) else r.held)
    {
      for i := 0 to |pattern|
        invariant Valid() && (if i > 0 then consumed else consumed == old(consumed))
        invariant R.Match(src, Pos(), pattern[i..]) == R.Match(src, old(Pos()), pattern)
      {
        var ch := Getc();
        assert pattern[i..][1..] == pattern[i + 1..];
        if ch != pattern[i] {
          Ungetc();
          return false;
        }
      }
      return true;
    }
  }
}
