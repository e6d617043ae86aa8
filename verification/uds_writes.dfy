/**
  Several writes in a row whose results nobody looks at, as the response writer makes them: a piece whose send
  fails is cut short, and the later pieces still go out.
 */
module UdsWrites {
  import opened Bytes
  import opened UdsServer

  /** How many bytes of each piece were taken. */
  ghost predicate Counts(pieces: seq<bytes>, ns: seq<nat>) {
    |ns| == |pieces| && forall i :: 0 <= i < |ns| ==> ns[i] <= |pieces[i]|
  }

  /** The bytes taken in all. */
  ghost function Took(pieces: seq<bytes>, ns: seq<nat>): (r: bytes)
    requires Counts(pieces, ns)
  {
    if pieces == [] then [] else pieces[0][..ns[0]] + Took(pieces[1..], ns[1..])
  }

  method WriteAll(con: Connection, pieces: seq<bytes>, os: Process) returns (ghost ns: seq<nat>)
    modifies con`taken
    ensures Counts(pieces, ns) && con.taken == old(con.taken) + Took(pieces, ns)
    ensures con.socket < 0 ==> con.taken == old(con.taken)
  {
    ns := [];
    ghost var before := con.taken;
    for i := 0 to |pieces|
      invariant Counts(pieces[..i], ns) && con.taken == before + Took(pieces[..i], ns)
      invariant con.socket < 0 ==> con.taken == before
    {
      ghost var was := con.taken;
      var _ := con.Write(pieces[i], os);
      ghost var n :| 0 <= n <= |pieces[i]| && con.taken == was + pieces[i][..n];
      TookSnoc(pieces[..i], ns, pieces[i], n);
      assert pieces[..i + 1] == pieces[..i] + [pieces[i]];
      Regroup(before, Took(pieces[..i], ns), pieces[i][..n]);
      ns := ns + [n];
    }
    assert pieces[..|pieces|] == pieces;
  }

  lemma {:induction false} TookSnoc(pieces: seq<bytes>, ns: seq<nat>, piece: bytes, n: nat)
    requires Counts(pieces, ns) && n <= |piece|
    ensures Counts(pieces + [piece], ns + [n])
    ensures Took(pieces + [piece], ns + [n]) == Took(pieces, ns) + piece[..n]
    decreases |pieces|
  {
    if pieces == [] {
      assert (pieces + [piece])[1..] == [] && (ns + [n])[1..] == [];
    } else {
      assert (pieces + [piece])[1..] == pieces[1..] + [piece] && (ns + [n])[1..] == ns[1..] + [n];
      TookSnoc(pieces[1..], ns[1..], piece, n);
    }
  }

  /** After the first piece that was cut short, nothing more was taken. */
  ghost predicate Stopped(pieces: seq<bytes>, ns: seq<nat>)
    requires Counts(pieces, ns)
  {
    forall i, j :: 0 <= i < j < |ns| && ns[i] < |pieces[i]| ==> ns[j] == 0
  }

  ghost predicate SameLengths(pieces: seq<bytes>, others: seq<bytes>) {
    |pieces| == |others| && forall i :: 0 <= i < |pieces| ==> |pieces[i]| == |others[i]|
  }

  lemma {:induction false} NothingTaken(pieces: seq<bytes>, ns: seq<nat>)
    requires Counts(pieces, ns) && forall i :: 0 <= i < |ns| ==> ns[i] == 0
    ensures Took(pieces, ns) == []
    decreases |pieces|
  {
    if pieces != [] { NothingTaken(pieces[1..], ns[1..]); }
  }

  lemma {:induction false} StoppedIsPrefix(pieces: seq<bytes>, ns: seq<nat>)
    requires Counts(pieces, ns) && Stopped(pieces, ns)
    ensures Took(pieces, ns) <= Joined(pieces)
    decreases |pieces|
  {
    if pieces != [] {
      if ns[0] < |pieces[0]| {
        NothingTaken(pieces[1..], ns[1..]);
      } else {
        StoppedIsPrefix(pieces[1..], ns[1..]);
      }
    }
  }

  function Zeros(n: nat): (r: bytes)
    ensures |r| == n
  {
    seq(n, _ => 0)
  }

  /** Pieces of zeros of the same lengths. */
  ghost function Blank(pieces: seq<bytes>): (r: seq<bytes>)
    ensures SameLengths(r, pieces) && forall t <- r :: forall b <- t :: b == 0
  {
    seq(|pieces|, i requires 0 <= i < |pieces| => Zeros(|pieces[i]|))
  }

  lemma {:induction false} BlankTaken(pieces: seq<bytes>, ns: seq<nat>)
    requires Counts(pieces, ns) && forall t <- pieces :: forall b <- t :: b == 0
    ensures forall b <- Took(pieces, ns) :: b == 0
    ensures (exists i :: 0 <= i < |ns| && ns[i] > 0) ==> Took(pieces, ns) != []
    decreases |pieces|
  {
    if pieces != [] {
      assert pieces[0] in pieces && forall t <- pieces[1..] :: t in pieces;
      BlankTaken(pieces[1..], ns[1..]);
      assert forall b <- pieces[0][..ns[0]] :: b in pieces[0];
      if i :| 0 < i < |ns| && ns[i] > 0 { assert ns[1..][i - 1] > 0; }
    }
  }

  /** The first piece is cut short before a 1, and later zeros are taken. */
  lemma CutFirst(pieces: seq<bytes>, ns: seq<nat>) returns (others: seq<bytes>)
    requires Counts(pieces, ns) && |ns| > 0 && ns[0] < |pieces[0]| && exists j :: 0 < j < |ns| && ns[j] > 0
    ensures SameLengths(others, pieces) && Counts(others, ns) && !(Took(others, ns) <= Joined(others))
  {
    var j :| 0 < j < |ns| && ns[j] > 0;
    var first, rest := Zeros(|pieces[0]|)[ns[0] := 1], Blank(pieces[1..]);
    others := [first] + rest;
    assert others[1..] == rest && ns[1..][j - 1] > 0;
    BlankTaken(rest, ns[1..]);
    hide Blank, Zeros;
    var t := Took(rest, ns[1..]);
    assert t[0] in t;
    assert Took(others, ns)[ns[0]] == 0 && Joined(others)[ns[0]] == 1;
  }

  /** Otherwise there are pieces of these lengths for which the bytes taken are no prefix. */
  lemma {:induction false} NoPrefix(pieces: seq<bytes>, ns: seq<nat>) returns (others: seq<bytes>)
    requires Counts(pieces, ns) && !Stopped(pieces, ns)
    ensures SameLengths(others, pieces) && Counts(others, ns) && !(Took(others, ns) <= Joined(others))
    decreases |pieces|
  {
    if ns[0] < |pieces[0]| && exists j :: 0 < j < |ns| && ns[j] > 0 {
      others := CutFirst(pieces, ns);
    } else {
      LaterStop(pieces, ns);
      var rest := NoPrefix(pieces[1..], ns[1..]);
      others := [pieces[0]] + rest;
      assert others[1..] == rest;
      SameFront(pieces[0], Took(rest, ns[1..]), Joined(rest));
    }
  }

  lemma SameFront(a: bytes, b: bytes, c: bytes)
    ensures a + b <= a + c <==> b <= c
  {
    if a + b <= a + c {
      assert b == (a + b)[|a|..] && c == (a + c)[|a|..];
    }
  }

  /** The first short piece with bytes taken after it stands later. */
  lemma LaterStop(pieces: seq<bytes>, ns: seq<nat>)
    requires Counts(pieces, ns) && !Stopped(pieces, ns)
    requires !(ns[0] < |pieces[0]| && exists j :: 0 < j < |ns| && ns[j] > 0)
    ensures Counts(pieces[1..], ns[1..]) && !Stopped(pieces[1..], ns[1..]) && ns[0] == |pieces[0]|
  {
    var i, j :| 0 <= i < j < |ns| && ns[i] < |pieces[i]| && ns[j] > 0;
    assert i > 0;
    assert ns[1..][i - 1] == ns[i] && ns[1..][j - 1] == ns[j] && pieces[1..][i - 1] == pieces[i];
  }

  /**
    What the kernel took of a response is a prefix of it, whatever its bytes are, exactly when nothing was taken
    after the first piece that was cut short.
   */
  lemma PrefixExactly(pieces: seq<bytes>, ns: seq<nat>)
    requires Counts(pieces, ns)
    ensures Stopped(pieces, ns) <==>
      forall others :: SameLengths(others, pieces) && Counts(others, ns) ==> Took(others, ns) <= Joined(others)
  {
    if Stopped(pieces, ns) {
      forall others | SameLengths(others, pieces) && Counts(others, ns) ensures Took(others, ns) <= Joined(others) {
        StoppedIsPrefix(others, ns);
      }
    } else {
      var others := NoPrefix(pieces, ns);
    }
  }
}
