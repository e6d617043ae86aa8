/** What happens to one connection, event by event, in a tick and over whole runs. */
module UdsStories {
  import opened UdsSpec
  import opened UdsInvariant

  /** The events of one connection, in order. */
  function Story(log: seq<Event>, id: nat): (r: seq<Event>) {
    if log == [] then []
    else Story(log[..|log| - 1], id) + if log[|log| - 1].id == id then [log[|log| - 1]] else []
  }

  /** What one read adds to it: a read that ends the connection is followed by its end, in one of two orders. */
  function Told(id: nat, o: Outcome): (r: seq<Event>) {
    match o
    case Retry => [Polled(id)]
    case Data(false) => [Polled(id)]
    case Eof => [Polled(id), Disconnected(id), ClosedFd(id)]
    case Failed => [Polled(id), ClosedFd(id), Disconnected(id)]
    case Data(true) => [Polled(id), ClosedFd(id), Disconnected(id)]
  }

  lemma {:induction false} StoryConcat(a: seq<Event>, b: seq<Event>, id: nat)
    ensures Story(a + b, id) == Story(a, id) + Story(b, id)
    decreases |b|
  {
    if b == [] {
      assert a + b == a;
    } else {
      var n := |b| - 1;
      assert (a + b)[..|a| + n] == a + b[..n] && (a + b)[|a| + n] == b[n];
      StoryConcat(a, b[..n], id);
    }
  }

  lemma StoryOne(e: Event, id: nat)
    ensures Story([e], id) == if e.id == id then [e] else []
  {
    assert [e][..0] == [];
  }

  /** A step that notes only events of connection `c`. */
  lemma {:induction false} StoryOfOwn(b: seq<Event>, c: nat, id: nat)
    requires forall e <- b :: e.id == c
    ensures Story(b, id) == if id == c then b else []
    decreases |b|
  {
    if b != [] {
      assert b[|b| - 1] in b && b == b[..|b| - 1] + [b[|b| - 1]];
      StoryOfOwn(b[..|b| - 1], c, id);
    }
  }

  lemma PollLogIs(w: World, c: Conn, o: Outcome)
    requires c.fd >= 0
    ensures Closes(o) <==> o in {Eof, Failed, Data(true)}
    ensures (if Closes(o) then PollAndDrop(w, c, o) else HandleIo(w, c, o).0).log == w.log + Told(c.id, o)
  {
  }

  lemma StoryGrows(log: seq<Event>, c: nat, o: Outcome, id: nat)
    ensures Story(log + Told(c, o), id) == Story(log, id) + if id == c then Told(c, o) else []
  {
    hide Story;
    StoryConcat(log, Told(c, o), id);
    StoryOfOwn(Told(c, o), c, id);
  }

  /** What a scan of `cs` adds to the story of connection `id`. */
  function Added(cs: seq<Conn>, ready: set<int>, io: int -> Outcome, id: nat): (r: seq<Event>) {
    if cs == [] then []
    else (if cs[0].id == id && cs[0].fd in ready then Told(id, io(cs[0].fd)) else []) + Added(cs[1..], ready, io, id)
  }

  lemma {:induction false} ScanTells(w: World, i: nat, ready: set<int>, io: int -> Outcome, id: nat)
    requires i <= |w.conns| && forall k :: 0 <= k < |w.conns| ==> w.conns[k].fd >= 0
    ensures Story(Scan(w, i, ready, io).log, id) == Story(w.log, id) + Added(w.conns[i..], ready, io, id)
    decreases |w.conns| - i
  {
    hide PollAndDrop, HandleIo, Story, Told, Closes, Added;
    if i == |w.conns| {
      NothingAdded(w.conns[i..], ready, io, id);
    } else {
      var c := w.conns[i];
      var o := io(c.fd);
      AddedStep(w.conns, i, ready, io, id);
      PollLogIs(w, c, o);
      StoryGrows(w.log, c.id, o, id);
      if c.fd !in ready {
        ScanTells(w, i + 1, ready, io, id);
      } else if Closes(o) {
        var v := PollAndDrop(w, c, o).(conns := Without(w, i));
        assert v.conns[i..] == w.conns[i + 1..];
        ScanTells(v, i, ready, io, id);
      } else {
        PollLog(w, c, o);
        ScanTells(HandleIo(w, c, o).0, i + 1, ready, io, id);
      }
    }
  }

  lemma AddedStep(cs: seq<Conn>, i: nat, ready: set<int>, io: int -> Outcome, id: nat)
    requires i < |cs|
    ensures forall s: seq<Event> ::
      s + Added(cs[i..], ready, io, id)
      == (s + if cs[i].id == id && cs[i].fd in ready then Told(id, io(cs[i].fd)) else [])
         + Added(cs[i + 1..], ready, io, id)
  {
    hide Told;
    assert cs[i..][0] == cs[i] && cs[i..][1..] == cs[i + 1..];
  }

  lemma {:induction false} NothingAdded(cs: seq<Conn>, ready: set<int>, io: int -> Outcome, id: nat)
    requires forall k :: 0 <= k < |cs| ==> cs[k].id != id
    ensures Added(cs, ready, io, id) == []
  {
    if cs != [] { NothingAdded(cs[1..], ready, io, id); }
  }

  lemma {:induction false} AddedFor(cs: seq<Conn>, ready: set<int>, io: int -> Outcome, k: nat)
    requires k < |cs| && forall i, j :: 0 <= i < j < |cs| ==> cs[i].id != cs[j].id
    ensures Added(cs, ready, io, cs[k].id) == if cs[k].fd in ready then Told(cs[k].id, io(cs[k].fd)) else []
    decreases k
  {
    if k == 0 { NothingAdded(cs[1..], ready, io, cs[0].id); } else { AddedFor(cs[1..], ready, io, k - 1); }
  }

  /** What accepting adds: a connection that is refused is only closed; any other is connected and read at once. */
  lemma AcceptTells(w: World, t: Tick, id: nat)
    requires t.accepted == -1 || t.accepted >= 0
    ensures Story(Accept(w, t).log, id) == Story(w.log, id)
      + if t.accepted == -1 || id != w.next then []
        else if t.refused then [ClosedFd(id)] else [Connected(id)] + Told(id, t.first)
  {
    hide Story, Told, Closes;
    if t.accepted != -1 {
      var c := Conn(w.next, t.accepted);
      if t.refused {
        StoryConcat(w.log, [ClosedFd(c.id)], id);
        StoryOne(ClosedFd(c.id), id);
      } else {
        var w1 := w.(open := w.open + {t.accepted}, next := w.next + 1);
        var w2 := w1.(log := w1.log + [Connected(c.id)]);
        PollLogIs(w2, c, t.first);
        hide PollAndDrop, HandleIo;
        assert Accept(w, t).log == w2.log + Told(c.id, t.first);
        StoryConcat(w.log, [Connected(c.id)], id);
        StoryOne(Connected(c.id), id);
        StoryGrows(w2.log, c.id, t.first, id);
      }
    }
  }

  // ---------- one tick ----------

  /** What accepting contributes to the story of connection `id`. */
  function Accepted(w: World, t: Tick, id: nat): (r: seq<Event>) {
    if t.accepted == -1 || id != w.next then []
    else if t.refused then [ClosedFd(id)]
    else [Connected(id)] + Told(id, t.first)
  }

  lemma ReadyTells(w: World, t: Tick, id: nat)
    requires Inv(w) && Possible(w, t) && t.selected.Ready?
    ensures var fds := t.selected.fds;
      Story(Next(w, t).log, id)
      == Story(w.log, id) + (if w.listener in fds then Accepted(w, t, id) else []) + Added(w.conns, fds, t.io, id)
  {
    var fds := t.selected.fds;
    var v := if w.listener in fds then Accept(w, t) else w;
    if w.listener in fds {
      AcceptKeepsInv(w, t);
      AcceptTells(w, t, id);
      NewAddsNothing(w, t, id);
    }
    hide Accept, Inv, Story, Added, Told;
    InvFacts(v);
    ScanTells(v, 0, fds, t.io, id);
    assert v.conns[0..] == v.conns;
  }

  /** A connection accepted in the tick is not read in its scan. */
  lemma NewAddsNothing(w: World, t: Tick, id: nat)
    requires Inv(w) && Possible(w, t) && t.selected.Ready?
    ensures Added(Accept(w, t).conns, t.selected.fds, t.io, id) == Added(w.conns, t.selected.fds, t.io, id)
  {
    AcceptedList(w, t);
    hide Accept, Told;
    if Accept(w, t).conns != w.conns {
      FreshFd(w, t.accepted);
      AddedLast(w.conns, Conn(w.next, t.accepted), t.selected.fds, t.io, id);
    }
  }

  /** The list after accepting. */
  lemma AcceptedList(w: World, t: Tick)
    requires t.accepted == -1 || t.accepted >= 0
    ensures Accept(w, t).conns ==
      w.conns
      + if t.accepted != -1 && !t.refused && t.first in {Retry, Data(false)} then [Conn(w.next, t.accepted)] else []
    ensures Accept(w, t).next == w.next + if t.accepted == -1 then 0 else 1
  {
    assert w.conns + [] == w.conns;
    assert t.first in {Retry, Data(false)} <==> !Closes(t.first);
  }

  lemma {:induction false} AddedLast(cs: seq<Conn>, c: Conn, ready: set<int>, io: int -> Outcome, id: nat)
    requires c.fd !in ready
    ensures Added(cs + [c], ready, io, id) == Added(cs, ready, io, id)
  {
    hide Told;
    if cs == [] {
      assert [c][1..] == [] && [] + [c] == [c];
    } else {
      assert (cs + [c])[1..] == cs[1..] + [c];
      AddedLast(cs[1..], c, ready, io, id);
    }
  }

  lemma {:induction false} KeptExactly(cs: seq<Conn>, ready: set<int>, io: int -> Outcome, c: Conn)
    ensures c in Kept(cs, ready, io) <==>
      c in cs && (c.fd !in ready || io(c.fd) == Retry || io(c.fd) == Data(false))
  {
    if cs != [] {
      KeptExactly(cs[1..], ready, io, c);
      assert cs == [cs[0]] + cs[1..];
    }
  }

  /** The list after a tick: what was read without an end, or not read, in the old order, then a new connection. */
  lemma ListAfter(w: World, t: Tick, c: Conn)
    requires Inv(w) && Possible(w, t)
    ensures c in Next(w, t).conns <==>
      if !t.selected.Ready? then c in w.conns
      else
        || (c in w.conns && (c.fd !in t.selected.fds || t.io(c.fd) == Retry || t.io(c.fd) == Data(false)))
        || (w.listener in t.selected.fds && t.accepted != -1 && !t.refused && c == Conn(w.next, t.accepted)
            && (t.first == Retry || t.first == Data(false)))
    ensures Next(w, t).next ==
      w.next + if t.selected.Ready? && w.listener in t.selected.fds && t.accepted != -1 then 1 else 0
  {
    if t.selected.Ready? {
      var fds := t.selected.fds;
      var v := if w.listener in fds then Accept(w, t) else w;
      if w.listener in fds {
        AcceptKeepsInv(w, t);
        AcceptedList(w, t);
        if t.accepted != -1 { FreshFd(w, t.accepted); }
      }
      hide Accept, Inv, Kept;
      InvFacts(v);
      ScanKeepsOpenOnes(v, 0, fds, t.io);
      ScanNext(v, 0, fds, t.io);
      KeptExactly(v.conns, fds, t.io, c);
      assert v.conns[0..] == v.conns && v.conns[..0] == [];
    }
  }

  lemma ListedMeans(w: World, c: Conn)
    requires DistinctIds(w) && c in w.conns
    ensures Listed(w, c.id) && forall d <- w.conns :: d.id == c.id ==> d == c
  {
  }

  /**
    A listed connection in a tick. It is read once if its descriptor is ready, and not otherwise. It leaves the list
    exactly when that read met the end of the data, an error, or data on which `on_read` closed; its descriptor is then
    closed once and it gets one disconnect event, in that order except at the end of the data. When it was to be
    tried again, or the data left it open, it stays with its descriptor open.
   */
  lemma TickTells(w: World, t: Tick, k: nat)
    requires Inv(w) && Possible(w, t) && k < |w.conns|
    ensures var c := w.conns[k]; var v := Next(w, t); var story, after := Story(w.log, c.id), Story(v.log, c.id);
      if !(t.selected.Ready? && c.fd in t.selected.fds) then
        after == story && c in v.conns && c.fd in v.open && Listed(v, c.id)
      else
        match t.io(c.fd)
        case Retry => after == story + [Polled(c.id)] && c in v.conns && c.fd in v.open && Listed(v, c.id)
        case Data(false) => after == story + [Polled(c.id)] && c in v.conns && c.fd in v.open && Listed(v, c.id)
        case Eof => after == story + [Polled(c.id), Disconnected(c.id), ClosedFd(c.id)] && !Listed(v, c.id)
        case Failed => after == story + [Polled(c.id), ClosedFd(c.id), Disconnected(c.id)] && !Listed(v, c.id)
        case Data(true) => after == story + [Polled(c.id), ClosedFd(c.id), Disconnected(c.id)] && !Listed(v, c.id)
  {
    hide Story, Next, Listed, Possible, Added;
    var c, v := w.conns[k], Next(w, t);
    StoryOfListed(w, t, k);
    ListAfter(w, t, c);
    TickKeepsInv(w, t);
    WhetherListed(w, t, k);
    if c in v.conns { MemberIsOpen(v, c); }
  }

  lemma StoryOfListed(w: World, t: Tick, k: nat)
    requires Inv(w) && Possible(w, t) && k < |w.conns|
    ensures var c := w.conns[k];
      Story(Next(w, t).log, c.id) == Story(w.log, c.id)
        + if t.selected.Ready? && c.fd in t.selected.fds then Told(c.id, t.io(c.fd)) else []
  {
    hide Story, Added;
    if t.selected.Ready? {
      ReadyTells(w, t, w.conns[k].id);
      InvFacts(w);
      AddedFor(w.conns, t.selected.fds, t.io, k);
    }
  }

  lemma MemberIsOpen(w: World, c: Conn)
    requires Inv(w) && c in w.conns
    ensures c.fd in w.open
  {
    var i :| 0 <= i < |w.conns| && w.conns[i] == c;
    ListedIsOpen(w, i);
  }

  /** A connection of the list is listed after the tick exactly when it itself stays. */
  lemma WhetherListed(w: World, t: Tick, k: nat)
    requires Inv(w) && Possible(w, t) && k < |w.conns|
    ensures Listed(Next(w, t), w.conns[k].id) <==> w.conns[k] in Next(w, t).conns
  {
    var c, v := w.conns[k], Next(w, t);
    InvFacts(w);
    if i :| 0 <= i < |v.conns| && v.conns[i].id == c.id {
      ListAfter(w, t, v.conns[i]);
      ListedMeans(w, c);
    }
  }

  /**
    A connection accepted in a tick. If no object is made for it, it is only closed. Any other is connected and read at
    once, and comes into the list exactly when that read is to be tried again or gave data that left it open.
   */
  lemma NewTells(w: World, t: Tick)
    requires Inv(w) && Possible(w, t) && t.selected.Ready? && w.listener in t.selected.fds && t.accepted != -1
    ensures var id := w.next; var v := Next(w, t); var story := Story(v.log, id); var c := Conn(id, t.accepted);
      if t.refused then story == [ClosedFd(id)] && !Listed(v, id)
      else
        match t.first
        case Retry => story == [Connected(id), Polled(id)] && c in v.conns && c.fd in v.open && Listed(v, id)
        case Data(false) => story == [Connected(id), Polled(id)] && c in v.conns && c.fd in v.open && Listed(v, id)
        case Eof => story == [Connected(id), Polled(id), Disconnected(id), ClosedFd(id)] && !Listed(v, id)
        case Failed => story == [Connected(id), Polled(id), ClosedFd(id), Disconnected(id)] && !Listed(v, id)
        case Data(true) => story == [Connected(id), Polled(id), ClosedFd(id), Disconnected(id)] && !Listed(v, id)
  {
    hide Story, Next, Possible, Added;
    var id, v := w.next, Next(w, t);
    var c := Conn(id, t.accepted);
    ReadyTells(w, t, id);
    UnknownHasNoStory(w, id);
    InvFacts(w);
    NothingAdded(w.conns, t.selected.fds, t.io, id);
    ListAfter(w, t, c);
    TickKeepsInv(w, t);
    InvFacts(v);
    hide Inv;
    if c in v.conns {
      assert Inv(v);
      MemberIsOpen(v, c);
      ListedMeans(v, c);
    }
    if i :| 0 <= i < |v.conns| && v.conns[i].id == id { ListAfter(w, t, v.conns[i]); }
  }

  lemma {:induction false} NoStory(log: seq<Event>, id: nat)
    requires forall e <- log :: e.id != id
    ensures Story(log, id) == []
    decreases |log|
  {
    if log != [] { NoStory(log[..|log| - 1], id); }
  }

  lemma UnknownHasNoStory(w: World, id: nat)
    requires Inv(w) && id >= w.next
    ensures Story(w.log, id) == []
  {
    assert Accounted(w, id);
    forall e | e in w.log ensures e.id != id {
      assert multiset(w.log)[e] > 0;
    }
    NoStory(w.log, id);
  }

  // ---------- whole lives ----------

  function Reads(id: nat, n: nat): (r: seq<Event>) { seq(n, _ => Polled(id)) }

  /** `n` reads after connecting, and no end yet. */
  ghost predicate Alive(story: seq<Event>, id: nat, n: nat) { n > 0 && story == [Connected(id)] + Reads(id, n) }

  /** `n` reads after connecting, and an end. */
  ghost predicate Ended(story: seq<Event>, id: nat, n: nat) {
    && n > 0
    && (story == [Connected(id)] + Reads(id, n) + [Disconnected(id), ClosedFd(id)]
        || story == [Connected(id)] + Reads(id, n) + [ClosedFd(id), Disconnected(id)])
  }

  /** The story of `id` so far: none, one of a listed connection, one that has ended, or that of a refused one. */
  ghost predicate IsLife(story: seq<Event>, id: nat, known: bool, listed: bool) {
    if !known then story == [] && !listed
    else if listed then exists n: nat :: Alive(story, id, n)
    else story == [ClosedFd(id)] || exists n: nat :: Ended(story, id, n)
  }

  lemma LivesOn(story: seq<Event>, id: nat)
    requires IsLife(story, id, true, true)
    ensures IsLife(story + [Polled(id)], id, true, true)
    ensures IsLife(story + [Polled(id), Disconnected(id), ClosedFd(id)], id, true, false)
    ensures IsLife(story + [Polled(id), ClosedFd(id), Disconnected(id)], id, true, false)
  {
    var n: nat :| Alive(story, id, n);
    var more := story + [Polled(id)];
    assert Reads(id, n + 1) == Reads(id, n) + [Polled(id)];
    assert more == [Connected(id)] + Reads(id, n + 1);
    assert Alive(more, id, n + 1);
    var a, b := [Disconnected(id), ClosedFd(id)], [ClosedFd(id), Disconnected(id)];
    assert story + [Polled(id), Disconnected(id), ClosedFd(id)] == more + a;
    assert story + [Polled(id), ClosedFd(id), Disconnected(id)] == more + b;
    assert Ended(more + a, id, n + 1) && Ended(more + b, id, n + 1);
  }

  lemma Begins(id: nat)
    ensures IsLife([Connected(id), Polled(id)], id, true, true)
    ensures IsLife([Connected(id), Polled(id), Disconnected(id), ClosedFd(id)], id, true, false)
    ensures IsLife([Connected(id), Polled(id), ClosedFd(id), Disconnected(id)], id, true, false)
  {
    var r := Reads(id, 1);
    assert r == [Polled(id)];
    assert Alive([Connected(id)] + r, id, 1);
    assert [Connected(id), Polled(id)] == [Connected(id)] + r;
    var a, b := [Disconnected(id), ClosedFd(id)], [ClosedFd(id), Disconnected(id)];
    assert Ended([Connected(id)] + r + a, id, 1) && Ended([Connected(id)] + r + b, id, 1);
    assert [Connected(id), Polled(id), Disconnected(id), ClosedFd(id)] == [Connected(id)] + r + a;
    assert [Connected(id), Polled(id), ClosedFd(id), Disconnected(id)] == [Connected(id)] + r + b;
  }

  /** Connection `id` so far. */
  ghost predicate LifeIn(w: World, id: nat) { IsLife(Story(w.log, id), id, id < w.next, Listed(w, id)) }

  lemma TickKeepsLife(w: World, t: Tick, id: nat)
    requires Inv(w) && Possible(w, t) && LifeIn(w, id)
    ensures LifeIn(Next(w, t), id)
  {
    hide Inv, Possible, Next, Story, IsLife;
    ListAfter(w, t, Conn(0, 0));
    if k :| 0 <= k < |w.conns| && w.conns[k].id == id {
      TickTells(w, t, k);
      InvIds(w, k);
      LivesOn(Story(w.log, id), id);
    } else if id == w.next && t.selected.Ready? && w.listener in t.selected.fds && t.accepted != -1 {
      NewTells(w, t);
      Begins(id);
      assert IsLife([ClosedFd(id)], id, true, false) by { RefusedLife(id); }
    } else {
      TickIgnores(w, t, id);
    }
  }

  lemma InvIds(w: World, k: nat)
    requires Inv(w) && k < |w.conns|
    ensures w.conns[k].id < w.next
  {
  }

  lemma RefusedLife(id: nat)
    ensures IsLife([ClosedFd(id)], id, true, false)
  {
  }

  /** A connection that is not in the list, and not the new one, has no part in the tick. */
  lemma TickIgnores(w: World, t: Tick, id: nat)
    requires Inv(w) && Possible(w, t) && !Listed(w, id)
    requires !(id == w.next && t.selected.Ready? && w.listener in t.selected.fds && t.accepted != -1)
    ensures Story(Next(w, t).log, id) == Story(w.log, id) && !Listed(Next(w, t), id)
  {
    var v := Next(w, t);
    if t.selected.Ready? {
      ReadyTells(w, t, id);
      hide Story, Added, Next, Possible, Inv;
      NothingAdded(w.conns, t.selected.fds, t.io, id);
    }
    hide Story, Added, Next, Possible, Inv;
    if i :| 0 <= i < |v.conns| && v.conns[i].id == id {
      ListAfter(w, t, v.conns[i]);
    }
  }

  lemma {:induction false} RunKeepsLife(w: World, ts: seq<Tick>, id: nat)
    requires Inv(w) && AllPossible(w, ts) && LifeIn(w, id)
    ensures LifeIn(After(w, ts), id)
    decreases |ts|
  {
    hide Inv, Next, Possible, LifeIn;
    if ts != [] {
      TickKeepsInv(w, ts[0]);
      TickKeepsLife(w, ts[0], id);
      RunKeepsLife(Next(w, ts[0]), ts[1..], id);
    }
  }

  /**
    Over every run, what happens to an accepted descriptor is, in this order: one connect, one or more reads, and then,
    unless the connection is still in the list, one disconnect and one close; or a single close if no
    object was made for it.
   */
  lemma WholeLife(w: World, ts: seq<Tick>, id: nat)
    requires Started(w) && AllPossible(w, ts)
    ensures var v := After(w, ts); IsLife(Story(v.log, id), id, id < v.next, Listed(v, id))
  {
    StartInv(w);
    assert LifeIn(w, id) by { assert Story([], id) == []; }
    hide After, AllPossible, Inv, Story, IsLife;
    RunKeepsLife(w, ts, id);
  }
}
