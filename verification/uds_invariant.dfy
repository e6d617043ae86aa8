/** What every tick of the event loop keeps. */
module UdsInvariant {
  import opened UdsSpec

  ghost predicate DistinctFds(w: World) {
    && (forall k :: 0 <= k < |w.conns| ==>
          w.conns[k].fd >= 0 && w.conns[k].fd != w.listener && w.conns[k].fd !in w.others)
    && (forall j, k :: 0 <= j < k < |w.conns| ==> w.conns[j].fd != w.conns[k].fd)
  }

  ghost predicate DistinctIds(w: World) {
    && (forall k :: 0 <= k < |w.conns| ==> w.conns[k].id < w.next)
    && (forall j, k :: 0 <= j < k < |w.conns| ==> w.conns[j].id != w.conns[k].id)
  }

  ghost predicate Listed(w: World, id: nat) { exists k :: 0 <= k < |w.conns| && w.conns[k].id == id }

  function Count(w: World, e: Event): (n: nat) { multiset(w.log)[e] }

  /**
    The books of the accepted descriptor `id`: while its connection is in the list it had one connect event,
    no disconnect event and no close; afterwards it was closed once, and disconnected as often as connected.
   */
  ghost predicate Accounted(w: World, id: nat) {
    && Count(w, Connected(id)) <= 1
    && (Listed(w, id) ==>
          Count(w, Connected(id)) == 1 && Count(w, Disconnected(id)) == 0 && Count(w, ClosedFd(id)) == 0)
    && (!Listed(w, id) && id < w.next ==>
          Count(w, Disconnected(id)) == Count(w, Connected(id)) && Count(w, ClosedFd(id)) == 1)
    && (id >= w.next ==>
          Count(w, Connected(id)) == 0 && Count(w, Disconnected(id)) == 0 && Count(w, ClosedFd(id)) == 0
          && Count(w, Polled(id)) == 0)
  }

  /** The open descriptors are the listener, those of the list, and those that are not the server's. */
  ghost predicate OpenExactly(w: World) {
    forall fd :: fd in w.open <==> Watched(w, fd) || fd in w.others
  }

  ghost predicate Inv(w: World) {
    && w.listener >= 0 && w.listener !in w.others
    && DistinctFds(w) && DistinctIds(w) && OpenExactly(w)
    && forall id :: Accounted(w, id)
  }

  // ---------- one connection ----------

  /** Removing the connection at `i` from the list. */
  function Without(w: World, i: nat): (r: seq<Conn>)
    requires i < |w.conns|
  {
    w.conns[..i] + w.conns[i + 1..]
  }

  lemma WithoutListed(w: World, i: nat, v: World)
    requires i < |w.conns| && DistinctIds(w) && v.conns == Without(w, i)
    ensures forall id :: Listed(v, id) <==> Listed(w, id) && id != w.conns[i].id
    ensures forall k :: 0 <= k < |v.conns| ==> v.conns[k] == w.conns[if k < i then k else k + 1]
  {
    forall id ensures Listed(v, id) <==> Listed(w, id) && id != w.conns[i].id {
      WithoutOne(w, i, v, id);
    }
  }

  lemma WithoutOne(w: World, i: nat, v: World, id: nat)
    requires i < |w.conns| && DistinctIds(w) && v.conns == Without(w, i)
    ensures Listed(v, id) <==> Listed(w, id) && id != w.conns[i].id
  {
    if Listed(v, id) {
      var k :| 0 <= k < |v.conns| && v.conns[k].id == id;
      assert w.conns[if k < i then k else k + 1].id == id;
    }
    if Listed(w, id) && id != w.conns[i].id {
      var k :| 0 <= k < |w.conns| && w.conns[k].id == id;
      assert v.conns[if k < i then k else k - 1].id == id;
    }
  }

  /** The events of a poll that ends the connection: one poll, one disconnect, one close. */
  lemma PollAndDropLog(w: World, c: Conn, o: Outcome)
    requires Closes(o) && c.fd >= 0
    ensures var v := PollAndDrop(w, c, o);
      && multiset(v.log) == multiset(w.log) + multiset{Polled(c.id), Disconnected(c.id), ClosedFd(c.id)}
      && v.open == w.open - {c.fd}
      && v == w.(log := v.log, open := v.open)
  {
  }

  lemma PollLog(w: World, c: Conn, o: Outcome)
    requires !Closes(o)
    ensures HandleIo(w, c, o) == (w.(log := w.log + [Polled(c.id)]), c)
    ensures multiset(w.log + [Polled(c.id)]) == multiset(w.log) + multiset{Polled(c.id)}
  {
  }

  /** A poll that keeps the connection. */
  lemma PollKeepsInv(w: World, i: nat, o: Outcome)
    requires Inv(w) && i < |w.conns| && !Closes(o)
    ensures Inv(HandleIo(w, w.conns[i], o).0)
  {
    var c := w.conns[i];
    PollLog(w, c, o);
    var v := HandleIo(w, c, o).0;
    forall id ensures Accounted(v, id) {
      assert Accounted(w, id);
      assert Listed(v, id) <==> Listed(w, id);
    }
    forall fd ensures Watched(v, fd) == Watched(w, fd) {
    }
  }

  /** A poll that ends the connection. */
  lemma DropKeepsInv(w: World, i: nat, o: Outcome)
    requires Inv(w) && i < |w.conns| && Closes(o)
    ensures Inv(PollAndDrop(w, w.conns[i], o).(conns := Without(w, i)))
  {
    hide PollAndDrop;
    var c := w.conns[i];
    var v := PollAndDrop(w, c, o).(conns := Without(w, i));
    PollAndDropLog(w, c, o);
    WithoutListed(w, i, v);
    forall id ensures Accounted(v, id) {
      assert Accounted(w, id);
      assert Listed(w, c.id);
    }
    DropOpen(w, i, v);
  }

  lemma DropOpen(w: World, i: nat, v: World)
    requires Inv(w) && i < |w.conns| && v == w.(conns := Without(w, i), open := w.open - {w.conns[i].fd}, log := v.log)
    ensures OpenExactly(v) && DistinctFds(v) && DistinctIds(v)
  {
    WithoutListed(w, i, v);
    assert DistinctFds(v) && DistinctIds(v);
    forall fd ensures fd in v.open <==> Watched(v, fd) || fd in v.others {
      WithoutWatched(w, i, v, fd);
    }
  }

  lemma WithoutWatched(w: World, i: nat, v: World, fd: int)
    requires i < |w.conns| && DistinctFds(w) && v.conns == Without(w, i) && v.listener == w.listener
    ensures Watched(v, fd) <==> Watched(w, fd) && fd != w.conns[i].fd
  {
    if Watched(v, fd) && fd != v.listener {
      var k :| 0 <= k < |v.conns| && v.conns[k].fd == fd;
      assert w.conns[if k < i then k else k + 1].fd == fd;
    }
    if Watched(w, fd) && fd != w.conns[i].fd && fd != w.listener {
      var k :| 0 <= k < |w.conns| && w.conns[k].fd == fd;
      assert v.conns[if k < i then k else k - 1].fd == fd;
    }
  }

  lemma ListedIsOpen(w: World, i: nat)
    requires Inv(w) && i < |w.conns|
    ensures w.conns[i].fd >= 0 && w.conns[i].fd in w.open
  {
    assert Watched(w, w.conns[i].fd);
  }

  // ---------- accepting ----------

  lemma AcceptKeepsInv(w: World, t: Tick)
    requires Inv(w) && Possible(w, t)
    ensures Inv(Accept(w, t))
  {
    if t.accepted != -1 {
      if t.refused {
        RefusedKeepsInv(w, t);
      } else if Closes(t.first) {
        ShortLivedKeepsInv(w, t);
      } else {
        NewConnKeepsInv(w, t);
      }
    }
  }

  lemma FreshFd(w: World, fd: int)
    requires Inv(w) && fd !in w.open
    ensures !Watched(w, fd) && fd !in w.others && w.open + {fd} - {fd} == w.open
  {
  }

  /** A descriptor that was accepted and closed again only leaves its events. */
  lemma OnlyEvents(w: World, v: World)
    requires Inv(w) && v == w.(log := v.log, next := w.next + 1) && forall id :: Accounted(v, id)
    ensures Inv(v)
  {
    hide Accounted;
    assert forall fd :: Watched(v, fd) == Watched(w, fd);
  }

  lemma RefusedKeepsInv(w: World, t: Tick)
    requires Inv(w) && Possible(w, t) && t.accepted != -1 && t.refused
    ensures Inv(Accept(w, t))
  {
    FreshFd(w, t.accepted);
    var v := Accept(w, t);
    assert v == w.(log := w.log + [ClosedFd(w.next)], next := w.next + 1);
    assert multiset(v.log) == multiset(w.log) + multiset{ClosedFd(w.next)};
    forall id ensures Accounted(v, id) {
      assert Accounted(w, id) && (Listed(v, id) <==> Listed(w, id));
    }
    OnlyEvents(w, v);
  }

  /** A connection that ends before it gets into the list. */
  lemma ShortLivedKeepsInv(w: World, t: Tick)
    requires Inv(w) && Possible(w, t) && t.accepted != -1 && !t.refused && Closes(t.first)
    ensures Inv(Accept(w, t))
  {
    hide PollAndDrop, OpenExactly, DistinctFds, DistinctIds, Watched;
    var v := Accept(w, t);
    ShortLivedShape(w, t);
    hide Accept;
    forall id ensures Accounted(v, id) {
      assert Accounted(w, id) && (Listed(v, id) <==> Listed(w, id));
    }
    OnlyEvents(w, v);
  }

  lemma ShortLivedShape(w: World, t: Tick)
    requires Inv(w) && Possible(w, t) && t.accepted != -1 && !t.refused && Closes(t.first)
    ensures var v := Accept(w, t); var id := w.next;
      && v == w.(log := v.log, next := w.next + 1)
      && multiset(v.log) == multiset(w.log) + multiset{Connected(id), Polled(id), Disconnected(id), ClosedFd(id)}
  {
    hide PollAndDrop;
    FreshFd(w, t.accepted);
    hide Inv;
    var c := Conn(w.next, t.accepted);
    PollAndDropLog(w.(open := w.open + {t.accepted}, next := w.next + 1, log := w.log + [Connected(c.id)]), c, t.first);
  }

  lemma NewConnKeepsInv(w: World, t: Tick)
    requires Inv(w) && Possible(w, t) && t.accepted != -1 && !t.refused && !Closes(t.first)
    ensures Inv(Accept(w, t))
  {
    var c := Conn(w.next, t.accepted);
    var v := Accept(w, t);
    FreshFd(w, t.accepted);
    NewConnShape(w, t);
    hide Accept;
    forall id ensures Accounted(v, id) {
      assert Accounted(w, id);
      NewListed(w, v, c, id);
    }
    NewConnOpen(w, v, c);
  }

  lemma NewConnOpen(w: World, v: World, c: Conn)
    requires Inv(w) && c.id == w.next && c.fd >= 0 && !Watched(w, c.fd) && c.fd !in w.others
    requires v == w.(conns := w.conns + [c], open := w.open + {c.fd}, next := w.next + 1, log := v.log)
    ensures OpenExactly(v) && DistinctFds(v) && DistinctIds(v)
  {
    forall fd ensures fd in v.open <==> Watched(v, fd) || fd in v.others {
      NewWatched(w, v, c, fd);
    }
    hide OpenExactly, Watched, Accounted;
    forall k | 0 <= k < |w.conns| ensures v.conns[k] == w.conns[k] && w.conns[k].fd != c.fd {
      ListedIsWatched(w, k);
    }
  }

  lemma ListedIsWatched(w: World, k: nat)
    requires k < |w.conns|
    ensures Watched(w, w.conns[k].fd)
  {
  }

  lemma NewConnShape(w: World, t: Tick)
    requires t.accepted != -1 && !t.refused && !Closes(t.first)
    ensures var c := Conn(w.next, t.accepted); var v := Accept(w, t);
      && v == w.(conns := w.conns + [c], open := w.open + {c.fd}, next := w.next + 1, log := v.log)
      && v.log == w.log + [Connected(c.id), Polled(c.id)]
      && multiset(v.log) == multiset(w.log) + multiset{Connected(c.id), Polled(c.id)}
  {
    assert w.log + [Connected(w.next)] + [Polled(w.next)] == w.log + [Connected(w.next), Polled(w.next)];
  }

  lemma NewListed(w: World, v: World, c: Conn, id: nat)
    requires v.conns == w.conns + [c]
    ensures Listed(v, id) <==> Listed(w, id) || id == c.id
  {
    if id == c.id { assert v.conns[|w.conns|].id == id; }
    if Listed(w, id) {
      var k :| 0 <= k < |w.conns| && w.conns[k].id == id;
      assert v.conns[k].id == id;
    }
  }

  lemma NewWatched(w: World, v: World, c: Conn, fd: int)
    requires v.conns == w.conns + [c] && v.listener == w.listener
    ensures Watched(v, fd) <==> Watched(w, fd) || fd == c.fd
  {
    if fd == c.fd { assert v.conns[|w.conns|].fd == fd; }
    if Watched(w, fd) && fd != w.listener {
      var k :| 0 <= k < |w.conns| && w.conns[k].fd == fd;
      assert v.conns[k].fd == fd;
    }
  }

  // ---------- scanning ----------

  /** The connections that the scan keeps. */
  function Kept(cs: seq<Conn>, ready: set<int>, io: int -> Outcome): (r: seq<Conn>) {
    if cs == [] then []
    else
      var ends := cs[0].fd in ready && io(cs[0].fd) in {Eof, Failed, Data(true)};
      (if ends then [] else [cs[0]]) + Kept(cs[1..], ready, io)
  }

  lemma {:induction false} ScanKeepsInv(w: World, i: nat, ready: set<int>, io: int -> Outcome)
    requires Inv(w) && i <= |w.conns|
    ensures Inv(Scan(w, i, ready, io))
    decreases |w.conns| - i
  {
    hide Inv, PollAndDrop, HandleIo;
    if i < |w.conns| {
      var c := w.conns[i];
      var o := io(c.fd);
      if c.fd !in ready {
        ScanKeepsInv(w, i + 1, ready, io);
      } else if Closes(o) {
        DropKeepsInv(w, i, o);
        ScanKeepsInv(PollAndDrop(w, c, o).(conns := Without(w, i)), i, ready, io);
      } else {
        PollKeepsInv(w, i, o);
        PollLog(w, c, o);
        ScanKeepsInv(HandleIo(w, c, o).0, i + 1, ready, io);
      }
    }
  }

  /** After the scan the list holds, in order, the connections that were not ready or did not close. */
  lemma {:induction false} ScanKeepsOpenOnes(w: World, i: nat, ready: set<int>, io: int -> Outcome)
    requires i <= |w.conns|
    ensures Scan(w, i, ready, io).conns == w.conns[..i] + Kept(w.conns[i..], ready, io)
    decreases |w.conns| - i
  {
    hide PollAndDrop, HandleIo;
    if i == |w.conns| {
      assert w.conns[..i] + [] == w.conns;
    } else {
      var c := w.conns[i];
      var o := io(c.fd);
      KeptStep(w.conns, i, ready, io);
      if c.fd !in ready {
        ScanKeepsOpenOnes(w, i + 1, ready, io);
      } else if Closes(o) {
        var v := PollAndDrop(w, c, o).(conns := Without(w, i));
        ScanKeepsOpenOnes(v, i, ready, io);
        assert v.conns[..i] == w.conns[..i] && v.conns[i..] == w.conns[i + 1..];
      } else {
        PollLog(w, c, o);
        ScanKeepsOpenOnes(HandleIo(w, c, o).0, i + 1, ready, io);
      }
    }
  }

  lemma KeptStep(cs: seq<Conn>, i: nat, ready: set<int>, io: int -> Outcome)
    requires i < |cs|
    ensures cs[..i] + Kept(cs[i..], ready, io) ==
      (if cs[i].fd in ready && Closes(io(cs[i].fd)) then cs[..i] else cs[..i + 1]) + Kept(cs[i + 1..], ready, io)
  {
    assert cs[i..][1..] == cs[i + 1..];
    assert cs[..i + 1] == cs[..i] + [cs[i]];
  }

  /** Descriptors that are not the server's may come and go. */
  lemma SettleKeepsInv(w: World, others: set<int>)
    requires Inv(w) && forall fd <- others :: !Watched(w, fd)
    ensures Inv(Settle(w, others))
  {
    var v := Settle(w, others);
    assert forall fd :: Watched(v, fd) == Watched(w, fd);
    forall k | 0 <= k < |v.conns| ensures v.conns[k].fd !in others { ListedIsWatched(w, k); }
    forall id ensures Accounted(v, id) {
      assert Accounted(w, id) && (Listed(v, id) <==> Listed(w, id));
    }
    hide Accounted;
    assert Watched(w, w.listener);
    OthersApart(w);
  }

  lemma OthersApart(w: World)
    requires Inv(w)
    ensures forall fd <- w.others :: !Watched(w, fd)
  {
  }

  /** Every tick keeps the invariant. */
  lemma TickKeepsInv(w: World, t: Tick)
    requires Inv(w) && Possible(w, t)
    ensures Inv(Turn(w, t)) && Inv(Next(w, t))
  {
    hide Inv, Accept, Scan, Settle;
    if t.selected.Ready? {
      if w.listener in t.selected.fds { AcceptKeepsInv(w, t); }
      ScanKeepsInv(if w.listener in t.selected.fds then Accept(w, t) else w, 0, t.selected.fds, t.io);
    }
    SettleKeepsInv(Turn(w, t), t.others);
  }

  ghost predicate AllPossible(w: World, ts: seq<Tick>)
    decreases |ts|
  {
    ts == [] || (Possible(w, ts[0]) && AllPossible(Next(w, ts[0]), ts[1..]))
  }

  function After(w: World, ts: seq<Tick>): (r: World)
    decreases |ts|
  {
    if ts == [] then w else After(Next(w, ts[0]), ts[1..])
  }

  /** The server after `bind`: a listener, no connections, an empty log. */
  ghost predicate Started(w: World) {
    && w.listener >= 0 && w.listener !in w.others && w.conns == [] && w.open == {w.listener} + w.others
    && w.log == [] && w.next == 0
  }

  lemma StartInv(w: World)
    requires Started(w)
    ensures Inv(w)
  {
  }

  lemma {:induction false} RunKeepsInv(w: World, ts: seq<Tick>)
    requires Inv(w) && AllPossible(w, ts)
    ensures Inv(After(w, ts))
    decreases |ts|
  {
    hide Inv, Next, Possible;
    if ts != [] {
      TickKeepsInv(w, ts[0]);
      RunKeepsInv(Next(w, ts[0]), ts[1..]);
    }
  }

  /**
    Over every run: listed descriptors are distinct, non-negative and not the listener; a connection is in the
    list exactly when it was connected and not disconnected; every accepted descriptor is closed at most once,
    and one that is not in the list was closed; nothing but the listener and the list stays open.
   */
  lemma EventLoopSafe(w: World, ts: seq<Tick>, id: nat)
    requires Started(w) && AllPossible(w, ts)
    ensures var v := After(w, ts);
      && DistinctFds(v) && OpenExactly(v)
      && (Listed(v, id) <==> Count(v, Connected(id)) == 1 && Count(v, Disconnected(id)) == 0)
      && Count(v, Disconnected(id)) <= Count(v, Connected(id)) <= 1 && Count(v, ClosedFd(id)) <= 1
      && (id < v.next ==> (Listed(v, id) <==> Count(v, ClosedFd(id)) == 0))
  {
    hide After, AllPossible;
    StartInv(w);
    RunKeepsInv(w, ts);
    assert Accounted(After(w, ts), id);
  }

  // ---------- one poll per tick ----------

  function Polls(w: World, id: nat): (n: nat) { Count(w, Polled(id)) }

  /** Connection `id` stands at or after index `i` and its descriptor is ready. */
  ghost predicate ReadyFrom(cs: seq<Conn>, i: nat, ready: set<int>, id: nat) {
    exists k :: i <= k < |cs| && cs[k].id == id && cs[k].fd in ready
  }

  /** The scan polls each connection from index `i` on at most once, and only if its descriptor is ready. */
  lemma {:induction false} ScanPolls(w: World, i: nat, ready: set<int>, io: int -> Outcome, id: nat)
    requires DistinctIds(w) && i <= |w.conns| && forall k :: 0 <= k < |w.conns| ==> w.conns[k].fd >= 0
    ensures Polls(Scan(w, i, ready, io), id) == Polls(w, id) + if ReadyFrom(w.conns, i, ready, id) then 1 else 0
    decreases |w.conns| - i
  {
    hide PollAndDrop, HandleIo, ReadyFrom, Listed;
    NothingReady(w, ready, id);
    if i < |w.conns| {
      var c := w.conns[i];
      var o := io(c.fd);
      ReadyStep(w, i, ready, id);
      if c.fd !in ready {
        ScanPolls(w, i + 1, ready, io, id);
      } else if Closes(o) {
        var v := PollAndDrop(w, c, o).(conns := Without(w, i));
        PollAndDropLog(w, c, o);
        WithoutDistinct(w, i, v);
        ScanPolls(v, i, ready, io, id);
        ShiftReady(w, i, v, ready, id);
      } else {
        PollLog(w, c, o);
        ScanPolls(HandleIo(w, c, o).0, i + 1, ready, io, id);
      }
    }
  }

  lemma NothingReady(w: World, ready: set<int>, id: nat)
    ensures !ReadyFrom(w.conns, |w.conns|, ready, id)
  {
  }

  lemma WithoutDistinct(w: World, i: nat, v: World)
    requires i < |w.conns| && DistinctIds(w) && v.conns == Without(w, i) && v.next == w.next
    requires forall k :: 0 <= k < |w.conns| ==> w.conns[k].fd >= 0
    ensures DistinctIds(v) && forall k :: 0 <= k < |v.conns| ==> v.conns[k].fd >= 0
  {
    WithoutListed(w, i, v);
  }

  lemma ReadyStep(w: World, i: nat, ready: set<int>, id: nat)
    requires DistinctIds(w) && i < |w.conns|
    ensures var c := w.conns[i];
      && (ReadyFrom(w.conns, i, ready, id) <==> (c.id == id && c.fd in ready) || ReadyFrom(w.conns, i + 1, ready, id))
      && (c.id == id ==> !ReadyFrom(w.conns, i + 1, ready, id))
  {
  }

  lemma ShiftReady(w: World, i: nat, v: World, ready: set<int>, id: nat)
    requires i < |w.conns| && v.conns == Without(w, i)
    ensures ReadyFrom(v.conns, i, ready, id) <==> ReadyFrom(w.conns, i + 1, ready, id)
  {
    if k :| i < k < |w.conns| && w.conns[k].id == id && w.conns[k].fd in ready {
      assert v.conns[k - 1] == w.conns[k];
    }
    if k :| i <= k < |v.conns| && v.conns[k].id == id && v.conns[k].fd in ready {
      assert w.conns[k + 1] == v.conns[k];
    }
  }

  /** Accepting polls the new connection only. */
  lemma AcceptPolls(w: World, t: Tick, id: nat)
    requires t.accepted == -1 || t.accepted >= 0
    ensures Polls(Accept(w, t), id) == Polls(w, id) + if t.accepted != -1 && !t.refused && id == w.next then 1 else 0
  {
    hide PollAndDrop;
    var c := Conn(w.next, t.accepted);
    var w2 := w.(open := w.open + {t.accepted}, next := w.next + 1, log := w.log + [Connected(c.id)]);
    if t.accepted != -1 && !t.refused {
      if Closes(t.first) { PollAndDropLog(w2, c, t.first); } else { NewConnShape(w, t); }
    }
  }

  /**
    At most one recv per connection and tick: a connection accepted in the tick is polled at once and not
    again in the scan, because its descriptor is not among the ready ones.
   */
  lemma OnePollPerTick(w: World, t: Tick, id: nat)
    requires Inv(w) && Possible(w, t)
    ensures Polls(w, id) <= Polls(Next(w, t), id) <= Polls(w, id) + 1
  {
    if t.selected.Ready? {
      var fds := t.selected.fds;
      var v := if w.listener in fds then Accept(w, t) else w;
      if w.listener in fds {
        AcceptKeepsInv(w, t);
        AcceptPolls(w, t, id);
      }
      hide Accept, Inv;
      InvFacts(v);
      ScanPolls(v, 0, fds, t.io, id);
      if w.listener in fds && id == w.next { NewNotReady(w, t); }
    }
  }

  lemma InvFacts(w: World)
    requires Inv(w)
    ensures DistinctIds(w) && forall k :: 0 <= k < |w.conns| ==> w.conns[k].fd >= 0
  {
  }

  lemma NewNotReady(w: World, t: Tick)
    requires Inv(w) && Possible(w, t) && t.selected.Ready? && w.listener in t.selected.fds
    ensures var v := Accept(w, t);
      !ReadyFrom(v.conns, 0, t.selected.fds, w.next)
  {
    if t.accepted != -1 { FreshFd(w, t.accepted); }
    hide PollAndDrop;
    var c := Conn(w.next, t.accepted);
    var w2 := w.(open := w.open + {t.accepted}, next := w.next + 1, log := w.log + [Connected(c.id)]);
    if t.accepted != -1 && !t.refused {
      if Closes(t.first) { PollAndDropLog(w2, c, t.first); } else { NewConnShape(w, t); }
    }
  }

  // ---------- connections that are gone ----------

  lemma {:induction false} KeptSubset(cs: seq<Conn>, ready: set<int>, io: int -> Outcome)
    ensures forall c <- Kept(cs, ready, io) :: c in cs
  {
    if cs != [] { KeptSubset(cs[1..], ready, io); }
  }

  lemma SubsetListed(a: World, b: World, id: nat)
    requires forall c <- a.conns :: c in b.conns
    ensures Listed(a, id) ==> Listed(b, id)
  {
    if Listed(a, id) {
      var k :| 0 <= k < |a.conns| && a.conns[k].id == id;
      assert a.conns[k] in b.conns;
    }
  }

  lemma TickKeepsGone(w: World, t: Tick, id: nat)
    requires Inv(w) && Possible(w, t) && id < w.next && !Listed(w, id)
    ensures Polls(Next(w, t), id) == Polls(w, id) && !Listed(Next(w, t), id) && id < Next(w, t).next
  {
    if t.selected.Ready? {
      var fds := t.selected.fds;
      var v := if w.listener in fds then Accept(w, t) else w;
      if w.listener in fds {
        AcceptKeepsInv(w, t);
        AcceptPolls(w, t, id);
        AcceptList(w, t, id);
      }
      hide Accept, Inv;
      InvFacts(v);
      ScanPolls(v, 0, fds, t.io, id);
      ScanKeepsOpenOnes(v, 0, fds, t.io);
      ScanNext(v, 0, fds, t.io);
      KeptSubset(v.conns, fds, t.io);
      assert v.conns[0..] == v.conns && v.conns[..0] == [];
      SubsetListed(Scan(v, 0, fds, t.io), v, id);
    }
  }

  lemma AcceptList(w: World, t: Tick, id: nat)
    requires id < w.next && (t.accepted == -1 || t.accepted >= 0)
    ensures Listed(Accept(w, t), id) <==> Listed(w, id)
    ensures w.next <= Accept(w, t).next
  {
    hide PollAndDrop;
    var c := Conn(w.next, t.accepted);
    var w2 := w.(open := w.open + {t.accepted}, next := w.next + 1, log := w.log + [Connected(c.id)]);
    if t.accepted != -1 && !t.refused {
      if Closes(t.first) {
        PollAndDropLog(w2, c, t.first);
      } else {
        NewConnShape(w, t);
        NewListed(w, Accept(w, t), c, id);
      }
    }
  }

  lemma {:induction false} ScanNext(w: World, i: nat, ready: set<int>, io: int -> Outcome)
    requires i <= |w.conns| && forall k :: 0 <= k < |w.conns| ==> w.conns[k].fd >= 0
    ensures Scan(w, i, ready, io).next == w.next
    decreases |w.conns| - i
  {
    hide PollAndDrop, HandleIo;
    if i < |w.conns| {
      var c := w.conns[i];
      var o := io(c.fd);
      if c.fd !in ready {
        ScanNext(w, i + 1, ready, io);
      } else if Closes(o) {
        PollAndDropLog(w, c, o);
        ScanNext(PollAndDrop(w, c, o).(conns := Without(w, i)), i, ready, io);
      } else {
        PollLog(w, c, o);
        ScanNext(HandleIo(w, c, o).0, i + 1, ready, io);
      }
    }
  }

  /** A connection that left the list is never read again, in any later run. */
  lemma {:induction false} GoneIsNeverPolled(w: World, ts: seq<Tick>, id: nat)
    requires Inv(w) && AllPossible(w, ts) && id < w.next && !Listed(w, id)
    ensures Polls(After(w, ts), id) == Polls(w, id) && !Listed(After(w, ts), id)
    decreases |ts|
  {
    hide Inv, Next, Possible;
    if ts != [] {
      TickKeepsInv(w, ts[0]);
      TickKeepsGone(w, ts[0], id);
      GoneIsNeverPolled(Next(w, ts[0]), ts[1..], id);
    }
  }
}
