/**
  The event loop and its connections together: what a read delivers is run through the connection's callbacks,
  and the outcome tells the loop whether the connection goes.
 */
module PluginLoop {
  import opened Bytes
  import opened HttpClient
  import HttpResponse
  import opened PluginRun
  import P = PluginSpec
  import U = UdsSpec
  import I = UdsInvariant
  import S = UdsStories

  /** What a read gives: its end or failure, or the callbacks the parser makes of the bytes and its verdict. */
  datatype Input = Eof | Retry | Failed | Bytes(es: seq<P.Event>, malformed: bool)

  /** A connection with all it has written, and all callbacks made on it, when every send succeeds. */
  datatype Live = Live(conn: P.Conn, wire: bytes, seen: seq<P.Event>)

  type Lives = map<nat, Live>

  datatype Tick =
    Tick(selected: U.Selected, accepted: int, refused: bool, first: Input, io: int -> Input, others: set<int>)

  /** A new connection. */
  function Fresh(): (r: Live) {
    Live(P.Conn([], false, false, [], None, [], HttpResponse.Response(200, Ascii("OK"), [], false, false)), [], [])
  }

  function LiveOf(lives: Lives, id: nat): (r: Live) { if id in lives then lives[id] else Fresh() }

  function Feed(l: Live, i: Input, drivers: P.Drivers): (r: Live) {
    match i
    case Bytes(es, _) =>
      var s := P.Run(l.conn, es, drivers);
      Live(s.conn, l.wire + s.wire, l.seen + es)
    case _ => l
  }

  /** The connection closes when a callback fails or the parser rejects the bytes. */
  function OutcomeOf(l: Live, i: Input, drivers: P.Drivers): (r: U.Outcome) {
    match i
    case Eof => U.Eof
    case Retry => U.Retry
    case Failed => U.Failed
    case Bytes(es, malformed) => U.Data(P.Run(l.conn, es, drivers).code != 0 || malformed)
  }

  // ---------- one call of run ----------

  function Scan(w: U.World, lives: Lives, i: nat, ready: set<int>, io: int -> Input, drivers: P.Drivers)
    : (r: (U.World, Lives))
    requires i <= |w.conns|
    decreases |w.conns| - i
  {
    if i == |w.conns| then (w, lives)
    else
      var c := w.conns[i];
      if c.fd !in ready then Scan(w, lives, i + 1, ready, io, drivers)
      else
        var l := LiveOf(lives, c.id);
        var o, fed := OutcomeOf(l, io(c.fd), drivers), lives[c.id := Feed(l, io(c.fd), drivers)];
        if U.Closes(o) then
          Scan(U.PollAndDrop(w, c, o).(conns := w.conns[..i] + w.conns[i + 1..]), fed, i, ready, io, drivers)
        else Scan(U.HandleIo(w, c, o).0, fed, i + 1, ready, io, drivers)
  }

  /** The number of the listed connection with that descriptor. */
  function IdOf(cs: seq<U.Conn>, fd: int): (id: nat) {
    if cs == [] then 0 else if cs[0].fd == fd then cs[0].id else IdOf(cs[1..], fd)
  }

  /** The tick as the event loop alone sees it. */
  function Seen(w: U.World, lives: Lives, t: Tick, drivers: P.Drivers): (r: U.Tick) {
    U.Tick(t.selected, t.accepted, t.refused, OutcomeOf(Fresh(), t.first, drivers),
           fd => OutcomeOf(LiveOf(lives, IdOf(w.conns, fd)), t.io(fd), drivers), t.others)
  }

  function AcceptLives(w: U.World, lives: Lives, t: Tick, drivers: P.Drivers): (r: Lives) {
    if t.accepted == -1 || t.refused then lives else lives[w.next := Feed(Fresh(), t.first, drivers)]
  }

  function Next(w: U.World, lives: Lives, t: Tick, drivers: P.Drivers): (r: (U.World, Lives)) {
    match t.selected
    case SelectFailed(_) => (U.Settle(w, t.others), lives)
    case TimedOut => (U.Settle(w, t.others), lives)
    case Ready(fds) =>
      var accepts := w.listener in fds;
      var w1 := if accepts then U.Accept(w, Seen(w, lives, t, drivers)) else w;
      var lives1 := if accepts then AcceptLives(w, lives, t, drivers) else lives;
      var (w2, lives2) := Scan(w1, lives1, 0, fds, t.io, drivers);
      (U.Settle(w2, t.others), lives2)
  }

  // ---------- the loop is the event loop ----------

  /** `f` gives, for the ready connections from `i` on, the outcome of what they read. */
  ghost predicate Foresees(f: int -> U.Outcome, w: U.World, lives: Lives, i: nat, ready: set<int>, io: int -> Input,
                           drivers: P.Drivers) {
    forall k :: i <= k < |w.conns| && w.conns[k].fd in ready ==>
      f(w.conns[k].fd) == OutcomeOf(LiveOf(lives, w.conns[k].id), io(w.conns[k].fd), drivers)
  }

  lemma {:induction false} ScanProjects(w: U.World, lives: Lives, i: nat, ready: set<int>, io: int -> Input,
                                        f: int -> U.Outcome, drivers: P.Drivers)
    requires I.DistinctIds(w) && i <= |w.conns| && Foresees(f, w, lives, i, ready, io, drivers)
    requires forall k :: 0 <= k < |w.conns| ==> w.conns[k].fd >= 0
    ensures Scan(w, lives, i, ready, io, drivers).0 == U.Scan(w, i, ready, f)
    decreases |w.conns| - i
  {
    hide OutcomeOf, Feed, U.PollAndDrop, U.HandleIo;
    if i < |w.conns| {
      var c := w.conns[i];
      var l := LiveOf(lives, c.id);
      var fed := lives[c.id := Feed(l, io(c.fd), drivers)];
      if c.fd !in ready {
        ScanProjects(w, lives, i + 1, ready, io, f, drivers);
      } else {
        var o := OutcomeOf(l, io(c.fd), drivers);
        assert f(c.fd) == o;
        OthersUnfed(w, lives, i, c.id, Feed(l, io(c.fd), drivers));
        if U.Closes(o) {
          var v := U.PollAndDrop(w, c, o).(conns := I.Without(w, i));
          I.PollAndDropLog(w, c, o);
          I.WithoutDistinct(w, i, v);
          I.WithoutListed(w, i, v);
          ScanProjects(v, fed, i, ready, io, f, drivers);
        } else {
          I.PollLog(w, c, o);
          ScanProjects(U.HandleIo(w, c, o).0, fed, i + 1, ready, io, f, drivers);
        }
      }
    }
  }

  /** Feeding one connection leaves those after it alone. */
  lemma OthersUnfed(w: U.World, lives: Lives, i: nat, id: nat, l: Live)
    requires I.DistinctIds(w) && i < |w.conns| && w.conns[i].id == id
    ensures forall k :: i < k < |w.conns| ==> LiveOf(lives[id := l], w.conns[k].id) == LiveOf(lives, w.conns[k].id)
  {
  }

  lemma {:induction false} IdFound(cs: seq<U.Conn>, k: nat)
    requires k < |cs| && forall j :: 0 <= j < k ==> cs[j].fd != cs[k].fd
    ensures IdOf(cs, cs[k].fd) == cs[k].id
    decreases k
  {
    if k > 0 { IdFound(cs[1..], k - 1); }
  }

  /** Together with its connections the loop makes the ticks of the event loop alone. */
  lemma NextProjects(w: U.World, lives: Lives, t: Tick, drivers: P.Drivers)
    requires I.Inv(w) && U.Possible(w, Seen(w, lives, t, drivers))
    ensures Next(w, lives, t, drivers).0 == U.Next(w, Seen(w, lives, t, drivers))
  {
    hide U.Scan, Scan, U.Accept, OutcomeOf, Feed, U.Settle;
    if t.selected.Ready? {
      var fds, tick := t.selected.fds, Seen(w, lives, t, drivers);
      var accepts := w.listener in fds;
      var w1 := if accepts then U.Accept(w, tick) else w;
      var lives1 := if accepts then AcceptLives(w, lives, t, drivers) else lives;
      if accepts { I.AcceptKeepsInv(w, tick); }
      I.InvFacts(w1);
      AllForeseen(w, lives, t, drivers);
      ScanProjects(w1, lives1, 0, fds, t.io, tick.io, drivers);
    }
  }

  /** The outcomes are those that the connections had in store when the tick began. */
  lemma AllForeseen(w: U.World, lives: Lives, t: Tick, drivers: P.Drivers)
    requires I.Inv(w) && U.Possible(w, Seen(w, lives, t, drivers)) && t.selected.Ready?
    ensures var tick := Seen(w, lives, t, drivers); var fds := t.selected.fds; var accepts := w.listener in fds;
      Foresees(tick.io, if accepts then U.Accept(w, tick) else w,
               if accepts then AcceptLives(w, lives, t, drivers) else lives, 0, fds, t.io, drivers)
  {
    hide OutcomeOf, Feed;
    var tick, fds := Seen(w, lives, t, drivers), t.selected.fds;
    var w1 := if w.listener in fds then U.Accept(w, tick) else w;
    AcceptedConns(w, tick);
    hide U.Accept;
    forall k | 0 <= k < |w1.conns| && w1.conns[k].fd in fds
      ensures k < |w.conns| && w1.conns[k] == w.conns[k] && IdOf(w.conns, w.conns[k].fd) == w.conns[k].id
    {
      if k < |w.conns| {
        IdFound(w.conns, k);
      } else {
        I.FreshFd(w, t.accepted);
      }
    }
    assert forall k :: 0 <= k < |w.conns| ==> w.conns[k].id < w.next;
  }

  lemma AcceptedConns(w: U.World, t: U.Tick)
    ensures U.Accept(w, t).conns == w.conns
      || (t.accepted != -1 && U.Accept(w, t).conns == w.conns + [U.Conn(w.next, t.accepted)])
  {
  }

  // ---------- what a connection has written ----------

  /** State and wire are those of the callbacks made so far; a listed connection has had no failing one. */
  ghost predicate Consistent(l: Live, listed: bool, drivers: P.Drivers) {
    var r := P.Run(Fresh().conn, l.seen, drivers);
    l.conn == r.conn && l.wire == r.wire && (listed ==> r.code == 0)
  }

  lemma FeedConsistent(l: Live, i: Input, drivers: P.Drivers)
    requires Consistent(l, true, drivers)
    ensures Consistent(Feed(l, i, drivers), !U.Closes(OutcomeOf(l, i, drivers)), drivers)
  {
    hide P.Run, Fresh;
    if i.Bytes? { RunConcat(Fresh().conn, l.seen, i.es, drivers); }
  }

  lemma FreshConsistent(drivers: P.Drivers)
    ensures Consistent(Fresh(), true, drivers)
  {
  }

  ghost predicate AllConsistent(w: U.World, lives: Lives, drivers: P.Drivers) {
    && (forall id :: I.Listed(w, id) ==> id in lives)
    && (forall id <- lives :: id < w.next && Consistent(lives[id], I.Listed(w, id), drivers))
  }

  lemma {:induction false} ScanConsistent(w: U.World, lives: Lives, i: nat, ready: set<int>, io: int -> Input,
                                          drivers: P.Drivers)
    requires I.Inv(w) && AllConsistent(w, lives, drivers) && i <= |w.conns|
    ensures var (v, lives') := Scan(w, lives, i, ready, io, drivers); AllConsistent(v, lives', drivers)
    decreases |w.conns| - i
  {
    hide OutcomeOf, Feed, U.PollAndDrop, U.HandleIo, I.Inv, Consistent, AllConsistent;
    if i < |w.conns| {
      var c := w.conns[i];
      var l := LiveOf(lives, c.id);
      var o, fed := OutcomeOf(l, io(c.fd), drivers), lives[c.id := Feed(l, io(c.fd), drivers)];
      if c.fd !in ready {
        ScanConsistent(w, lives, i + 1, ready, io, drivers);
      } else if U.Closes(o) {
        I.DropKeepsInv(w, i, o);
        DropConsistent(w, lives, i, io(c.fd), drivers);
        ScanConsistent(U.PollAndDrop(w, c, o).(conns := I.Without(w, i)), fed, i, ready, io, drivers);
      } else {
        I.PollKeepsInv(w, i, o);
        I.PollLog(w, c, o);
        KeepConsistent(w, lives, i, io(c.fd), drivers);
        ScanConsistent(U.HandleIo(w, c, o).0, fed, i + 1, ready, io, drivers);
      }
    }
  }

  lemma KeepConsistent(w: U.World, lives: Lives, i: nat, input: Input, drivers: P.Drivers)
    requires AllConsistent(w, lives, drivers) && i < |w.conns|
    requires !U.Closes(OutcomeOf(LiveOf(lives, w.conns[i].id), input, drivers))
    ensures var c := w.conns[i]; var l := LiveOf(lives, c.id);
      AllConsistent(U.HandleIo(w, c, OutcomeOf(l, input, drivers)).0, lives[c.id := Feed(l, input, drivers)], drivers)
  {
    hide OutcomeOf, Feed, Consistent, U.HandleIo;
    var c := w.conns[i];
    var l := LiveOf(lives, c.id);
    assert I.Listed(w, c.id);
    FeedConsistent(l, input, drivers);
    I.PollLog(w, c, OutcomeOf(l, input, drivers));
    var v := U.HandleIo(w, c, OutcomeOf(l, input, drivers)).0;
    assert forall id :: I.Listed(v, id) <==> I.Listed(w, id);
  }

  lemma DropConsistent(w: U.World, lives: Lives, i: nat, input: Input, drivers: P.Drivers)
    requires I.Inv(w) && AllConsistent(w, lives, drivers) && i < |w.conns|
    requires U.Closes(OutcomeOf(LiveOf(lives, w.conns[i].id), input, drivers))
    ensures var c := w.conns[i]; var l := LiveOf(lives, c.id);
      var v := U.PollAndDrop(w, c, OutcomeOf(l, input, drivers)).(conns := I.Without(w, i));
      AllConsistent(v, lives[c.id := Feed(l, input, drivers)], drivers)
  {
    I.ListedIsOpen(w, i);
    hide OutcomeOf, Feed, Consistent, U.PollAndDrop;
    var c := w.conns[i];
    var l := LiveOf(lives, c.id);
    var o := OutcomeOf(l, input, drivers);
    var v := U.PollAndDrop(w, c, o).(conns := I.Without(w, i));
    assert I.Listed(w, c.id);
    FeedConsistent(l, input, drivers);
    I.PollAndDropLog(w, c, o);
    I.WithoutListed(w, i, v);
  }

  lemma AcceptConsistent(w: U.World, lives: Lives, t: Tick, drivers: P.Drivers)
    requires I.Inv(w) && AllConsistent(w, lives, drivers) && U.Possible(w, Seen(w, lives, t, drivers))
    ensures AllConsistent(U.Accept(w, Seen(w, lives, t, drivers)), AcceptLives(w, lives, t, drivers), drivers)
  {
    var tick := Seen(w, lives, t, drivers);
    var v := U.Accept(w, tick);
    FreshConsistent(drivers);
    FeedConsistent(Fresh(), t.first, drivers);
    AcceptListed(w, tick);
    hide U.Accept, OutcomeOf, Feed, Consistent, Fresh;
    assert forall id: nat :: I.Listed(w, id) ==> id < w.next;
  }

  /** Accepting lists the new connection, unless it is refused or closes at once. */
  lemma AcceptListed(w: U.World, t: U.Tick)
    requires t.accepted == -1 || t.accepted >= 0
    ensures var v := U.Accept(w, t);
      && (forall id :: I.Listed(v, id) <==>
            I.Listed(w, id) || (id == w.next && t.accepted != -1 && !t.refused && !U.Closes(t.first)))
      && v.next == w.next + if t.accepted == -1 then 0 else 1
  {
    hide U.PollAndDrop;
    var c := U.Conn(w.next, t.accepted);
    var w2 := w.(open := w.open + {t.accepted}, next := w.next + 1, log := w.log + [U.Connected(c.id)]);
    var v := U.Accept(w, t);
    if t.accepted != -1 && !t.refused {
      if U.Closes(t.first) {
        I.PollAndDropLog(w2, c, t.first);
      } else {
        I.NewConnShape(w, t);
        forall id ensures I.Listed(v, id) <==> I.Listed(w, id) || id == c.id { I.NewListed(w, v, c, id); }
      }
    }
    if !(t.accepted != -1 && !t.refused && !U.Closes(t.first)) {
      assert v.conns == w.conns;
      assert forall id :: I.Listed(v, id) <==> I.Listed(w, id);
    }
  }

  lemma NextConsistent(w: U.World, lives: Lives, t: Tick, drivers: P.Drivers)
    requires I.Inv(w) && AllConsistent(w, lives, drivers) && U.Possible(w, Seen(w, lives, t, drivers))
    ensures var (v, lives') := Next(w, lives, t, drivers); I.Inv(v) && AllConsistent(v, lives', drivers)
  {
    hide U.Accept, U.Scan, Scan, I.Inv, U.Next, AcceptLives, Consistent;
    var tick := Seen(w, lives, t, drivers);
    NextProjects(w, lives, t, drivers);
    I.TickKeepsInv(w, tick);
    var (v, lives') := Next(w, lives, t, drivers);
    if t.selected.Ready? {
      var fds := t.selected.fds;
      if w.listener in fds {
        I.AcceptKeepsInv(w, tick);
        AcceptConsistent(w, lives, t, drivers);
        ScanConsistent(U.Accept(w, tick), AcceptLives(w, lives, t, drivers), 0, fds, t.io, drivers);
      } else {
        ScanConsistent(w, lives, 0, fds, t.io, drivers);
      }
    }
    SettleConsistent(w, lives, t, drivers);
  }

  /** The other descriptors of the process have no part in it. */
  lemma SettleConsistent(w: U.World, lives: Lives, t: Tick, drivers: P.Drivers)
    ensures forall u: U.World, ls: Lives ::
      AllConsistent(u, ls, drivers) ==> AllConsistent(U.Settle(u, t.others), ls, drivers)
  {
    hide Consistent;
    forall u: U.World, ls: Lives | AllConsistent(u, ls, drivers)
      ensures AllConsistent(U.Settle(u, t.others), ls, drivers)
    {
      assert forall id :: I.Listed(U.Settle(u, t.others), id) <==> I.Listed(u, id);
    }
  }

  // ---------- whole runs ----------

  ghost predicate AllPossible(w: U.World, lives: Lives, ts: seq<Tick>, drivers: P.Drivers)
    decreases |ts|
  {
    ts == [] ||
    (U.Possible(w, Seen(w, lives, ts[0], drivers))
     && var (v, lives') := Next(w, lives, ts[0], drivers); AllPossible(v, lives', ts[1..], drivers))
  }

  function After(w: U.World, lives: Lives, ts: seq<Tick>, drivers: P.Drivers): (r: (U.World, Lives))
    decreases |ts|
  {
    if ts == [] then (w, lives)
    else
      var (v, lives') := Next(w, lives, ts[0], drivers);
      After(v, lives', ts[1..], drivers)
  }

  lemma {:induction false} RunConsistent(w: U.World, lives: Lives, ts: seq<Tick>, drivers: P.Drivers)
    requires I.Inv(w) && AllConsistent(w, lives, drivers) && AllPossible(w, lives, ts, drivers)
    ensures var (v, lives') := After(w, lives, ts, drivers); I.Inv(v) && AllConsistent(v, lives', drivers)
    decreases |ts|
  {
    hide I.Inv, AllConsistent, Next, U.Possible;
    if ts != [] {
      NextConsistent(w, lives, ts[0], drivers);
      var (v, lives') := Next(w, lives, ts[0], drivers);
      RunConsistent(v, lives', ts[1..], drivers);
    }
  }

  /**
    A ready connection is still listed after the tick exactly when its read is to be tried again, or delivered bytes
    that the parser takes and whose callbacks all succeed.
   */
  lemma WhoStays(w: U.World, lives: Lives, t: Tick, drivers: P.Drivers, k: nat)
    requires I.Inv(w) && U.Possible(w, Seen(w, lives, t, drivers)) && t.selected.Ready?
    requires k < |w.conns| && w.conns[k].fd in t.selected.fds
    ensures var c := w.conns[k]; var input := t.io(c.fd);
      I.Listed(Next(w, lives, t, drivers).0, c.id) <==>
        || input == Retry
        || (input.Bytes? && !input.malformed && P.Run(LiveOf(lives, c.id).conn, input.es, drivers).code == 0)
  {
    var tick := Seen(w, lives, t, drivers);
    assert I.DistinctFds(w);
    IdFound(w.conns, k);
    assert tick.io(w.conns[k].fd) == OutcomeOf(LiveOf(lives, w.conns[k].id), t.io(w.conns[k].fd), drivers);
    hide I.Inv, U.Possible, I.Listed, P.Run, S.Story, LiveOf, U.Next, Next, Seen;
    NextProjects(w, lives, t, drivers);
    S.TickTells(w, tick, k);
  }

  // ---------- what a connection was given ----------

  /** The callbacks of the bytes that a read delivered. */
  function EventsIn(i: Input): (r: seq<P.Event>) { if i.Bytes? then i.es else [] }

  /** What a scan of `cs` delivers to connection `id`. */
  function GivenTo(cs: seq<U.Conn>, ready: set<int>, io: int -> Input, id: nat): (r: seq<P.Event>) {
    if cs == [] then []
    else (if cs[0].id == id && cs[0].fd in ready then EventsIn(io(cs[0].fd)) else []) + GivenTo(cs[1..], ready, io, id)
  }

  /** What a tick delivers to it: as the new connection, or as one that is listed and ready. */
  function Given(w: U.World, t: Tick, id: nat): (r: seq<P.Event>) {
    if !t.selected.Ready? then []
    else
      (if w.listener in t.selected.fds && t.accepted != -1 && !t.refused && id == w.next then EventsIn(t.first) else [])
      + GivenTo(w.conns, t.selected.fds, t.io, id)
  }

  ghost function Delivered(w: U.World, lives: Lives, ts: seq<Tick>, drivers: P.Drivers, id: nat): (r: seq<P.Event>)
    decreases |ts|
  {
    if ts == [] then []
    else
      var (v, lives') := Next(w, lives, ts[0], drivers);
      Given(w, ts[0], id) + Delivered(v, lives', ts[1..], drivers, id)
  }

  lemma FeedSeen(l: Live, i: Input, drivers: P.Drivers)
    ensures Feed(l, i, drivers).seen == l.seen + EventsIn(i)
  {
    assert l.seen + [] == l.seen;
  }

  lemma GivenStep(cs: seq<U.Conn>, i: nat, ready: set<int>, io: int -> Input, id: nat)
    requires i < |cs|
    ensures forall s: seq<P.Event> ::
      s + GivenTo(cs[i..], ready, io, id)
      == (s + if cs[i].id == id && cs[i].fd in ready then EventsIn(io(cs[i].fd)) else [])
         + GivenTo(cs[i + 1..], ready, io, id)
  {
    hide EventsIn;
    assert cs[i..][0] == cs[i] && cs[i..][1..] == cs[i + 1..];
  }

  lemma NothingGiven(cs: seq<U.Conn>, ready: set<int>, io: int -> Input, id: nat)
    ensures GivenTo(cs[|cs|..], ready, io, id) == []
  {
  }

  lemma {:induction false} ScanDelivers(w: U.World, lives: Lives, i: nat, ready: set<int>, io: int -> Input,
                                        drivers: P.Drivers, id: nat)
    requires i <= |w.conns|
    ensures var after := Scan(w, lives, i, ready, io, drivers).1;
      LiveOf(after, id).seen == LiveOf(lives, id).seen + GivenTo(w.conns[i..], ready, io, id)
    decreases |w.conns| - i
  {
    hide OutcomeOf, Feed, U.PollAndDrop, U.HandleIo, U.Closes, GivenTo, EventsIn;
    if i == |w.conns| {
      NothingGiven(w.conns, ready, io, id);
    } else {
      var c := w.conns[i];
      var l := LiveOf(lives, c.id);
      var o, fed := OutcomeOf(l, io(c.fd), drivers), lives[c.id := Feed(l, io(c.fd), drivers)];
      GivenStep(w.conns, i, ready, io, id);
      FeedSeen(l, io(c.fd), drivers);
      if c.fd !in ready {
        ScanDelivers(w, lives, i + 1, ready, io, drivers, id);
      } else if U.Closes(o) {
        var v := U.PollAndDrop(w, c, o).(conns := I.Without(w, i));
        assert v.conns[i..] == w.conns[i + 1..];
        ScanDelivers(v, fed, i, ready, io, drivers, id);
      } else {
        I.PollLog(w, c, o);
        ScanDelivers(U.HandleIo(w, c, o).0, fed, i + 1, ready, io, drivers, id);
      }
    }
  }

  lemma {:induction false} GivenLast(cs: seq<U.Conn>, c: U.Conn, ready: set<int>, io: int -> Input, id: nat)
    requires c.fd !in ready
    ensures GivenTo(cs + [c], ready, io, id) == GivenTo(cs, ready, io, id)
  {
    hide EventsIn;
    if cs == [] {
      assert [c][1..] == [] && [] + [c] == [c];
    } else {
      assert (cs + [c])[1..] == cs[1..] + [c];
      GivenLast(cs[1..], c, ready, io, id);
    }
  }

  lemma AcceptDelivers(w: U.World, lives: Lives, t: Tick, drivers: P.Drivers, id: nat)
    requires I.Inv(w) && AllConsistent(w, lives, drivers) && U.Possible(w, Seen(w, lives, t, drivers))
    requires t.selected.Ready?
    ensures LiveOf(AcceptLives(w, lives, t, drivers), id).seen
         == LiveOf(lives, id).seen + if t.accepted != -1 && !t.refused && id == w.next then EventsIn(t.first) else []
    ensures GivenTo(U.Accept(w, Seen(w, lives, t, drivers)).conns, t.selected.fds, t.io, id)
         == GivenTo(w.conns, t.selected.fds, t.io, id)
  {
    hide Consistent, Feed, OutcomeOf, EventsIn, GivenTo, I.Listed;
    FeedSeen(Fresh(), t.first, drivers);
    var tick := Seen(w, lives, t, drivers);
    AcceptedConns(w, tick);
    if U.Accept(w, tick).conns != w.conns {
      I.FreshFd(w, t.accepted);
      GivenLast(w.conns, U.Conn(w.next, t.accepted), t.selected.fds, t.io, id);
    }
  }

  lemma NextDelivers(w: U.World, lives: Lives, t: Tick, drivers: P.Drivers, id: nat)
    requires I.Inv(w) && AllConsistent(w, lives, drivers) && U.Possible(w, Seen(w, lives, t, drivers))
    ensures LiveOf(Next(w, lives, t, drivers).1, id).seen == LiveOf(lives, id).seen + Given(w, t, id)
  {
    hide U.Accept, U.Scan, Scan, I.Inv, AcceptLives, AllConsistent, LiveOf, GivenTo, EventsIn, Seen, U.Possible;
    if t.selected.Ready? {
      var fds, tick := t.selected.fds, Seen(w, lives, t, drivers);
      AcceptDelivers(w, lives, t, drivers, id);
      var w1 := if w.listener in fds then U.Accept(w, tick) else w;
      var lives1 := if w.listener in fds then AcceptLives(w, lives, t, drivers) else lives;
      ScanDelivers(w1, lives1, 0, fds, t.io, drivers, id);
      assert w1.conns[0..] == w1.conns;
    }
  }

  lemma {:induction false} RunDelivers(w: U.World, lives: Lives, ts: seq<Tick>, drivers: P.Drivers, id: nat)
    requires I.Inv(w) && AllConsistent(w, lives, drivers) && AllPossible(w, lives, ts, drivers)
    ensures LiveOf(After(w, lives, ts, drivers).1, id).seen
         == LiveOf(lives, id).seen + Delivered(w, lives, ts, drivers, id)
    decreases |ts|
  {
    hide I.Inv, AllConsistent, Next, U.Possible, LiveOf, Given, Seen;
    if ts != [] {
      NextConsistent(w, lives, ts[0], drivers);
      NextDelivers(w, lives, ts[0], drivers, id);
      var (v, lives') := Next(w, lives, ts[0], drivers);
      RunDelivers(v, lives', ts[1..], drivers, id);
    }
  }

  /**
    For every run of the loop over any number of connections: what each connection has written is what the callbacks
    delivered to it write, one after the other from a new connection, whatever the others did in between.
   */
  lemma ConnectionsApart(w: U.World, ts: seq<Tick>, drivers: P.Drivers, id: nat)
    requires I.Started(w) && AllPossible(w, map[], ts, drivers)
    ensures var (v, lives) := After(w, map[], ts, drivers);
      && I.Inv(v) && (I.Listed(v, id) ==> id in lives)
      && (id in lives ==>
            var r := P.Run(Fresh().conn, Delivered(w, map[], ts, drivers, id), drivers);
            lives[id].wire == r.wire && lives[id].conn == r.conn && (I.Listed(v, id) ==> r.code == 0))
  {
    hide P.Run, After, AllPossible, Fresh, Delivered;
    I.StartInv(w);
    RunConsistent(w, map[], ts, drivers);
    RunDelivers(w, map[], ts, drivers, id);
    NothingSeen();
    assert forall s: seq<P.Event> :: [] + s == s;
  }

  lemma NothingSeen()
    ensures Fresh().seen == []
  {
  }

  /**
    A client of any of the connections to which the callbacks of requests are delivered decodes one response per
    request, in order, exactly when each reply is framed.
   */
  lemma EveryClientIsServed(w: U.World, ts: seq<Tick>, drivers: P.Drivers, id: nat, rqs: seq<Request>)
    requires I.Started(w) && AllPossible(w, map[], ts, drivers)
    requires id in After(w, map[], ts, drivers).1 && Delivered(w, map[], ts, drivers, id) == EventsOfAll(rqs)
    ensures var wire := After(w, map[], ts, drivers).1[id].wire; var replies := Replies(rqs, drivers);
      DecodeAll(wire, 0) == Some(Expected(replies, 0)) <==> forall r <- replies :: Framed(r)
  {
    assert Idle(Fresh().conn);
    hide P.Run, After, AllPossible, Fresh, DecodeAll, Expected, Framed, Replies, EventsOfAll, Delivered;
    ConnectionsApart(w, ts, drivers, id);
    PipelinedResponses(Fresh().conn, rqs, drivers);
  }
}
