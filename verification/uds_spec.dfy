/**
  The event loop of `uds_server` as a state machine. The kernel's answers (which descriptors are ready,
  what accept and recv return) are the inputs of a tick.
 */
module UdsSpec {
  /** A connection: its number, and its descriptor or -1. */
  datatype Conn = Conn(id: nat, fd: int)

  datatype Event =
    | Connected(id: nat)      // on_connect
    | Disconnected(id: nat)   // on_disconnect
    | Polled(id: nat)         // a recv on the connection
    | ClosedFd(id: nat)       // ::close of the descriptor accepted under this number

  /** `open` are the descriptors of the process, `others` those that are not the server's. */
  datatype World = World(listener: int, conns: seq<Conn>, open: set<int>, others: set<int>, log: seq<Event>, next: nat)

  /** What recv returns and, for data, whether `on_read` closes the connection. */
  datatype Outcome = Eof | Retry | Failed | Data(closes: bool)

  datatype Selected = SelectFailed(errno: int) | TimedOut | Ready(fds: set<int>)

  /**
    `accepted` is -1 or a new descriptor; `refused` says that no connection object is made for it. `others` are
    the descriptors that are not the server's after the tick: the code that `on_read` calls opens and closes them.
   */
  datatype Tick =
    Tick(selected: Selected, accepted: int, refused: bool, first: Outcome, io: int -> Outcome, others: set<int>)

  /** `handle_io` reports the connection as closed. */
  predicate Closes(o: Outcome) { o == Eof || o == Failed || o == Data(true) }

  /** The connection's own `close`. */
  function CloseConn(w: World, c: Conn): (r: (World, Conn)) {
    (if c.fd >= 0 then w.(open := w.open - {c.fd}, log := w.log + [ClosedFd(c.id)]) else w, Conn(c.id, -1))
  }

  function HandleIo(w: World, c: Conn, o: Outcome): (r: (World, Conn)) {
    var w1 := w.(log := w.log + [Polled(c.id)]);
    if o == Failed || o == Data(true) then CloseConn(w1, c) else (w1, c)
  }

  /** `on_disconnect`, then the destructor. */
  function Drop(w: World, c: Conn): (r: World) {
    CloseConn(w.(log := w.log + [Disconnected(c.id)]), c).0
  }

  /** A connection that `handle_io` reported as closed leaves the world. */
  function PollAndDrop(w: World, c: Conn, o: Outcome): (r: World) {
    var (w1, c1) := HandleIo(w, c, o);
    Drop(w1, c1)
  }

  function Accept(w: World, t: Tick): (r: World) {
    if t.accepted == -1 then w
    else
      var c := Conn(w.next, t.accepted);
      var w1 := w.(open := w.open + {t.accepted}, next := w.next + 1);
      if t.refused then CloseConn(w1, c).0
      else
        var w2 := w1.(log := w1.log + [Connected(c.id)]);
        if Closes(t.first) then PollAndDrop(w2, c, t.first)
        else
          var w3 := HandleIo(w2, c, t.first).0;
          w3.(conns := w3.conns + [c])
  }

  /** The scan of the connection list from index `i`. */
  function Scan(w: World, i: nat, ready: set<int>, io: int -> Outcome): (r: World)
    requires i <= |w.conns|
    decreases |w.conns| - i
  {
    if i == |w.conns| then w
    else
      var c := w.conns[i];
      if c.fd !in ready then Scan(w, i + 1, ready, io)
      else if Closes(io(c.fd)) then
        Scan(PollAndDrop(w, c, io(c.fd)).(conns := w.conns[..i] + w.conns[i + 1..]), i, ready, io)
      else Scan(HandleIo(w, c, io(c.fd)).0, i + 1, ready, io)
  }

  /** What one call of `run` does to the server's own descriptors. */
  function Turn(w: World, t: Tick): (r: World) {
    match t.selected
    case SelectFailed(_) => w
    case TimedOut => w
    case Ready(fds) => Scan(if w.listener in fds then Accept(w, t) else w, 0, fds, t.io)
  }

  function Settle(w: World, others: set<int>): (r: World) {
    w.(open := w.open - w.others + others, others := others)
  }

  /** One call of `run`. */
  function Next(w: World, t: Tick): (r: World) { Settle(Turn(w, t), t.others) }

  /** The descriptors that `run` asks select about. */
  ghost predicate Watched(w: World, fd: int) {
    fd == w.listener || exists k :: 0 <= k < |w.conns| && w.conns[k].fd == fd
  }

  /**
    What the kernel guarantees: only watched descriptors are ready, and a new descriptor, the server's or another,
    is one not in use.
   */
  ghost predicate Possible(w: World, t: Tick) {
    && (t.selected.Ready? ==> forall fd <- t.selected.fds :: Watched(w, fd))
    && (t.accepted == -1 || (t.accepted >= 0 && t.accepted !in w.open))
    && (forall fd <- t.others :: !Watched(Turn(w, t), fd))
  }
}
