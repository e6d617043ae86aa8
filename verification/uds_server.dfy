/** The objects of `uds_server.h`: connections that own a descriptor, and the server that runs the loop. */
module UdsServer {
  import opened Bytes
  import opened UdsSpec
  import opened UdsInvariant

  const SIZE_MAX: nat := 0xFFFF_FFFF_FFFF_FFFF

  /** The descriptors of the process, and what happens to connections, in order. */
  class Process {
    var open: set<int>
    var log: seq<Event>

    constructor (descriptors: set<int>)
      ensures open == descriptors && log == []
    {
      open, log := descriptors, [];
    }

    /** `::close`; only an open descriptor may be closed. */
    method CloseFd(id: nat, fd: int)
      requires fd in open
      modifies this
      ensures open == old(open) - {fd} && log == old(log) + [ClosedFd(id)]
    {
      open := open - {fd};
      log := log + [ClosedFd(id)];
    }

    /** `::send` of `n` bytes: a failure, or how many of them were taken. */
    method Send(n: nat) returns (res: int)
      requires n > 0
      ensures res == -1 || 1 <= res <= n
    {
      if * {
        res := -1;
      } else {
        var untaken :| 0 <= untaken < n;
        res := n - untaken;
      }
    }

    method Note(e: Event)
      modifies this`log
      ensures log == old(log) + [e]
    {
      log := log + [e];
    }
  }

  class Connection {
    const id: nat
    var socket: int
    /** The bytes that the kernel took for sending. */
    var taken: bytes

    constructor (number: nat, fd: int)
      ensures id == number && socket == fd && taken == []
    {
      id, socket, taken := number, fd, [];
    }

    ghost function Value(): Conn
      reads this
    {
      Conn(id, socket)
    }

    method Close(os: Process)
      requires socket >= 0 ==> socket in os.open
      modifies this`socket, os
      ensures socket == -1
      ensures os.open == (if old(socket) >= 0 then old(os.open) - {old(socket)} else old(os.open))
      ensures os.log == old(os.log) + if old(socket) >= 0 then [ClosedFd(id)] else []
    {
      if socket >= 0 {
        os.CloseFd(id, socket);
      }
      socket := -1;
    }

    /**
      `write`: send until everything is taken or a send fails. The kernel takes part of what it is given or
      reports a failure; either choice is possible at every round.
     */
    method Write(data: bytes, os: Process) returns (r: nat)
      modifies this`taken
      ensures r == |data| || r == 0xFFFF_FFFF_FFFF_FFFF
      ensures |data| != 0xFFFF_FFFF_FFFF_FFFF ==> (r == |data| <==> socket >= 0 && taken == old(taken) + data)
      ensures exists n :: 0 <= n <= |data| && taken == old(taken) + data[..n]
      ensures socket < 0 ==> taken == old(taken) && r == 0xFFFF_FFFF_FFFF_FFFF
    {
      if socket < 0 {
        assert data[..0] == [];
        return SIZE_MAX;
      }
      var remaining := |data|;
      var ptr := 0;
      while remaining > 0
        invariant 0 <= remaining && ptr + remaining == |data| && taken == old(taken) + data[..ptr]
      {
        var res := os.Send(remaining);
        if res < 0 {
          return SIZE_MAX;
        }
        taken := taken + data[ptr..ptr + res];
        assert data[..ptr + res] == data[..ptr] + data[ptr..ptr + res];
        remaining := remaining - res;
        ptr := ptr + res;
      }
      assert data[..ptr] == data;
      return |data|;
    }
  }

  class Server {
    const listener: int
    const os: Process
    /** The descriptors of the process that are not the server's. */
    var others: set<int>
    var connections: seq<Connection>
    var next: nat

    ghost predicate Distinct()
      reads this
    {
      forall j, k :: 0 <= j < k < |connections| ==> connections[j] != connections[k]
    }

    ghost function Values(): seq<Conn>
      reads this, set c | c in connections
    {
      seq(|connections|, k reads this, connections requires 0 <= k < |connections| => connections[k].Value())
    }

    ghost function State(): World
      reads this, os, set c | c in connections
    {
      World(listener, Values(), os.open, others, os.log, next)
    }

    ghost predicate Valid()
      reads this, os, set c | c in connections
    {
      Distinct() && Inv(State())
    }

    /** A server whose listening socket is bound. */
    constructor (fd: int, process: Process, foreign: set<int>)
      requires fd >= 0 && fd !in foreign && process.open == {fd} + foreign && process.log == []
      ensures Valid() && os == process && Started(State())
    {
      listener, os, others := fd, process, foreign;
      connections, next := [], 0;
      new;
      StartInv(State());
    }

    /** `handle_io`, given what recv returns and whether `on_read` closes the connection. */
    method HandleIo(con: Connection, o: Outcome) returns (closed: bool)
      requires con.socket >= 0 && con.socket in os.open
      modifies con`socket, os
      ensures closed <==> o == Eof || o == Failed || o == Data(true)
      ensures !closed ==> con.socket == old(con.socket)
      ensures var before := World(listener, [], old(os.open), others, old(os.log), next);
        var (w, c) := UdsSpec.HandleIo(before, old(con.Value()), o);
        os.open == w.open && os.log == w.log && con.Value() == c
    {
      os.Note(Polled(con.id));
      match o {
        case Eof => return true;
        case Retry => return false;
        case Failed =>
          con.Close(os);
          return true;
        case Data(closes) =>
          if closes {
            con.Close(os);
          }
          return con.socket < 0;
      }
    }

    /** `on_disconnect`, then the destructor of the connection that nothing holds any more. */
    method Disconnect(con: Connection)
      requires con.socket >= 0 ==> con.socket in os.open
      modifies con`socket, os
      ensures con.socket == -1
      ensures var w := Drop(World(listener, [], old(os.open), others, old(os.log), next), old(con.Value()));
        os.open == w.open && os.log == w.log
    {
      os.Note(Disconnected(con.id));
      con.Close(os);
    }

    /** The part of `run` for a ready listener, given what accept returns. */
    method AcceptConnection(t: Tick)
      requires Valid() && Possible(State(), t)
      modifies this`connections, this`next, os
      ensures Valid() && State() == Accept(old(State()), t)
      ensures forall c <- connections :: c in old(connections) || fresh(c)
    {
      hide Inv, Accept;
      AcceptKeepsInv(State(), t);
      if t.accepted == -1 {
        assert Accept(State(), t) == State() by { NothingAccepted(State(), t); }
      } else {
        var con := new Connection(next, t.accepted);
        os.open := os.open + {t.accepted};
        next := next + 1;
        if t.refused {
          con.Close(os);
          assert Values() == old(Values());
          RefusedShape(old(State()), t);
        } else {
          ServeNew(con, t.first);
          AcceptedShape(old(State()), t);
          assert Values() == old(Values()) + if Closes(t.first) then [] else [con.Value()];
        }
      }
    }

    static lemma NothingAccepted(w: World, t: Tick)
      requires t.accepted == -1
      ensures Accept(w, t) == w
    {
    }

    static lemma RefusedShape(w: World, t: Tick)
      requires t.accepted >= 0 && t.refused
      ensures Accept(w, t) ==
        w.(open := w.open + {t.accepted} - {t.accepted}, next := w.next + 1, log := w.log + [ClosedFd(w.next)])
    {
    }

    static lemma AcceptedShape(w: World, t: Tick)
      requires t.accepted >= 0 && !t.refused
      ensures var c := Conn(w.next, t.accepted);
        var w1 := World(w.listener, [], w.open + {t.accepted}, w.others, w.log + [Connected(c.id)], w.next + 1);
        var v := if Closes(t.first) then PollAndDrop(w1, c, t.first) else UdsSpec.HandleIo(w1, c, t.first).0;
        Accept(w, t) == w.(open := v.open, log := v.log, next := w.next + 1,
                           conns := w.conns + if Closes(t.first) then [] else [c])
    {
      assert w.conns + [] == w.conns;
    }

    /** The first read of a new connection, which then joins the list or goes. */
    method ServeNew(con: Connection, o: Outcome)
      requires con !in connections && con.socket >= 0 && con.socket in os.open
      modifies this`connections, con`socket, os
      ensures connections == if Closes(o) then old(connections) else old(connections) + [con]
      ensures var w := World(listener, [], old(os.open), others, old(os.log) + [Connected(con.id)], next);
        var v := if Closes(o) then PollAndDrop(w, old(con.Value()), o) else UdsSpec.HandleIo(w, old(con.Value()), o).0;
        os.open == v.open && os.log == v.log
      ensures !Closes(o) ==> con.socket == old(con.socket)
    {
      os.Note(Connected(con.id));
      var closed := HandleIo(con, o);
      if closed {
        Disconnect(con);
      } else {
        connections := connections + [con];
      }
    }

    /** The scan of `run`: read from the ready connections, erase those that close. */
    method ScanConnections(ready: set<int>, io: int -> Outcome)
      requires Valid()
      modifies this`connections, os, set c | c in connections
      ensures Valid() && State() == Scan(old(State()), 0, ready, io)
      ensures forall c <- connections :: c in old(connections)
    {
      hide Inv, UdsSpec.HandleIo, PollAndDrop;
      var i := 0;
      while i < |connections|
        invariant 0 <= i <= |connections| && Valid()
        invariant forall c <- connections :: c in old(connections)
        invariant Scan(State(), i, ready, io) == Scan(old(State()), 0, ready, io)
        decreases |connections| - i
      {
        i := ScanOne(i, connections[i], ready, io);
      }
    }

    /** One round of the scan. */
    method ScanOne(i: nat, con: Connection, ready: set<int>, io: int -> Outcome) returns (j: nat)
      requires Valid() && i < |connections| && connections[i] == con
      modifies this`connections, os, con`socket
      ensures Valid() && j <= |connections| && |connections| - j < |old(connections)| - i
      ensures forall c <- connections :: c in old(connections)
      ensures Scan(State(), j, ready, io) == Scan(old(State()), i, ready, io)
    {
      hide Inv;
      var fd := con.socket;
      if fd !in ready {
        return i + 1;
      }
      ListedIsOpen(State(), i);
      var closed := HandleIo(con, io(fd));
      if closed {
        Disconnect(con);
        connections := connections[..i] + connections[i + 1..];
        DropKeepsInv(old(State()), i, io(fd));
        assert Values() == Without(old(State()), i);
        return i;
      }
      PollKeepsInv(old(State()), i, io(fd));
      PollLog(old(State()), old(con.Value()), io(fd));
      assert Values() == old(Values());
      return i + 1;
    }

    /** `run`: one tick of the event loop, given the kernel's answers. */
    method Run(t: Tick) returns (res: int)
      requires Valid() && Possible(State(), t)
      modifies this`connections, this`next, this`others, os, set c | c in connections
      ensures Valid() && State() == Next(old(State()), t)
      ensures res == if t.selected.SelectFailed? then t.selected.errno else 0
      ensures forall c <- connections :: c in old(connections) || fresh(c)
    {
      hide Inv, Accept, Scan, Settle;
      TickKeepsInv(State(), t);
      res := 0;
      match t.selected {
        case SelectFailed(errno) => res := errno;
        case TimedOut =>
        case Ready(fds) =>
          if listener in fds {
            AcceptConnection(t);
          }
          ScanConnections(fds, t.io);
      }
      OtherDescriptors(t.others);
    }

    /** What the code that `on_read` calls has done to the other descriptors of the process. */
    method OtherDescriptors(now: set<int>)
      modifies this`others, os`open
      ensures State() == Settle(old(State()), now)
    {
      os.open := os.open - others + now;
      others := now;
    }
  }
}
