/** The epoll loop of src/server/tftp_server.cpp that drives the connections. */
module EventLoop {
  import opened Timers
  import opened Connection

  datatype Interest = In | Out

  /** A connection and the event its socket is registered for. */
  datatype Client = Client(conn: Conn, interest: Interest)

  /** The file descriptors of the loop; a connection's socket and timer carry the same pointer. */
  datatype Fd = Listener | Socket(id: nat) | TimerFd(id: nat)

  /** What the handlers will meet when they read or write. */
  datatype Io = Io(recv: Recv, writeFails: bool, send: Send, readFails: bool)

  datatype Arrival = Arrival(id: nat, conn: Conn)

  /** What becomes true in the kernel during a turn: a descriptor's condition, or a timer running on. */
  datatype Condition =
    | Ready(fd: Fd, readable: bool, writable: bool, broken: bool, io: Io, arrivals: seq<Arrival>)
    | TimePasses(id: nat)

  datatype Event =
    | Reported(fd: Fd, input: bool, output: bool, error: bool, io: Io, arrivals: seq<Arrival>)
    | Ticked(id: nat)

  /** One turn of the loop: what epoll_wait can report, and which finished connections the sweep drops. */
  datatype Turn = Turn(conditions: seq<Condition>, swept: set<nat>)

  /** `crash` is the exception that ended the loop, if any. */
  datatype Server = Server(clients: map<nat, Client>, crash: Thrown)

  function InterestOf(c: Conn): Interest {
    if WaitForRead(c.state) then In else Out
  }

  /** Only what a registered descriptor is registered for is reported, and errors always. */
  function Report(s: Server, k: Condition): Event {
    match k
    case TimePasses(id) => Ticked(id)
    case Ready(fd, readable, writable, broken, io, arrivals) =>
      match fd
      case Listener => Reported(fd, readable, false, broken, io, arrivals)
      case TimerFd(id) => Reported(fd, readable, false, broken, io, [])
      case Socket(id) =>
        Reported(fd, readable && id in s.clients && s.clients[id].interest == In,
                 writable && id in s.clients && s.clients[id].interest == Out, broken, io, [])
  }

  predicate Registered(s: Server, k: Condition) {
    k.Ready? && !k.fd.Listener? ==> k.fd.id in s.clients
  }

  /** `epoll_wait`: the events of one batch, as of the registrations at its start. */
  function EpollWait(s: Server, conditions: seq<Condition>): seq<Event> {
    if conditions == [] then []
    else
      var rest := EpollWait(s, conditions[1..]);
      if Registered(s, conditions[0]) then [Report(s, conditions[0])] + rest else rest
  }

  function Accepted(clients: map<nat, Client>, arrivals: seq<Arrival>): map<nat, Client>
    decreases |arrivals|
  {
    if arrivals == [] then clients
    else
      var a := arrivals[0];
      var more := if a.id in clients then clients else clients[a.id := Client(a.conn, InterestOf(a.conn))];
      Accepted(more, arrivals[1..])
  }

  /** The handler an event of a connection runs. */
  function Handled(c: Conn, input: bool, output: bool, error: bool, io: Io): ReadResult {
    if input then HandleRead(c, io.recv, c.blockSize, io.writeFails)
    else if output then
      var w := HandleWrite(c, io.send, io.readFails);
      ReadResult(w.conn, w.thrown)
    else if error then ReadResult(c.(finished := true), Nothing)
    else ReadResult(c, Nothing)
  }

  function Serviced(s: Server, id: nat, input: bool, output: bool, error: bool, io: Io): Server
    requires id in s.clients
  {
    Updated(s, id, Handled(s.clients[id].conn, input, output, error, io))
  }

  /** An exception leaves the loop; otherwise the socket is registered for what the connection waits for now. */
  function Updated(s: Server, id: nat, x: ReadResult): Server {
    if x.thrown != Nothing then s.(crash := x.thrown)
    else s.(clients := s.clients[id := Client(x.conn, InterestOf(x.conn))])
  }

  function Dispatch(s: Server, e: Event): Server {
    if s.crash != Nothing then s
    else
      match e
      case Ticked(id) =>
        if id !in s.clients then s
        else
          var c := s.clients[id];
          s.(clients := s.clients[id := c.(conn := c.conn.(timer := Elapsed(c.conn.timer)))])
      case Reported(fd, input, output, error, io, arrivals) =>
        if fd.Listener? then s.(clients := Accepted(s.clients, arrivals))
        else if fd.id in s.clients then Serviced(s, fd.id, input, output, error, io)
        else s
  }

  function DispatchAll(s: Server, events: seq<Event>): Server
    decreases |events|
  {
    if events == [] then s else DispatchAll(Dispatch(s, events[0]), events[1..])
  }

  /** The sweep drops some finished connections; it is not relied on to drop all of them. */
  function Swept(s: Server, ids: set<nat>): Server {
    if s.crash != Nothing then s
    else s.(clients := map id | id in s.clients && !(id in ids && s.clients[id].conn.finished) :: s.clients[id])
  }

  function TakeTurn(s: Server, t: Turn): Server {
    Swept(DispatchAll(s, EpollWait(s, t.conditions)), t.swept)
  }

  function Serve(turns: seq<Turn>): Server {
    if turns == [] then Server(map[], Nothing) else TakeTurn(Serve(turns[..|turns| - 1]), turns[|turns| - 1])
  }

  /** The loop of `tftp_server::start`, which an exception of a handler leaves. */
  class TftpServer {
    var clients: map<nat, Client>
    var crash: Thrown

    ghost function View(): Server
      reads this
    {
      Server(clients, crash)
    }

    constructor ()
      ensures View() == Server(map[], Nothing)
    {
      clients, crash := map[], Nothing;
    }

    method Start(turns: seq<Turn>)
      requires View() == Server(map[], Nothing)
      modifies this
      ensures View() == Serve(turns)
    {
      for i := 0 to |turns|
        invariant View() == Serve(turns[..i])
      {
        assert turns[..i + 1][..i] == turns[..i];
        HandleTurn(turns[i]);
      }
      assert turns[..|turns|] == turns;
    }

    method HandleTurn(turn: Turn)
      modifies this
      ensures View() == TakeTurn(old(View()), turn)
    {
      var events := EpollWait(Server(clients, crash), turn.conditions);
      for i := 0 to |events|
        invariant DispatchAll(View(), events[i..]) == DispatchAll(old(View()), events)
      {
        assert events[i..][0] == events[i] && events[i..][1..] == events[i + 1..];
        if crash == Nothing {
          HandleEvent(events[i]);
        }
      }
      if crash == Nothing {
        clients := map id | id in clients && !(id in turn.swept && clients[id].conn.finished) :: clients[id];
      }
    }

    method HandleEvent(e: Event)
      requires crash == Nothing
      modifies this
      ensures View() == Dispatch(old(View()), e)
    {
      match e {
        case Ticked(id) =>
          if id in clients {
            var c := clients[id];
            clients := clients[id := c.(conn := c.conn.(timer := Elapsed(c.conn.timer)))];
          }
        case Reported(fd, input, output, error, io, arrivals) =>
          if fd.Listener? {
            AcceptArrivals(arrivals);
          } else if fd.id in clients {
            ServiceClient(fd.id, input, output, error, io);
          }
      }
    }

    method AcceptArrivals(arrivals: seq<Arrival>)
      modifies this`clients
      ensures clients == Accepted(old(clients), arrivals)
    {
      for i := 0 to |arrivals|
        invariant Accepted(clients, arrivals[i..]) == Accepted(old(clients), arrivals)
      {
        assert arrivals[i..][1..] == arrivals[i + 1..];
        var a := arrivals[i];
        if a.id !in clients {
          clients := clients[a.id := Client(a.conn, InterestOf(a.conn))];
        }
      }
    }

    method ServiceClient(id: nat, input: bool, output: bool, error: bool, io: Io)
      requires crash == Nothing && id in clients
      modifies this
      ensures View() == Serviced(old(View()), id, input, output, error, io)
    {
      var c := clients[id].conn;
      if input {
        var x := HandleRead(c, io.recv, c.blockSize, io.writeFails);
        if x.thrown != Nothing {
          crash := x.thrown;
          return;
        }
        c := x.conn;
      } else if output {
        var w := HandleWrite(c, io.send, io.readFails);
        if w.thrown != Nothing {
          crash := w.thrown;
          return;
        }
        c := w.conn;
      } else if error {
        c := c.(finished := true);
      }
      clients := clients[id := Client(c, InterestOf(c))];
    }
  }

  // ---------------------------------------------------------------- dispatch safety

  /** The kernel reports a descriptor at most once in a batch. */
  predicate EachOnce(conditions: seq<Condition>) {
    forall i, j :: 0 <= i < j < |conditions| && conditions[i].Ready? && conditions[j].Ready? ==>
      conditions[i].fd != conditions[j].fd
  }

  predicate EventsOnce(events: seq<Event>) {
    forall i, j :: 0 <= i < j < |events| && events[i].Reported? && events[j].Reported? ==>
      events[i].fd != events[j].fd
  }

  /** Every socket is registered for what its connection waits for. */
  predicate Matched(s: Server) {
    AllMatched(s.clients)
  }

  predicate AllMatched(clients: map<nat, Client>) {
    forall id :: id in clients ==> clients[id].interest == InterestOf(clients[id].conn)
  }

  /** An event still to be dispatched that will call `handle_write` finds a connection that has something to send. */
  predicate Safe(s: Server, e: Event) {
    e.Reported? && !e.fd.Listener? ==>
      && e.fd.id in s.clients
      && (e.output && !e.input ==> e.fd.Socket? && WaitForWrite(s.clients[e.fd.id].conn.state))
  }

  predicate AllSafe(s: Server, events: seq<Event>) {
    forall i :: 0 <= i < |events| ==> Safe(s, events[i])
  }

  lemma WaitOrWrite(c: Conn)
    ensures WaitForRead(c.state) != WaitForWrite(c.state)
  {
  }

  lemma {:induction false} WaitIsSafe(s: Server, conditions: seq<Condition>)
    requires Matched(s) && EachOnce(conditions)
    ensures AllSafe(s, EpollWait(s, conditions)) && EventsOnce(EpollWait(s, conditions))
    ensures forall e :: e in EpollWait(s, conditions) && e.Reported? ==>
      exists i :: 0 <= i < |conditions| && conditions[i].Ready? && conditions[i].fd == e.fd
  {
    if conditions != [] {
      var rest := conditions[1..];
      WaitIsSafe(s, rest);
      if Registered(s, conditions[0]) {
        ReportIsSafe(s, conditions[0]);
      }
      var events := EpollWait(s, rest);
      forall e | e in events && e.Reported?
        ensures exists i :: 0 <= i < |conditions| && conditions[i].Ready? && conditions[i].fd == e.fd
        ensures conditions[0].Ready? ==> conditions[0].fd != e.fd
      {
        var i :| 0 <= i < |rest| && rest[i].Ready? && rest[i].fd == e.fd;
        assert conditions[i + 1] == rest[i];
      }
    }
  }

  lemma ReportIsSafe(s: Server, k: Condition)
    requires Matched(s) && Registered(s, k)
    ensures Safe(s, Report(s, k))
    ensures Report(s, k).Reported? <==> k.Ready?
    ensures k.Ready? ==> Report(s, k).fd == k.fd
  {
    if k.Ready? && k.fd.Socket? {
      WaitOrWrite(s.clients[k.fd.id].conn);
    }
  }

  /** `handle_read` never makes a connection that has something to send wait instead. */
  lemma ReadKeepsSending(c: Conn, r: Recv, limit: nat, writeFails: bool)
    requires WaitForWrite(c.state)
    ensures var x := HandleRead(c, r, limit, writeFails);
      x.conn.state == c.state && x.thrown == Nothing
  {
  }

  lemma HandledInSending(c: Conn, input: bool, output: bool, error: bool, io: Io)
    requires output && !input ==> WaitForWrite(c.state)
    ensures var x := Handled(c, input, output, error, io);
      && x.thrown != ErrorState
      && (!(output && !input) && WaitForWrite(c.state) ==> WaitForWrite(x.conn.state))
  {
    if input && WaitForWrite(c.state) {
      ReadKeepsSending(c, io.recv, c.blockSize, io.writeFails);
    }
  }

  lemma {:induction false} AcceptedKeeps(clients: map<nat, Client>, arrivals: seq<Arrival>)
    ensures var more := Accepted(clients, arrivals);
      && (forall id :: id in clients ==> id in more && more[id] == clients[id])
      && (AllMatched(clients) ==> AllMatched(more))
    decreases |arrivals|
  {
    if arrivals != [] {
      var a := arrivals[0];
      var more := if a.id in clients then clients else clients[a.id := Client(a.conn, InterestOf(a.conn))];
      AcceptedKeeps(more, arrivals[1..]);
    }
  }

  lemma DispatchKeeps(s: Server, e: Event, other: Event)
    requires s.crash == Nothing && Matched(s) && Safe(s, e) && Safe(s, other)
    requires e.Reported? && other.Reported? ==> e.fd != other.fd
    ensures var t := Dispatch(s, e);
      Matched(t) && t.crash != ErrorState && (t.crash == Nothing ==> Safe(t, other))
  {
    match e
    case Ticked(id) =>
    case Reported(fd, input, output, error, io, arrivals) =>
      if fd.Listener? {
        AcceptedKeeps(s.clients, arrivals);
      } else {
        HandledInSending(s.clients[fd.id].conn, input, output, error, io);
      }
  }

  lemma {:induction false} CrashStays(s: Server, events: seq<Event>)
    requires s.crash != Nothing
    ensures DispatchAll(s, events) == s
    decreases |events|
  {
    if events != [] {
      CrashStays(s, events[1..]);
    }
  }

  lemma {:induction false} BatchIsSafe(s: Server, events: seq<Event>)
    requires s.crash == Nothing && Matched(s) && AllSafe(s, events) && EventsOnce(events)
    ensures Matched(DispatchAll(s, events)) && DispatchAll(s, events).crash != ErrorState
    decreases |events|
  {
    if events != [] {
      var t, rest := Dispatch(s, events[0]), events[1..];
      DispatchKeeps(s, events[0], Ticked(0));
      if t.crash != Nothing {
        CrashStays(t, rest);
      } else {
        forall i | 0 <= i < |rest| ensures Safe(t, rest[i]) {
          DispatchKeeps(s, events[0], events[i + 1]);
        }
        BatchIsSafe(t, rest);
      }
    }
  }

  lemma TurnIsSafe(s: Server, t: Turn)
    requires Matched(s) && s.crash != ErrorState && EachOnce(t.conditions)
    ensures Matched(TakeTurn(s, t)) && TakeTurn(s, t).crash != ErrorState
  {
    var events := EpollWait(s, t.conditions);
    if s.crash == Nothing {
      WaitIsSafe(s, t.conditions);
      BatchIsSafe(s, events);
    } else {
      CrashStays(s, events);
    }
  }

  /**
   * Over every run of the loop, with timers, sockets and newcomers in any order inside a batch,
   * `handle_write` is never called on a connection that waits to receive: its "Error state" exception
   * is unreachable, and between batches every socket is registered for the right event.
   */
  lemma {:induction false} DispatchSafety(turns: seq<Turn>)
    requires forall i :: 0 <= i < |turns| ==> EachOnce(turns[i].conditions)
    ensures Serve(turns).crash != ErrorState && Matched(Serve(turns))
  {
    if turns != [] {
      DispatchSafety(turns[..|turns| - 1]);
      TurnIsSafe(Serve(turns[..|turns| - 1]), turns[|turns| - 1]);
    }
  }

  /** The guarantee leans on the kernel: a socket reported twice in one batch makes the second call throw. */
  lemma TwiceReportedThrows(id: nat, c: Conn, io: Io)
    requires c.state == SEND_OACK && io.send == Sent
    ensures var k := Ready(Socket(id), false, true, false, io, []);
      var s := Server(map[id := Client(c, Out)], Nothing);
      Matched(s) && DispatchAll(s, EpollWait(s, [k, k])).crash == ErrorState
  {
    var k := Ready(Socket(id), false, true, false, io, []);
    var s := Server(map[id := Client(c, Out)], Nothing);
    var e := Report(s, k);
    assert [k, k][1..] == [k] && [k][1..] == [];
    assert EpollWait(s, [k]) == [e] + EpollWait(s, []);
    assert EpollWait(s, [k, k]) == [e, e];
    assert [e, e][1..] == [e] && [e][1..] == [];
    var t := Dispatch(s, e);
    assert DispatchAll(t, [e]) == DispatchAll(Dispatch(t, e), []);
  }
}
