/** What the event loop adds up to: every connection is where its own events led it, and what ends the loop. */
module LoopResults {
  import opened Bytes
  import opened Packets
  import opened Timers
  import opened Connection
  import opened EventLoop
  import History
  import Terms
  import Blocks

  // ------------------------------------------------------- what happened to whom

  /** `handle_read` fails on this: a broken receive, or the expected block that does not decode. */
  predicate Throws(c: Conn, r: Recv) {
    && !c.timer.Expired? && WaitForRead(c.state)
    && (r.RecvFailed?
        || (c.state == WAIT_FOR_DATA
            && var p := DeserialiseData(Received(r, c.blockSize));
               p.Some? && p.value.blockNumber == c.blockNumber && Blocks.Decoded(c.mode, p.value.data).None?))
  }

  lemma ReadThrows(c: Conn, r: Recv, writeFails: bool)
    ensures HandleRead(c, r, c.blockSize, writeFails).thrown
         == if !Throws(c, r) then Nothing else if r.RecvFailed? then RecvError else BadNetascii
  {
  }

  /** A connection's arrival and all that it met since. */
  datatype Trace = Trace(start: Conn, events: seq<History.Event>)

  /** Where they lead, with the receive limit of the code. */
  function End(t: Trace): Conn {
    History.Run(t.start, t.events, t.start.blockSize).conn
  }

  datatype Entry = Came(id: nat, conn: Conn) | Met(id: nat, event: History.Event)

  /** `ended` is the exception that has left the loop, if any. */
  datatype Log = Log(traces: map<nat, Trace>, ended: Thrown)

  function Arrived(arrivals: seq<Arrival>): seq<Entry> {
    if arrivals == [] then [] else [Came(arrivals[0].id, arrivals[0].conn)] + Arrived(arrivals[1..])
  }

  /** A waiting connection meets what can be read, one with something to send a socket that takes it or refuses. */
  function SocketMeets(id: nat, c: Conn, k: Condition): seq<Entry>
    requires k.Ready?
  {
    if k.readable && (c.state == WAIT_FOR_ACK || c.state == WAIT_FOR_DATA) then
      [Met(id, History.Readable(k.io.recv, k.io.writeFails))]
    else if k.writable && c.state != WAIT_FOR_ACK && c.state != WAIT_FOR_DATA then
      [Met(id, History.Writable(k.io.send, k.io.readFails))]
    else if k.broken then [Met(id, History.Broken)]
    else []
  }

  function TimerMeets(id: nat, k: Condition): seq<Entry>
    requires k.Ready?
  {
    if k.readable then [Met(id, History.Readable(k.io.recv, k.io.writeFails))]
    else if k.broken then [Met(id, History.Broken)]
    else []
  }

  /** What a condition amounts to for the connections that were there when the batch was collected. */
  function Entries(log: Log, k: Condition): seq<Entry> {
    match k
    case TimePasses(id) => [Met(id, History.Elapse)]
    case Ready(Listener, _, _, _, _, arrivals) => Arrived(arrivals)
    case Ready(Socket(id), _, _, _, _, _) =>
      if id in log.traces then SocketMeets(id, End(log.traces[id]), k) else []
    case Ready(TimerFd(id), _, _, _, _, _) => if id in log.traces then TimerMeets(id, k) else []
  }

  function BatchEntries(log: Log, conditions: seq<Condition>): seq<Entry> {
    if conditions == [] then [] else Entries(log, conditions[0]) + BatchEntries(log, conditions[1..])
  }

  /** What leaves the loop: an exception of `handle_read`, or that of `handle_write` with nothing to send. */
  function Escaping(c: Conn, e: History.Event): Thrown {
    if e.Readable? && Throws(c, e.r) then (if e.r.RecvFailed? then RecvError else BadNetascii)
    else if e.Writable? && (c.state == WAIT_FOR_ACK || c.state == WAIT_FOR_DATA) then ErrorState
    else Nothing
  }

  /** A newcomer opens a trace, unless there is one; everything else is added to the trace of its connection. */
  function Noted(log: Log, n: Entry): Log {
    if log.ended != Nothing then log
    else
      match n
      case Came(id, conn) =>
        if id in log.traces then log else log.(traces := log.traces[id := Trace(conn, [])])
      case Met(id, event) =>
        if id !in log.traces then log else Extended(log, id, event, Escaping(End(log.traces[id]), event))
  }

  function Extended(log: Log, id: nat, event: History.Event, thrown: Thrown): Log
    requires id in log.traces
  {
    var t := log.traces[id];
    if thrown != Nothing then log.(ended := thrown)
    else log.(traces := log.traces[id := t.(events := t.events + [event])])
  }

  function AllNoted(log: Log, ns: seq<Entry>): Log
    decreases |ns|
  {
    if ns == [] then log else AllNoted(Noted(log, ns[0]), ns[1..])
  }

  /** Only traces that lead to the end of their connection are closed. */
  function Closed(log: Log, ids: set<nat>): Log {
    if log.ended != Nothing then log
    else log.(traces := map id | id in log.traces && (id !in ids || !End(log.traces[id]).finished) :: log.traces[id])
  }

  /** The traces of all connections after some turns, told without the handlers of the loop. */
  function Kept(turns: seq<Turn>): Log {
    if turns == [] then Log(map[], Nothing)
    else
      var log, t := Kept(turns[..|turns| - 1]), turns[|turns| - 1];
      Closed(AllNoted(log, BatchEntries(log, t.conditions)), t.swept)
  }

  /** The server holds the connections with a trace, each where it leads and registered for what it waits for. */
  predicate Agrees(s: Server, log: Log) {
    && s.clients.Keys == log.traces.Keys
    && (forall id :: id in log.traces ==> IsAt(s.clients[id], log.traces[id]))
    && s.crash == log.ended
  }

  predicate IsAt(x: Client, t: Trace) {
    && x.conn == End(t)
    && x.interest == (if x.conn.state == WAIT_FOR_ACK || x.conn.state == WAIT_FOR_DATA then In else Out)
  }

  // --------------------------------------------------------------- the loop keeps it

  /** What an event does to a connection does not depend on what the connection did before. */
  lemma EndsAlike(g: History.History, h: History.History, e: History.Event, limit: nat)
    requires g.conn == h.conn
    ensures History.After(g, e, limit).conn == History.After(h, e, limit).conn
  {
  }

  lemma OneMore(t: Trace, e: History.Event)
    ensures var c := End(t);
      End(t.(events := t.events + [e])) == History.After(History.Started(c), e, c.blockSize).conn
  {
    var limit := t.start.blockSize;
    Terms.TermsKept(t.start, t.events, limit);
    History.RunSnoc(t.start, t.events, e, limit);
    EndsAlike(History.Started(End(t)), History.Run(t.start, t.events, limit), e, limit);
  }

  /** One handler call is one event of the connection's history. */
  lemma HandledAlike(c: Conn, input: bool, output: bool, error: bool, io: Io, e: History.Event)
    requires input || output || error
    requires e == if input then History.Readable(io.recv, io.writeFails)
                  else if output then History.Writable(io.send, io.readFails)
                  else History.Broken
    ensures var x := Handled(c, input, output, error, io);
      && x.thrown == Escaping(c, e)
      && (x.thrown == Nothing ==> x.conn == History.After(History.Started(c), e, c.blockSize).conn)
  {
    if input {
      ReadThrows(c, io.recv, io.writeFails);
    } else if output {
      WriteThrows(c, io.send, io.readFails);
    }
  }

  lemma WriteThrows(c: Conn, s: Send, readFails: bool)
    ensures HandleWrite(c, s, readFails).thrown
         == if c.state == WAIT_FOR_ACK || c.state == WAIT_FOR_DATA then ErrorState else Nothing
  {
  }

  lemma ServicedNoted(s: Server, log: Log, id: nat, input: bool, output: bool, error: bool, io: Io, e: History.Event)
    requires Agrees(s, log) && log.ended == Nothing && id in s.clients && (input || output || error)
    requires e == if input then History.Readable(io.recv, io.writeFails)
                  else if output then History.Writable(io.send, io.readFails)
                  else History.Broken
    ensures Agrees(Serviced(s, id, input, output, error, io), Noted(log, Met(id, e)))
  {
    var t := log.traces[id];
    OneMore(t, e);
    HandledAlike(End(t), input, output, error, io, e);
    ExtensionKeeps(s, log, id, Handled(End(t), input, output, error, io), e);
  }

  lemma ExtensionKeeps(s: Server, log: Log, id: nat, x: ReadResult, e: History.Event)
    requires Agrees(s, log) && log.ended == Nothing && id in s.clients
    requires x.thrown == Nothing ==> x.conn == End(log.traces[id].(events := log.traces[id].events + [e]))
    ensures Agrees(Updated(s, id, x), Extended(log, id, e, x.thrown))
  {
    var t := log.traces[id];
    if x.thrown == Nothing {
      UpdateKeeps(s, log, id, t.(events := t.events + [e]));
    }
  }

  lemma UpdateKeeps(s: Server, log: Log, id: nat, t: Trace)
    requires Agrees(s, log)
    ensures Agrees(s.(clients := s.clients[id := Client(End(t), InterestOf(End(t)))]),
                   log.(traces := log.traces[id := t]))
  {
  }

  lemma ReportNoted(s: Server, log: Log, id: nat, e: Event, ns: seq<Entry>)
    requires Agrees(s, log) && e.Reported? && !e.fd.Listener? && e.fd.id == id
    requires ns == if e.input then [Met(id, History.Readable(e.io.recv, e.io.writeFails))]
                   else if e.output then [Met(id, History.Writable(e.io.send, e.io.readFails))]
                   else if e.error then [Met(id, History.Broken)]
                   else []
    ensures Agrees(Dispatch(s, e), AllNoted(log, ns))
  {
    if ns != [] {
      assert AllNoted(log, ns) == Noted(log, ns[0]);
      if log.ended == Nothing && id in s.clients {
        ServicedNoted(s, log, id, e.input, e.output, e.error, e.io, ns[0].event);
      }
    }
  }

  lemma {:induction false} ArrivalsNoted(s: Server, log: Log, arrivals: seq<Arrival>)
    requires Agrees(s, log) && log.ended == Nothing
    ensures Agrees(s.(clients := Accepted(s.clients, arrivals)), AllNoted(log, Arrived(arrivals)))
    ensures AllNoted(log, Arrived(arrivals)).ended == Nothing
    decreases |arrivals|
  {
    if arrivals != [] {
      var a := arrivals[0];
      ArrivalNoted(s, log, a);
      ArrivalsNoted(Admitted(s, a), Noted(log, Came(a.id, a.conn)), arrivals[1..]);
    }
  }

  function Admitted(s: Server, a: Arrival): Server {
    if a.id in s.clients then s else s.(clients := s.clients[a.id := Client(a.conn, InterestOf(a.conn))])
  }

  lemma ArrivalNoted(s: Server, log: Log, a: Arrival)
    requires Agrees(s, log) && log.ended == Nothing
    ensures Agrees(Admitted(s, a), Noted(log, Came(a.id, a.conn)))
    ensures Noted(log, Came(a.id, a.conn)).ended == Nothing
  {
    var t := Trace(a.conn, []);
    assert End(t) == a.conn;
    if a.id !in s.clients {
      UpdateKeeps(s, log, a.id, t);
    }
  }

  lemma {:induction false} OverStays(log: Log, ns: seq<Entry>)
    requires log.ended != Nothing
    ensures AllNoted(log, ns) == log
    decreases |ns|
  {
    if ns != [] {
      OverStays(log, ns[1..]);
    }
  }

  lemma {:induction false} NotedConcat(log: Log, a: seq<Entry>, b: seq<Entry>)
    ensures AllNoted(log, a + b) == AllNoted(AllNoted(log, a), b)
    decreases |a|
  {
    if a == [] {
      assert a + b == b;
    } else {
      assert (a + b)[1..] == a[1..] + b;
      NotedConcat(Noted(log, a[0]), a[1..], b);
    }
  }

  lemma TickNoted(s: Server, log: Log, id: nat)
    requires Agrees(s, log)
    ensures Agrees(Dispatch(s, Ticked(id)), AllNoted(log, [Met(id, History.Elapse)]))
  {
    assert AllNoted(log, [Met(id, History.Elapse)]) == Noted(log, Met(id, History.Elapse));
    if log.ended == Nothing && id in s.clients {
      OneMore(log.traces[id], History.Elapse);
    }
  }

  /** A condition noticed at the start of the batch, when the server was `first`, and dispatched now. */
  lemma ConditionNoted(first: Server, log1: Log, s: Server, log: Log, k: Condition)
    requires Agrees(first, log1) && Agrees(s, log)
    ensures Agrees(if Registered(first, k) then Dispatch(s, Report(first, k)) else s,
                   AllNoted(log, Entries(log1, k)))
  {
    match k
    case TimePasses(id) => TickNoted(s, log, id);
    case Ready(fd, _, _, _, _, arrivals) =>
      if fd.Listener? {
        if log.ended != Nothing {
          OverStays(log, Arrived(arrivals));
        } else {
          ArrivalsNoted(s, log, arrivals);
        }
      } else if fd.id in first.clients {
        ReportNoted(s, log, fd.id, Report(first, k), Entries(log1, k));
      }
  }

  lemma {:induction false} BatchNoted(first: Server, log1: Log, s: Server, log: Log, conditions: seq<Condition>)
    requires Agrees(first, log1) && Agrees(s, log)
    ensures Agrees(DispatchAll(s, EpollWait(first, conditions)), AllNoted(log, BatchEntries(log1, conditions)))
    decreases |conditions|
  {
    if conditions != [] {
      var k, rest := conditions[0], conditions[1..];
      ConditionNoted(first, log1, s, log, k);
      NotedConcat(log, Entries(log1, k), BatchEntries(log1, rest));
      var t := if Registered(first, k) then Dispatch(s, Report(first, k)) else s;
      BatchNoted(first, log1, t, AllNoted(log, Entries(log1, k)), rest);
      if Registered(first, k) {
        assert EpollWait(first, conditions)[1..] == EpollWait(first, rest);
      }
    }
  }

  lemma SweepNoted(s: Server, log: Log, ids: set<nat>)
    requires Agrees(s, log)
    ensures Agrees(Swept(s, ids), Closed(log, ids))
  {
  }

  /**
   * Over every run of the loop, the server holds exactly the connections that arrived and were not closed. Each
   * is where the events it met since its arrival, one for each handler call, lead in its own run, and the
   * loop has ended exactly if one of them let an exception escape, and with that exception.
   */
  lemma {:induction false} LoopKeepsTraces(turns: seq<Turn>)
    ensures Agrees(Serve(turns), Kept(turns))
  {
    if turns != [] {
      var s, log, t := Serve(turns[..|turns| - 1]), Kept(turns[..|turns| - 1]), turns[|turns| - 1];
      LoopKeepsTraces(turns[..|turns| - 1]);
      BatchNoted(s, log, s, log, t.conditions);
      var events, ns := EpollWait(s, t.conditions), BatchEntries(log, t.conditions);
      SweepNoted(DispatchAll(s, events), AllNoted(log, ns), t.swept);
    }
  }

  // ------------------------------------------------------------- one turn, one client

  /** What a connection in state `c` at the start of a batch meets in it, whatever else the batch holds. */
  function MetBy(id: nat, c: Conn, conditions: seq<Condition>): seq<History.Event> {
    if conditions == [] then []
    else Own(id, Mine(id, c, conditions[0])) + MetBy(id, c, conditions[1..])
  }

  function Mine(id: nat, c: Conn, k: Condition): seq<Entry> {
    if k.TimePasses? then [Met(k.id, History.Elapse)]
    else if k.fd == Socket(id) then SocketMeets(id, c, k)
    else if k.fd == TimerFd(id) then TimerMeets(id, k)
    else []
  }

  function Own(id: nat, ns: seq<Entry>): seq<History.Event> {
    if ns == [] then []
    else (if ns[0].Met? && ns[0].id == id then [ns[0].event] else []) + Own(id, ns[1..])
  }

  lemma {:induction false} OwnConcat(id: nat, a: seq<Entry>, b: seq<Entry>)
    ensures Own(id, a + b) == Own(id, a) + Own(id, b)
  {
    if a == [] {
      assert a + b == b;
    } else {
      assert (a + b)[1..] == a[1..] + b;
      OwnConcat(id, a[1..], b);
    }
  }

  lemma {:induction false} NoneOwn(id: nat, ns: seq<Entry>)
    requires forall i :: 0 <= i < |ns| ==> ns[i].Came? || ns[i].id != id
    ensures Own(id, ns) == []
  {
    if ns != [] {
      NoneOwn(id, ns[1..]);
    }
  }

  lemma {:induction false} ArrivedCame(arrivals: seq<Arrival>)
    ensures forall i :: 0 <= i < |Arrived(arrivals)| ==> Arrived(arrivals)[i].Came?
  {
    if arrivals != [] {
      ArrivedCame(arrivals[1..]);
    }
  }

  lemma OwnEntries(log: Log, id: nat, k: Condition)
    requires id in log.traces
    ensures Own(id, Entries(log, k)) == Own(id, Mine(id, End(log.traces[id]), k))
  {
    if k.Ready? && k.fd.Listener? {
      ArrivedCame(k.arrivals);
      NoneOwn(id, Entries(log, k));
    } else if k.Ready? && k.fd.id != id {
      ForeignEntries(log, k, id);
      NoneOwn(id, Entries(log, k));
    }
  }

  lemma ForeignEntries(log: Log, k: Condition, id: nat)
    requires k.Ready? && !k.fd.Listener? && k.fd.id != id
    ensures forall i :: 0 <= i < |Entries(log, k)| ==> Entries(log, k)[i].id != id
  {
  }

  lemma {:induction false} OwnBatch(log: Log, id: nat, conditions: seq<Condition>)
    requires id in log.traces
    ensures Own(id, BatchEntries(log, conditions)) == MetBy(id, End(log.traces[id]), conditions)
  {
    if conditions != [] {
      OwnEntries(log, id, conditions[0]);
      OwnConcat(id, Entries(log, conditions[0]), BatchEntries(log, conditions[1..]));
      OwnBatch(log, id, conditions[1..]);
    }
  }

  lemma {:induction false} OwnNoted(log: Log, ns: seq<Entry>, id: nat)
    requires id in log.traces && AllNoted(log, ns).ended == Nothing
    ensures var t := log.traces[id];
      id in AllNoted(log, ns).traces && AllNoted(log, ns).traces[id] == t.(events := t.events + Own(id, ns))
    decreases |ns|
  {
    if ns == [] {
      assert log.traces[id].events + [] == log.traces[id].events;
    } else {
      NotOverYet(log, ns);
      NotedOwn(log, ns[0], id);
      OwnNoted(Noted(log, ns[0]), ns[1..], id);
      Assoc(log.traces[id].events, Own(id, [ns[0]]), Own(id, ns[1..]));
      OwnConcat(id, [ns[0]], ns[1..]);
      assert [ns[0]] + ns[1..] == ns;
    }
  }

  lemma NotOverYet(log: Log, ns: seq<Entry>)
    requires ns != [] && AllNoted(log, ns).ended == Nothing
    ensures Noted(log, ns[0]).ended == Nothing
  {
    if Noted(log, ns[0]).ended != Nothing {
      OverStays(Noted(log, ns[0]), ns[1..]);
    }
  }

  lemma NotedOwn(log: Log, n: Entry, id: nat)
    requires id in log.traces && Noted(log, n).ended == Nothing
    ensures var t, more := log.traces[id], Noted(log, n);
      && id in more.traces
      && more.traces[id] == t.(events := t.events + Own(id, [n]))
  {
    var own := if n.Met? && n.id == id then [n.event] else [];
    assert own + [] == own;
    assert Own(id, [n]) == own;
  }

  /** Where events lead depends on the connection alone, not on how it got where it is. */
  predicate LeadsOn(start: Conn, es: seq<History.Event>, more: seq<History.Event>, limit: nat) {
    var c := History.Run(start, es, limit).conn;
    History.Run(start, es + more, limit).conn == History.Run(c, more, limit).conn
  }

  lemma StepOn(start: Conn, es: seq<History.Event>, more: seq<History.Event>, limit: nat)
    requires more != [] && LeadsOn(start, es, more[..|more| - 1], limit)
    ensures LeadsOn(start, es, more, limit)
  {
    var front, e := more[..|more| - 1], more[|more| - 1];
    var c := History.Run(start, es, limit).conn;
    assert more == front + [e];
    Assoc(es, front, [e]);
    History.RunSnoc(start, es + front, e, limit);
    History.RunSnoc(c, front, e, limit);
    EndsAlike(History.Run(start, es + front, limit), History.Run(c, front, limit), e, limit);
  }

  lemma NothingOn(start: Conn, es: seq<History.Event>, limit: nat)
    ensures LeadsOn(start, es, [], limit)
  {
    assert es + [] == es;
  }

  lemma {:induction false} RunOn(start: Conn, es: seq<History.Event>, more: seq<History.Event>, limit: nat)
    ensures LeadsOn(start, es, more, limit)
  {
    if more == [] {
      NothingOn(start, es, limit);
    } else {
      RunOn(start, es, more[..|more| - 1], limit);
      StepOn(start, es, more, limit);
    }
  }

  /**
   * Clients do not disturb one another: unless the turn ends the loop, a connection is afterwards where the events
   * meant for itself lead from where it was, and it is gone if and only if it is finished and the sweep
   * came by.
   */
  lemma ClientsAreIsolated(turns: seq<Turn>, t: Turn, id: nat)
    requires id in Serve(turns).clients && TakeTurn(Serve(turns), t).crash == Nothing
    ensures var c, s := Serve(turns).clients[id].conn, TakeTurn(Serve(turns), t);
      var d := History.Run(c, MetBy(id, c, t.conditions), c.blockSize).conn;
      && (id in s.clients <==> id !in t.swept || !d.finished)
      && (id in s.clients ==> s.clients[id].conn == d)
  {
    var s, log := Serve(turns), Kept(turns);
    LoopKeepsTraces(turns);
    LoopKeepsTraces(turns + [t]);
    assert (turns + [t])[..|turns|] == turns;
    var ns := BatchEntries(log, t.conditions);
    OwnNoted(log, ns, id);
    OwnBatch(log, id, t.conditions);
    var trace := log.traces[id];
    RunOn(trace.start, trace.events, Own(id, ns), trace.start.blockSize);
    Terms.TermsKept(trace.start, trace.events, trace.start.blockSize);
  }

  function FirstArrival(arrivals: seq<Arrival>, id: nat): Option<Conn> {
    if arrivals == [] then None
    else if arrivals[0].id == id then Some(arrivals[0].conn)
    else FirstArrival(arrivals[1..], id)
  }

  /** The first arrival under a new id is taken in, in the state it arrived in; nobody else is touched. */
  lemma {:induction false} NewcomersExactly(clients: map<nat, Client>, arrivals: seq<Arrival>, id: nat)
    ensures var more, first := Accepted(clients, arrivals), FirstArrival(arrivals, id);
      && (id in more <==> id in clients || first.Some?)
      && (id in clients ==> more[id] == clients[id])
      && (id !in clients && first.Some? ==> more[id] == Client(first.value, InterestOf(first.value)))
    decreases |arrivals|
  {
    if arrivals != [] {
      var a := arrivals[0];
      var more := if a.id in clients then clients else clients[a.id := Client(a.conn, InterestOf(a.conn))];
      NewcomersExactly(more, arrivals[1..], id);
    }
  }

  // ------------------------------------------------- connections follow their runs

  predicate FromStarts(arrivals: seq<Arrival>, starts: set<Conn>) {
    forall i :: 0 <= i < |arrivals| ==> arrivals[i].conn in starts
  }

  /** All newcomers of these conditions are among the given connections. */
  predicate Newcomers(conditions: seq<Condition>, starts: set<Conn>) {
    forall i :: 0 <= i < |conditions| && conditions[i].Ready? ==> FromStarts(conditions[i].arrivals, starts)
  }

  predicate EntriesFrom(ns: seq<Entry>, starts: set<Conn>) {
    forall i :: 0 <= i < |ns| && ns[i].Came? ==> ns[i].conn in starts
  }

  predicate TracesFrom(log: Log, starts: set<Conn>) {
    forall id :: id in log.traces ==> log.traces[id].start in starts
  }

  lemma {:induction false} ArrivedFrom(arrivals: seq<Arrival>, starts: set<Conn>)
    requires FromStarts(arrivals, starts)
    ensures EntriesFrom(Arrived(arrivals), starts)
  {
    if arrivals != [] {
      ArrivedFrom(arrivals[1..], starts);
    }
  }

  lemma {:induction false} EntriesAreFrom(log: Log, conditions: seq<Condition>, starts: set<Conn>)
    requires Newcomers(conditions, starts)
    ensures EntriesFrom(BatchEntries(log, conditions), starts)
  {
    if conditions != [] {
      var k, rest := conditions[0], conditions[1..];
      forall i | 0 <= i < |rest| && rest[i].Ready? ensures FromStarts(rest[i].arrivals, starts) {
        assert rest[i] == conditions[i + 1];
      }
      EntriesAreFrom(log, rest, starts);
      if k.Ready? && k.fd.Listener? {
        ArrivedFrom(k.arrivals, starts);
      }
    }
  }

  lemma {:induction false} NotedFrom(log: Log, ns: seq<Entry>, starts: set<Conn>)
    requires TracesFrom(log, starts) && EntriesFrom(ns, starts)
    ensures TracesFrom(AllNoted(log, ns), starts)
    decreases |ns|
  {
    if ns != [] {
      NotedFrom(Noted(log, ns[0]), ns[1..], starts);
    }
  }

  lemma {:induction false} KeptFrom(turns: seq<Turn>, starts: set<Conn>)
    requires forall i :: 0 <= i < |turns| ==> Newcomers(turns[i].conditions, starts)
    ensures TracesFrom(Kept(turns), starts)
  {
    if turns != [] {
      var log, t := Kept(turns[..|turns| - 1]), turns[|turns| - 1];
      KeptFrom(turns[..|turns| - 1], starts);
      EntriesAreFrom(log, t.conditions, starts);
      NotedFrom(log, BatchEntries(log, t.conditions), starts);
    }
  }

  /** A connection in the middle of a run, with the receive limit of the code. */
  predicate RunsTo(start: Conn, es: seq<History.Event>, c: Conn) {
    c == History.Run(start, es, start.blockSize).conn
  }

  ghost predicate Reached(c: Conn, starts: set<Conn>) {
    exists start, es :: start in starts && RunsTo(start, es, c)
  }

  ghost predicate AllReached(clients: map<nat, Client>, starts: set<Conn>) {
    forall id :: id in clients ==> Reached(clients[id].conn, starts)
  }

  /** So all that is proved of runs from given states holds of connections in the loop. */
  lemma {:induction false} ConnectionsFollowRuns(turns: seq<Turn>, starts: set<Conn>)
    requires forall i :: 0 <= i < |turns| ==> Newcomers(turns[i].conditions, starts)
    ensures AllReached(Serve(turns).clients, starts)
  {
    LoopKeepsTraces(turns);
    KeptFrom(turns, starts);
    forall id | id in Serve(turns).clients ensures Reached(Serve(turns).clients[id].conn, starts) {
      var t := Kept(turns).traces[id];
      assert RunsTo(t.start, t.events, Serve(turns).clients[id].conn);
    }
  }

  // ----------------------------------------------------------- what ends the loop

  predicate EndsLoop(s: Server, e: Event) {
    e.Reported? && !e.fd.Listener? && e.fd.id in s.clients && e.input && Throws(s.clients[e.fd.id].conn, e.io.recv)
  }

  lemma HandledThrows(c: Conn, input: bool, output: bool, error: bool, io: Io)
    requires output && !input ==> WaitForWrite(c.state)
    ensures Handled(c, input, output, error, io).thrown != Nothing <==> input && Throws(c, io.recv)
  {
    if input {
      ReadThrows(c, io.recv, io.writeFails);
    }
  }

  lemma EventEndsExactly(s: Server, e: Event)
    requires s.crash == Nothing && Safe(s, e)
    ensures Dispatch(s, e).crash != Nothing <==> EndsLoop(s, e)
  {
    if e.Reported? && !e.fd.Listener? {
      HandledThrows(s.clients[e.fd.id].conn, e.input, e.output, e.error, e.io);
    }
  }

  /** Some event of the batch, met in the state the events before it lead to, ends the loop. */
  predicate SomeEnds(s: Server, events: seq<Event>) {
    exists i :: 0 <= i < |events| && EndsLoop(DispatchAll(s, events[..i]), events[i])
  }

  lemma SomeEndsStep(s: Server, events: seq<Event>)
    requires events != []
    ensures SomeEnds(s, events) <==> EndsLoop(s, events[0]) || SomeEnds(Dispatch(s, events[0]), events[1..])
  {
    var t, rest := Dispatch(s, events[0]), events[1..];
    forall i | 0 <= i < |rest|
      ensures EndsLoop(DispatchAll(t, rest[..i]), rest[i]) == EndsLoop(DispatchAll(s, events[..i + 1]), events[i + 1])
    {
      assert events[..i + 1][1..] == rest[..i];
    }
    if EndsLoop(s, events[0]) {
      assert DispatchAll(s, events[..0]) == s;
    }
    if SomeEnds(t, rest) {
      var i :| 0 <= i < |rest| && EndsLoop(DispatchAll(t, rest[..i]), rest[i]);
      assert EndsLoop(DispatchAll(s, events[..i + 1]), events[i + 1]);
    }
    if SomeEnds(s, events) && !EndsLoop(s, events[0]) {
      var i :| 0 <= i < |events| && EndsLoop(DispatchAll(s, events[..i]), events[i]);
      assert events[..0] == [];
      assert EndsLoop(DispatchAll(t, rest[..i - 1]), rest[i - 1]);
    }
  }

  lemma {:induction false} BatchEndsExactly(s: Server, events: seq<Event>)
    requires s.crash == Nothing && Matched(s) && AllSafe(s, events) && EventsOnce(events)
    ensures DispatchAll(s, events).crash != Nothing <==> SomeEnds(s, events)
    decreases |events|
  {
    if events != [] {
      var t, rest := Dispatch(s, events[0]), events[1..];
      EventEndsExactly(s, events[0]);
      SomeEndsStep(s, events);
      if t.crash != Nothing {
        CrashStays(t, rest);
      } else {
        DispatchKeeps(s, events[0], Ticked(0));
        forall i | 0 <= i < |rest| ensures Safe(t, rest[i]) {
          DispatchKeeps(s, events[0], events[i + 1]);
        }
        BatchEndsExactly(t, rest);
      }
    }
  }

  /**
   * After any run of the loop the next turn ends it if and only if, when its turn in the batch comes, some
   * waiting connection without an expiry is woken to a broken receive or to the expected block of a WRITE
   * that does not decode.
   */
  lemma {:induction false} TurnEndsExactly(turns: seq<Turn>, t: Turn)
    requires forall i :: 0 <= i < |turns| ==> EachOnce(turns[i].conditions)
    requires EachOnce(t.conditions) && Serve(turns).crash == Nothing
    ensures var s := Serve(turns);
      TakeTurn(s, t).crash != Nothing <==> SomeEnds(s, EpollWait(s, t.conditions))
  {
    DispatchSafety(turns);
    WaitIsSafe(Serve(turns), t.conditions);
    BatchEndsExactly(Serve(turns), EpollWait(Serve(turns), t.conditions));
  }
}
