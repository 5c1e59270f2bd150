/** How connections end: a finished one stays finished, and one in ERROR only has its ERROR packet to send. */
module Endings {
  import opened Bytes
  import opened CStrings
  import opened Packets
  import opened Timers
  import opened Connection
  import opened History
  import Options

  /** What never changes any more once the connection is in ERROR. */
  predicate Frozen(h: History, g: History) {
    && g.conn.state == State.ERROR
    && g.conn.error == h.conn.error && g.conn.blockNumber == h.conn.blockNumber
    && g.conn.sink == h.conn.sink && g.conn.source == h.conn.source
    && g.sent == h.sent && g.accepted == h.accepted && g.loads == h.loads
    && g.transmissions == h.transmissions
  }

  lemma FrozenRead(h: History, r: Recv, limit: nat, writeFails: bool)
    requires h.conn.state == State.ERROR
    ensures Frozen(h, AfterRead(h, r, limit, writeFails))
  {
  }

  lemma FrozenWrite(h: History, s: Send, readFails: bool)
    requires h.conn.state == State.ERROR
    ensures Frozen(h, AfterWrite(h, s, readFails))
  {
  }

  lemma FrozenStep(h: History, e: Event, limit: nat)
    requires h.conn.state == State.ERROR
    ensures Frozen(h, After(h, e, limit))
  {
    match e
    case Readable(r, writeFails) => FrozenRead(h, r, limit, writeFails);
    case Writable(s, readFails) => FrozenWrite(h, s, readFails);
    case _ =>
  }

  /** A connection that went into ERROR never sends DATA or ACK again and never touches its file again. */
  lemma {:induction false} ErrorIsFinal(start: Conn, es: seq<Event>, k: nat, limit: nat)
    requires k <= |es| && Run(start, es[..k], limit).conn.state == State.ERROR
    ensures Frozen(Run(start, es[..k], limit), Run(start, es, limit))
    decreases |es|
  {
    if k == |es| {
      assert es[..k] == es;
    } else {
      var front := es[..|es| - 1];
      assert front[..k] == es[..k];
      ErrorIsFinal(start, front, k, limit);
      FrozenMore(Run(start, es[..k], limit), Run(start, front, limit), es[|es| - 1], limit);
    }
  }

  lemma FrozenMore(h: History, g: History, e: Event, limit: nat)
    requires Frozen(h, g)
    ensures Frozen(h, After(g, e, limit))
  {
    FrozenStep(g, e, limit);
  }

  lemma FinishedReading(c: Conn, r: Recv, limit: nat, writeFails: bool)
    requires c.finished
    ensures HandleRead(c, r, limit, writeFails).conn.finished
  {
  }

  lemma FinishedWriting(c: Conn, s: Send, readFails: bool)
    requires c.finished
    ensures HandleWrite(c, s, readFails).conn.finished
  {
  }

  lemma FinishedStep(h: History, e: Event, limit: nat)
    requires h.conn.finished
    ensures After(h, e, limit).conn.finished
  {
    match e
    case Readable(r, writeFails) => FinishedReading(h.conn, r, limit, writeFails);
    case Writable(s, readFails) => FinishedWriting(h.conn, s, readFails);
    case _ =>
  }

  /** No event revives a finished connection. */
  lemma {:induction false} FinishedStays(start: Conn, es: seq<Event>, k: nat, limit: nat)
    requires k <= |es| && Run(start, es[..k], limit).conn.finished
    ensures Run(start, es, limit).conn.finished
    decreases |es|
  {
    if k == |es| {
      assert es[..k] == es;
    } else {
      var front := es[..|es| - 1];
      assert front[..k] == es[..k];
      FinishedStays(start, front, k, limit);
      FinishedStep(Run(start, front, limit), es[|es| - 1], limit);
    }
  }

  /** The socket took the ERROR packet, failed for good or is broken. */
  predicate Settles(e: Event) {
    e.Broken? || (e.Writable? && e.s != Busy)
  }

  predicate Settled(es: seq<Event>) {
    exists i :: 0 <= i < |es| && Settles(es[i])
  }

  lemma SettledSnoc(es: seq<Event>)
    requires es != []
    ensures Settled(es) <==> Settled(es[..|es| - 1]) || Settles(es[|es| - 1])
  {
    var front := es[..|es| - 1];
    if Settled(front) {
      var i :| 0 <= i < |front| && Settles(front[i]);
      assert Settles(es[i]);
    }
    if Settled(es) && !Settles(es[|es| - 1]) {
      var i :| 0 <= i < |es| && Settles(es[i]);
      assert Settles(front[i]);
    }
  }

  /** A connection whose timer never ran is in ERROR and waits for its only packet to go out. */
  predicate Refusing(c: Conn) {
    c.state == State.ERROR && c.timer == Disarmed
  }

  /** It is finished exactly when a send was not put off or the socket broke. */
  lemma {:induction false} RefusalEnds(start: Conn, es: seq<Event>, limit: nat)
    requires Refusing(start) && !start.finished
    ensures var c := Run(start, es, limit).conn;
      Refusing(c) && c.error == start.error && (c.finished <==> Settled(es))
  {
    if es != [] {
      RefusalEnds(start, es[..|es| - 1], limit);
      SettledSnoc(es);
    }
  }

  /**
   * A request that is not permitted gets nothing but its ERROR packet, which the client can read, and
   * the connection ends exactly when that packet was sent, could not be or the socket broke.
   */
  lemma DenialIsTold(request: RwPacket, denial: ErrorPacket, env: Options.Surroundings, file: Data, openFails: bool,
                     es: seq<Event>, limit: nat)
    requires denial.code <= NO_USER && NulFree(denial.message)
    ensures var h := Run(Created(request, Some(denial), env, file, openFails), es, limit);
      && h.transmissions == 0 && h.loads == [] && h.accepted == []
      && (h.conn.finished <==> Settled(es))
      && HandleWrite(h.conn, Sent, false).sent.Some?
      && DeserialiseError(HandleWrite(h.conn, Sent, false).sent.value) == Some(denial)
  {
    var c := Created(request, Some(denial), env, file, openFails);
    RefusalEnds(c, es, limit);
    ErrorIsFinal(c, es, 0, limit);
    StandardErrorsRoundTrip(denial);
  }
}
