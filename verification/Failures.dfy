/** What a connection makes of sends, reads and writes that fail for good, and of sends that are put off. */
module Failures {
  import opened Bytes
  import opened CStrings
  import opened Packets
  import opened Timers
  import opened Connection
  import opened History
  import opened Endings
  import Blocks
  import Options
  import Terms

  // ------------------------------------------------------------ what counts as one

  /** A DATA or ACK packet the socket refuses for good. */
  predicate SendFails(c: Conn, e: Event) {
    e.Writable? && e.s == SendFailed && (c.state == SEND_DATA || c.state == SEND_ACK)
  }

  /** The next block cannot be read. */
  predicate ReadFails(c: Conn, e: Event) {
    e.Writable? && e.readFails && c.state == SEND_DATA && c.packet.None?
  }

  /** The expected block, unless an expiry is read instead, cannot be written. */
  predicate WriteFails(c: Conn, e: Event, limit: nat) {
    && e.Readable? && e.writeFails && c.state == WAIT_FOR_DATA && Parses(c, e.r, limit)
    && var p := DeserialiseData(Received(e.r, limit)).value;
       p.blockNumber == c.blockNumber && Blocks.Decoded(c.mode, p.data).Some?
  }

  predicate Fails(c: Conn, e: Event, limit: nat) {
    SendFails(c, e) || ReadFails(c, e) || WriteFails(c, e, limit)
  }

  predicate FailsAt(start: Conn, es: seq<Event>, i: nat, limit: nat)
    requires i < |es|
  {
    Fails(Run(start, es[..i], limit).conn, es[i], limit)
  }

  predicate SomeFails(start: Conn, es: seq<Event>, limit: nat) {
    exists i :: 0 <= i < |es| && FailsAt(start, es, i, limit)
  }

  lemma SomeFailsSnoc(start: Conn, es: seq<Event>, limit: nat)
    requires es != []
    ensures SomeFails(start, es, limit)
       <==> SomeFails(start, es[..|es| - 1], limit) || FailsAt(start, es, |es| - 1, limit)
  {
    var front := es[..|es| - 1];
    forall i: nat | i < |front| ensures FailsAt(start, es, i, limit) == FailsAt(start, front, i, limit) {
      assert front[..i] == es[..i];
    }
  }

  /** A connection nothing has failed for. */
  predicate Unhurt(c: Conn) {
    c.error == Unset && c.source.Some? && c.sink.Some?
  }

  /** So every started transfer begins, with no timer running. */
  lemma StartsUnhurt(request: RwPacket, env: Options.Surroundings, file: Data, openFails: bool)
    requires Terms.Starts(request, openFails)
    ensures var c := Created(request, None, env, file, openFails);
      Unhurt(c) && FreshTimer(c) && !c.finished
  {
  }

  /** The internal error is noted, and otherwise the connection is unhurt. */
  predicate Noted(c: Conn, failed: bool) {
    if failed then c.error == Internal && c.state == State.ERROR else Unhurt(c)
  }

  lemma WriteNotes(c: Conn, failed: bool, s: Send, readFails: bool, limit: nat)
    requires Noted(c, failed)
    ensures Noted(HandleWrite(c, s, readFails).conn, failed || Fails(c, Writable(s, readFails), limit))
  {
  }

  lemma ReadNotes(c: Conn, failed: bool, r: Recv, writeFails: bool, limit: nat)
    requires Noted(c, failed)
    ensures Noted(HandleRead(c, r, limit, writeFails).conn, failed || Fails(c, Readable(r, writeFails), limit))
  {
    if c.state == WAIT_FOR_DATA && Parses(c, r, limit) {
      DataNotes(c, DeserialiseData(Received(r, limit)).value, writeFails);
    } else {
      OthersNote(c, r, limit, writeFails);
    }
  }

  lemma DataNotes(c: Conn, p: DataPacket, writeFails: bool)
    requires Unhurt(c) && c.state == WAIT_FOR_DATA
    ensures Noted(OnData(c, p, writeFails).conn,
                  writeFails && p.blockNumber == c.blockNumber && Blocks.Decoded(c.mode, p.data).Some?)
  {
  }

  /** Nothing but a parsed block changes what has been noted. */
  lemma OthersNote(c: Conn, r: Recv, limit: nat, writeFails: bool)
    requires c.state == State.ERROR || Unhurt(c)
    requires c.state == WAIT_FOR_DATA ==> !Parses(c, r, limit)
    ensures var d := HandleRead(c, r, limit, writeFails).conn;
      && d.error == c.error && d.source == c.source && d.sink == c.sink
      && (c.state == State.ERROR ==> d.state == State.ERROR)
  {
  }

  lemma StepNotes(h: History, failed: bool, e: Event, limit: nat)
    requires Noted(h.conn, failed)
    ensures Noted(After(h, e, limit).conn, failed || Fails(h.conn, e, limit))
  {
    match e
    case Readable(r, writeFails) => ReadNotes(h.conn, failed, r, writeFails, limit);
    case Writable(s, readFails) => WriteNotes(h.conn, failed, s, readFails, limit);
    case _ =>
  }

  /** The internal error is noted if and only if something failed. */
  lemma {:induction false} FailureNotedExactly(start: Conn, es: seq<Event>, limit: nat)
    requires Unhurt(start)
    ensures Noted(Run(start, es, limit).conn, SomeFails(start, es, limit))
  {
    if es != [] {
      var front := es[..|es| - 1];
      FailureNotedExactly(start, front, limit);
      SomeFailsSnoc(start, es, limit);
      StepNotes(Run(start, front, limit), SomeFails(start, front, limit), es[|es| - 1], limit);
    }
  }

  // ----------------------------------------------------------- what is said after it

  /** The datagram that the i-th event sends. */
  function Said(start: Conn, es: seq<Event>, i: nat, limit: nat): Option<Data>
    requires i < |es|
  {
    if es[i].Writable? then HandleWrite(Run(start, es[..i], limit).conn, es[i].s, es[i].readFails).sent else None
  }

  /** An ERROR packet that a client reads as this code and text. */
  predicate Tells(d: Data, code: Word, text: string) {
    var p := DeserialiseError(d);
    p.Some? && p.value.code == code && Spells(p.value.message, text)
  }

  predicate TellsIfAny(d: Option<Data>, code: Word, text: string) {
    d.Some? ==> Tells(d.value, code, text)
  }

  lemma ErrorTells(p: ErrorPacket, text: string)
    requires p.code <= NO_USER && NulFree(p.message) && Spells(p.message, text)
    ensures Tells(SerialiseError(p), p.code, text)
  {
    StandardErrorsRoundTrip(p);
  }

  lemma ErrorSends(c: Conn, s: Send, readFails: bool)
    requires c.state == State.ERROR
    ensures HandleWrite(c, s, readFails).sent == if s == Sent then Some(SerialiseError(PacketOf(c.error))) else None
  {
  }

  lemma InternalTells()
    ensures Tells(SerialiseError(PacketOf(Internal)), 0, "Internal server error")
  {
    ErrorTells(PacketOf(Internal), "Internal server error");
  }

  lemma NothingTells()
    ensures Tells(SerialiseError(PacketOf(Unset)), 0, "")
  {
    ErrorTells(PacketOf(Unset), "");
  }

  lemma OpenFailedTells()
    ensures Tells(SerialiseError(PacketOf(OpenFailed)), 2, "Failed to open file for writing")
  {
    ErrorTells(PacketOf(OpenFailed), "Failed to open file for writing");
  }

  lemma IllegalTells()
    ensures Tells(SerialiseError(PacketOf(IllegalRequest)), 4, "ILLEGAL_OPERATION")
  {
    ErrorTells(PacketOf(IllegalRequest), "ILLEGAL_OPERATION");
  }

  /** Whatever is sent from the k-th event on, and something is whenever the socket takes it, says this. */
  predicate OnlyTells(start: Conn, es: seq<Event>, k: nat, limit: nat, code: Word, text: string) {
    forall i :: k <= i < |es| ==>
      && TellsIfAny(Said(start, es, i, limit), code, text)
      && (es[i] == Writable(Sent, false) ==> Said(start, es, i, limit).Some?)
  }

  /** A failing send, read or write sends nothing itself and leaves the connection in ERROR. */
  lemma FailsToError(h: History, e: Event, limit: nat)
    requires Fails(h.conn, e, limit)
    ensures var g := After(h, e, limit);
      && g.conn.state == State.ERROR && g.conn.error == Internal && g.conn.finished == h.conn.finished
      && g.transmissions == h.transmissions && g.sent == h.sent && g.accepted == h.accepted
      && (e.Writable? ==> HandleWrite(h.conn, e.s, e.readFails).sent.None?)
  {
  }

  /** The state after the k-th event, seen from any longer run. */
  lemma RunAfter(start: Conn, es: seq<Event>, k: nat, limit: nat)
    requires k < |es|
    ensures Run(start, es[..k + 1], limit) == After(Run(start, es[..k], limit), es[k], limit)
  {
    assert es[..k + 1][..k] == es[..k];
  }

  /**
   * Once a send, a read or a write has failed for good, no continuation sends DATA or ACK again or writes to the
   * file. All that is sent is an ERROR packet the client reads as "Internal server error", and a
   * socket that takes a datagram gets it.
   */
  lemma FailureSilences(start: Conn, es: seq<Event>, k: nat, limit: nat)
    requires k < |es| && FailsAt(start, es, k, limit)
    ensures var h, g := Run(start, es[..k], limit), Run(start, es, limit);
      && g.conn.state == State.ERROR
      && g.transmissions == h.transmissions && g.sent == h.sent && g.accepted == h.accepted
    ensures Said(start, es, k, limit).None?
    ensures OnlyTells(start, es, k + 1, limit, 0, "Internal server error")
  {
    RunAfter(start, es, k, limit);
    FailsToError(Run(start, es[..k], limit), es[k], limit);
    ErrorIsFinal(start, es, k + 1, limit);
    forall i | k + 1 <= i < |es|
      ensures TellsIfAny(Said(start, es, i, limit), 0, "Internal server error")
      ensures es[i] == Writable(Sent, false) ==> Said(start, es, i, limit).Some?
    {
      assert es[..i][..k + 1] == es[..k + 1];
      ErrorIsFinal(start, es[..i], k + 1, limit);
      if es[i].Writable? {
        ErrorSends(Run(start, es[..i], limit).conn, es[i].s, es[i].readFails);
        InternalTells();
      }
    }
  }

  // ------------------------------------------------------------- when ERROR is over

  /** A timer that can still run out finds no timeouts counted. */
  predicate FreshTimer(c: Conn) {
    WaitForWrite(c.state) && !c.finished ==> c.timer.Disarmed? || c.timeoutCount == 0
  }

  lemma FreshTimerStep(h: History, e: Event, limit: nat)
    requires FreshTimer(h.conn)
    ensures FreshTimer(After(h, e, limit).conn)
  {
    match e
    case Readable(r, writeFails) => FreshTimerRead(h.conn, r, limit, writeFails);
    case Writable(s, readFails) => FreshTimerWrite(h.conn, s, readFails);
    case _ =>
  }

  lemma FreshTimerRead(c: Conn, r: Recv, limit: nat, writeFails: bool)
    requires FreshTimer(c)
    ensures FreshTimer(HandleRead(c, r, limit, writeFails).conn)
  {
    if !c.timer.Expired? {
      if c.state == WAIT_FOR_ACK && Parses(c, r, limit) {
        FreshAck(c, DeserialiseAck(Received(r, ACK_PKT_MAX_SIZE)).value.blockNumber);
      } else if c.state == WAIT_FOR_DATA && Parses(c, r, limit) {
        FreshData(c, DeserialiseData(Received(r, limit)).value, writeFails);
      }
    }
  }

  lemma FreshAck(c: Conn, number: Word)
    ensures OnAck(c, number).timeoutCount == 0
  {
  }

  lemma FreshData(c: Conn, p: DataPacket, writeFails: bool)
    ensures OnData(c, p, writeFails).conn.timeoutCount == 0
  {
  }

  lemma FreshTimerWrite(c: Conn, s: Send, readFails: bool)
    requires FreshTimer(c)
    ensures FreshTimer(HandleWrite(c, s, readFails).conn)
  {
  }

  lemma {:induction false} FreshTimerRun(start: Conn, es: seq<Event>, limit: nat)
    requires FreshTimer(start)
    ensures FreshTimer(Run(start, es, limit).conn)
  {
    if es != [] {
      FreshTimerRun(start, es[..|es| - 1], limit);
      FreshTimerStep(Run(start, es[..|es| - 1], limit), es[|es| - 1], limit);
    }
  }

  lemma ErrorStep(h: History, e: Event, limit: nat)
    requires h.conn.state == State.ERROR && FreshTimer(h.conn)
    ensures After(h, e, limit).conn.finished <==> h.conn.finished || Settles(e)
  {
    if h.conn.finished {
      FinishedStep(h, e, limit);
    }
  }

  lemma ErrorRunStep(start: Conn, es: seq<Event>, limit: nat)
    requires es != [] && FreshTimer(start) && Run(start, es[..|es| - 1], limit).conn.state == State.ERROR
    ensures Run(start, es, limit).conn.finished
       <==> Run(start, es[..|es| - 1], limit).conn.finished || Settles(es[|es| - 1])
  {
    FreshTimerRun(start, es[..|es| - 1], limit);
    ErrorStep(Run(start, es[..|es| - 1], limit), es[|es| - 1], limit);
  }

  lemma SettledCut(es: seq<Event>, k: nat)
    requires k < |es|
    ensures Settled(es[k..]) <==> Settled(es[..|es| - 1][k..]) || Settles(es[|es| - 1])
  {
    assert es[k..][..|es[k..]| - 1] == es[..|es| - 1][k..];
    SettledSnoc(es[k..]);
  }

  /**
   * A connection in ERROR, however it got there and whatever its timer does, finishes exactly when the socket
   * takes its ERROR packet, refuses it for good or breaks.
   */
  lemma {:induction false} ErrorEndsExactly(start: Conn, es: seq<Event>, k: nat, limit: nat)
    requires k <= |es| && FreshTimer(start)
    requires var c := Run(start, es[..k], limit).conn; c.state == State.ERROR && !c.finished
    ensures Run(start, es, limit).conn.finished <==> Settled(es[k..])
    decreases |es|
  {
    if k == |es| {
      assert es[..k] == es;
    } else {
      var front := es[..|es| - 1];
      assert front[..k] == es[..k];
      ErrorEndsExactly(start, front, k, limit);
      SettledCut(es, k);
      ErrorIsFinal(start, front, k, limit);
      ErrorRunStep(start, es, limit);
    }
  }

  /** So after a failure too. */
  lemma FailureEndsExactly(start: Conn, es: seq<Event>, k: nat, limit: nat)
    requires k < |es| && FreshTimer(start) && FailsAt(start, es, k, limit)
    requires !Run(start, es[..k], limit).conn.finished
    ensures Run(start, es, limit).conn.finished <==> Settled(es[k + 1..])
  {
    RunAfter(start, es, k, limit);
    FailsToError(Run(start, es[..k], limit), es[k], limit);
    ErrorEndsExactly(start, es, k + 1, limit);
  }

  /** An option acknowledgement that cannot be sent ends the connection with nothing said. */
  lemma LostOackEnds(start: Conn, es: seq<Event>, k: nat, limit: nat)
    requires k < |es| && es[k].Writable? && es[k].s == SendFailed
    requires Run(start, es[..k], limit).conn.state == SEND_OACK
    ensures Run(start, es, limit).conn.finished && Said(start, es, k, limit).None?
  {
    RunAfter(start, es, k, limit);
    FinishedStays(start, es, k + 1, limit);
  }

  // ----------------------------------------------------------- what ERROR packets say

  /**
   * The ERROR packet of a transfer that was started carries code 0. It names an internal error if and only if a
   * send, a read or a write failed, and has an empty text otherwise: a wrong number is not explained.
   */
  lemma ErrorPacketExactly(start: Conn, es: seq<Event>, limit: nat)
    requires Unhurt(start) && Run(start, es, limit).conn.state == State.ERROR
    ensures var d := HandleWrite(Run(start, es, limit).conn, Sent, false).sent;
      d.Some? && Tells(d.value, 0, if SomeFails(start, es, limit) then "Internal server error" else "")
  {
    FailureNotedExactly(start, es, limit);
    ErrorSends(Run(start, es, limit).conn, Sent, false);
    InternalTells();
    NothingTells();
  }

  // ------------------------------------------------------------------ refused requests

  /** Code and text of the ERROR packet a permitted request gets at once, if any. */
  function Refusal(request: RwPacket, openFails: bool): Option<(Word, string)> {
    if request.kind == READ then None
    else if request.kind != WRITE then Some((4, "ILLEGAL_OPERATION"))
    else if openFails then Some((2, "Failed to open file for writing"))
    else None
  }

  /**
   * A permitted request starts a transfer unless it is a WRITE whose file cannot be opened or no request at all.
   * Such a one gets nothing but its ERROR packet, with code 2 or 4, and then the connection ends.
   */
  lemma RefusalIsTold(request: RwPacket, env: Options.Surroundings, file: Data, openFails: bool,
                      es: seq<Event>, limit: nat)
    ensures var start := Created(request, None, env, file, openFails);
      start.state == State.ERROR <==> Refusal(request, openFails).Some?
    ensures var h := Run(Created(request, None, env, file, openFails), es, limit);
      Refusal(request, openFails).Some? ==>
        && h.transmissions == 0 && h.loads == [] && h.accepted == []
        && (h.conn.finished <==> Settled(es))
        && var (code, text) := Refusal(request, openFails).value;
           var d := HandleWrite(h.conn, Sent, false).sent;
           d.Some? && Tells(d.value, code, text)
  {
    if Refusal(request, openFails).Some? {
      var start := Created(request, None, env, file, openFails);
      RefusalEnds(start, es, limit);
      ErrorIsFinal(start, es, 0, limit);
      ErrorSends(Run(start, es, limit).conn, Sent, false);
      OpenFailedTells();
      IllegalTells();
    }
  }

  // ------------------------------------------------------------------ sends put off

  function PutOff(c: Conn, n: nat): Conn {
    if n == 0 then c else HandleWrite(PutOff(c, n - 1), Busy, false).conn
  }

  /** A block is cached, can be loaded or is not needed. */
  predicate CanLoad(c: Conn) {
    c.state == SEND_DATA ==> c.packet.Some? || c.source.Some?
  }

  lemma BusyOnce(c: Conn, s: Send)
    requires WaitForWrite(c.state) && CanLoad(c)
    ensures var d := HandleWrite(c, Busy, false).conn;
      && d.state == c.state && d.finished == c.finished && CanLoad(d)
      && HandleWrite(c, Busy, false).sent.None?
      && HandleWrite(d, s, false) == HandleWrite(c, s, false)
  {
  }

  /** However often a send is put off, it then ends exactly as it would have at once: same datagram, same state. */
  lemma {:induction false} PutOffSendsTheSame(c: Conn, n: nat, s: Send)
    requires WaitForWrite(c.state) && CanLoad(c)
    ensures var d := PutOff(c, n);
      && d.state == c.state && d.finished == c.finished && CanLoad(d)
      && HandleWrite(d, Busy, false).sent.None?
      && HandleWrite(d, s, false) == HandleWrite(c, s, false)
  {
    if n > 0 {
      PutOffSendsTheSame(c, n - 1, s);
      BusyOnce(PutOff(c, n - 1), s);
    }
    BusyOnce(PutOff(c, n), s);
  }
}
