/**
 * The timer keeps running when a packet arrives, so it can fire while there is something to send. `retransmit`
 * is then called in a state it does not expect and reaches its assertion, which release builds skip.
 */
module LateExpiry {
  import opened Bytes
  import opened Packets
  import opened Timers
  import opened Connection
  import opened History
  import opened ReadSide
  import opened WriteSide
  import opened Transfer

  /** The next `handle_read` calls `retransmit` in a state that waits for no packet. */
  predicate HitsAssertion(c: Conn) {
    c.timer.Expired? && c.timeoutCount < MAX_TIMEOUTS && !WaitForRead(c.state)
  }

  predicate RunHitsAssertion(start: Conn, es: seq<Event>, limit: nat) {
    HitsAssertion(Run(start, es, limit).conn)
  }

  /** A fresh timer is running and a repeated packet would bring the connection back to sending. */
  predicate CanHit(c: Conn) {
    c.timer.Armed? && c.timeoutCount == 0 && c.blockNumber == 1 && WaitForRead(c.state)
  }

  /** What it takes for that to happen. */
  predicate LateExpiryPossible(start: Conn, base: nat, limit: nat) {
    start.kind == READ || (if base == 1 then limit >= 4 else limit >= start.blockSize + 4)
  }

  // ------------------------------------------------------------------------- READ

  lemma SendsBlockOne(c: Conn)
    requires c.state == SEND_DATA && c.blockNumber == 1 && c.packet.None? && c.source.Some?
    requires c.timeoutS >= 1 && c.timeoutCount == 0
    ensures var d := HandleWrite(c, Sent, false).conn;
      d.state == WAIT_FOR_ACK && CanHit(d)
  {
  }

  lemma ReadReachesBlockOne(start: Conn, e: Data, limit: nat) returns (es: seq<Event>)
    requires ReadStart(start, e)
    ensures var c := Run(start, es, limit).conn;
      c.state == SEND_DATA && c.blockNumber == 1 && c.packet.None? && c.source.Some?
      && c.timeoutS >= 1 && c.timeoutCount == 0
  {
    es := [];
    if start.state == SEND_OACK {
      var ack := Readable(Datagram(SerialiseAck(AckPacket(Wire(0)))), false);
      RunSnoc(start, [], Writable(Sent, false), limit);
      es := [] + [Writable(Sent, false)];
      HeadAckRead(Run(start, es, limit).conn, 0, limit, false);
      RunSnoc(start, es, ack, limit);
      es := es + [ack];
    }
  }

  lemma ReadHits(start: Conn, e: Data, limit: nat) returns (es: seq<Event>)
    requires ReadStart(start, e)
    ensures HitsAssertion(Run(start, es, limit).conn)
  {
    es := ReadReachesBlockOne(start, e, limit);
    SendsBlockOne(Run(start, es, limit).conn);
    RunSnoc(start, es, Writable(Sent, false), limit);
    es := es + [Writable(Sent, false)];
    es := RepeatHits(start, es, limit, SerialiseAck(AckPacket(Wire(0))));
  }

  /** Repeating the previous packet, then letting the timer run out. */
  lemma RepeatHits(start: Conn, es: seq<Event>, limit: nat, d: Data) returns (more: seq<Event>)
    requires CanHit(Run(start, es, limit).conn)
    requires var c := Run(start, es, limit).conn;
      if c.state == WAIT_FOR_ACK then d == SerialiseAck(AckPacket(Wire(0)))
      else d == SerialiseData(DataPacket(0, [])) && limit >= 4
    ensures HitsAssertion(Run(start, more, limit).conn)
  {
    var c := Run(start, es, limit).conn;
    RepeatLeadsToSending(c, limit, d);
    RunSnoc(start, es, Readable(Datagram(d), false), limit);
    more := es + [Readable(Datagram(d), false)];
    ElapseHits(Run(start, more, limit), limit);
    RunSnoc(start, more, Elapse, limit);
    more := more + [Elapse];
  }

  lemma ElapseHits(h: History, limit: nat)
    requires h.conn.timer.Armed? && h.conn.timeoutCount == 0 && !WaitForRead(h.conn.state)
    ensures HitsAssertion(After(h, Elapse, limit).conn)
  {
  }

  lemma RepeatLeadsToSending(c: Conn, limit: nat, d: Data)
    requires CanHit(c)
    requires if c.state == WAIT_FOR_ACK then d == SerialiseAck(AckPacket(Wire(0)))
             else d == SerialiseData(DataPacket(0, [])) && limit >= 4
    ensures var r := HandleRead(c, Datagram(d), limit, false).conn;
      r.timer == c.timer && r.timeoutCount == 0 && !WaitForRead(r.state)
  {
    if c.state == WAIT_FOR_ACK {
      HeadAckRead(c, 0, limit, false);
    } else {
      FittingData(c, DataPacket(0, []), limit, false);
    }
  }

  // ------------------------------------------------------------------------ WRITE

  lemma AcksZero(c: Conn)
    requires c.state == SEND_ACK && c.blockNumber == 0 && !c.finalAck && c.timeoutS >= 1 && c.timeoutCount == 0
    ensures var d := HandleWrite(c, Sent, false).conn;
      d.state == WAIT_FOR_DATA && CanHit(d)
  {
  }

  lemma WriteHits(start: Conn, base: nat, limit: nat) returns (es: seq<Event>)
    requires WriteStart(start, base)
    requires if base == 1 then limit >= 4 else limit >= start.blockSize + 4
    ensures HitsAssertion(Run(start, es, limit).conn)
  {
    es := [];
    if base == 0 {
      es := FullBlockZero(start, limit);
    }
    AcksZero(Run(start, es, limit).conn);
    RunSnoc(start, es, Writable(Sent, false), limit);
    es := es + [Writable(Sent, false)];
    es := RepeatHits(start, es, limit, SerialiseData(DataPacket(0, [])));
  }

  /** Without room for a header nothing is ever parsed: the timer runs only while the connection waits. */
  predicate RunsOnlyWaiting(c: Conn) {
    && (c.state == SEND_ACK || c.state == WAIT_FOR_DATA || c.state == State.ERROR)
    && (!c.timer.Disarmed? ==> c.state == WAIT_FOR_DATA)
  }

  lemma RunsOnlyWaitingStep(h: History, ev: Event, limit: nat)
    requires RunsOnlyWaiting(h.conn) && limit < 4
    ensures RunsOnlyWaiting(After(h, ev, limit).conn)
  {
  }

  lemma {:induction false} RunsOnlyWaitingAlways(start: Conn, es: seq<Event>, limit: nat)
    requires WriteStart(start, 1) && limit < 4
    ensures RunsOnlyWaiting(Run(start, es, limit).conn)
  {
    if es != [] {
      RunsOnlyWaitingAlways(start, es[..|es| - 1], limit);
      RunsOnlyWaitingStep(Run(start, es[..|es| - 1], limit), es[|es| - 1], limit);
    }
  }

  /** After acknowledged options, without room for a full block, only a final block can be taken: no timer ever runs. */
  predicate NeverRuns(c: Conn) {
    && c.kind == WRITE && c.timer.Disarmed?
    && (c.state == SEND_OACK || c.state == SEND_ACK || c.state == WAIT_FOR_DATA || c.state == State.ERROR)
    && (c.state == SEND_ACK ==> c.finalAck)
    && (c.state == WAIT_FOR_DATA || c.state == SEND_OACK ==> c.blockNumber == 0)
  }

  lemma NeverRunsStep(h: History, ev: Event, limit: nat)
    requires NeverRuns(h.conn) && limit < h.conn.blockSize + 4
    ensures var c := After(h, ev, limit).conn;
      NeverRuns(c) && c.blockSize == h.conn.blockSize
  {
  }

  lemma {:induction false} NeverRunsAlways(start: Conn, es: seq<Event>, limit: nat)
    requires WriteStart(start, 0) && limit < start.blockSize + 4
    ensures var c := Run(start, es, limit).conn;
      NeverRuns(c) && c.blockSize == start.blockSize
  {
    if es != [] {
      NeverRunsAlways(start, es[..|es| - 1], limit);
      NeverRunsStep(Run(start, es[..|es| - 1], limit), es[|es| - 1], limit);
    }
  }

  // ---------------------------------------------------------------- the condition

  /**
   * The assertion in `retransmit` is reachable in every READ, in a plain WRITE exactly when the receive limit
   * has room for a header, and in a WRITE with acknowledged options exactly when it has room for a full block.
   */
  lemma AssertionReachableExactly(start: Conn, e: Data, base: nat, limit: nat)
    requires ReadStart(start, e) || WriteStart(start, base)
    ensures (exists es :: RunHitsAssertion(start, es, limit))
       <==> LateExpiryPossible(start, base, limit)
  {
    if LateExpiryPossible(start, base, limit) {
      var es := Hits(start, e, base, limit);
      assert RunHitsAssertion(start, es, limit);
    } else {
      forall es ensures !RunHitsAssertion(start, es, limit) {
        NeverHits(start, base, es, limit);
      }
    }
  }

  lemma Hits(start: Conn, e: Data, base: nat, limit: nat) returns (es: seq<Event>)
    requires ReadStart(start, e) || WriteStart(start, base)
    requires LateExpiryPossible(start, base, limit)
    ensures HitsAssertion(Run(start, es, limit).conn)
  {
    if start.kind == READ {
      es := ReadHits(start, e, limit);
    } else {
      es := WriteHits(start, base, limit);
    }
  }

  lemma NeverHits(start: Conn, base: nat, es: seq<Event>, limit: nat)
    requires WriteStart(start, base) && !LateExpiryPossible(start, base, limit)
    ensures !HitsAssertion(Run(start, es, limit).conn)
  {
    if base == 1 {
      RunsOnlyWaitingAlways(start, es, limit);
    } else {
      NeverRunsAlways(start, es, limit);
    }
  }
}
