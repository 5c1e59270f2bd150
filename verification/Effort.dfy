/** Timeouts: a waiting connection is always woken, and what it does without an answer is bounded. */
module Effort {
  import opened Bytes
  import opened Timers
  import opened Connection
  import opened History
  import opened ReadSide
  import opened WriteSide

  predicate InitialEffort(c: Conn) {
    && 1 <= c.timeoutS <= 255 && c.timeoutCount == 0 && c.timer == Disarmed
    && !c.finished && WaitForWrite(c.state)
  }

  predicate Pending(c: Conn) {
    c.state == SEND_DATA || c.state == SEND_ACK
  }

  predicate EffortInv(h: History) {
    && 1 <= h.conn.timeoutS <= 255
    && h.conn.timeoutCount <= MAX_TIMEOUTS
    && h.retransmits <= 3 * h.packets + h.conn.timeoutCount
    && (!h.conn.finished ==> h.expiries == h.conn.timeoutCount)
    && (!h.conn.finished ==>
          h.transmissions + (if Pending(h.conn) then 1 else 0) <= 1 + h.retransmits + h.packets)
    && (WaitForRead(h.conn.state) && !h.conn.finished && h.transmissions >= 1 ==> !h.conn.timer.Disarmed?)
    && (h.conn.timer.Armed? ==> h.conn.timer.seconds == h.conn.timeoutS)
    && (h.conn.state == SEND_OACK ==> h.transmissions == 0)
    && (h.transmissions == 0 ==> h.conn.timer.Disarmed?)
  }

  lemma EffortWrite(h: History, s: Send, readFails: bool)
    requires EffortInv(h)
    ensures EffortInv(AfterWrite(h, s, readFails))
  {
  }

  lemma EffortTimeout(h: History, r: Recv, limit: nat, writeFails: bool)
    requires EffortInv(h) && h.conn.timer.Expired?
    ensures EffortInv(AfterRead(h, r, limit, writeFails))
  {
  }

  lemma EffortPacket(h: History, r: Recv, limit: nat, writeFails: bool)
    requires EffortInv(h) && Parses(h.conn, r, limit)
    ensures EffortInv(AfterRead(h, r, limit, writeFails))
  {
  }

  lemma EffortNothing(h: History, r: Recv, limit: nat, writeFails: bool)
    requires EffortInv(h) && !h.conn.timer.Expired? && !Parses(h.conn, r, limit)
    ensures EffortInv(AfterRead(h, r, limit, writeFails))
  {
  }

  lemma {:induction false} EffortRun(start: Conn, es: seq<Event>, limit: nat)
    requires InitialEffort(start)
    ensures EffortInv(Run(start, es, limit))
  {
    if es != [] {
      var h, e := Run(start, es[..|es| - 1], limit), es[|es| - 1];
      EffortRun(start, es[..|es| - 1], limit);
      match e
      case Readable(r, writeFails) =>
        if h.conn.timer.Expired? {
          EffortTimeout(h, r, limit, writeFails);
        } else if Parses(h.conn, r, limit) {
          EffortPacket(h, r, limit, writeFails);
        } else {
          EffortNothing(h, r, limit, writeFails);
        }
      case Writable(s, readFails) => EffortWrite(h, s, readFails);
      case _ =>
    }
  }

  lemma StartsWithoutEffort(c: Conn, e: Data, base: nat)
    requires ReadStart(c, e) || WriteStart(c, base)
    ensures InitialEffort(c)
  {
  }

  /**
   * Bounded effort, for reads and writes against any peer: p parsed packets lead to at most 3(p + 1)
   * retransmissions and, while unfinished, at most 4p + 4 DATA or ACK datagrams; and the fourth
   * timeout in a row finishes the connection.
   */
  lemma BoundedEffort(start: Conn, es: seq<Event>, limit: nat)
    requires InitialEffort(start)
    ensures var h := Run(start, es, limit);
      && h.retransmits <= 3 * (h.packets + 1)
      && (!h.conn.finished ==> h.transmissions <= 4 * h.packets + 4)
      && (h.expiries >= 4 ==> h.conn.finished)
  {
    EffortRun(start, es, limit);
  }

  /**
   * A connection that waits has something to wake it if and only if it has sent a DATA or ACK packet: what
   * is missing is a timer for the option acknowledgement.
   */
  lemma WokenExactly(start: Conn, es: seq<Event>, limit: nat)
    requires InitialEffort(start)
    requires WaitForRead(Run(start, es, limit).conn.state) && !Run(start, es, limit).conn.finished
    ensures var h := Run(start, es, limit);
      !h.conn.timer.Disarmed? <==> h.transmissions >= 1
  {
    EffortRun(start, es, limit);
  }

  /**
   * Never stuck: once it has sent a DATA or ACK packet, a connection that waits has a timer that is
   * running with its negotiated period of 1 to 255 seconds or has an expiry to be read.
   */
  lemma NeverStuck(start: Conn, es: seq<Event>, limit: nat)
    requires InitialEffort(start)
    requires var h := Run(start, es, limit);
      WaitForRead(h.conn.state) && !h.conn.finished && h.transmissions >= 1
    ensures var t := Run(start, es, limit).conn.timer;
      t.Expired? || (t.Armed? && 1 <= t.seconds <= 255)
  {
    EffortRun(start, es, limit);
  }

  /** Reading an expiry ends the connection with the counter at its limit and never otherwise. */
  lemma TimeoutFinishesExactlyAtLimit(start: Conn, es: seq<Event>, limit: nat, r: Recv)
    requires InitialEffort(start)
    requires var h := Run(start, es, limit); h.conn.timer.Expired? && !h.conn.finished
    ensures var h := Run(start, es, limit);
      AfterRead(h, r, limit, false).conn.finished <==> h.expiries == 3
  {
    EffortRun(start, es, limit);
  }
}
