/** What a connection makes of each datagram and of an expiry, in terms of the blocks moved so far. */
module Reactions {
  import opened Bytes
  import opened Packets
  import opened Timers
  import opened Connection
  import opened History
  import opened ReadSide
  import opened WriteSide
  import opened Effort
  import Blocks

  predicate Listens(c: Conn) {
    WaitForRead(c.state) && !c.timer.Expired? && !c.finished
  }

  /** The number of the block before block n, where the code recognises it: never at wire number 0. */
  predicate IsPrevious(number: Word, n: nat) {
    n >= 1 && Wire(n) != 0 && number == Wire(n - 1)
  }

  /** An acknowledgement is read from the first four bytes. */
  lemma AckFromFour(d: Data)
    ensures DeserialiseAck(Take(d, 4)) == DeserialiseAck(d)
  {
  }

  predicate AckMoves(h: History, g: History, blocks: nat, number: Word) {
    if number == Wire(h.index) then
      if h.index == blocks then g.conn.finished
      else g.conn.state == SEND_DATA && g.index == h.index + 1 && !g.conn.finished
    else if IsPrevious(number, h.index) then g.conn.state == SEND_DATA && g.index == h.index && !g.conn.finished
    else g.conn.state == State.ERROR && !g.conn.finished
  }

  lemma AckRead(h: History, e: Data, d: Data, limit: nat, writeFails: bool)
    requires ReadInv(h.conn, h.index, e) && h.conn.state == WAIT_FOR_ACK && Listens(h.conn)
    ensures var g, p := AfterRead(h, Datagram(d), limit, writeFails), DeserialiseAck(d);
      if p.None? then g.conn == h.conn
      else
        && AckMoves(h, g, |Blocks.Blocks(e, h.conn.blockSize)|, p.value.blockNumber)
        && g.conn.timeoutCount == 0
  {
    AckFromFour(d);
    if h.index >= 1 {
      WireBack(h.index);
    }
    WireNext(h.index);
  }

  /**
   * In every run of a READ that waits at block n, the acknowledgement of n moves it on to block n + 1, or ends it
   * at the last block; that of n - 1 has block n sent again, unless n is 0 modulo 65536; any other leads to ERROR;
   * and what is no acknowledgement changes nothing.
   */
  lemma ReadReacts(start: Conn, e: Data, es: seq<Event>, d: Data, limit: nat, writeFails: bool)
    requires ReadStart(start, e)
    requires var c := Run(start, es, limit).conn; c.state == WAIT_FOR_ACK && Listens(c)
    ensures var h := Run(start, es, limit);
      var g, p := AfterRead(h, Datagram(d), limit, writeFails), DeserialiseAck(d);
      if p.None? then g.conn == h.conn
      else
        && AckMoves(h, g, |Blocks.Blocks(e, start.blockSize)|, p.value.blockNumber)
        && g.conn.timeoutCount == 0
  {
    ReadRun(start, e, es, limit);
    AckRead(Run(start, es, limit), e, d, limit, writeFails);
  }

  /** In a sending state the block of the current index goes out, and the wait for its acknowledgement begins. */
  lemma ReadSends(start: Conn, e: Data, es: seq<Event>, limit: nat)
    requires ReadStart(start, e) && Run(start, es, limit).conn.state == SEND_DATA
    ensures var h := Run(start, es, limit);
      var w := HandleWrite(h.conn, Sent, false);
      && w.conn.state == WAIT_FOR_ACK
      && 1 <= h.index <= |Blocks.Blocks(e, start.blockSize)|
      && w.sent == Some(DataWire(e, start.blockSize, h.index))
  {
    ReadRun(start, e, es, limit);
    WriteStep(Run(start, es, limit).conn, Run(start, es, limit).index, e, Sent, false);
  }

  predicate DataMoves(h: History, g: History, n: nat, p: DataPacket, writeFails: bool) {
    if p.blockNumber == Wire(n) then
      if Blocks.Decoded(h.conn.mode, p.data).None? then g.conn.state == WAIT_FOR_DATA && g.accepted == h.accepted
      else if writeFails then g.conn.state == State.ERROR && g.accepted == h.accepted
      else g.conn.state == SEND_ACK && g.accepted == h.accepted + [p]
    else
      && g.accepted == h.accepted && g.conn.sink == h.conn.sink
      && g.conn.state == if IsPrevious(p.blockNumber, n) then SEND_ACK else State.ERROR
  }

  lemma DataRead(h: History, base: nat, d: Data, limit: nat, writeFails: bool)
    requires WriteInv(h.conn, h.accepted, base) && h.conn.state == WAIT_FOR_DATA && Listens(h.conn)
    ensures var g, p := AfterRead(h, Datagram(d), limit, writeFails), DeserialiseData(Take(d, limit));
      if p.None? then g.conn == h.conn.(finished := IsErrorPacket(Take(d, limit))) && g.accepted == h.accepted
      else
        && DataMoves(h, g, |h.accepted| + base, p.value, writeFails)
        && g.conn.timeoutCount == 0 && !g.conn.finished
  {
    var n := |h.accepted| + base;
    if n >= 1 {
      WireBack(n);
    }
  }

  /**
   * In every run of a WRITE that waits for block n, a block n that decodes is stored and acknowledged, or leads to
   * ERROR if it cannot be written; block n - 1 is only acknowledged, unless n is 0 modulo 65536; any other leads to
   * ERROR; an ERROR packet ends it; and anything else changes nothing.
   */
  lemma WriteReacts(start: Conn, base: nat, es: seq<Event>, d: Data, limit: nat, writeFails: bool)
    requires WriteStart(start, base)
    requires var c := Run(start, es, limit).conn; c.state == WAIT_FOR_DATA && Listens(c)
    ensures var h := Run(start, es, limit);
      var g, p := AfterRead(h, Datagram(d), limit, writeFails), DeserialiseData(Take(d, limit));
      if p.None? then g.conn == h.conn.(finished := IsErrorPacket(Take(d, limit))) && g.accepted == h.accepted
      else
        && DataMoves(h, g, |h.accepted| + base, p.value, writeFails)
        && g.conn.timeoutCount == 0 && !g.conn.finished
  {
    WriteRun(start, base, es, limit);
    DataRead(Run(start, es, limit), base, d, limit, writeFails);
  }

  /** The acknowledgement of the block before block n goes out, and the last one ends the connection. */
  predicate Acknowledges(c: Conn, n: nat, last: bool) {
    var w := HandleWrite(c, Sent, false);
    && n >= 1 && w.sent.Some? && DeserialiseAck(w.sent.value) == Some(AckPacket(Wire(n - 1)))
    && (if last then w.conn.finished else w.conn.state == WAIT_FOR_DATA)
  }

  lemma AckSent(c: Conn, n: nat)
    requires c.state == SEND_ACK && n >= 1 && c.blockNumber == Wire(n - 1)
    ensures Acknowledges(c, n, c.finalAck)
  {
    AckRoundTrip(AckPacket(c.blockNumber));
  }

  /** Whenever a WRITE sends, it acknowledges the block before the one it will wait for, and the last block ends it. */
  lemma WriteSends(start: Conn, base: nat, es: seq<Event>, limit: nat)
    requires WriteStart(start, base) && Run(start, es, limit).conn.state == SEND_ACK
    ensures var h := Run(start, es, limit);
      Acknowledges(h.conn, |h.accepted| + base, Final(h.accepted, start.blockSize))
  {
    WriteRun(start, base, es, limit);
    var h := Run(start, es, limit);
    AckSent(h.conn, |h.accepted| + base);
  }

  /** The state from which a waiting connection sends its last packet again. */
  function BackToSending(s: State): State {
    match s
    case WAIT_FOR_ACK => SEND_DATA
    case WAIT_FOR_DATA => SEND_ACK
    case _ => s
  }

  /**
   * In every run an unread expiry is read instead of whatever the socket holds. The fourth in a row ends the
   * connection; any other makes a waiting one send its last packet again, with its file and cached block as they
   * were.
   */
  lemma ExpiryReacts(start: Conn, es: seq<Event>, r: Recv, limit: nat, writeFails: bool)
    requires InitialEffort(start)
    requires var c := Run(start, es, limit).conn; c.timer.Expired? && !c.finished
    ensures var h := Run(start, es, limit);
      var g := AfterRead(h, r, limit, writeFails);
      && g.conn.timer == Disarmed && g.accepted == h.accepted
      && g.conn.packet == h.conn.packet && g.conn.source == h.conn.source && g.conn.sink == h.conn.sink
      && (g.conn.finished <==> h.expiries == 3)
      && g.conn.state == if h.expiries == 3 then h.conn.state else BackToSending(h.conn.state)
  {
    EffortRun(start, es, limit);
  }
}
