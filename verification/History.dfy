/**
 * One connection driven by an arbitrary environment: any datagrams, any send results, any device
 * errors, time passing at any moment. The history records what the connection did so far.
 */
module History {
  import opened Bytes
  import opened Packets
  import opened Timers
  import opened Connection
  import Blocks

  /** The handlers the event loop may call, a broken socket, and the passing of time. */
  datatype Event =
    | Readable(r: Recv, writeFails: bool)
    | Writable(s: Send, readFails: bool)
    | Broken
    | Elapse

  /** A DATA datagram and the number, not reduced modulo 65536, of the block it carries. */
  datatype Transmission = Transmission(index: nat, bytes: Data)

  /**
   * `index` counts how often a READ moved on to another block number, `loads` lists at which index each
   * call of `read_in_to` was made, `accepted` the DATA packets of a WRITE that went into the file,
   * `packets` the ACK and DATA packets that were parsed, `expiries` the timeouts since the last of
   * them, `retransmits` the calls of `retransmit` and `transmissions` the DATA and ACK datagrams sent.
   */
  datatype History = History(
    conn: Conn,
    index: nat,
    loads: seq<nat>,
    sent: seq<Transmission>,
    accepted: seq<DataPacket>,
    packets: nat,
    expiries: nat,
    retransmits: nat,
    transmissions: nat)

  function Started(c: Conn): History {
    History(c, c.blockNumber, [], [], [], 0, 0, 0, 0)
  }

  /** `handle_read` will parse a packet of the kind it waits for. */
  predicate Parses(c: Conn, r: Recv, limit: nat) {
    && Consumes(c)
    && !r.RecvFailed?
    && if c.state == WAIT_FOR_ACK then DeserialiseAck(Received(r, ACK_PKT_MAX_SIZE)).Some?
       else DeserialiseData(Received(r, limit)).Some?
  }

  /** The packet `handle_read` will append to the file, if any. */
  function AcceptedPacket(c: Conn, r: Recv, limit: nat, writeFails: bool): Option<DataPacket> {
    if c.state == WAIT_FOR_DATA && Parses(c, r, limit) then
      var p := DeserialiseData(Received(r, limit)).value;
      if p.blockNumber == c.blockNumber && Blocks.Decoded(c.mode, p.data).Some?
         && c.sink.Some? && !writeFails
      then Some(p) else None
    else None
  }

  function AfterRead(h: History, r: Recv, limit: nat, writeFails: bool): History {
    var c := HandleRead(h.conn, r, limit, writeFails).conn;
    var packet := AcceptedPacket(h.conn, r, limit, writeFails);
    var parsed := Parses(h.conn, r, limit);
    var expired := h.conn.timer.Expired?;
    h.(conn := c,
       index := if c.blockNumber != h.conn.blockNumber then h.index + 1 else h.index,
       accepted := if packet.Some? then h.accepted + [packet.value] else h.accepted,
       packets := if parsed then h.packets + 1 else h.packets,
       expiries := if expired then h.expiries + 1 else if parsed then 0 else h.expiries,
       retransmits := if expired && h.conn.timeoutCount < MAX_TIMEOUTS then h.retransmits + 1 else h.retransmits)
  }

  function AfterWrite(h: History, s: Send, readFails: bool): History {
    var w := HandleWrite(h.conn, s, readFails);
    var numbered := h.conn.state == SEND_DATA || h.conn.state == SEND_ACK;
    h.(conn := w.conn,
       loads := if h.conn.state == SEND_DATA && h.conn.packet.None? then h.loads + [h.index] else h.loads,
       sent := if h.conn.state == SEND_DATA && w.sent.Some? then h.sent + [Transmission(h.index, w.sent.value)]
               else h.sent,
       transmissions := if numbered && w.sent.Some? then h.transmissions + 1 else h.transmissions)
  }

  function After(h: History, e: Event, limit: nat): History {
    match e
    case Readable(r, writeFails) => AfterRead(h, r, limit, writeFails)
    case Writable(s, readFails) => AfterWrite(h, s, readFails)
    case Broken => h.(conn := h.conn.(finished := true))
    case Elapse => h.(conn := h.conn.(timer := Elapsed(h.conn.timer)))
  }

  /** The history of a run; `limit` is the receive limit in WAIT_FOR_DATA. */
  function Run(start: Conn, es: seq<Event>, limit: nat): History {
    if es == [] then Started(start)
    else After(Run(start, es[..|es| - 1], limit), es[|es| - 1], limit)
  }

  lemma RunSnoc(start: Conn, es: seq<Event>, e: Event, limit: nat)
    ensures Run(start, es + [e], limit) == After(Run(start, es, limit), e, limit)
  {
    assert (es + [e])[..|es|] == es;
  }
}
