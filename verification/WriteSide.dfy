/** What a WRITE connection does in every run, whatever datagrams arrive. */
module WriteSide {
  import opened Bytes
  import opened Packets
  import opened Timers
  import opened Connection
  import opened History
  import Blocks
  import Netascii
  import Options

  /**
   * A WRITE connection before its first event. `base` is the number of the first block it will take:
   * 1 after a plain request, 0 (see `OackWriteRefusesBlockOne`) after an option acknowledgement.
   */
  predicate WriteStart(c: Conn, base: nat) {
    && c.kind == WRITE && c.blockNumber == 0
    && 1 <= c.timeoutS <= 255 && c.timeoutCount == 0
    && c.packet == None && c.sink == Some([])
    && !c.finalAck && !c.finished && c.timer == Disarmed
    && ((c.state == SEND_ACK && base == 1) || (c.state == SEND_OACK && base == 0))
  }

  lemma CreatedForWriting(request: RwPacket, env: Options.Surroundings)
    requires request.kind == WRITE
    ensures var c := Created(request, None, env, [], false);
      WriteStart(c, if c.oack == [] then 1 else 0)
  {
    Options.TimeoutNegotiated(request.options, env);
  }

  function Payloads(ps: seq<DataPacket>): (ds: seq<Data>)
    ensures |ds| == |ps|
    ensures forall i :: 0 <= i < |ps| ==> ds[i] == ps[i].data
  {
    seq(|ps|, i requires 0 <= i < |ps| => ps[i].data)
  }

  lemma PayloadsSnoc(ps: seq<DataPacket>, p: DataPacket)
    ensures Payloads(ps + [p]) == Payloads(ps) + [p.data]
  {
  }

  /** The accepted packets are numbered consecutively, and all but the last are full. */
  predicate Consecutive(ps: seq<DataPacket>, base: nat, size: nat) {
    && (forall i :: 0 <= i < |ps| ==> ps[i].blockNumber == Wire(i + base))
    && (forall i :: 0 <= i < |ps| - 1 ==> |ps[i].data| >= size)
  }

  predicate Final(ps: seq<DataPacket>, size: nat) {
    ps != [] && |ps[|ps| - 1].data| < size
  }

  /** The number a WRITE connection acknowledges or waits for, from what it has accepted. */
  predicate Numbered(c: Conn, count: nat, base: nat) {
    && (c.state == SEND_OACK ==> count == 0 && base == 0 && c.blockNumber == 0)
    && (c.state == SEND_ACK ==> count + base >= 1 && c.blockNumber == Wire(count + base - 1))
    && (c.state == WAIT_FOR_DATA ==> c.blockNumber == Wire(count + base))
    && (count + base == 0 ==> c.timer == Disarmed)
  }

  predicate WriteInv(c: Conn, ps: seq<DataPacket>, base: nat) {
    && c.kind == WRITE
    && (c.state == SEND_OACK || c.state == SEND_ACK || c.state == WAIT_FOR_DATA || c.state == State.ERROR)
    && Numbered(c, |ps|, base)
    && Consecutive(ps, base, c.blockSize)
    && c.finalAck == Final(ps, c.blockSize)
    && (c.state == WAIT_FOR_DATA || c.state == SEND_OACK ==> !c.finalAck)
    && (c.sink.Some? ==> Blocks.DecodedBlocks(c.mode, Payloads(ps)) == Some(c.sink.value))
    && (c.sink.None? ==> c.state == State.ERROR)
  }

  lemma WireBack(n: nat)
    requires n >= 1
    ensures Wire(n - 1) == Previous(Wire(n))
  {
    WireNext(n - 1);
  }

  lemma WriteSideWrite(c: Conn, ps: seq<DataPacket>, base: nat, s: Send, readFails: bool)
    requires WriteInv(c, ps, base)
    ensures var d := HandleWrite(c, s, readFails).conn;
      WriteInv(d, ps, base) && d.blockSize == c.blockSize
  {
    if c.state == SEND_ACK {
      WireNext(|ps| + base - 1);
    }
  }

  lemma WriteSideTimeout(c: Conn, ps: seq<DataPacket>, base: nat)
    requires WriteInv(c, ps, base) && c.timer.Expired?
    ensures var d := OnTimeout(c.(timer := Disarmed));
      WriteInv(d, ps, base) && d.blockSize == c.blockSize
  {
    if c.state == WAIT_FOR_DATA {
      WireBack(|ps| + base);
    }
  }

  lemma AcceptStep(c: Conn, ps: seq<DataPacket>, base: nat, p: DataPacket)
    requires WriteInv(c, ps, base) && c.state == WAIT_FOR_DATA && p.blockNumber == c.blockNumber
    requires Blocks.Decoded(c.mode, p.data).Some?
    ensures var d := OnData(c, p, false).conn;
      WriteInv(d, ps + [p], base) && d.blockSize == c.blockSize
  {
    PayloadsSnoc(ps, p);
    Blocks.DecodedBlocksSnoc(c.mode, Payloads(ps), p.data);
    ConsecutiveSnoc(ps, p, base, c.blockSize);
  }

  lemma ConsecutiveSnoc(ps: seq<DataPacket>, p: DataPacket, base: nat, size: nat)
    requires Consecutive(ps, base, size) && !Final(ps, size) && p.blockNumber == Wire(|ps| + base)
    ensures Consecutive(ps + [p], base, size) && (Final(ps + [p], size) <==> |p.data| < size)
  {
  }

  lemma DataStep(c: Conn, ps: seq<DataPacket>, base: nat, p: DataPacket, writeFails: bool)
    requires WriteInv(c, ps, base) && c.state == WAIT_FOR_DATA
    ensures var d := OnData(c, p, writeFails).conn;
      var taken := p.blockNumber == c.blockNumber && Blocks.Decoded(c.mode, p.data).Some?
                   && c.sink.Some? && !writeFails;
      WriteInv(d, if taken then ps + [p] else ps, base) && d.blockSize == c.blockSize
  {
    if p.blockNumber == c.blockNumber {
      if Blocks.Decoded(c.mode, p.data).Some? && !writeFails {
        AcceptStep(c, ps, base, p);
      }
    } else if p.blockNumber == c.blockNumber - 1 {
      WireBack(|ps| + base);
    }
  }

  lemma WriteSideRead(c: Conn, ps: seq<DataPacket>, base: nat, r: Recv, limit: nat, writeFails: bool)
    requires WriteInv(c, ps, base)
    ensures var d := HandleRead(c, r, limit, writeFails).conn;
      var taken := AcceptedPacket(c, r, limit, writeFails);
      WriteInv(d, if taken.Some? then ps + [taken.value] else ps, base) && d.blockSize == c.blockSize
  {
    if c.timer.Expired? {
      WriteSideTimeout(c, ps, base);
    } else if c.state == WAIT_FOR_DATA && !r.RecvFailed? {
      var data := DeserialiseData(Received(r, limit));
      if data.Some? {
        DataStep(c, ps, base, data.value, writeFails);
      }
    }
  }

  predicate WriteHistory(h: History, base: nat, size: nat) {
    WriteInv(h.conn, h.accepted, base) && h.conn.blockSize == size
  }

  lemma WriteHistoryStep(h: History, base: nat, size: nat, e: Event, limit: nat)
    requires WriteHistory(h, base, size)
    ensures WriteHistory(After(h, e, limit), base, size)
  {
    match e
    case Readable(r, writeFails) => WriteSideRead(h.conn, h.accepted, base, r, limit, writeFails);
    case Writable(s, readFails) => WriteSideWrite(h.conn, h.accepted, base, s, readFails);
    case _ =>
  }

  lemma {:induction false} WriteRun(start: Conn, base: nat, es: seq<Event>, limit: nat)
    requires WriteStart(start, base)
    ensures WriteHistory(Run(start, es, limit), base, start.blockSize)
  {
    if es == [] {
      assert Payloads([]) == [];
    } else {
      WriteRun(start, base, es[..|es| - 1], limit);
      WriteHistoryStep(Run(start, es[..|es| - 1], limit), base, start.blockSize, es[|es| - 1], limit);
    }
  }

  /** Blocks 1, 2, 3, ... modulo 65536, each once and in order. */
  predicate OnceEach(ps: seq<DataPacket>) {
    forall i :: 0 <= i < |ps| ==> ps[i].blockNumber == Wire(i + 1)
  }

  /**
   * On any datagrams, under any receive limit, a plain WRITE takes blocks 1, 2, 3, ... modulo 65536, each
   * exactly once; the file is the concatenation of their decoded payloads; and the number it
   * acknowledges or waits for follows from the count alone, across timeouts and the wrap.
   */
  lemma WriteExactlyOnce(start: Conn, es: seq<Event>, limit: nat)
    requires WriteStart(start, 1)
    ensures var h := Run(start, es, limit);
      && OnceEach(h.accepted)
      && (h.conn.sink.Some? ==> Blocks.DecodedBlocks(h.conn.mode, Payloads(h.accepted)) == Some(h.conn.sink.value))
      && (h.conn.state == SEND_ACK ==> h.conn.blockNumber == Wire(|h.accepted|))
      && (h.conn.state == WAIT_FOR_DATA ==> h.conn.blockNumber == Wire(|h.accepted| + 1))
  {
    WriteRun(start, 1, es, limit);
    TakenOnce(Run(start, es, limit).conn, Run(start, es, limit).accepted);
  }

  lemma TakenOnce(c: Conn, ps: seq<DataPacket>)
    requires WriteInv(c, ps, 1)
    ensures OnceEach(ps)
    ensures c.sink.Some? ==> Blocks.DecodedBlocks(c.mode, Payloads(ps)) == Some(c.sink.value)
    ensures c.state == SEND_ACK ==> c.blockNumber == Wire(|ps|)
    ensures c.state == WAIT_FOR_DATA ==> c.blockNumber == Wire(|ps| + 1)
  {
  }

  lemma AcceptedIsReceived(c: Conn, r: Recv, limit: nat, writeFails: bool)
    requires AcceptedPacket(c, r, limit, writeFails).Some?
    ensures r.Datagram? && DeserialiseData(Take(r.bytes, limit)) == AcceptedPacket(c, r, limit, writeFails)
    ensures AcceptedPacket(c, r, limit, writeFails).value.blockNumber == c.blockNumber && c.state == WAIT_FOR_DATA
  {
  }

  // ------------------------------------------------------------- the limit as coded

  lemma AcceptedFits(c: Conn, r: Recv, limit: nat, writeFails: bool)
    requires AcceptedPacket(c, r, limit, writeFails).Some?
    ensures |AcceptedPacket(c, r, limit, writeFails).value.data| + 4 <= limit
  {
  }

  lemma {:induction false} AcceptedAllFit(start: Conn, es: seq<Event>, limit: nat)
    ensures forall p :: p in Run(start, es, limit).accepted ==> |p.data| + 4 <= limit
  {
    if es != [] {
      var h, e := Run(start, es[..|es| - 1], limit), es[|es| - 1];
      AcceptedAllFit(start, es[..|es| - 1], limit);
      if e.Readable? && AcceptedPacket(h.conn, e.r, limit, e.writeFails).Some? {
        AcceptedFits(h.conn, e.r, limit, e.writeFails);
      }
    }
  }

  /** With the receive limit of the code, S bytes with the header counted in, no run takes a second block. */
  lemma CodedWriteAtMostOneBlock(start: Conn, base: nat, es: seq<Event>)
    requires WriteStart(start, base)
    ensures |Run(start, es, start.blockSize).accepted| <= 1
  {
    WriteRun(start, base, es, start.blockSize);
    AcceptedAllFit(start, es, start.blockSize);
    SecondNeedsRoom(Run(start, es, start.blockSize).accepted, base, start.blockSize, start.blockSize);
  }

  lemma {:induction false} SecondNeedsRoom(ps: seq<DataPacket>, base: nat, size: nat, limit: nat)
    requires Consecutive(ps, base, size) && (forall p :: p in ps ==> |p.data| + 4 <= limit)
    ensures |ps| >= 2 ==> limit >= size + 4
  {
    if |ps| >= 2 {
      assert ps[0] in ps;
    }
  }

  /** Sending the acknowledgement due and receiving one block. */
  function Exchange(number: Word, payload: Data): seq<Event> {
    [Writable(Sent, false), Readable(Datagram(SerialiseData(DataPacket(number, payload))), false)]
  }

  lemma RunExchange(start: Conn, es: seq<Event>, number: Word, payload: Data, limit: nat)
    ensures Run(start, es + Exchange(number, payload), limit)
         == AfterRead(AfterWrite(Run(start, es, limit), Sent, false),
                      Datagram(SerialiseData(DataPacket(number, payload))), limit, false)
  {
    var x := Exchange(number, payload);
    RunSnoc(start, es, x[0], limit);
    RunSnoc(start, es + [x[0]], x[1], limit);
    assert es + [x[0]] + [x[1]] == es + x;
  }

  /** A datagram cut to the receive limit still parses, with its payload cut. */
  lemma CutDatagram(number: Word, b: Data, limit: nat)
    requires limit >= 4
    ensures DeserialiseData(Take(SerialiseData(DataPacket(number, b)), limit))
         == Some(DataPacket(number, Take(b, limit - 4)))
  {
    var d := SerialiseData(DataPacket(number, b));
    DataRoundTrip(DataPacket(number, b));
    if |d| > limit {
      CutWire(d[..4], b, limit);
    }
  }

  lemma CutWire(header: Data, b: Data, limit: nat)
    requires |header| == 4 && 4 <= limit < 4 + |b|
    ensures (header + b)[..limit] == header + b[..limit - 4]
  {
  }

  /** A DATA datagram that fits the receive limit is parsed as it was sent. */
  lemma FittingData(c: Conn, p: DataPacket, limit: nat, writeFails: bool)
    requires c.state == WAIT_FOR_DATA && !c.timer.Expired? && |p.data| + 4 <= limit
    ensures HandleRead(c, Datagram(SerialiseData(p)), limit, writeFails) == OnData(c, p, writeFails)
  {
    DataRoundTrip(p);
    assert Take(SerialiseData(p), limit) == SerialiseData(p);
  }

  /** A WRITE that is about to acknowledge and can still store something. */
  predicate CanStore(c: Conn) {
    c.kind == WRITE && c.state == SEND_ACK && !c.finalAck && c.sink.Some? && c.timeoutS >= 1
  }

  /** What one exchange with a new block leaves behind. */
  predicate Exchanged(h: History, g: History, number: Word, payload: Data) {
    && g.accepted == h.accepted + [DataPacket(number, payload)]
    && g.conn.blockNumber == number && g.conn.blockSize == h.conn.blockSize
    && g.conn.finalAck == (|payload| < h.conn.blockSize) && CanStore(g.conn.(finalAck := false))
    && g.conn.timer.Armed? && g.conn.timeoutCount == 0 && g.conn.mode == h.conn.mode
  }

  lemma ExchangeAccepts(h: History, number: Word, payload: Data, limit: nat)
    requires CanStore(h.conn) && number == Next(h.conn.blockNumber)
    requires limit >= 4 && Blocks.Decoded(h.conn.mode, Take(payload, limit - 4)).Some?
    ensures Exchanged(h, AfterRead(AfterWrite(h, Sent, false),
                                   Datagram(SerialiseData(DataPacket(number, payload))), limit, false),
                      number, Take(payload, limit - 4))
  {
    CutDatagram(number, payload, limit);
  }

  lemma RunAccepts(start: Conn, es: seq<Event>, number: Word, payload: Data, limit: nat) returns (more: seq<Event>)
    requires CanStore(Run(start, es, limit).conn) && number == Next(Run(start, es, limit).conn.blockNumber)
    requires limit >= 4 && Blocks.Decoded(Run(start, es, limit).conn.mode, Take(payload, limit - 4)).Some?
    ensures more == es + Exchange(number, payload)
    ensures Exchanged(Run(start, es, limit), Run(start, more, limit), number, Take(payload, limit - 4))
  {
    more := es + Exchange(number, payload);
    RunExchange(start, es, number, payload, limit);
    ExchangeAccepts(Run(start, es, limit), number, payload, limit);
  }

  /** After acknowledged options a full block 0 is taken, and answered without ending the transfer. */
  lemma FullBlockZero(start: Conn, limit: nat) returns (es: seq<Event>)
    requires WriteStart(start, 0) && limit >= start.blockSize + 4
    ensures var h := Run(start, es, limit);
      CanStore(h.conn) && h.conn.blockNumber == 0 && h.conn.timeoutCount == 0 && |h.accepted| == 1
  {
    var full: Data := seq(start.blockSize, _ => 0);
    Netascii.DecodeWithoutCr(full);
    var oackSent := HandleWrite(start, Sent, false).conn;
    FittingData(oackSent, DataPacket(0, full), limit, false);
    RunExchange(start, [], 0, full, limit);
    es := [] + Exchange(0, full);
  }

  /** A WRITE, with or without options, can ever store a second block exactly when the limit has room for the header. */
  lemma SecondBlockNeedsHeaderRoom(start: Conn, base: nat, limit: nat)
    requires WriteStart(start, base)
    ensures (exists es :: |Run(start, es, limit).accepted| >= 2) <==> limit >= start.blockSize + 4
  {
    if limit >= start.blockSize + 4 {
      var es := TwoBlocks(start, base, limit);
    } else {
      forall es ensures |Run(start, es, limit).accepted| < 2 {
        WriteRun(start, base, es, limit);
        AcceptedAllFit(start, es, limit);
        SecondNeedsRoom(Run(start, es, limit).accepted, base, start.blockSize, limit);
      }
    }
  }

  lemma TwoBlocks(start: Conn, base: nat, limit: nat) returns (es: seq<Event>)
    requires WriteStart(start, base) && limit >= start.blockSize + 4
    ensures |Run(start, es, limit).accepted| == 2
  {
    Netascii.DecodeWithoutCr([]);
    if base == 0 {
      es := FullBlockZero(start, limit);
      es := RunAccepts(start, es, 1, [], limit);
    } else {
      var full: Data := seq(start.blockSize, _ => 0);
      Netascii.DecodeWithoutCr(full);
      es := RunAccepts(start, [], 1, full, limit);
      es := RunAccepts(start, es, 2, [], limit);
    }
  }

  // ---------------------------------------------------------- WRITE with options

  /**
   * After acknowledging options a WRITE numbers its first block 0: in every run, as long as nothing
   * was accepted, DATA 1 makes it give up with ERROR although RFC 2347 has the client send just that.
   */
  lemma OackWriteRefusesBlockOne(start: Conn, es: seq<Event>, limit: nat, payload: Data, writeFails: bool)
    requires WriteStart(start, 0) && limit >= 4
    requires var h := Run(start, es, limit); h.conn.state == WAIT_FOR_DATA && h.accepted == []
    ensures var c := Run(start, es, limit).conn;
      var x := HandleRead(c, Datagram(SerialiseData(DataPacket(1, payload))), limit, writeFails);
      c.blockNumber == 0 && x.conn == c.(timeoutCount := 0, state := State.ERROR)
  {
    WriteRun(start, 0, es, limit);
    var c := Run(start, es, limit).conn;
    CutDatagram(1, payload, limit);
    assert !c.timer.Expired? && c.blockNumber == 0;
    RefusesOne(c, Take(payload, limit - 4), Datagram(SerialiseData(DataPacket(1, payload))), limit, writeFails);
  }

  lemma RefusesOne(c: Conn, payload: Data, r: Recv, limit: nat, writeFails: bool)
    requires c.state == WAIT_FOR_DATA && !c.timer.Expired? && c.blockNumber == 0
    requires r.Datagram? && DeserialiseData(Take(r.bytes, limit)) == Some(DataPacket(1, payload))
    ensures HandleRead(c, r, limit, writeFails).conn == c.(timeoutCount := 0, state := State.ERROR)
  {
  }
}
