/** When a healthy server gives up on a healthy WRITE, although nothing was delivered out of order. */
module WriteAborts {
  import opened Bytes
  import opened Packets
  import opened Timers
  import opened Connection
  import opened History
  import opened WriteSide
  import opened HonestWrites
  import opened WriteResults
  import Blocks
  import Terms

  /** What an ordered run keeps: leading blocks stored, the file intact, and no ERROR before the wrap. */
  predicate OrderedWrite(h: History, e: Data, size: nat)
    requires size >= 1
  {
    var bs := Blocks.Blocks(e, size);
    && WriteInv(h.conn, h.accepted, 1) && h.conn.blockSize == size && h.conn.sink.Some?
    && Payloads(h.accepted) <= bs
    && (h.conn.state == State.ERROR ==> |h.accepted| >= 65535 && |bs| >= 65536)
  }

  /** The packet an ordered sender makes the server see is the next block or the one before it. */
  lemma OrderedPacket(h: History, ev: Event, e: Data, size: nat, limit: nat, p: DataPacket) returns (k: nat)
    requires size >= 1 && limit >= size + 4 && ev.Readable? && ev.r.Datagram? && InStep(h, ev, e, size)
    requires DeserialiseData(Take(ev.r.bytes, limit)) == Some(p)
    ensures k == |h.accepted| || k == |h.accepted| + 1
    ensures 1 <= k <= |Blocks.Blocks(e, size)| && p == DataPacket(Wire(k), Blocks.Blocks(e, size)[k - 1])
  {
    ParsesOnlyData(ev.r.bytes, limit);
    k :| |h.accepted| <= k <= |h.accepted| + 1 && IsBlock(ev.r.bytes, e, size, k);
    CutDatagram(Wire(k), Blocks.Blocks(e, size)[k - 1], limit);
    BlocksFit(e, size, k - 1);
  }

  lemma OrderedData(h: History, e: Data, size: nat, p: DataPacket, k: nat)
    requires size >= 1 && OrderedWrite(h, e, size) && h.conn.state == WAIT_FOR_DATA
    requires k == |h.accepted| || k == |h.accepted| + 1
    requires 1 <= k <= |Blocks.Blocks(e, size)| && p == DataPacket(Wire(k), Blocks.Blocks(e, size)[k - 1])
    ensures var d := OnData(h.conn, p, false).conn;
      d.sink.Some? && (d.state == State.ERROR ==> |h.accepted| >= 65535 && |Blocks.Blocks(e, size)| >= 65536)
    ensures p.blockNumber == h.conn.blockNumber ==> k == |h.accepted| + 1
  {
    WireNext(|h.accepted|);
    StillToCome(h.accepted, e, size);
  }

  lemma OrderedRead(h: History, e: Data, size: nat, r: Recv, limit: nat)
    requires size >= 1 && limit >= size + 4 && OrderedWrite(h, e, size)
    requires InStep(h, Readable(r, false), e, size)
    ensures OrderedWrite(AfterRead(h, r, limit, false), e, size)
  {
    WriteSideRead(h.conn, h.accepted, 1, r, limit, false);
    if !h.conn.timer.Expired? && h.conn.state == WAIT_FOR_DATA && !r.RecvFailed? {
      var p := DeserialiseData(Received(r, limit));
      if p.Some? {
        OrderedParsed(h, e, size, r, limit, p.value);
        return;
      }
    }
    NothingParsed(h, r, limit);
  }

  lemma NothingParsed(h: History, r: Recv, limit: nat)
    requires h.conn.state != WAIT_FOR_ACK
    requires h.conn.timer.Expired? || h.conn.state != WAIT_FOR_DATA || r.RecvFailed?
             || DeserialiseData(Received(r, limit)).None?
    ensures var g := AfterRead(h, r, limit, false);
      && g.accepted == h.accepted && g.conn.sink == h.conn.sink
      && (g.conn.state == State.ERROR <==> h.conn.state == State.ERROR)
  {
  }

  lemma OrderedParsed(h: History, e: Data, size: nat, r: Recv, limit: nat, p: DataPacket)
    requires size >= 1 && limit >= size + 4 && OrderedWrite(h, e, size)
    requires InStep(h, Readable(r, false), e, size)
    requires !h.conn.timer.Expired? && h.conn.state == WAIT_FOR_DATA && !r.RecvFailed?
    requires DeserialiseData(Received(r, limit)) == Some(p)
    ensures var g := AfterRead(h, r, limit, false);
      && g.conn.sink.Some? && Payloads(g.accepted) <= Blocks.Blocks(e, size)
      && (g.conn.state == State.ERROR ==> |h.accepted| >= 65535 && |Blocks.Blocks(e, size)| >= 65536)
  {
    var k := OrderedPacket(h, Readable(r, false), e, size, limit, p);
    OrderedData(h, e, size, p, k);
    DataRead(h, r, limit, p);
    if p.blockNumber == h.conn.blockNumber {
      PrefixGrows(h.accepted, p, Blocks.Blocks(e, size));
    }
  }

  /** Reading a DATA packet in terms of that packet. */
  lemma DataRead(h: History, r: Recv, limit: nat, p: DataPacket)
    requires !h.conn.timer.Expired? && h.conn.state == WAIT_FOR_DATA && !r.RecvFailed?
    requires DeserialiseData(Received(r, limit)) == Some(p)
    ensures var g := AfterRead(h, r, limit, false);
      && g.conn == OnData(h.conn, p, false).conn
      && (g.accepted == h.accepted || (g.accepted == h.accepted + [p] && p.blockNumber == h.conn.blockNumber))
  {
  }

  lemma OrderedEvent(h: History, e: Data, size: nat, ev: Event, limit: nat)
    requires size >= 1 && limit >= size + 4 && OrderedWrite(h, e, size)
    requires InStep(h, ev, e, size) && Healthy(ev)
    ensures OrderedWrite(After(h, ev, limit), e, size)
  {
    match ev
    case Readable(r, _) => OrderedRead(h, e, size, r, limit);
    case Writable(s, readFails) => WriteSideWrite(h.conn, h.accepted, 1, s, readFails);
    case _ =>
  }

  lemma {:induction false} OrderedRun(start: Conn, e: Data, es: seq<Event>, limit: nat)
    requires WriteStart(start, 1) && start.blockSize >= 1 && limit >= start.blockSize + 4
    requires InOrder(start, es, e, limit)
    ensures OrderedWrite(Run(start, es, limit), e, start.blockSize)
  {
    if es == [] {
      WriteRun(start, 1, es, limit);
    } else {
      OrderedRun(start, e, es[..|es| - 1], limit);
      OrderedEvent(Run(start, es[..|es| - 1], limit), e, start.blockSize, es[|es| - 1], limit);
    }
  }

  // ------------------------------------------------------- without room for the header

  /** Without room for a full block nothing follows the first packet taken, and nothing leads to ERROR. */
  predicate ShortWrite(h: History, size: nat) {
    && WriteInv(h.conn, h.accepted, 1) && h.conn.blockSize == size
    && h.conn.sink.Some? && h.conn.state != State.ERROR
    && (h.accepted == [] || h.conn.finalAck)
  }

  /** Before anything was taken only block 1 can arrive, which is just what is waited for. */
  lemma ShortPacket(h: History, ev: Event, e: Data, size: nat, limit: nat, p: DataPacket)
    requires size >= 1 && limit < size + 4 && ShortWrite(h, size) && h.conn.state == WAIT_FOR_DATA
    requires ev.Readable? && ev.r.Datagram? && InStep(h, ev, e, size)
    requires DeserialiseData(Take(ev.r.bytes, limit)) == Some(p)
    ensures p.blockNumber == h.conn.blockNumber && |p.data| < size
  {
    ParsesOnlyData(ev.r.bytes, limit);
    var k :| |h.accepted| <= k <= |h.accepted| + 1 && IsBlock(ev.r.bytes, e, size, k);
    CutDatagram(Wire(k), Blocks.Blocks(e, size)[k - 1], limit);
  }

  lemma ShortData(c: Conn, p: DataPacket)
    requires p.blockNumber == c.blockNumber && |p.data| < c.blockSize && c.sink.Some? && c.state != State.ERROR
    ensures var d := OnData(c, p, false).conn;
      && d.sink.Some? && d.state != State.ERROR
      && (Blocks.Decoded(c.mode, p.data).Some? ==> d.finalAck)
  {
  }

  lemma ShortRead(h: History, e: Data, size: nat, r: Recv, limit: nat)
    requires size >= 1 && limit < size + 4 && ShortWrite(h, size)
    requires InStep(h, Readable(r, false), e, size)
    ensures ShortWrite(AfterRead(h, r, limit, false), size)
  {
    WriteSideRead(h.conn, h.accepted, 1, r, limit, false);
    if !h.conn.timer.Expired? && h.conn.state == WAIT_FOR_DATA && !r.RecvFailed? {
      var p := DeserialiseData(Received(r, limit));
      if p.Some? {
        ShortPacket(h, Readable(r, false), e, size, limit, p.value);
        ShortData(h.conn, p.value);
        return;
      }
    }
    NothingParsed(h, r, limit);
    FinalStays(h.conn, r, limit);
  }

  lemma FinalStays(c: Conn, r: Recv, limit: nat)
    ensures c.finalAck ==> HandleRead(c, r, limit, false).conn.finalAck
  {
  }

  lemma ShortEvent(h: History, e: Data, size: nat, ev: Event, limit: nat)
    requires size >= 1 && limit < size + 4 && ShortWrite(h, size)
    requires InStep(h, ev, e, size) && Healthy(ev)
    ensures ShortWrite(After(h, ev, limit), size)
  {
    match ev
    case Readable(r, _) => ShortRead(h, e, size, r, limit);
    case Writable(s, readFails) => WriteSideWrite(h.conn, h.accepted, 1, s, readFails);
    case _ =>
  }

  lemma {:induction false} ShortRun(start: Conn, e: Data, es: seq<Event>, limit: nat)
    requires WriteStart(start, 1) && start.blockSize >= 1 && limit < start.blockSize + 4
    requires InOrder(start, es, e, limit)
    ensures ShortWrite(Run(start, es, limit), start.blockSize)
  {
    if es == [] {
      WriteRun(start, 1, es, limit);
    } else {
      ShortRun(start, e, es[..|es| - 1], limit);
      ShortEvent(Run(start, es[..|es| - 1], limit), e, start.blockSize, es[|es| - 1], limit);
    }
  }

  predicate Aborts(start: Conn, es: seq<Event>, limit: nat) {
    Run(start, es, limit).conn.state == State.ERROR
  }

  lemma AbortNeedsWrap(start: Conn, e: Data, es: seq<Event>, limit: nat)
    requires WriteStart(start, 1) && start.blockSize >= 1
    requires InOrder(start, es, e, limit) && Aborts(start, es, limit)
    ensures var bs := Blocks.Blocks(e, start.blockSize);
      limit >= start.blockSize + 4 && |bs| >= 65536 && Blocks.DecodedBlocks(start.mode, bs[..65535]).Some?
  {
    if limit < start.blockSize + 4 {
      ShortRun(start, e, es, limit);
    } else {
      OrderedRun(start, e, es, limit);
      Terms.TermsKept(start, es, limit);
      var ps, bs := Run(start, es, limit).accepted, Blocks.Blocks(e, start.blockSize);
      assert Payloads(ps) == bs[..|ps|];
      Blocks.FrontDecodes(start.mode, bs, 65535, |ps|);
    }
  }

  /** The wait for block 65536 has number 0, and block 65535 arrives once more. */
  lemma AbortAtWrap(start: Conn, e: Data, limit: nat) returns (es: seq<Event>)
    requires WriteStart(start, 1) && start.blockSize >= 1 && limit >= start.blockSize + 4
    requires var bs := Blocks.Blocks(e, start.blockSize);
      |bs| >= 65536 && Blocks.DecodedBlocks(start.mode, bs[..65535]).Some?
    ensures InOrder(start, es, e, limit) && Aborts(start, es, limit)
  {
    es := CleanWrite(start, e, limit, 65535);
    var h := Run(start, es, limit);
    InOrderSnoc(start, es, Writable(Sent, false), e, limit);
    RunSnoc(start, es, Writable(Sent, false), limit);
    es := es + [Writable(Sent, false)];
    es := RepeatAborts(start, e, limit, es);
  }

  lemma RepeatAborts(start: Conn, e: Data, limit: nat, es: seq<Event>) returns (more: seq<Event>)
    requires start.blockSize >= 1 && limit >= start.blockSize + 4 && InOrder(start, es, e, limit)
    requires |Blocks.Blocks(e, start.blockSize)| >= 65536
    requires var h := Run(start, es, limit);
      |h.accepted| == 65535 && h.conn.state == WAIT_FOR_DATA && !h.conn.timer.Expired? && h.conn.blockNumber == 0
    ensures InOrder(start, more, e, limit) && Aborts(start, more, limit)
  {
    var p := DataPacket(65535, Blocks.Blocks(e, start.blockSize)[65534]);
    var again := Readable(Datagram(SerialiseData(p)), false);
    BlocksFit(e, start.blockSize, 65534);
    FittingData(Run(start, es, limit).conn, p, limit, false);
    assert IsBlock(again.r.bytes, e, start.blockSize, 65535);
    InOrderSnoc(start, es, again, e, limit);
    RunSnoc(start, es, again, limit);
    more := es + [again];
  }

  // ------------------------------------------------------ with acknowledged options

  /** Block 1, the first a sender has, is refused by a WRITE that waits for block 0. */
  lemma FirstBlockAborts(start: Conn, e: Data, limit: nat) returns (es: seq<Event>)
    requires WriteStart(start, 0) && start.blockSize >= 1 && limit >= 4
    ensures InOrder(start, es, e, limit) && Aborts(start, es, limit)
  {
    InOrderSnoc(start, [], Writable(Sent, false), e, limit);
    RunSnoc(start, [], Writable(Sent, false), limit);
    es := [] + [Writable(Sent, false)];
    es := BlockOneRefused(start, e, limit, es);
  }

  lemma BlockOneRefused(start: Conn, e: Data, limit: nat, es: seq<Event>) returns (more: seq<Event>)
    requires start.blockSize >= 1 && limit >= 4 && InOrder(start, es, e, limit)
    requires var h := Run(start, es, limit);
      h.accepted == [] && h.conn.state == WAIT_FOR_DATA && !h.conn.timer.Expired? && h.conn.blockNumber == 0
    ensures InOrder(start, more, e, limit) && Aborts(start, more, limit)
  {
    var b := Blocks.Blocks(e, start.blockSize)[0];
    var d := SerialiseData(DataPacket(1, b));
    CutDatagram(1, b, limit);
    RefusesOne(Run(start, es, limit).conn, Take(b, limit - 4), Datagram(d), limit, false);
    assert IsBlock(d, e, start.blockSize, 1);
    InOrderSnoc(start, es, Readable(Datagram(d), false), e, limit);
    RunSnoc(start, es, Readable(Datagram(d), false), limit);
    more := es + [Readable(Datagram(d), false)];
  }

  lemma {:induction false} NothingAborts(start: Conn, e: Data, es: seq<Event>, limit: nat)
    requires WriteStart(start, 0) && start.blockSize >= 1 && limit < 4
    requires InOrder(start, es, e, limit)
    ensures !Aborts(start, es, limit)
  {
    if es != [] {
      var h, ev := Run(start, es[..|es| - 1], limit), es[|es| - 1];
      NothingAborts(start, e, es[..|es| - 1], limit);
      WriteRun(start, 0, es[..|es| - 1], limit);
      NothingHappens(h, ev, limit);
    }
  }

  lemma NothingHappens(h: History, ev: Event, limit: nat)
    requires WriteInv(h.conn, h.accepted, 0) && h.conn.state != State.ERROR && limit < 4 && Healthy(ev)
    ensures After(h, ev, limit).conn.state != State.ERROR
  {
    if ev.Readable? {
      NothingParsed(h, ev.r, limit);
    }
  }

  // ---------------------------------------------------------------- the condition

  /** What it takes for a WRITE to go into ERROR with nobody at fault. */
  predicate CanAbort(start: Conn, base: nat, e: Data, limit: nat)
    requires start.blockSize >= 1
  {
    var bs := Blocks.Blocks(e, start.blockSize);
    if base == 0 then limit >= 4
    else limit >= start.blockSize + 4 && |bs| >= 65536 && Blocks.DecodedBlocks(start.mode, bs[..65535]).Some?
  }

  /**
   * Without any local failure, and from a sender that keeps in step, a plain WRITE goes into ERROR in some run if
   * and only if the receive limit has room for the header, the file has 65536 blocks or more and the
   * first 65535 can be stored. The limit of the code has no such room, so there it never does. A WRITE that
   * acknowledged options does so whatever the file is.
   */
  lemma WriteAbortExactly(start: Conn, base: nat, e: Data, limit: nat)
    requires WriteStart(start, base) && start.blockSize >= 1
    ensures (exists es :: InOrder(start, es, e, limit) && Aborts(start, es, limit))
       <==> CanAbort(start, base, e, limit)
  {
    if CanAbort(start, base, e, limit) {
      var es := AbortRun(start, base, e, limit);
    } else {
      forall es | InOrder(start, es, e, limit) ensures !Aborts(start, es, limit) {
        if base == 0 {
          NothingAborts(start, e, es, limit);
        } else if Aborts(start, es, limit) {
          AbortNeedsWrap(start, e, es, limit);
        }
      }
    }
  }

  lemma AbortRun(start: Conn, base: nat, e: Data, limit: nat) returns (es: seq<Event>)
    requires WriteStart(start, base) && start.blockSize >= 1 && CanAbort(start, base, e, limit)
    ensures InOrder(start, es, e, limit) && Aborts(start, es, limit)
  {
    if base == 0 {
      es := FirstBlockAborts(start, e, limit);
    } else {
      es := AbortAtWrap(start, e, limit);
    }
  }
}
