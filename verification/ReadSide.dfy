/** What a READ connection does in every run, whatever the network and the client do. */
module ReadSide {
  import opened Bytes
  import opened Packets
  import opened Timers
  import opened Connection
  import opened History
  import Blocks
  import Options

  /** The DATA datagram of the n-th block, counted from one. */
  function DataWire(e: Data, size: nat, n: nat): Data
    requires size >= 1 && 1 <= n <= |Blocks.Blocks(e, size)|
  {
    SerialiseData(DataPacket(Wire(n), Blocks.Blocks(e, size)[n - 1]))
  }

  /** A READ connection on a file whose encoding is `e`, before its first event. */
  predicate ReadStart(c: Conn, e: Data) {
    && c.kind == READ && c.blockSize >= 1
    && 1 <= c.timeoutS <= 255 && c.timeoutCount == 0
    && c.packet == None && c.source == Some(e)
    && !c.finalAck && !c.finished && c.timer == Disarmed
    && ((c.state == SEND_DATA && c.blockNumber == 1) || (c.state == SEND_OACK && c.blockNumber == 0))
  }

  lemma CreatedForReading(request: RwPacket, env: Options.Surroundings, file: Data)
    requires request.kind == READ && Options.Negotiate(request.options, env).blockSize >= 1
    ensures ReadStart(Created(request, None, env, file, false), Blocks.Encoded(request.mode, file))
  {
    Options.TimeoutNegotiated(request.options, env);
  }

  /** The cached packet is block n and the reader stands right behind it; otherwise it stands before block n. */
  predicate ReaderAt(c: Conn, n: nat, e: Data)
    requires c.blockSize >= 1 && n <= |Blocks.Blocks(e, c.blockSize)|
  {
    var bs := Blocks.Blocks(e, c.blockSize);
    if c.packet.Some? then
      && 1 <= n && c.packet.value == DataPacket(Wire(n), bs[n - 1])
      && c.finalAck == (n == |bs|)
      && c.source.Some?
      && (if n < |bs| then Blocks.Blocks(c.source.value, c.blockSize) == bs[n..] else c.source.value == [])
    else
      && !c.finalAck
      && (c.source.Some? && n >= 1 ==> Blocks.Blocks(c.source.value, c.blockSize) == bs[n - 1..])
      && (c.source.Some? && n == 0 ==> c.source.value == e)
      && (c.source.None? ==> c.state == State.ERROR)
  }

  /** With block n cached the blocks up to it have been handed out, and the source is all the rest. */
  lemma HandedOut(c: Conn, n: nat, e: Data)
    requires ReadInv(c, n, e) && c.packet.Some?
    ensures Concat(Blocks.Blocks(e, c.blockSize)[..n]) + c.source.value == e
  {
    var bs := Blocks.Blocks(e, c.blockSize);
    Blocks.BlocksConcat(e, c.blockSize);
    ConcatSplit(bs[..n], bs[n..]);
    assert bs == bs[..n] + bs[n..];
    if n < |bs| {
      Blocks.BlocksConcat(c.source.value, c.blockSize);
    }
  }

  /** The invariant of a READ connection that is at block n. */
  predicate ReadInv(c: Conn, n: nat, e: Data) {
    && c.kind == READ && c.blockSize >= 1
    && c.blockNumber == Wire(n)
    && n <= |Blocks.Blocks(e, c.blockSize)|
    && (c.state == SEND_OACK || c.state == SEND_DATA || c.state == WAIT_FOR_ACK || c.state == State.ERROR)
    && (c.state == SEND_OACK ==> n == 0)
    && (c.state == SEND_DATA ==> n >= 1)
    && (n == 0 ==> c.packet.None? && c.timer == Disarmed)
    && (c.state == WAIT_FOR_ACK && n >= 1 ==> c.packet.Some?)
    && ReaderAt(c, n, e)
  }

  lemma StartInv(c: Conn, e: Data)
    requires ReadStart(c, e)
    ensures ReadInv(c, c.blockNumber, e)
  {
  }

  /** Reading one block takes the first of the remaining blocks. */
  lemma TakeBlock(rest: Data, size: nat)
    requires size >= 1
    ensures var b := Take(rest, size);
      var bs := Blocks.Blocks(rest, size);
      && b == bs[0]
      && (|b| < size <==> |bs| == 1)
      && (if |bs| == 1 then rest[|b|..] == [] else Blocks.Blocks(rest[|b|..], size) == bs[1..])
  {
    if |rest| == size {
      assert rest[..size] == rest;
    }
  }

  lemma LoadStep(c: Conn, n: nat, e: Data, readFails: bool)
    requires ReadInv(c, n, e) && c.state == SEND_DATA
    ensures ReadInv(Loaded(c, readFails), n, e)
  {
    if c.packet.None? && !readFails {
      TakeBlock(c.source.value, c.blockSize);
      var bs := Blocks.Blocks(e, c.blockSize);
      assert bs[n - 1..][0] == bs[n - 1] && bs[n - 1..][1..] == bs[n..];
    }
  }

  lemma WriteStep(c: Conn, n: nat, e: Data, s: Send, readFails: bool)
    requires ReadInv(c, n, e)
    ensures var w := HandleWrite(c, s, readFails);
      && ReadInv(w.conn, n, e)
      && w.conn.blockSize == c.blockSize && w.conn.oack == c.oack
      && (c.state == SEND_DATA && w.sent.Some? ==> w.sent.value == DataWire(e, c.blockSize, n))
      && (c.state == SEND_OACK && w.sent.Some? ==> w.sent.value == SerialiseOack(OackPacket(c.oack)))
  {
    if c.state == SEND_DATA {
      LoadStep(c, n, e, readFails);
    }
  }

  /** The block a READ connection is at after reading: the next one if the block number moved. */
  function IndexAfter(c: Conn, d: Conn, n: nat): nat {
    if d.blockNumber != c.blockNumber then n + 1 else n
  }

  /** Reading packets never reads the file; it only drops a cached packet to move to the next block. */
  predicate KeepsReader(c: Conn, d: Conn, n: nat) {
    && d.blockSize == c.blockSize && d.oack == c.oack && d.source == c.source
    && (if d.blockNumber != c.blockNumber then d.packet.None? && (n == 0 || c.packet.Some?) else d.packet == c.packet)
  }

  lemma AckStep(c: Conn, n: nat, e: Data, number: Word)
    requires ReadInv(c, n, e) && c.state == WAIT_FOR_ACK
    ensures var d := OnAck(c, number);
      ReadInv(d, IndexAfter(c, d, n), e) && KeepsReader(c, d, n)
  {
    if number == c.blockNumber && !c.finalAck {
      AckAdvances(c, n, e);
    }
  }

  lemma AckAdvances(c: Conn, n: nat, e: Data)
    requires ReadInv(c, n, e) && c.state == WAIT_FOR_ACK && !c.finalAck
    ensures var d := c.(timeoutCount := 0, packet := None, state := SEND_DATA, blockNumber := Next(c.blockNumber));
      ReadInv(d, n + 1, e)
  {
    WireNext(n);
    if n == 0 {
      assert Blocks.Blocks(e, c.blockSize)[0..] == Blocks.Blocks(e, c.blockSize);
    }
  }

  lemma TimeoutStep(c: Conn, n: nat, e: Data)
    requires ReadInv(c, n, e) && c.timer.Expired?
    ensures var d := OnTimeout(c.(timer := Disarmed));
      ReadInv(d, n, e) && d.blockNumber == c.blockNumber && KeepsReader(c, d, n)
  {
  }

  lemma ReadStep(c: Conn, n: nat, e: Data, r: Recv, limit: nat, writeFails: bool)
    requires ReadInv(c, n, e)
    ensures var x := HandleRead(c, r, limit, writeFails);
      && ReadInv(x.conn, IndexAfter(c, x.conn, n), e)
      && KeepsReader(c, x.conn, n)
      && x.thrown != BadNetascii && x.thrown != ErrorState
  {
    if c.timer.Expired? {
      TimeoutStep(c, n, e);
    } else if c.state == WAIT_FOR_ACK && !r.RecvFailed? {
      DatagramStep(c, n, e, Received(r, ACK_PKT_MAX_SIZE));
    } else {
      NothingRead(c, r, limit, writeFails);
    }
  }

  lemma NothingRead(c: Conn, r: Recv, limit: nat, writeFails: bool)
    requires !c.timer.Expired? && c.state != WAIT_FOR_DATA && (c.state == WAIT_FOR_ACK ==> r.RecvFailed?)
    ensures var x := HandleRead(c, r, limit, writeFails);
      x.conn == c && x.thrown != BadNetascii && x.thrown != ErrorState
  {
  }

  lemma DatagramStep(c: Conn, n: nat, e: Data, d: Data)
    requires ReadInv(c, n, e) && c.state == WAIT_FOR_ACK
    ensures var ack := DeserialiseAck(d);
      var x := if ack.Some? then OnAck(c, ack.value.blockNumber) else OnOther(c, d);
      ReadInv(x, IndexAfter(c, x, n), e) && KeepsReader(c, x, n)
  {
    var ack := DeserialiseAck(d);
    if ack.Some? {
      AckStep(c, n, e, ack.value.blockNumber);
    }
  }

  /** Every DATA datagram carries the block its index names, and indices never go back. */
  predicate SentBlocks(sent: seq<Transmission>, index: nat, e: Data, size: nat)
    requires size >= 1 && index <= |Blocks.Blocks(e, size)|
  {
    && (forall i :: 0 <= i < |sent| ==> 1 <= sent[i].index <= index)
    && (forall i :: 0 <= i < |sent| ==> sent[i].bytes == DataWire(e, size, sent[i].index))
    && (forall i, j :: 0 <= i < j < |sent| ==> sent[i].index <= sent[j].index)
  }

  /** What the history of a READ looks like at any time. */
  predicate ReadHistory(h: History, e: Data) {
    && ReadInv(h.conn, h.index, e)
    && (forall i :: 0 <= i < |h.loads| ==> h.loads[i] == i + 1)
    && (h.conn.source.Some? ==> |h.loads| == if h.conn.packet.Some? || h.index == 0 then h.index else h.index - 1)
    && SentBlocks(h.sent, h.index, e, h.conn.blockSize)
  }

  lemma SendStep(sent: seq<Transmission>, index: nat, e: Data, size: nat)
    requires size >= 1 && 1 <= index <= |Blocks.Blocks(e, size)|
    requires SentBlocks(sent, index, e, size)
    ensures SentBlocks(sent + [Transmission(index, DataWire(e, size, index))], index, e, size)
  {
  }

  lemma HistoryWrite(h: History, e: Data, s: Send, readFails: bool)
    requires ReadHistory(h, e)
    ensures ReadHistory(AfterWrite(h, s, readFails), e)
    ensures AfterWrite(h, s, readFails).conn.blockSize == h.conn.blockSize
  {
    WriteStep(h.conn, h.index, e, s, readFails);
    if h.conn.state == SEND_DATA {
      HistoryData(h, e, s, readFails);
    }
  }

  lemma HistoryData(h: History, e: Data, s: Send, readFails: bool)
    requires ReadHistory(h, e) && h.conn.state == SEND_DATA
    ensures ReadHistory(AfterWrite(h, s, readFails), e)
  {
    WriteStep(h.conn, h.index, e, s, readFails);
    SendStep(h.sent, h.index, e, h.conn.blockSize);
    DataSent(h, e, s, readFails);
    BlockLoaded(h, e, s, readFails);
  }

  lemma DataSent(h: History, e: Data, s: Send, readFails: bool)
    requires ReadInv(h.conn, h.index, e) && h.conn.state == SEND_DATA
    ensures var g := AfterWrite(h, s, readFails);
      && g.conn.blockSize == h.conn.blockSize && g.index == h.index
      && (g.sent == h.sent || g.sent == h.sent + [Transmission(h.index, DataWire(e, h.conn.blockSize, h.index))])
  {
    WriteStep(h.conn, h.index, e, s, readFails);
  }

  lemma BlockLoaded(h: History, e: Data, s: Send, readFails: bool)
    requires ReadInv(h.conn, h.index, e) && h.conn.state == SEND_DATA
    ensures var g := AfterWrite(h, s, readFails);
      && g.loads == (if h.conn.packet.None? then h.loads + [h.index] else h.loads)
      && (g.conn.source.Some? ==> g.conn.packet.Some?)
      && (h.conn.packet.None? ==> h.conn.source.Some?)
  {
  }

  lemma HistoryRead(h: History, e: Data, r: Recv, limit: nat, writeFails: bool)
    requires ReadHistory(h, e)
    ensures ReadHistory(AfterRead(h, r, limit, writeFails), e)
    ensures AfterRead(h, r, limit, writeFails).conn.blockSize == h.conn.blockSize
  {
    ReadStep(h.conn, h.index, e, r, limit, writeFails);
  }

  lemma HistoryStep(h: History, e: Data, ev: Event, limit: nat)
    requires ReadHistory(h, e)
    ensures ReadHistory(After(h, ev, limit), e)
    ensures After(h, ev, limit).conn.blockSize == h.conn.blockSize
  {
    match ev
    case Readable(r, writeFails) => HistoryRead(h, e, r, limit, writeFails);
    case Writable(s, readFails) => HistoryWrite(h, e, s, readFails);
    case _ =>
  }

  lemma {:induction false} ReadRun(start: Conn, e: Data, es: seq<Event>, limit: nat)
    requires ReadStart(start, e)
    ensures ReadHistory(Run(start, es, limit), e)
    ensures Run(start, es, limit).conn.blockSize == start.blockSize
  {
    if es == [] {
      StartInv(start, e);
    } else {
      ReadRun(start, e, es[..|es| - 1], limit);
      HistoryStep(Run(start, es[..|es| - 1], limit), e, es[|es| - 1], limit);
    }
  }

  /**
   * In every run against any client and network, every DATA datagram for a block is the same
   * datagram: the block number modulo 65536 and that block of the encoded file. Block k is read from
   * the file by the k-th call of `read_in_to` and by no other.
   */
  lemma RetransmissionIdentity(start: Conn, e: Data, es: seq<Event>, limit: nat)
    requires ReadStart(start, e)
    ensures var h := Run(start, es, limit);
      && h.index <= |Blocks.Blocks(e, start.blockSize)| && h.conn.blockNumber == Wire(h.index)
      && SentBlocks(h.sent, h.index, e, start.blockSize)
      && (forall k :: 0 <= k < |h.loads| ==> h.loads[k] == k + 1)
      && (h.conn.packet.Some? ==> |h.loads| == h.index)
  {
    ReadRun(start, e, es, limit);
  }

  /** No handler of a READ ever lets a codec or an "Error state" exception escape from `handle_read`. */
  lemma ReadNeverThrowsCodec(start: Conn, e: Data, es: seq<Event>, limit: nat, r: Recv)
    requires ReadStart(start, e)
    ensures var x := HandleRead(Run(start, es, limit).conn, r, limit, false);
      x.thrown == Nothing || (x.thrown == RecvError && r.RecvFailed?)
  {
    ReadRun(start, e, es, limit);
    ReadStep(Run(start, es, limit).conn, Run(start, es, limit).index, e, r, limit, false);
  }
}
