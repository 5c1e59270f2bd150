/** What the transfers over an order-keeping and over a reordering network have in common. */
module Transfer {
  import opened Bytes
  import opened Packets
  import opened Timers
  import opened Connection
  import opened Client
  import opened ReadSide
  import Blocks

  /** Which receiver the server talks to: one after RFC 1350, or `get_file`. */
  datatype Policy = Rfc1350 | Strict(mode: Mode)

  /** A datagram in flight and the unbounded number of the block it carries or answers. */
  datatype Message = Message(index: nat, bytes: Data)

  function AckMessage(n: nat): Message {
    Message(n, SerialiseAck(AckPacket(Wire(n))))
  }

  function React(policy: Policy, size: nat, r: Receiver, d: Data, reply: bool): Reaction {
    match policy
    case Rfc1350 => Rfc1350Step(size, r, d, reply)
    case Strict(mode) => StrictStep(mode, r, d)
  }

  predicate IsErrorDatagram(d: Data) {
    |d| >= 2 && d[1] == Opcode(PacketType.ERROR)
  }

  /** A datagram of the server: an ERROR, the option acknowledgement, or the block its index names. */
  predicate FromServer(m: Message, e: Data, size: nat, oack: seq<Opt>)
    requires size >= 1
  {
    || IsErrorDatagram(m.bytes)
    || (m.index == 0 && m.bytes == SerialiseOack(OackPacket(oack)))
    || (1 <= m.index <= |Blocks.Blocks(e, size)| && m.bytes == DataWire(e, size, m.index))
  }

  /** The receiver holds the first |payloads| blocks. */
  predicate ReceiverAt(policy: Policy, r: Receiver, e: Data, size: nat)
    requires size >= 1
  {
    var bs := Blocks.Blocks(e, size);
    && |r.payloads| <= |bs| && r.payloads == bs[..|r.payloads|]
    && r.expected == Wire(|r.payloads| + 1)
    && (r.phase == Complete ==> |r.payloads| == |bs|)
    && (policy == Rfc1350 ==> r.phase == Receiving || r.phase == Complete)
    && (r.phase == Receiving ==> |r.payloads| < |bs|)
    && (r.phase == Receiving || r.phase == Complete ==>
          Blocks.DecodedBlocks(if policy == Rfc1350 then OCTET else policy.mode, r.payloads) == Some(r.output))
    && (r.phase == Threw ==> policy != Rfc1350 && Blocks.DecodedBlocks(policy.mode, r.payloads) == None)
  }

  /** A transfer may start: `get_file` asks for no options, so it is served 512-byte blocks. */
  predicate Starts(policy: Policy, start: Conn, e: Data) {
    && ReadStart(start, e)
    && (policy != Rfc1350 ==> start.blockSize == DATA_PKT_DATA_MAX_SIZE && start.blockNumber == 1)
  }

  lemma NewReceiverAt(policy: Policy, e: Data, size: nat)
    requires size >= 1
    ensures ReceiverAt(policy, NewReceiver(), e, size)
  {
    assert Blocks.Blocks(e, size)[..0] == [];
  }

  lemma AllBlocks(policy: Policy, r: Receiver, e: Data, size: nat)
    requires size >= 1 && ReceiverAt(policy, r, e, size)
    ensures |r.payloads| >= |Blocks.Blocks(e, size)| ==> r.payloads == Blocks.Blocks(e, size)
  {
    var bs := Blocks.Blocks(e, size);
    assert bs[..|bs|] == bs;
  }

  lemma ErrorDatagramIgnored(d: Data)
    requires IsErrorDatagram(d)
    ensures DeserialiseData(d) == None && DeserialiseOack(d) == None
    ensures DeserialiseData(Take(d, DATA_PKT_MAX_SIZE)) == None
  {
  }

  lemma OackIsNoData(oack: seq<Opt>)
    ensures var d := SerialiseOack(OackPacket(oack));
      DeserialiseData(d) == None && DeserialiseData(Take(d, DATA_PKT_MAX_SIZE)) == None
  {
  }

  lemma SentByServer(c: Conn, n: nat, e: Data, send: Send, readFails: bool)
    requires ReadInv(c, n, e)
    ensures var w := HandleWrite(c, send, readFails);
      w.sent.Some? ==> FromServer(Message(n, w.sent.value), e, c.blockSize, c.oack)
  {
    WriteStep(c, n, e, send, readFails);
  }

  /** With an acknowledgement at hand and no expiry, `handle_read` parses exactly that acknowledgement. */
  lemma HeadAckRead(c: Conn, j: nat, limit: nat, writeFails: bool)
    requires c.state == WAIT_FOR_ACK && !c.timer.Expired?
    ensures Connection.HandleRead(c, Datagram(SerialiseAck(AckPacket(Wire(j)))), limit, writeFails).conn
         == OnAck(c, Wire(j))
  {
    AckRoundTrip(AckPacket(Wire(j)));
  }

  /** The answer to an option acknowledgement leads to the first block. */
  lemma AckZero(c: Conn, e: Data)
    requires ReadInv(c, 0, e) && c.state == WAIT_FOR_ACK && !c.finished
    ensures var d := OnAck(c, Wire(0));
      && IndexAfter(c, d, 0) == 1
      && d == c.(timeoutCount := 0, packet := None, state := SEND_DATA, blockNumber := 1)
  {
  }

  lemma BlockFits(e: Data, size: nat, k: nat)
    requires size >= 1 && 1 <= k <= |Blocks.Blocks(e, size)|
    ensures var d := DataWire(e, size, k);
      && DeserialiseData(d) == Some(DataPacket(Wire(k), Blocks.Blocks(e, size)[k - 1]))
      && |d| <= size + 4
      && (|Blocks.Blocks(e, size)[k - 1]| < size <==> k == |Blocks.Blocks(e, size)|)
  {
    DataRoundTrip(DataPacket(Wire(k), Blocks.Blocks(e, size)[k - 1]));
    Blocks.BlocksShape(e, size, k - 1);
  }

  lemma AcceptStep(policy: Policy, r: Receiver, e: Data, size: nat)
    requires size >= 1 && ReceiverAt(policy, r, e, size) && r.phase == Receiving
    ensures var k := |r.payloads| + 1;
      var mode := if policy == Rfc1350 then OCTET else policy.mode;
      var x := Accept(mode, size, r, DataPacket(Wire(k), Blocks.Blocks(e, size)[k - 1]));
      ReceiverAt(policy, x.receiver, e, size) && |x.receiver.payloads| == k && x.ack == Some(Wire(k))
  {
    var k := |r.payloads| + 1;
    var mode := if policy == Rfc1350 then OCTET else policy.mode;
    var bs := Blocks.Blocks(e, size);
    Blocks.BlocksShape(e, size, k - 1);
    Blocks.DecodedBlocksSnoc(mode, r.payloads, bs[k - 1]);
    assert bs[..k] == bs[..k - 1] + [bs[k - 1]];
    WireNext(k);
  }

  /**
   * The receiver's reaction to block k when no other block it may be offered looks like the next one:
   * it stores k only as the next block, and acknowledges nothing it does not hold.
   */
  lemma DataReaction(policy: Policy, r: Receiver, e: Data, size: nat, k: nat, reply: bool)
    requires size >= 1 && ReceiverAt(policy, r, e, size) && 1 <= k <= |Blocks.Blocks(e, size)|
    requires k <= |r.payloads| + 1
    requires r.phase == Receiving && Wire(k) == Wire(|r.payloads| + 1) ==> k == |r.payloads| + 1
    requires policy != Rfc1350 ==> size == DATA_PKT_DATA_MAX_SIZE
    ensures var x := React(policy, size, r, DataWire(e, size, k), reply);
      && ReceiverAt(policy, x.receiver, e, size)
      && |r.payloads| <= |x.receiver.payloads| <= (if k <= |r.payloads| then |r.payloads| else k)
      && (x.ack.Some? ==> x.ack.value == Wire(k) && k <= |x.receiver.payloads|)
  {
    if r.phase == Receiving && k == |r.payloads| + 1 {
      NextBlockStored(policy, r, e, size, reply);
    } else {
      OtherBlockIgnored(policy, r, e, size, k, reply);
    }
  }

  lemma NextBlockStored(policy: Policy, r: Receiver, e: Data, size: nat, reply: bool)
    requires size >= 1 && ReceiverAt(policy, r, e, size) && r.phase == Receiving
    requires policy != Rfc1350 ==> size == DATA_PKT_DATA_MAX_SIZE
    ensures var k := |r.payloads| + 1;
      var x := React(policy, size, r, DataWire(e, size, k), reply);
      ReceiverAt(policy, x.receiver, e, size) && |x.receiver.payloads| == k && x.ack == Some(Wire(k))
  {
    var k := |r.payloads| + 1;
    BlockFits(e, size, k);
    ReactionToPacket(policy, size, r, DataWire(e, size, k), DataPacket(Wire(k), Blocks.Blocks(e, size)[k - 1]), reply);
    AcceptStep(policy, r, e, size);
  }

  lemma OtherBlockIgnored(policy: Policy, r: Receiver, e: Data, size: nat, k: nat, reply: bool)
    requires size >= 1 && ReceiverAt(policy, r, e, size) && 1 <= k <= |Blocks.Blocks(e, size)|
    requires r.phase != Receiving || Wire(k) != r.expected
    requires policy != Rfc1350 ==> size == DATA_PKT_DATA_MAX_SIZE
    ensures var x := React(policy, size, r, DataWire(e, size, k), reply);
      && ReceiverAt(policy, x.receiver, e, size) && x.receiver.payloads == r.payloads
      && (x.ack.Some? ==> x.ack.value == Wire(k) && policy == Rfc1350)
  {
    BlockFits(e, size, k);
    ReactionToPacket(policy, size, r, DataWire(e, size, k), DataPacket(Wire(k), Blocks.Blocks(e, size)[k - 1]), reply);
  }

  /** What both receivers do with a DATA packet, without the parsing. */
  lemma ReactionToPacket(policy: Policy, size: nat, r: Receiver, d: Data, p: DataPacket, reply: bool)
    requires DeserialiseData(d) == Some(p)
    requires policy != Rfc1350 ==> size == DATA_PKT_DATA_MAX_SIZE && |d| <= DATA_PKT_MAX_SIZE
    ensures var x := React(policy, size, r, d, reply);
      if r.phase == Receiving && p.blockNumber == r.expected then
        x == Accept(if policy == Rfc1350 then OCTET else policy.mode, size, r, p)
      else
        && x.receiver == r.(phase := x.receiver.phase)
        && (x.receiver.phase == r.phase || (policy != Rfc1350 && x.receiver.phase == Aborted))
        && (x.ack.Some? ==> x.ack.value == p.blockNumber && policy == Rfc1350)
  {
  }

  /** The same for any datagram of the server. */
  lemma ReactionTo(policy: Policy, r: Receiver, e: Data, size: nat, oack: seq<Opt>, m: Message, reply: bool)
    requires size >= 1 && ReceiverAt(policy, r, e, size) && FromServer(m, e, size, oack)
    requires m.index <= |r.payloads| + 1
    requires r.phase == Receiving && m.index >= 1 && Wire(m.index) == Wire(|r.payloads| + 1) ==>
               m.index == |r.payloads| + 1
    requires policy != Rfc1350 ==> size == DATA_PKT_DATA_MAX_SIZE
    ensures var x := React(policy, size, r, m.bytes, reply);
      && ReceiverAt(policy, x.receiver, e, size)
      && |r.payloads| <= |x.receiver.payloads|
      && |x.receiver.payloads| <= (if m.index <= |r.payloads| then |r.payloads| else m.index)
      && (x.ack.Some? ==> x.ack.value == Wire(m.index) && m.index <= |x.receiver.payloads|)
  {
    if IsErrorDatagram(m.bytes) {
      ErrorDatagramIgnored(m.bytes);
    } else if m.index == 0 && m.bytes == SerialiseOack(OackPacket(oack)) {
      OackIsNoData(oack);
    } else {
      DataReaction(policy, r, e, size, m.index, reply);
    }
  }

  /** Everything a strict receiver holds but the last block was decoded. */
  predicate FrontDecodes(policy: Policy, r: Receiver) {
    policy.Strict? && r.payloads != [] ==>
      Blocks.DecodedBlocks(policy.mode, r.payloads[..|r.payloads| - 1]).Some?
  }

  lemma ReactsWithOne(policy: Policy, size: nat, r: Receiver, d: Data, reply: bool)
    ensures var s := React(policy, size, r, d, reply).receiver;
      s.payloads == r.payloads
      || (r.phase == Receiving && |s.payloads| == |r.payloads| + 1 && s.payloads[..|r.payloads|] == r.payloads)
  {
  }

  lemma FrontKept(policy: Policy, size: nat, r: Receiver, e: Data, d: Data, reply: bool)
    requires size >= 1 && ReceiverAt(policy, r, e, size) && FrontDecodes(policy, r)
    ensures FrontDecodes(policy, React(policy, size, r, d, reply).receiver)
  {
    ReactsWithOne(policy, size, r, d, reply);
  }

  /** Without a datagram the block number of a READ stays. */
  lemma NoDatagramStep(c: Conn, r: Recv, limit: nat)
    requires c.kind == READ && c.state != WAIT_FOR_DATA
    requires !Consumes(c) || !r.Datagram?
    ensures Connection.HandleRead(c, r, limit, false).conn.blockNumber == c.blockNumber
  {
  }
}
