/**
 * A READ over a network that may lose, repeat, delay and reorder datagrams without limit, for files
 * of at most 65536 blocks, so that the wire numbers of blocks do not repeat.
 */
module BagTransfer {
  import opened Bytes
  import opened Packets
  import opened Timers
  import opened Connection
  import opened Client
  import opened ReadSide
  import opened Transfer
  import Blocks

  /** Everything ever sent stays deliverable; a datagram that is never delivered again is lost. */
  datatype System = System(conn: Conn, n: nat, receiver: Receiver, data: set<Message>, acks: set<Message>)

  datatype Action =
    | ServerWrites(s: Send, readFails: bool)
    | ServerReads(arrival: Option<Message>, socketFails: bool)
    | Elapses
    | ReceiverReads(m: Message, reply: bool)

  function Initial(c: Conn): System {
    System(c, c.blockNumber, NewReceiver(), {}, {})
  }

  /** What the server's socket holds: only an acknowledgement that was sent can arrive. */
  function Incoming(s: System, arrival: Option<Message>, socketFails: bool): Recv {
    if socketFails then RecvFailed
    else if arrival.Some? && arrival.value in s.acks then Datagram(arrival.value.bytes)
    else WouldBlock
  }

  function Step(policy: Policy, s: System, a: Action): System {
    match a
    case ServerWrites(send, readFails) =>
      var w := HandleWrite(s.conn, send, readFails);
      s.(conn := w.conn, data := if w.sent.Some? then s.data + {Message(s.n, w.sent.value)} else s.data)
    case ServerReads(arrival, socketFails) =>
      var c := HandleRead(s.conn, Incoming(s, arrival, socketFails), s.conn.blockSize, false).conn;
      s.(conn := c, n := IndexAfter(s.conn, c, s.n))
    case Elapses => s.(conn := s.conn.(timer := Elapsed(s.conn.timer)))
    case ReceiverReads(m, reply) =>
      if m !in s.data then s
      else
        var x := React(policy, s.conn.blockSize, s.receiver, m.bytes, reply);
        s.(receiver := x.receiver,
           acks := if x.ack.Some? then s.acks + {Message(m.index, SerialiseAck(AckPacket(x.ack.value)))} else s.acks)
  }

  function Run(policy: Policy, start: Conn, actions: seq<Action>): System {
    if actions == [] then Initial(start)
    else Step(policy, Run(policy, start, actions[..|actions| - 1]), actions[|actions| - 1])
  }

  /** Old datagrams of any age may be around, but nothing from the future. */
  predicate Ordered(policy: Policy, s: System, e: Data, size: nat, oack: seq<Opt>) {
    var r := |s.receiver.payloads|;
    && size >= 1 && s.conn.blockSize == size && s.conn.oack == oack
    && ReadInv(s.conn, s.n, e)
    && ReceiverAt(policy, s.receiver, e, size)
    && r <= s.n <= r + 1
    && (forall m :: m in s.data ==> m.index <= s.n && FromServer(m, e, size, oack))
    && (forall m :: m in s.acks ==> m.index <= r && m.bytes == SerialiseAck(AckPacket(Wire(m.index))))
    && (policy != Rfc1350 ==> size == DATA_PKT_DATA_MAX_SIZE)
  }

  /** Nothing about an index before the first one of the transfer was ever sent. */
  predicate FromStart(s: System, low: nat) {
    && low <= s.n
    && (forall m :: m in s.data ==> low <= m.index)
    && (forall m :: m in s.acks ==> low <= m.index)
  }

  /** No wire number can have been used twice: the file is short enough, or the receiver has not got that far. */
  predicate NoRepeat(s: System, e: Data, size: nat)
    requires size >= 1
  {
    |Blocks.Blocks(e, size)| <= 65536 || (|s.receiver.payloads| <= 65535 && FromStart(s, 1))
  }

  /** A stale acknowledgement never moves the server on: it causes a resend, or an abort. */
  lemma StaleAck(c: Conn, n: nat, e: Data, j: nat)
    requires ReadInv(c, n, e) && c.state == WAIT_FOR_ACK && j <= n < 65536
    ensures var d := OnAck(c, Wire(j));
      && IndexAfter(c, d, n) == (if j == n && !c.finalAck then n + 1 else n)
      && (j < n ==> d == c.(timeoutCount := 0, state := if j == n - 1 then SEND_DATA else State.ERROR))
      && (j == n && c.finalAck ==> d.finished)
  {
  }

  lemma AckArrives(policy: Policy, s: System, e: Data, m: Message)
    requires Ordered(policy, s, e, s.conn.blockSize, s.conn.oack) && NoRepeat(s, e, s.conn.blockSize) && m in s.acks
    requires s.conn.state == WAIT_FOR_ACK && !s.conn.timer.Expired?
    ensures Ordered(policy, Step(policy, s, ServerReads(Some(m), false)), e, s.conn.blockSize, s.conn.oack)
  {
    HeadAckRead(s.conn, m.index, s.conn.blockSize, false);
    if s.n < 65536 {
      StaleAck(s.conn, s.n, e, m.index);
    } else if Wire(m.index) == Wire(s.n) && m.index >= 1 {
      WireApart(m.index, s.n);
    }
    AckStep(s.conn, s.n, e, Wire(m.index));
  }

  lemma ServerReadsStep(policy: Policy, s: System, e: Data, arrival: Option<Message>, socketFails: bool)
    requires Ordered(policy, s, e, s.conn.blockSize, s.conn.oack) && NoRepeat(s, e, s.conn.blockSize)
    ensures Ordered(policy, Step(policy, s, ServerReads(arrival, socketFails)), e, s.conn.blockSize, s.conn.oack)
  {
    var r := Incoming(s, arrival, socketFails);
    if Consumes(s.conn) && r.Datagram? {
      AckArrives(policy, s, e, arrival.value);
    } else {
      ReadStep(s.conn, s.n, e, r, s.conn.blockSize, false);
      NoDatagramStep(s.conn, r, s.conn.blockSize);
    }
  }

  lemma ServerWritesStep(policy: Policy, s: System, e: Data, send: Send, readFails: bool)
    requires Ordered(policy, s, e, s.conn.blockSize, s.conn.oack)
    ensures Ordered(policy, Step(policy, s, ServerWrites(send, readFails)), e, s.conn.blockSize, s.conn.oack)
  {
    WriteStep(s.conn, s.n, e, send, readFails);
    SentByServer(s.conn, s.n, e, send, readFails);
  }

  /** No two blocks of the file share a wire number, so the receiver tells an old datagram from the next. */
  lemma ReceiverTakes(policy: Policy, s: System, e: Data, m: Message, reply: bool)
    requires Ordered(policy, s, e, s.conn.blockSize, s.conn.oack) && NoRepeat(s, e, s.conn.blockSize) && m in s.data
    ensures var x := React(policy, s.conn.blockSize, s.receiver, m.bytes, reply);
      && ReceiverAt(policy, x.receiver, e, s.conn.blockSize)
      && |s.receiver.payloads| <= |x.receiver.payloads| <= s.n
      && (x.ack.Some? ==> x.ack.value == Wire(m.index) && m.index <= |x.receiver.payloads|)
  {
    var next := |s.receiver.payloads| + 1;
    if s.receiver.phase == Receiving && m.index >= 1 && Wire(m.index) == Wire(next) {
      WireApart(m.index, next);
    }
    ReactionTo(policy, s.receiver, e, s.conn.blockSize, s.conn.oack, m, reply);
  }

  lemma ReceiverReadsStep(policy: Policy, s: System, e: Data, m: Message, reply: bool)
    requires Ordered(policy, s, e, s.conn.blockSize, s.conn.oack) && NoRepeat(s, e, s.conn.blockSize)
    ensures Ordered(policy, Step(policy, s, ReceiverReads(m, reply)), e, s.conn.blockSize, s.conn.oack)
  {
    if m in s.data {
      ReceiverTakes(policy, s, e, m, reply);
    }
  }

  lemma InitialOrdered(policy: Policy, start: Conn, e: Data)
    requires Starts(policy, start, e)
    ensures Ordered(policy, Initial(start), e, start.blockSize, start.oack)
  {
    StartInv(start, e);
    NewReceiverAt(policy, e, start.blockSize);
    FreshOrdered(policy, start, e);
  }

  lemma FreshOrdered(policy: Policy, c: Conn, e: Data)
    requires c.blockSize >= 1
    requires ReadInv(c, c.blockNumber, e) && c.blockNumber <= 1
    requires ReceiverAt(policy, NewReceiver(), e, c.blockSize)
    requires policy != Rfc1350 ==> c.blockSize == DATA_PKT_DATA_MAX_SIZE
    ensures Ordered(policy, Initial(c), e, c.blockSize, c.oack)
  {
  }

  lemma {:induction false} OrderedAlways(policy: Policy, start: Conn, e: Data, actions: seq<Action>)
    requires Starts(policy, start, e) && |Blocks.Blocks(e, start.blockSize)| <= 65536
    ensures Ordered(policy, Run(policy, start, actions), e, start.blockSize, start.oack)
  {
    if actions == [] {
      InitialOrdered(policy, start, e);
    } else {
      OrderedAlways(policy, start, e, actions[..|actions| - 1]);
      OrderedStep(policy, Run(policy, start, actions[..|actions| - 1]), e, start.blockSize, start.oack,
                  actions[|actions| - 1]);
    }
  }

  lemma OrderedStep(policy: Policy, s: System, e: Data, size: nat, oack: seq<Opt>, a: Action)
    requires Ordered(policy, s, e, size, oack) && NoRepeat(s, e, size)
    ensures Ordered(policy, Step(policy, s, a), e, size, oack)
  {
    match a
    case ServerWrites(send, readFails) => ServerWritesStep(policy, s, e, send, readFails);
    case ServerReads(arrival, socketFails) => ServerReadsStep(policy, s, e, arrival, socketFails);
    case Elapses =>
    case ReceiverReads(m, reply) => ReceiverReadsStep(policy, s, e, m, reply);
  }

  /**
   * Safety without any assumption on order: never a skipped, repeated or corrupted block, up to the last
   * length for which this can hold (see `BagResults.WrongBlockExactly`).
   */
  lemma BagSafety(policy: Policy, start: Conn, e: Data, actions: seq<Action>)
    requires Starts(policy, start, e) && |Blocks.Blocks(e, start.blockSize)| <= 65536
    ensures var s := Run(policy, start, actions);
      && |s.receiver.payloads| <= s.n <= |s.receiver.payloads| + 1
      && s.receiver.payloads <= Blocks.Blocks(e, start.blockSize)
      && Concat(s.receiver.payloads) <= e
  {
    OrderedAlways(policy, start, e, actions);
    ConcatOfPrefix(Blocks.Blocks(e, start.blockSize), |Run(policy, start, actions).receiver.payloads|);
    Blocks.BlocksConcat(e, start.blockSize);
  }

  lemma FromStartStep(policy: Policy, s: System, a: Action, low: nat)
    requires FromStart(s, low)
    ensures FromStart(Step(policy, s, a), low)
  {
  }

  lemma {:induction false} FromStartAlways(policy: Policy, start: Conn, actions: seq<Action>)
    ensures FromStart(Run(policy, start, actions), start.blockNumber)
  {
    if actions != [] {
      FromStartAlways(policy, start, actions[..|actions| - 1]);
      FromStartStep(policy, Run(policy, start, actions[..|actions| - 1]), actions[|actions| - 1], start.blockNumber);
    }
  }

  /** The server's next step takes an acknowledgement and finishes the transfer. */
  predicate FinishesBy(policy: Policy, s: System, m: Message) {
    && m in s.acks && Consumes(s.conn) && s.conn.state == WAIT_FOR_ACK && !s.conn.finished
    && Step(policy, s, ServerReads(Some(m), false)).conn.finished
  }

  /**
   * The server finishes through an acknowledgement only when the receiver holds the whole file, as long as
   * no two acknowledgements share a wire number: an option acknowledgement is answered with number 0 and
   * costs one block (see `BagResults.EarlyFinishExactly`).
   */
  lemma BagCompletion(policy: Policy, start: Conn, e: Data, actions: seq<Action>, m: Message)
    requires Starts(policy, start, e) && |Blocks.Blocks(e, start.blockSize)| < 65536 + start.blockNumber
    requires FinishesBy(policy, Run(policy, start, actions), m)
    ensures var s := Run(policy, start, actions);
      && s.receiver.payloads == Blocks.Blocks(e, start.blockSize)
      && Concat(s.receiver.payloads) == e
      && s.conn.source == Some([])
  {
    OrderedAlways(policy, start, e, actions);
    FromStartAlways(policy, start, actions);
    CompletionAt(policy, Run(policy, start, actions), e, m);
    Blocks.BlocksConcat(e, start.blockSize);
  }

  lemma CompletionAt(policy: Policy, s: System, e: Data, m: Message)
    requires Ordered(policy, s, e, s.conn.blockSize, s.conn.oack) && FinishesBy(policy, s, m)
    requires |Blocks.Blocks(e, s.conn.blockSize)| < 65536 + m.index
    ensures s.receiver.payloads == Blocks.Blocks(e, s.conn.blockSize) && s.conn.source == Some([])
  {
    AckTaken(policy, s, m);
    FinishingAck(s.conn, s.n, e, m.index);
    AllBlocks(policy, s.receiver, e, s.conn.blockSize);
  }

  lemma AckTaken(policy: Policy, s: System, m: Message)
    requires m in s.acks && m.bytes == SerialiseAck(AckPacket(Wire(m.index)))
    requires Consumes(s.conn) && s.conn.state == WAIT_FOR_ACK
    ensures Step(policy, s, ServerReads(Some(m), false)).conn == OnAck(s.conn, Wire(m.index))
  {
    HeadAckRead(s.conn, m.index, s.conn.blockSize, false);
  }

  lemma FinishingAck(c: Conn, n: nat, e: Data, j: nat)
    requires ReadInv(c, n, e) && c.state == WAIT_FOR_ACK && j <= n < j + 65536
    requires !c.finished && OnAck(c, Wire(j)).finished
    ensures j == n == |Blocks.Blocks(e, c.blockSize)| && c.source == Some([])
  {
    WireApart(j, n);
  }
}
