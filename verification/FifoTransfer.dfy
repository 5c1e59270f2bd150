/**
 * A READ over a network that may lose and repeat datagrams but keeps their order. Block numbers
 * wrap modulo 65536 on the wire; the indices kept beside the datagrams are bookkeeping which
 * neither side looks at.
 */
module FifoTransfer {
  import opened Bytes
  import opened Packets
  import opened Timers
  import opened Connection
  import opened Client
  import opened ReadSide
  import opened Transfer

  datatype System = System(conn: Conn, n: nat, receiver: Receiver,
                           toClient: seq<Message>, toServer: seq<Message>)

  datatype Action =
    | ServerWrites(s: Send, readFails: bool)
    | ServerReads(socketFails: bool)
    | Elapses
    | ReceiverReads(reply: bool)
    | LoseData(i: nat) | RepeatData(i: nat)
    | LoseAck(i: nat) | RepeatAck(i: nat)

  /** The queue without the datagram at position i. */
  function Lose(q: seq<Message>, i: nat): seq<Message> {
    if i < |q| then seq(|q| - 1, k requires 0 <= k < |q| - 1 => if k < i then q[k] else q[k + 1]) else q
  }

  /** The queue with a second copy of the datagram at position i right behind it. */
  function Repeat(q: seq<Message>, i: nat): seq<Message> {
    if i < |q| then seq(|q| + 1, k requires 0 <= k < |q| + 1 => if k <= i then q[k] else q[k - 1]) else q
  }

  function Initial(c: Conn): System {
    System(c, c.blockNumber, NewReceiver(), [], [])
  }

  function ServerWrite(s: System, send: Send, readFails: bool): System {
    var w := HandleWrite(s.conn, send, readFails);
    s.(conn := w.conn,
       toClient := if w.sent.Some? then s.toClient + [Message(s.n, w.sent.value)] else s.toClient)
  }

  function Incoming(s: System, socketFails: bool): Recv {
    if socketFails then RecvFailed
    else if s.toServer == [] then WouldBlock
    else Datagram(s.toServer[0].bytes)
  }

  function ServerRead(s: System, socketFails: bool): System {
    var c := Connection.HandleRead(s.conn, Incoming(s, socketFails), s.conn.blockSize, false).conn;
    s.(conn := c,
       n := IndexAfter(s.conn, c, s.n),
       toServer := if Consumes(s.conn) && !socketFails && s.toServer != [] then s.toServer[1..] else s.toServer)
  }

  function ReceiverRead(policy: Policy, s: System, reply: bool): System {
    if s.toClient == [] then s
    else
      var m := s.toClient[0];
      var x := React(policy, s.conn.blockSize, s.receiver, m.bytes, reply);
      s.(receiver := x.receiver,
         toClient := s.toClient[1..],
         toServer := if x.ack.Some? then s.toServer + [Message(m.index, SerialiseAck(AckPacket(x.ack.value)))]
                     else s.toServer)
  }

  function Step(policy: Policy, s: System, a: Action): System {
    match a
    case ServerWrites(send, readFails) => ServerWrite(s, send, readFails)
    case ServerReads(socketFails) => ServerRead(s, socketFails)
    case Elapses => s.(conn := s.conn.(timer := Elapsed(s.conn.timer)))
    case ReceiverReads(reply) => ReceiverRead(policy, s, reply)
    case LoseData(i) => s.(toClient := Lose(s.toClient, i))
    case RepeatData(i) => s.(toClient := Repeat(s.toClient, i))
    case LoseAck(i) => s.(toServer := Lose(s.toServer, i))
    case RepeatAck(i) => s.(toServer := Repeat(s.toServer, i))
  }

  function Run(policy: Policy, start: Conn, actions: seq<Action>): System {
    if actions == [] then Initial(start)
    else Step(policy, Run(policy, start, actions[..|actions| - 1]), actions[|actions| - 1])
  }

  // ------------------------------------------------------------------- invariants

  /** Indices lie in a window and never decrease along the queue. */
  predicate Window(q: seq<Message>, low: int, high: nat) {
    && (forall i :: 0 <= i < |q| ==> low <= q[i].index <= high)
    && (forall i, j :: 0 <= i < j < |q| ==> q[i].index <= q[j].index)
  }

  predicate AllFromServer(q: seq<Message>, e: Data, size: nat, oack: seq<Opt>)
    requires size >= 1
  {
    forall i :: 0 <= i < |q| ==> FromServer(q[i], e, size, oack)
  }

  predicate AllAcks(q: seq<Message>) {
    forall i :: 0 <= i < |q| ==> q[i].bytes == SerialiseAck(AckPacket(Wire(q[i].index)))
  }

  /** The stop-and-wait invariant: server and receiver are never more than one block apart. */
  predicate Lockstep(policy: Policy, s: System, e: Data, size: nat, oack: seq<Opt>) {
    var r := |s.receiver.payloads|;
    && size >= 1 && s.conn.blockSize == size && s.conn.oack == oack
    && ReadInv(s.conn, s.n, e)
    && ReceiverAt(policy, s.receiver, e, size)
    && r <= s.n <= r + 1
    && Window(s.toClient, if r == s.n then s.n else s.n - 1, s.n)
    && AllFromServer(s.toClient, e, size, oack)
    && Window(s.toServer, s.n - 1, r)
    && AllAcks(s.toServer)
    && (policy != Rfc1350 ==> size == DATA_PKT_DATA_MAX_SIZE)
  }

  lemma LoseKeepsWindow(q: seq<Message>, low: int, high: nat, i: nat)
    requires Window(q, low, high)
    ensures Window(Lose(q, i), low, high)
  {
  }

  lemma RepeatKeepsWindow(q: seq<Message>, low: int, high: nat, i: nat)
    requires Window(q, low, high)
    ensures Window(Repeat(q, i), low, high)
  {
  }

  lemma TailWindow(q: seq<Message>, low: int, high: nat)
    requires q != [] && Window(q, low, high)
    ensures Window(q[1..], q[0].index, high)
  {
  }

  lemma ContentQueueOps(q: seq<Message>, e: Data, size: nat, oack: seq<Opt>, i: nat)
    requires size >= 1 && AllFromServer(q, e, size, oack)
    ensures AllFromServer(Lose(q, i), e, size, oack) && AllFromServer(Repeat(q, i), e, size, oack)
  {
  }

  lemma AckQueueOps(q: seq<Message>, i: nat)
    requires AllAcks(q)
    ensures AllAcks(Lose(q, i)) && AllAcks(Repeat(q, i))
  {
  }

  // ------------------------------------------------------------- steps of the server

  lemma ServerWriteStep(policy: Policy, s: System, e: Data, size: nat, oack: seq<Opt>, send: Send, readFails: bool)
    requires Lockstep(policy, s, e, size, oack)
    ensures Lockstep(policy, ServerWrite(s, send, readFails), e, size, oack)
  {
    WriteStep(s.conn, s.n, e, send, readFails);
    var w := HandleWrite(s.conn, send, readFails);
    if w.sent.Some? {
      var m := Message(s.n, w.sent.value);
      SentByServer(s.conn, s.n, e, send, readFails);
      assert (s.toClient + [m])[|s.toClient|] == m;
    }
  }

  /** Two indices at most one apart have the same wire number only if they are equal. */
  lemma WireDistinct(a: nat, b: nat)
    requires a <= b <= a + 1
    ensures Wire(a) == Wire(b) <==> a == b
    ensures b == a + 1 ==> Wire(b) == Next(Wire(a))
  {
    WireNext(a);
  }

  /** What the server does with the acknowledgement at the head of its queue. */
  lemma AckAt(c: Conn, n: nat, e: Data, j: nat)
    requires ReadInv(c, n, e) && c.state == WAIT_FOR_ACK && j <= n <= j + 1
    ensures var d := OnAck(c, Wire(j));
      && (j == n && !c.finalAck ==> d.state == SEND_DATA && IndexAfter(c, d, n) == n + 1)
      && (j == n && c.finalAck ==> d == c.(timeoutCount := 0, finished := true))
      && (j < n && Wire(n) != 0 ==> d.state == SEND_DATA && d.blockNumber == c.blockNumber)
      && (j < n && Wire(n) == 0 ==> d.state == State.ERROR && d.blockNumber == c.blockNumber)
  {
    WireDistinct(j, n);
  }

  lemma ServerReadStep(policy: Policy, s: System, e: Data, size: nat, oack: seq<Opt>, socketFails: bool)
    requires Lockstep(policy, s, e, size, oack)
    ensures Lockstep(policy, ServerRead(s, socketFails), e, size, oack)
  {
    var r := Incoming(s, socketFails);
    ReadStep(s.conn, s.n, e, r, size, false);
    if Consumes(s.conn) && r.Datagram? {
      HeadAckStep(policy, s, e, size, oack);
    } else {
      NoDatagramStep(s.conn, r, size);
    }
  }

  lemma HeadAckStep(policy: Policy, s: System, e: Data, size: nat, oack: seq<Opt>)
    requires Lockstep(policy, s, e, size, oack) && Consumes(s.conn) && s.toServer != []
    ensures Lockstep(policy, ServerRead(s, false), e, size, oack)
  {
    var j := s.toServer[0].index;
    HeadAckRead(s.conn, j, size, false);
    AckStep(s.conn, s.n, e, Wire(j));
    TailWindow(s.toServer, s.n - 1, |s.receiver.payloads|);
    HeadAckIndex(s.conn, s.n, e, j);
  }

  lemma HeadAckIndex(c: Conn, n: nat, e: Data, j: nat)
    requires ReadInv(c, n, e) && c.state == WAIT_FOR_ACK && j <= n <= j + 1
    ensures IndexAfter(c, OnAck(c, Wire(j)), n) <= j + 1
  {
    AckAt(c, n, e, j);
  }

  // ----------------------------------------------------------- steps of the receiver

  /** The receiver takes the next block and nothing else, and answers only the last block it holds. */
  lemma ReactStep(policy: Policy, s: System, e: Data, size: nat, oack: seq<Opt>, reply: bool)
    requires Lockstep(policy, s, e, size, oack) && s.toClient != []
    ensures var m := s.toClient[0];
      var x := React(policy, size, s.receiver, m.bytes, reply);
      && ReceiverAt(policy, x.receiver, e, size)
      && |s.receiver.payloads| <= |x.receiver.payloads| <= s.n
      && (|x.receiver.payloads| > |s.receiver.payloads| ==> m.index == s.n)
      && (x.ack.Some? ==> x.ack.value == Wire(m.index) && m.index == |x.receiver.payloads|)
  {
    var m := s.toClient[0];
    WireDistinct(m.index, |s.receiver.payloads| + 1);
    ReactionTo(policy, s.receiver, e, size, oack, m, reply);
  }

  lemma ReceiverReadStep(policy: Policy, s: System, e: Data, size: nat, oack: seq<Opt>, reply: bool)
    requires Lockstep(policy, s, e, size, oack)
    ensures Lockstep(policy, ReceiverRead(policy, s, reply), e, size, oack)
  {
    if s.toClient != [] {
      ReactStep(policy, s, e, size, oack, reply);
      var m := s.toClient[0];
      var x := React(policy, size, s.receiver, m.bytes, reply);
      TailWindow(s.toClient, if |s.receiver.payloads| == s.n then s.n else s.n - 1, s.n);
      ReplyQueued(s.toServer, s.n - 1, |s.receiver.payloads|, |x.receiver.payloads|, m.index, x.ack);
    }
  }

  lemma ReplyQueued(q: seq<Message>, low: int, had: nat, has: nat, index: nat, ack: Option<Word>)
    requires Window(q, low, had) && AllAcks(q) && had <= has
    requires ack.Some? ==> ack.value == Wire(index) && index == has && low <= index
    ensures var p := if ack.Some? then q + [Message(index, SerialiseAck(AckPacket(ack.value)))] else q;
      Window(p, low, has) && AllAcks(p)
  {
  }

  // ------------------------------------------------------------------- all the runs

  lemma StepKeepsLockstep(policy: Policy, s: System, e: Data, size: nat, oack: seq<Opt>, a: Action)
    requires Lockstep(policy, s, e, size, oack)
    ensures Lockstep(policy, Step(policy, s, a), e, size, oack)
  {
    var low := if |s.receiver.payloads| == s.n then s.n else s.n - 1;
    match a
    case ServerWrites(send, readFails) => ServerWriteStep(policy, s, e, size, oack, send, readFails);
    case ServerReads(socketFails) => ServerReadStep(policy, s, e, size, oack, socketFails);
    case Elapses =>
    case ReceiverReads(reply) => ReceiverReadStep(policy, s, e, size, oack, reply);
    case LoseData(i) => LoseKeepsWindow(s.toClient, low, s.n, i); ContentQueueOps(s.toClient, e, size, oack, i);
    case RepeatData(i) => RepeatKeepsWindow(s.toClient, low, s.n, i); ContentQueueOps(s.toClient, e, size, oack, i);
    case LoseAck(i) => LoseKeepsWindow(s.toServer, s.n - 1, |s.receiver.payloads|, i); AckQueueOps(s.toServer, i);
    case RepeatAck(i) => RepeatKeepsWindow(s.toServer, s.n - 1, |s.receiver.payloads|, i); AckQueueOps(s.toServer, i);
  }

  lemma {:induction false} LockstepAlways(policy: Policy, start: Conn, e: Data, actions: seq<Action>)
    requires Starts(policy, start, e)
    ensures Lockstep(policy, Run(policy, start, actions), e, start.blockSize, start.oack)
  {
    if actions == [] {
      StartInv(start, e);
      InitialLockstep(policy, start, e);
    } else {
      LockstepAlways(policy, start, e, actions[..|actions| - 1]);
      StepKeepsLockstep(policy, Run(policy, start, actions[..|actions| - 1]), e, start.blockSize, start.oack,
                        actions[|actions| - 1]);
    }
  }

  lemma InitialLockstep(policy: Policy, start: Conn, e: Data)
    requires Starts(policy, start, e)
    ensures Lockstep(policy, Initial(start), e, start.blockSize, start.oack)
  {
    StartInv(start, e);
    NewReceiverAt(policy, e, start.blockSize);
  }
}
