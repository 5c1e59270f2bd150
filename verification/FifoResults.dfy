/** What the stop-and-wait invariant gives for whole READ transfers over an order-keeping network. */
module FifoResults {
  import opened Bytes
  import opened Packets
  import opened CStrings
  import opened Connection
  import opened Client
  import opened ReadSide
  import opened Transfer
  import opened FifoTransfer
  import Blocks
  import Options

  /**
   * Safety of every run, for files of any length: the two sides are at most one block apart, only the
   * current and the previous block and their acknowledgements are in flight, and what the receiver
   * holds is a prefix of the encoded file.
   */
  lemma ReadSafety(policy: Policy, start: Conn, e: Data, actions: seq<Action>)
    requires Starts(policy, start, e)
    ensures var s := Run(policy, start, actions);
      && |s.receiver.payloads| <= s.n <= |s.receiver.payloads| + 1
      && s.conn.blockNumber == Wire(s.n)
      && (forall i :: 0 <= i < |s.toClient| ==> s.n - 1 <= s.toClient[i].index <= s.n)
      && (forall i :: 0 <= i < |s.toServer| ==> s.n - 1 <= s.toServer[i].index <= s.n)
      && Concat(s.receiver.payloads) <= e
  {
    LockstepAlways(policy, start, e, actions);
    var s := Run(policy, start, actions);
    var bs := Blocks.Blocks(e, start.blockSize);
    ConcatOfPrefix(bs, |s.receiver.payloads|);
    Blocks.BlocksConcat(e, start.blockSize);
  }

  /** The server is about to take the acknowledgement that ends the transfer. */
  predicate FinalAckArrives(s: System) {
    && Consumes(s.conn) && s.conn.state == WAIT_FOR_ACK && s.conn.finalAck
    && s.toServer != []
    && DeserialiseAck(Received(Datagram(s.toServer[0].bytes), ACK_PKT_MAX_SIZE))
       == Some(AckPacket(s.conn.blockNumber))
  }

  /**
   * When the server finishes through the final acknowledgement the receiver holds the whole encoded
   * file in exactly |e| / S + 1 blocks and the reader has nothing left, so its buffer is empty.
   */
  lemma ReadCompletion(policy: Policy, start: Conn, e: Data, actions: seq<Action>)
    requires Starts(policy, start, e)
    requires FinalAckArrives(Run(policy, start, actions))
    ensures var s := Run(policy, start, actions);
      && Step(policy, s, ServerReads(false)).conn.finished
      && s.receiver.payloads == Blocks.Blocks(e, start.blockSize)
      && Concat(s.receiver.payloads) == e
      && s.n == |e| / start.blockSize + 1
      && s.conn.source == Some([])
  {
    LockstepAlways(policy, start, e, actions);
    CompletionAt(policy, Run(policy, start, actions), e);
    Blocks.BlocksConcat(e, start.blockSize);
    Blocks.BlocksCount(e, start.blockSize);
  }

  lemma CompletionAt(policy: Policy, s: System, e: Data)
    requires Lockstep(policy, s, e, s.conn.blockSize, s.conn.oack) && FinalAckArrives(s)
    ensures Step(policy, s, ServerReads(false)).conn.finished
    ensures var bs := Blocks.Blocks(e, s.conn.blockSize);
      s.receiver.payloads == bs && s.n == |bs| && s.conn.source == Some([])
  {
    var j := s.toServer[0].index;
    HeadAckTaken(policy, s, j);
    FinalAckIndex(s.conn, s.n, e, j);
    AllBlocks(policy, s.receiver, e, s.conn.blockSize);
  }

  lemma HeadAckTaken(policy: Policy, s: System, j: nat)
    requires Consumes(s.conn) && s.conn.state == WAIT_FOR_ACK && s.toServer != []
    requires s.toServer[0].bytes == SerialiseAck(AckPacket(Wire(j)))
    ensures Step(policy, s, ServerReads(false)).conn == OnAck(s.conn, Wire(j))
  {
    HeadAckRead(s.conn, j, s.conn.blockSize, false);
  }

  lemma FinalAckIndex(c: Conn, n: nat, e: Data, j: nat)
    requires ReadInv(c, n, e) && c.state == WAIT_FOR_ACK && c.finalAck && j <= n <= j + 1
    requires DeserialiseAck(Received(Datagram(SerialiseAck(AckPacket(Wire(j)))), ACK_PKT_MAX_SIZE))
          == Some(AckPacket(c.blockNumber))
    ensures j == n == |Blocks.Blocks(e, c.blockSize)| && c.source == Some([])
    ensures OnAck(c, Wire(j)).finished
  {
    AckRoundTrip(AckPacket(Wire(j)));
    WireDistinct(j, n);
  }

  /** The request `get_file` sends, as the server reads it, on a server that permits it. */
  function Served(filename: Data, mode: Mode, env: Options.Surroundings, file: Data): Conn {
    Created(RwPacket(READ, filename, mode, []), None, env, file, false)
  }

  /** The most the server's listener receives of a request. */
  const REQUEST_MAX_SIZE := 2048

  /**
   * The request of `get_file` reaches the server as it is exactly when it fits the listener's buffer, and then starts
   * a transfer of the file in blocks of 512 bytes.
   */
  lemma ServedStarts(filename: Data, mode: Mode, env: Options.Surroundings, file: Data)
    requires NulFree(filename)
    ensures var request := RwPacket(READ, filename, mode, []);
      DeserialiseRw(Take(SerialiseRw(request), REQUEST_MAX_SIZE)) == Some(request)
      <==> |filename| + |ModeToString(mode)| + 4 <= REQUEST_MAX_SIZE
    ensures Starts(Strict(mode), Served(filename, mode, env, file), Blocks.Encoded(mode, file))
  {
    var request := RwPacket(READ, filename, mode, []);
    RwRoundTrip(request);
    CreatedForReading(request, env, file);
    if |SerialiseRw(request)| > REQUEST_MAX_SIZE {
      CutRequest(filename, mode, REQUEST_MAX_SIZE);
    }
  }

  /** A request that loses its end does not parse. */
  lemma CutRequest(filename: Data, mode: Mode, n: nat)
    requires NulFree(filename) && 4 <= n < |SerialiseRw(RwPacket(READ, filename, mode, []))|
    ensures DeserialiseRw(SerialiseRw(RwPacket(READ, filename, mode, []))[..n]) == None
  {
    var d := SerialiseRw(RwPacket(READ, filename, mode, []));
    RequestBody(READ, filename, mode, []);
    assert d + Join(Flatten([])) == d && [filename, ModeToString(mode)] + Flatten([]) == [filename, ModeToString(mode)];
    ModeRoundTrip(mode);
    JoinCount([filename, ModeToString(mode)]);
    assert d[2..] == d[..n][2..] + d[n..];
    CountNulConcat(d[..n][2..], d[n..]);
    CountNulFree(d[n..]);
    assert d[n..][|d| - n - 1] == NUL;
    ExtractCount(d[..n][2..]);
  }

  /** The datagrams the network delivered to the receiver, in order. */
  function Delivered(policy: Policy, start: Conn, actions: seq<Action>): seq<Data> {
    if actions == [] then []
    else
      var front, a := actions[..|actions| - 1], actions[|actions| - 1];
      var q := Run(policy, start, front).toClient;
      if a.ReceiverReads? && q != [] then Delivered(policy, start, front) + [q[0].bytes]
      else Delivered(policy, start, front)
  }

  lemma StepReceiver(policy: Policy, s: System, a: Action)
    ensures Step(policy, s, a).receiver
         == if a.ReceiverReads? && s.toClient != []
            then React(policy, s.conn.blockSize, s.receiver, s.toClient[0].bytes, a.reply).receiver else s.receiver
  {
  }

  lemma StrictRunSnoc(mode: Mode, delivered: seq<Data>, d: Data)
    ensures StrictRun(mode, delivered + [d]).receiver
         == StrictStep(mode, StrictRun(mode, delivered).receiver, d).receiver
  {
    assert (delivered + [d])[..|delivered|] == delivered;
  }

  /** The strict receiver of a run is `get_file` on the datagrams delivered to it. */
  lemma {:induction false} StrictReceiverIsGetFile(mode: Mode, start: Conn, actions: seq<Action>)
    ensures Run(Strict(mode), start, actions).receiver
         == StrictRun(mode, Delivered(Strict(mode), start, actions)).receiver
  {
    if actions != [] {
      var front, a := actions[..|actions| - 1], actions[|actions| - 1];
      StrictReceiverIsGetFile(mode, start, front);
      var s := Run(Strict(mode), start, front);
      StepReceiver(Strict(mode), s, a);
      if a.ReceiverReads? && s.toClient != [] {
        StrictRunSnoc(mode, Delivered(Strict(mode), start, front), s.toClient[0].bytes);
      }
    }
  }

  /**
   * End to end: whenever `get_file` returns true its output is the server's file, in both modes and
   * for every length. It fails to decode only when a block boundary splits a carriage return pair.
   */
  lemma EndToEnd(filename: Data, mode: Mode, env: Options.Surroundings, file: Data, actions: seq<Action>)
    requires NulFree(filename)
    ensures var start := Served(filename, mode, env, file);
      var client := StrictRun(mode, Delivered(Strict(mode), start, actions)).receiver;
      && (OutcomeOf(client.phase) == Returned(true) ==> client.output == file)
      && (OutcomeOf(client.phase) == Returned(true) && mode == NETASCII ==>
            !Blocks.BoundarySplitsPair(Blocks.Encoded(mode, file), DATA_PKT_DATA_MAX_SIZE))
      && (OutcomeOf(client.phase) == Escaped ==>
            mode == NETASCII && Blocks.BoundarySplitsPair(Blocks.Encoded(mode, file), DATA_PKT_DATA_MAX_SIZE))
  {
    var e, start := Blocks.Encoded(mode, file), Served(filename, mode, env, file);
    ServedStarts(filename, mode, env, file);
    LockstepAlways(Strict(mode), start, e, actions);
    StrictReceiverIsGetFile(mode, start, actions);
    var r := Run(Strict(mode), start, actions).receiver;
    var bs := Blocks.Blocks(e, DATA_PKT_DATA_MAX_SIZE);
    assert bs[..|bs|] == bs;
    Blocks.BlocksDecodeToFile(mode, file, DATA_PKT_DATA_MAX_SIZE);
    if mode == NETASCII {
      Blocks.NetasciiBlocksDecode(file, DATA_PKT_DATA_MAX_SIZE);
      if r.phase == Threw { Blocks.PrefixFails(mode, bs, |r.payloads|); }
    } else {
      Blocks.OctetBlocksDecode(r.payloads);
    }
  }

  // ---------------------------------------------------------------- false aborts

  /**
   * In every reachable state, taking the next acknowledgement leads to ERROR exactly when it repeats
   * the previous block's and the current wire number has wrapped to zero.
   */
  lemma MismatchExactly(policy: Policy, start: Conn, e: Data, actions: seq<Action>)
    requires Starts(policy, start, e)
    requires var s := Run(policy, start, actions);
      Consumes(s.conn) && s.conn.state == WAIT_FOR_ACK && s.toServer != []
    ensures var s := Run(policy, start, actions);
      Step(policy, s, ServerReads(false)).conn.state == State.ERROR
      <==> s.toServer[0].index < s.n && s.n % 65536 == 0
  {
    LockstepAlways(policy, start, e, actions);
    var s := Run(policy, start, actions);
    var j := s.toServer[0].index;
    HeadAckRead(s.conn, j, s.conn.blockSize, false);
    AckAt(s.conn, s.n, e, j);
    WireIsRemainder(s.n);
  }

  /** Nothing failed locally in this action. */
  predicate Healthy(a: Action) {
    a.ServerWrites? ==> a.s != SendFailed && !a.readFails
  }

  predicate AllHealthy(actions: seq<Action>) {
    forall i :: 0 <= i < |actions| ==> Healthy(actions[i])
  }

  lemma HealthySnoc(actions: seq<Action>, a: Action)
    requires Healthy(a)
    ensures AllHealthy(actions) ==> AllHealthy(actions + [a])
  {
  }

  /** An ERROR without a local failure comes only after the server has reached block 65536. */
  lemma {:induction false} ErrorAfterWrap(policy: Policy, start: Conn, e: Data, actions: seq<Action>)
    requires Starts(policy, start, e) && AllHealthy(actions)
    ensures var s := Run(policy, start, actions);
      s.conn.state == State.ERROR ==> s.n >= 65536
  {
    if actions != [] {
      var front, a := actions[..|actions| - 1], actions[|actions| - 1];
      ErrorAfterWrap(policy, start, e, front);
      LockstepAlways(policy, start, e, front);
      HealthyStep(policy, Run(policy, start, front), e, a);
    }
  }

  /** Below 65536 blocks no schedule of losses, repetitions and timeouts makes a healthy server give up with ERROR. */
  lemma NoFalseAbort(policy: Policy, start: Conn, e: Data, actions: seq<Action>)
    requires Starts(policy, start, e) && |Blocks.Blocks(e, start.blockSize)| < 65536
    requires AllHealthy(actions)
    ensures Run(policy, start, actions).conn.state != State.ERROR
  {
    ErrorAfterWrap(policy, start, e, actions);
    LockstepAlways(policy, start, e, actions);
  }

  lemma HealthyStep(policy: Policy, s: System, e: Data, a: Action)
    requires Lockstep(policy, s, e, s.conn.blockSize, s.conn.oack) && Healthy(a)
    requires s.conn.state == State.ERROR ==> s.n >= 65536
    ensures var t := Step(policy, s, a);
      t.conn.state == State.ERROR ==> t.n >= 65536
  {
    if s.n < 65536 {
      match a
      case ServerReads(socketFails) => HealthyRead(policy, s, e, socketFails);
      case ServerWrites(send, _) => HealthyWrite(s.conn, send);
      case _ =>
    }
  }

  lemma HealthyRead(policy: Policy, s: System, e: Data, socketFails: bool)
    requires Lockstep(policy, s, e, s.conn.blockSize, s.conn.oack) && s.conn.state != State.ERROR && s.n < 65536
    ensures Connection.HandleRead(s.conn, Incoming(s, socketFails), s.conn.blockSize, false).conn.state != State.ERROR
  {
    if Consumes(s.conn) && !socketFails && s.toServer != [] {
      var j := s.toServer[0].index;
      HeadAckRead(s.conn, j, s.conn.blockSize, false);
      HealthyAck(s.conn, s.n, e, j);
    } else {
      NoDatagramNoError(s.conn, Incoming(s, socketFails), s.conn.blockSize);
    }
  }

  lemma HealthyAck(c: Conn, n: nat, e: Data, j: nat)
    requires ReadInv(c, n, e) && c.state == WAIT_FOR_ACK && j <= n <= j + 1 && n < 65536
    ensures OnAck(c, Wire(j)).state != State.ERROR
  {
    AckAt(c, n, e, j);
  }

  lemma NoDatagramNoError(c: Conn, r: Recv, limit: nat)
    requires c.state != WAIT_FOR_DATA && c.state != State.ERROR
    requires !Consumes(c) || !r.Datagram?
    ensures Connection.HandleRead(c, r, limit, false).conn.state != State.ERROR
  {
  }

  lemma HealthyWrite(c: Conn, send: Send)
    requires c.state != State.ERROR && send != SendFailed
    requires c.packet.Some? || c.source.Some?
    ensures HandleWrite(c, send, false).conn.state != State.ERROR
  {
  }
}
