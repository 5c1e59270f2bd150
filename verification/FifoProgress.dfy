/** Transfers that do complete: runs without losses, built one action at a time. */
module FifoProgress {
  import opened Bytes
  import opened Packets
  import opened CStrings
  import opened Timers
  import opened Connection
  import opened Client
  import opened ReadSide
  import opened Transfer
  import opened FifoTransfer
  import opened FifoResults
  import Blocks
  import Options

  lemma RunOne(policy: Policy, start: Conn, actions: seq<Action>, a: Action)
    ensures Run(policy, start, actions + [a]) == Step(policy, Run(policy, start, actions), a)
  {
    assert (actions + [a])[..|actions|] == actions;
  }

  /** The server is about to send block n, everything before it has been delivered and nothing is in flight. */
  predicate Quiet(s: System) {
    && s.toClient == [] && s.toServer == []
    && s.conn.state == SEND_DATA && !s.conn.timer.Expired?
    && s.n == |s.receiver.payloads| + 1 && s.receiver.phase == Receiving
  }

  /** This receiver can decode each of the first k blocks. */
  predicate Decodable(policy: Policy, e: Data, size: nat, k: nat)
    requires size >= 1
  {
    var bs := Blocks.Blocks(e, size);
    k <= |bs| && (policy.Strict? ==> Blocks.DecodedBlocks(policy.mode, bs[..k]).Some?)
  }

  lemma DecodableFewer(policy: Policy, e: Data, size: nat, j: nat, k: nat)
    requires size >= 1 && j <= k && Decodable(policy, e, size, k)
    ensures Decodable(policy, e, size, j)
  {
    if policy.Strict? {
      Blocks.FrontDecodes(policy.mode, Blocks.Blocks(e, size), j, k);
    }
  }

  lemma SendQuiet(policy: Policy, s: System, e: Data)
    requires Lockstep(policy, s, e, s.conn.blockSize, s.conn.oack) && Quiet(s)
    ensures var t := Step(policy, s, ServerWrites(Sent, false));
      && t.toClient == [Message(s.n, DataWire(e, s.conn.blockSize, s.n))] && t.toServer == []
      && t.receiver == s.receiver && t.n == s.n
      && t.conn.state == WAIT_FOR_ACK && !t.conn.timer.Expired? && t.conn.blockSize == s.conn.blockSize
  {
    WriteStep(s.conn, s.n, e, Sent, false);
  }

  lemma ReceiveQuiet(policy: Policy, s: System, e: Data, reply: bool)
    requires Lockstep(policy, s, e, s.conn.blockSize, s.conn.oack)
    requires s.n == |s.receiver.payloads| + 1 && s.receiver.phase == Receiving
    requires s.toClient == [Message(s.n, DataWire(e, s.conn.blockSize, s.n))] && s.toServer == []
    ensures var t := Step(policy, s, ReceiverReads(reply));
      && t.toClient == [] && t.toServer == [AckMessage(s.n)]
      && t.conn == s.conn && t.n == s.n && |t.receiver.payloads| == s.n
      && (Decodable(policy, e, s.conn.blockSize, s.n) ==>
            t.receiver.phase == (if s.n == |Blocks.Blocks(e, s.conn.blockSize)| then Complete else Receiving))
  {
    var x := NextBlock(policy, s.receiver, e, s.conn.blockSize, reply);
    OnlyMessage(policy, s, s.toClient[0], x, reply);
  }

  lemma OnlyMessage(policy: Policy, s: System, m: Message, x: Reaction, reply: bool)
    requires s.toClient == [m] && s.toServer == []
    requires x == React(policy, s.conn.blockSize, s.receiver, m.bytes, reply) && x.ack.Some?
    ensures Step(policy, s, ReceiverReads(reply))
         == s.(receiver := x.receiver, toClient := [],
               toServer := [Message(m.index, SerialiseAck(AckPacket(x.ack.value)))])
  {
  }

  /** The next block is always stored and answered; one that decodes completes the transfer or leads to the next. */
  lemma NextBlock(policy: Policy, r: Receiver, e: Data, size: nat, reply: bool) returns (x: Reaction)
    requires size >= 1 && ReceiverAt(policy, r, e, size) && r.phase == Receiving
    requires policy != Rfc1350 ==> size == DATA_PKT_DATA_MAX_SIZE
    ensures x == React(policy, size, r, DataWire(e, size, |r.payloads| + 1), reply)
    ensures |x.receiver.payloads| == |r.payloads| + 1 && x.ack == Some(Wire(|r.payloads| + 1))
    ensures Decodable(policy, e, size, |r.payloads| + 1) ==>
      x.receiver.phase == if |r.payloads| + 1 == |Blocks.Blocks(e, size)| then Complete else Receiving
  {
    var k := |r.payloads| + 1;
    var p := DataPacket(Wire(k), Blocks.Blocks(e, size)[k - 1]);
    BlockFits(e, size, k);
    x := Accept(if policy == Rfc1350 then OCTET else policy.mode, size, r, p);
    ReactionToPacket(policy, size, r, DataWire(e, size, k), p, reply);
    if policy.Strict? && Decodable(policy, e, size, k) {
      Blocks.BlockDecodes(policy.mode, Blocks.Blocks(e, size)[..k], k - 1);
    }
  }

  lemma AcknowledgeQuiet(policy: Policy, s: System, e: Data)
    requires Lockstep(policy, s, e, s.conn.blockSize, s.conn.oack)
    requires s.conn.state == WAIT_FOR_ACK && !s.conn.timer.Expired? && s.n >= 1
    requires s.toClient == [] && s.toServer == [Message(s.n, SerialiseAck(AckPacket(Wire(s.n))))]
    ensures var t := Step(policy, s, ServerReads(false));
      && t.toClient == [] && t.toServer == [] && t.receiver == s.receiver
      && (if s.n == |Blocks.Blocks(e, s.conn.blockSize)| then t.conn.finished
          else t.conn.state == SEND_DATA && !t.conn.timer.Expired? && t.n == s.n + 1)
  {
    HeadAckRead(s.conn, s.n, s.conn.blockSize, false);
    AckAt(s.conn, s.n, e, s.n);
  }

  /** Block n is on its way and nothing else. */
  predicate BlockSent(s: System, e: Data, size: nat)
    requires size >= 1
  {
    && 1 <= s.n <= |Blocks.Blocks(e, size)| && s.n == |s.receiver.payloads| + 1 && s.receiver.phase == Receiving
    && s.toClient == [Message(s.n, DataWire(e, size, s.n))] && s.toServer == []
    && s.conn.state == WAIT_FOR_ACK && !s.conn.timer.Expired?
  }

  /** The receiver holds block n and its acknowledgement is on its way. */
  predicate BlockAnswered(s: System) {
    && s.n == |s.receiver.payloads| >= 1 && s.toClient == [] && s.toServer == [AckMessage(s.n)]
    && s.conn.state == WAIT_FOR_ACK && !s.conn.timer.Expired?
  }

  lemma RunSends(policy: Policy, start: Conn, e: Data, actions: seq<Action>) returns (more: seq<Action>)
    requires Starts(policy, start, e) && Quiet(Run(policy, start, actions))
    ensures AllHealthy(actions) ==> AllHealthy(more)
    ensures actions <= more
    ensures |more| == |actions| + 1 && Run(policy, start, more).n == Run(policy, start, actions).n
    ensures BlockSent(Run(policy, start, more), e, start.blockSize)
  {
    LockstepAlways(policy, start, e, actions);
    SendQuiet(policy, Run(policy, start, actions), e);
    RunOne(policy, start, actions, ServerWrites(Sent, false));
    HealthySnoc(actions, ServerWrites(Sent, false));
    more := actions + [ServerWrites(Sent, false)];
  }

  lemma RunAnswers(policy: Policy, start: Conn, e: Data, actions: seq<Action>) returns (more: seq<Action>)
    requires Starts(policy, start, e)
    requires BlockSent(Run(policy, start, actions), e, start.blockSize)
    ensures AllHealthy(actions) ==> AllHealthy(more)
    ensures actions <= more
    ensures |more| == |actions| + 1 && Run(policy, start, more).n == Run(policy, start, actions).n
    ensures BlockAnswered(Run(policy, start, more))
    ensures var t := Run(policy, start, more);
      Decodable(policy, e, start.blockSize, t.n) ==>
        t.receiver.phase == if t.n == |Blocks.Blocks(e, start.blockSize)| then Complete else Receiving
  {
    LockstepAlways(policy, start, e, actions);
    ReceiveQuiet(policy, Run(policy, start, actions), e, true);
    RunOne(policy, start, actions, ReceiverReads(true));
    HealthySnoc(actions, ReceiverReads(true));
    more := actions + [ReceiverReads(true)];
  }

  lemma RunAcknowledged(policy: Policy, start: Conn, e: Data, actions: seq<Action>) returns (more: seq<Action>)
    requires Starts(policy, start, e)
    requires BlockAnswered(Run(policy, start, actions))
    ensures AllHealthy(actions) ==> AllHealthy(more)
    ensures actions <= more
    ensures |more| == |actions| + 1
    ensures var s := Run(policy, start, actions);
      var t := Run(policy, start, more);
      && t.receiver == s.receiver
      && (s.n == |Blocks.Blocks(e, start.blockSize)| ==> t.conn.finished)
      && (s.n < |Blocks.Blocks(e, start.blockSize)| && s.receiver.phase == Receiving ==> Quiet(t) && t.n == s.n + 1)
  {
    LockstepAlways(policy, start, e, actions);
    AcknowledgeQuiet(policy, Run(policy, start, actions), e);
    RunOne(policy, start, actions, ServerReads(false));
    HealthySnoc(actions, ServerReads(false));
    more := actions + [ServerReads(false)];
  }

  /** One block in three actions: it is sent, stored and answered, and the answer is taken. */
  lemma QuietRound(policy: Policy, start: Conn, e: Data, actions: seq<Action>) returns (more: seq<Action>)
    requires Starts(policy, start, e) && Decodable(policy, e, start.blockSize, Run(policy, start, actions).n)
    requires Quiet(Run(policy, start, actions))
    ensures AllHealthy(actions) ==> AllHealthy(more)
    ensures actions <= more
    ensures |more| == |actions| + 3
    ensures var s := Run(policy, start, actions);
      var t := Run(policy, start, more);
      if s.n == |Blocks.Blocks(e, start.blockSize)| then t.conn.finished && t.receiver.phase == Complete
      else Quiet(t) && t.n == s.n + 1
  {
    more := RunSends(policy, start, e, actions);
    more := RunAnswers(policy, start, e, more);
    more := RunAcknowledged(policy, start, e, more);
  }

  /** A connection that begins with an option acknowledgement reaches its first block after one round. */
  lemma OackRound(start: Conn, e: Data) returns (actions: seq<Action>)
    requires ReadStart(start, e) && start.blockNumber == 0
    ensures AllHealthy(actions)
    ensures |actions| == 3
    ensures var s := Run(Rfc1350, start, actions); Quiet(s) && s.n == 1
  {
    actions := OackAnswered(start, e);
    OackTaken(start, Run(Rfc1350, start, actions), e);
    RunOne(Rfc1350, start, actions, ServerReads(false));
    HealthySnoc(actions, ServerReads(false));
    actions := actions + [ServerReads(false)];
  }

  lemma OackSent(start: Conn, e: Data)
    requires ReadStart(start, e) && start.blockNumber == 0
    ensures Run(Rfc1350, start, [] + [ServerWrites(Sent, false)])
         == System(start.(state := WAIT_FOR_ACK), 0, NewReceiver(),
                   [Message(0, SerialiseOack(OackPacket(start.oack)))], [])
  {
    RunOne(Rfc1350, start, [], ServerWrites(Sent, false));
  }

  lemma OackAnswered(start: Conn, e: Data) returns (actions: seq<Action>)
    requires ReadStart(start, e) && start.blockNumber == 0
    ensures AllHealthy(actions) && |actions| == 2
    ensures Run(Rfc1350, start, actions)
         == System(start.(state := WAIT_FOR_ACK), 0, NewReceiver(), [], [AckMessage(0)])
  {
    OackSent(start, e);
    actions := [] + [ServerWrites(Sent, false)];
    OackIsNoData(start.oack);
    RunOne(Rfc1350, start, actions, ReceiverReads(true));
    HealthySnoc(actions, ReceiverReads(true));
    actions := actions + [ReceiverReads(true)];
  }

  lemma OackTaken(start: Conn, s: System, e: Data)
    requires ReadStart(start, e) && start.blockNumber == 0
    requires s == System(start.(state := WAIT_FOR_ACK), 0, NewReceiver(), [], [AckMessage(0)])
    ensures var t := Step(Rfc1350, s, ServerReads(false)); Quiet(t) && t.n == 1
  {
    StartInv(start, e);
    HeadAckTaken(Rfc1350, s, 0);
    AckZero(s.conn, e);
  }

  /** The number of actions before the first block: a round for the option acknowledgement, or none. */
  function Preamble(start: Conn): nat {
    if start.blockNumber == 0 then 3 else 0
  }

  lemma {:induction false} CleanProgress(policy: Policy, start: Conn, e: Data, k: nat) returns (actions: seq<Action>)
    requires Starts(policy, start, e) && Decodable(policy, e, start.blockSize, k)
    requires k < |Blocks.Blocks(e, start.blockSize)|
    ensures AllHealthy(actions)
    ensures |actions| == Preamble(start) + 3 * k
    ensures var s := Run(policy, start, actions); Quiet(s) && s.n == k + 1
    decreases k
  {
    if k == 0 {
      actions := [];
      if start.blockNumber == 0 {
        actions := OackRound(start, e);
      }
    } else {
      DecodableFewer(policy, e, start.blockSize, k - 1, k);
      actions := CleanProgress(policy, start, e, k - 1);
      actions := QuietRound(policy, start, e, actions);
    }
  }

  /**
   * No file is out of reach: without losses, three actions a block (and three for acknowledged options)
   * take both sides to the end of the transfer.
   */
  lemma CleanTransferCompletes(policy: Policy, start: Conn, e: Data) returns (actions: seq<Action>)
    requires Starts(policy, start, e)
    requires Decodable(policy, e, start.blockSize, |Blocks.Blocks(e, start.blockSize)|)
    ensures AllHealthy(actions)
    ensures |actions| == Preamble(start) + 3 * (|e| / start.blockSize + 1)
    ensures var s := Run(policy, start, actions);
      s.conn.finished && s.receiver.phase == Complete
  {
    Blocks.BlocksCount(e, start.blockSize);
    var last := |Blocks.Blocks(e, start.blockSize)| - 1;
    DecodableFewer(policy, e, start.blockSize, last, last + 1);
    actions := CleanProgress(policy, start, e, last);
    actions := QuietRound(policy, start, e, actions);
  }

  /** `get_file` can succeed on a file exactly when every block of it decodes on its own. */
  lemma GetFileCanSucceed(filename: Data, mode: Mode, env: Options.Surroundings, file: Data)
    requires NulFree(filename)
    ensures var start := Served(filename, mode, env, file);
      (exists actions ::
         OutcomeOf(StrictRun(mode, Delivered(Strict(mode), start, actions)).receiver.phase) == Returned(true))
      <==> mode == OCTET || !Blocks.BoundarySplitsPair(Blocks.Encoded(mode, file), DATA_PKT_DATA_MAX_SIZE)
  {
    var start := Served(filename, mode, env, file);
    if mode == OCTET || !Blocks.BoundarySplitsPair(Blocks.Encoded(mode, file), DATA_PKT_DATA_MAX_SIZE) {
      var actions := GetFileSucceeds(filename, mode, env, file);
    } else {
      forall actions
        ensures OutcomeOf(StrictRun(mode, Delivered(Strict(mode), start, actions)).receiver.phase) != Returned(true)
      {
        EndToEnd(filename, mode, env, file, actions);
      }
    }
  }

  lemma BlocksDecodable(mode: Mode, file: Data, size: nat)
    requires size >= 1
    requires mode == OCTET || !Blocks.BoundarySplitsPair(Blocks.Encoded(mode, file), size)
    ensures Decodable(Strict(mode), Blocks.Encoded(mode, file), size, |Blocks.Blocks(Blocks.Encoded(mode, file), size)|)
  {
    var bs := Blocks.Blocks(Blocks.Encoded(mode, file), size);
    assert bs[..|bs|] == bs;
    if mode == OCTET {
      Blocks.OctetBlocksDecode(Blocks.Blocks(file, size));
    } else {
      Blocks.NetasciiBlocksDecode(file, size);
    }
  }

  lemma GetFileSucceeds(filename: Data, mode: Mode, env: Options.Surroundings, file: Data)
    returns (actions: seq<Action>)
    requires NulFree(filename)
    requires mode == OCTET || !Blocks.BoundarySplitsPair(Blocks.Encoded(mode, file), DATA_PKT_DATA_MAX_SIZE)
    ensures var delivered := Delivered(Strict(mode), Served(filename, mode, env, file), actions);
      OutcomeOf(StrictRun(mode, delivered).receiver.phase) == Returned(true)
  {
    var e, start := Blocks.Encoded(mode, file), Served(filename, mode, env, file);
    ServedStarts(filename, mode, env, file);
    BlocksDecodable(mode, file, DATA_PKT_DATA_MAX_SIZE);
    actions := CleanTransferCompletes(Strict(mode), start, e);
    StrictReceiverIsGetFile(mode, start, actions);
  }
}
