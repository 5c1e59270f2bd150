/** Runs over the reordering network that get a transfer ahead. */
module BagProgress {
  import opened Bytes
  import opened Packets
  import opened Timers
  import opened Connection
  import opened Client
  import opened ReadSide
  import opened Transfer
  import opened BagTransfer
  import FifoProgress
  import Blocks

  lemma RunOne(policy: Policy, start: Conn, actions: seq<Action>, a: Action)
    ensures Run(policy, start, actions + [a]) == Step(policy, Run(policy, start, actions), a)
  {
    assert (actions + [a])[..|actions|] == actions;
  }

  // ------------------------------------------------ a run without losses or delays

  /** Everything up to block n can still arrive: the blocks before it, and the acknowledgements from `low` on. */
  predicate Offered(s: System, e: Data, size: nat, low: nat)
    requires size >= 1
  {
    && s.n <= |Blocks.Blocks(e, size)|
    && (forall k :: 1 <= k < s.n ==> Message(k, DataWire(e, size, k)) in s.data)
    && (forall k :: low <= k < s.n ==> AckMessage(k) in s.acks)
  }

  /** Both sides are at block n, whatever else is still on its way. */
  predicate AtBlock(policy: Policy, s: System, e: Data, size: nat, low: nat) {
    && size >= 1 && s.conn.blockSize == size
    && ReadInv(s.conn, s.n, e) && ReceiverAt(policy, s.receiver, e, size)
    && !s.conn.timer.Expired? && !s.conn.finished && s.n >= 1 && s.receiver.phase == Receiving
    && (policy != Rfc1350 ==> size == DATA_PKT_DATA_MAX_SIZE)
    && Offered(s, e, size, low)
  }

  /** Block n is about to be sent. */
  predicate ToSend(policy: Policy, s: System, e: Data, size: nat, low: nat) {
    && AtBlock(policy, s, e, size, low)
    && s.conn.state == SEND_DATA && s.n == |s.receiver.payloads| + 1
  }

  /** Block n has been sent. */
  predicate ToReceive(policy: Policy, s: System, e: Data, size: nat, low: nat) {
    && AtBlock(policy, s, e, size, low)
    && s.conn.state == WAIT_FOR_ACK && s.n == |s.receiver.payloads| + 1
    && Message(s.n, DataWire(e, size, s.n)) in s.data
  }

  /** Block n has been answered, and it was not the last one. */
  predicate ToAcknowledge(policy: Policy, s: System, e: Data, size: nat, low: nat) {
    && AtBlock(policy, s, e, size, low)
    && s.conn.state == WAIT_FOR_ACK && s.n == |s.receiver.payloads|
    && Message(s.n, DataWire(e, size, s.n)) in s.data && AckMessage(s.n) in s.acks
  }

  lemma Sends(policy: Policy, s: System, e: Data, size: nat, low: nat)
    requires ToSend(policy, s, e, size, low)
    ensures ToReceive(policy, Step(policy, s, ServerWrites(Sent, false)), e, size, low)
    ensures Step(policy, s, ServerWrites(Sent, false)).n == s.n
  {
    WriteStep(s.conn, s.n, e, Sent, false);
  }

  lemma Receives(policy: Policy, s: System, e: Data, size: nat, low: nat)
    requires ToReceive(policy, s, e, size, low) && FifoProgress.Decodable(policy, e, size, s.n)
    requires s.n < |Blocks.Blocks(e, size)|
    ensures var m := Message(s.n, DataWire(e, size, s.n));
      var t := Step(policy, s, ReceiverReads(m, true));
      ToAcknowledge(policy, t, e, size, low) && t.n == s.n
  {
    NextBlockStored(policy, s.receiver, e, size, true);
    var x := FifoProgress.NextBlock(policy, s.receiver, e, size, true);
  }

  lemma Acknowledges(policy: Policy, s: System, e: Data, size: nat, low: nat)
    requires ToAcknowledge(policy, s, e, size, low) && s.n < |Blocks.Blocks(e, size)|
    ensures var t := Step(policy, s, ServerReads(Some(AckMessage(s.n)), false));
      ToSend(policy, t, e, size, low) && t.n == s.n + 1
  {
    AckTaken(policy, s, AckMessage(s.n));
    AckMovesOn(s.conn, s.n, e);
    OfferedNext(s, e, size, low);
  }

  lemma AckMovesOn(c: Conn, n: nat, e: Data)
    requires ReadInv(c, n, e) && c.state == WAIT_FOR_ACK && n < |Blocks.Blocks(e, c.blockSize)| && n >= 1
    ensures var d := OnAck(c, Wire(n));
      && ReadInv(d, n + 1, e) && IndexAfter(c, d, n) == n + 1
      && d == c.(timeoutCount := 0, packet := None, state := SEND_DATA, blockNumber := Next(c.blockNumber))
  {
    AckStep(c, n, e, Wire(n));
  }

  lemma OfferedNext(s: System, e: Data, size: nat, low: nat)
    requires size >= 1 && Offered(s, e, size, low) && 1 <= s.n < |Blocks.Blocks(e, size)|
    requires Message(s.n, DataWire(e, size, s.n)) in s.data && AckMessage(s.n) in s.acks
    ensures Offered(s.(n := s.n + 1), e, size, low)
  {
  }

  lemma Round(policy: Policy, start: Conn, e: Data, actions: seq<Action>, low: nat) returns (more: seq<Action>)
    requires ToSend(policy, Run(policy, start, actions), e, start.blockSize, low)
    requires var n := Run(policy, start, actions).n;
      n < |Blocks.Blocks(e, start.blockSize)| && FifoProgress.Decodable(policy, e, start.blockSize, n)
    ensures ToSend(policy, Run(policy, start, more), e, start.blockSize, low)
    ensures Run(policy, start, more).n == Run(policy, start, actions).n + 1
  {
    var n := Run(policy, start, actions).n;
    more := SendOnce(policy, start, e, actions, low);
    Receives(policy, Run(policy, start, more), e, start.blockSize, low);
    var receive := ReceiverReads(Message(n, DataWire(e, start.blockSize, n)), true);
    RunOne(policy, start, more, receive);
    more := more + [receive];
    Acknowledges(policy, Run(policy, start, more), e, start.blockSize, low);
    RunOne(policy, start, more, ServerReads(Some(AckMessage(n)), false));
    more := more + [ServerReads(Some(AckMessage(n)), false)];
  }

  lemma SendOnce(policy: Policy, start: Conn, e: Data, actions: seq<Action>, low: nat) returns (more: seq<Action>)
    requires ToSend(policy, Run(policy, start, actions), e, start.blockSize, low)
    ensures ToReceive(policy, Run(policy, start, more), e, start.blockSize, low)
    ensures Run(policy, start, more).n == Run(policy, start, actions).n
  {
    Sends(policy, Run(policy, start, actions), e, start.blockSize, low);
    RunOne(policy, start, actions, ServerWrites(Sent, false));
    more := actions + [ServerWrites(Sent, false)];
  }

  // --------------------------------------------------------- getting to block one

  lemma PlainStart(policy: Policy, start: Conn, e: Data)
    requires Starts(policy, start, e) && start.blockNumber == 1
    ensures ToSend(policy, Run(policy, start, []), e, start.blockSize, 1) && Run(policy, start, []).n == 1
  {
    StartInv(start, e);
    NewReceiverAt(policy, e, start.blockSize);
    Blocks.BlocksShape(e, start.blockSize, 0);
  }

  lemma OackSent(start: Conn, e: Data)
    requires ReadStart(start, e) && start.blockNumber == 0
    ensures Step(Rfc1350, Initial(start), ServerWrites(Sent, false))
         == System(start.(state := WAIT_FOR_ACK), 0, NewReceiver(), {OackMessage(start)}, {})
  {
  }

  function OackMessage(start: Conn): Message {
    Message(0, SerialiseOack(OackPacket(start.oack)))
  }

  lemma OackAnswered(start: Conn, e: Data, s: System)
    requires s == System(start.(state := WAIT_FOR_ACK), 0, NewReceiver(), {OackMessage(start)}, {})
    ensures Step(Rfc1350, s, ReceiverReads(OackMessage(start), true)) == s.(acks := {AckMessage(0)})
  {
    OackIsNoData(start.oack);
    OackParses(start.oack);
  }

  lemma OackParses(oack: seq<Opt>)
    ensures DeserialiseOack(SerialiseOack(OackPacket(oack))).Some?
  {
  }

  lemma OackTaken(start: Conn, e: Data, s: System)
    requires ReadStart(start, e) && start.blockNumber == 0
    requires s == System(start.(state := WAIT_FOR_ACK), 0, NewReceiver(), {OackMessage(start)}, {AckMessage(0)})
    ensures var t := Step(Rfc1350, s, ServerReads(Some(AckMessage(0)), false));
      ToSend(Rfc1350, t, e, start.blockSize, 0) && t.n == 1
  {
    StartInv(start, e);
    ZeroTaken(s, e);
    FirstBlockNext(s.conn, e);
    AtFirstBlock(OnAck(s.conn, Wire(0)), e, s.data, s.acks);
  }

  lemma ZeroTaken(s: System, e: Data)
    requires ReadInv(s.conn, 0, e) && s.conn.state == WAIT_FOR_ACK && !s.conn.finished
    requires s.n == 0 && AckMessage(0) in s.acks
    ensures Step(Rfc1350, s, ServerReads(Some(AckMessage(0)), false)) == s.(conn := OnAck(s.conn, Wire(0)), n := 1)
  {
    AckTaken(Rfc1350, s, AckMessage(0));
    AckZero(s.conn, e);
  }

  lemma AtFirstBlock(c: Conn, e: Data, data: set<Message>, acks: set<Message>)
    requires ReadInv(c, 1, e) && ReceiverAt(Rfc1350, NewReceiver(), e, c.blockSize)
    requires c.state == SEND_DATA && !c.timer.Expired? && !c.finished && AckMessage(0) in acks
    ensures ToSend(Rfc1350, System(c, 1, NewReceiver(), data, acks), e, c.blockSize, 0)
  {
  }

  lemma FirstBlockNext(c: Conn, e: Data)
    requires ReadInv(c, 0, e) && c.state == WAIT_FOR_ACK && !c.finished
    ensures var d := OnAck(c, Wire(0));
      && ReadInv(d, 1, e) && d.state == SEND_DATA && d.timer == c.timer && !d.finished && d.blockSize == c.blockSize
    ensures ReceiverAt(Rfc1350, NewReceiver(), e, c.blockSize)
  {
    AckZero(c, e);
    AckStep(c, 0, e, Wire(0));
    NewReceiverAt(Rfc1350, e, c.blockSize);
  }

  lemma OackStart(start: Conn, e: Data) returns (actions: seq<Action>)
    requires ReadStart(start, e) && start.blockNumber == 0
    ensures ToSend(Rfc1350, Run(Rfc1350, start, actions), e, start.blockSize, 0)
    ensures Run(Rfc1350, start, actions).n == 1
  {
    RunOne(Rfc1350, start, [], ServerWrites(Sent, false));
    actions := [] + [ServerWrites(Sent, false)];
    OackSent(start, e);
    OackAnswered(start, e, Run(Rfc1350, start, actions));
    RunOne(Rfc1350, start, actions, ReceiverReads(OackMessage(start), true));
    actions := actions + [ReceiverReads(OackMessage(start), true)];
    OackTaken(start, e, Run(Rfc1350, start, actions));
    RunOne(Rfc1350, start, actions, ServerReads(Some(AckMessage(0)), false));
    actions := actions + [ServerReads(Some(AckMessage(0)), false)];
  }

  lemma {:induction false} Progress(policy: Policy, start: Conn, e: Data, k: nat) returns (actions: seq<Action>)
    requires Starts(policy, start, e) && k < |Blocks.Blocks(e, start.blockSize)|
    requires FifoProgress.Decodable(policy, e, start.blockSize, k)
    ensures ToSend(policy, Run(policy, start, actions), e, start.blockSize, start.blockNumber)
    ensures Run(policy, start, actions).n == k + 1
    decreases k
  {
    if k == 0 {
      actions := [];
      if start.blockNumber == 0 {
        actions := OackStart(start, e);
      } else {
        PlainStart(policy, start, e);
      }
    } else {
      FifoProgress.DecodableFewer(policy, e, start.blockSize, k - 1, k);
      actions := Progress(policy, start, e, k - 1);
      actions := Round(policy, start, e, actions, start.blockNumber);
    }
  }

  // ------------------------------------------------- driven by old acknowledgements

  /** The smallest number from 1 to 65536 with the same wire number. */
  function Residue(n: nat): (j: nat)
    requires n >= 1
    ensures 1 <= j <= 65536 && j <= n && Wire(j) == Wire(n)
  {
    if n <= 65536 then n else Residue(n - 65536)
  }

  /** Block n is about to be sent, and acknowledgements of every wire number can still arrive. */
  predicate Driven(s: System, e: Data, size: nat) {
    && size >= 1 && s.conn.blockSize == size && ReadInv(s.conn, s.n, e) && s.conn.state == SEND_DATA
    && !s.conn.timer.Expired? && !s.conn.finished
    && (forall j :: 1 <= j <= 65536 ==> AckMessage(j) in s.acks)
  }

  /** Block n has been sent, and the same. */
  predicate DrivenSent(s: System, e: Data, size: nat) {
    && size >= 1 && s.conn.blockSize == size && ReadInv(s.conn, s.n, e) && s.conn.state == WAIT_FOR_ACK && s.n >= 1
    && !s.conn.timer.Expired? && !s.conn.finished
    && (forall j :: 1 <= j <= 65536 ==> AckMessage(j) in s.acks)
    && Message(s.n, DataWire(e, size, s.n)) in s.data
  }

  lemma DrivenSends(policy: Policy, s: System, e: Data, size: nat)
    requires Driven(s, e, size)
    ensures var t := Step(policy, s, ServerWrites(Sent, false));
      DrivenSent(t, e, size) && t.n == s.n && t.receiver == s.receiver
  {
    WriteStep(s.conn, s.n, e, Sent, false);
  }

  lemma DrivenOn(policy: Policy, s: System, e: Data, size: nat)
    requires DrivenSent(s, e, size) && s.n < |Blocks.Blocks(e, size)|
    ensures var t := Step(policy, s, ServerReads(Some(AckMessage(Residue(s.n))), false));
      Driven(t, e, size) && t.n == s.n + 1 && t.receiver == s.receiver
  {
    AckTaken(policy, s, AckMessage(Residue(s.n)));
    AckMovesOn(s.conn, s.n, e);
  }

  lemma DriveSend(policy: Policy, start: Conn, e: Data, actions: seq<Action>) returns (more: seq<Action>)
    requires Driven(Run(policy, start, actions), e, start.blockSize)
    ensures var s, t := Run(policy, start, actions), Run(policy, start, more);
      DrivenSent(t, e, start.blockSize) && t.n == s.n && t.receiver == s.receiver
  {
    DrivenSends(policy, Run(policy, start, actions), e, start.blockSize);
    RunOne(policy, start, actions, ServerWrites(Sent, false));
    more := actions + [ServerWrites(Sent, false)];
  }

  /** Old acknowledgements take the server to any later block while the receiver stands still. */
  lemma {:induction false} Drive(policy: Policy, start: Conn, e: Data, actions: seq<Action>, k: nat)
    returns (more: seq<Action>)
    requires Driven(Run(policy, start, actions), e, start.blockSize)
    requires Run(policy, start, actions).n <= k <= |Blocks.Blocks(e, start.blockSize)|
    ensures var s, t := Run(policy, start, actions), Run(policy, start, more);
      DrivenSent(t, e, start.blockSize) && t.n == k && t.receiver == s.receiver
    decreases k - Run(policy, start, actions).n
  {
    more := DriveSend(policy, start, e, actions);
    var n := Run(policy, start, actions).n;
    if n < k {
      DrivenOn(policy, Run(policy, start, more), e, start.blockSize);
      RunOne(policy, start, more, ServerReads(Some(AckMessage(Residue(n))), false));
      more := more + [ServerReads(Some(AckMessage(Residue(n))), false)];
      more := Drive(policy, start, e, more, k);
    }
  }
}
