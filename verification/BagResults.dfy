/** Exactly when a reordering network breaks a READ. */
module BagResults {
  import opened Bytes
  import opened Packets
  import opened Connection
  import opened Client
  import opened ReadSide
  import opened Transfer
  import opened BagTransfer
  import opened BagProgress
  import opened BagStrict
  import FifoProgress
  import Blocks

  // ------------------------------------------------------------------ wrong blocks

  predicate StoresWrongBlock(policy: Policy, start: Conn, e: Data, actions: seq<Action>)
    requires start.blockSize >= 1
  {
    !(Run(policy, start, actions).receiver.payloads <= Blocks.Blocks(e, start.blockSize))
  }

  /** A block with the right number is stored, whatever its content. */
  lemma TakenForNext(policy: Policy, r: Receiver, e: Data, size: nat, p: nat, k: nat)
    requires size >= 1 && ReceiverAt(policy, r, e, size) && r.phase == Receiving && |r.payloads| == p - 1
    requires policy != Rfc1350 ==> size == DATA_PKT_DATA_MAX_SIZE
    requires ConfusedWith(policy, e, size, p, k)
    ensures !(React(policy, size, r, DataWire(e, size, k), true).receiver.payloads <= Blocks.Blocks(e, size))
  {
    var bs := Blocks.Blocks(e, size);
    BlockFits(e, size, k);
    var packet := DataPacket(Wire(k), bs[k - 1]);
    ReactionToPacket(policy, size, r, DataWire(e, size, k), packet, true);
    assert (r.payloads + [packet.data])[p - 1] == bs[k - 1];
  }

  lemma Delivered(policy: Policy, s: System, m: Message)
    requires m in s.data
    ensures Step(policy, s, ReceiverReads(m, true)).receiver
         == React(policy, s.conn.blockSize, s.receiver, m.bytes, true).receiver
  {
  }

  /** At block p with all the acknowledgements before it around, the server can be driven on. */
  lemma CanBeDriven(policy: Policy, s: System, e: Data, size: nat, low: nat)
    requires ToSend(policy, s, e, size, low) && s.n > 65536 && low <= 1
    ensures Driven(s, e, size)
  {
  }

  /** A run that leaves the receiver before block p while block k can be delivered. */
  lemma ConfusedRun(policy: Policy, start: Conn, e: Data, p: nat, k: nat) returns (actions: seq<Action>)
    requires Starts(policy, start, e) && ConfusedWith(policy, e, start.blockSize, p, k)
    ensures var s := Run(policy, start, actions);
      && ReceiverAt(policy, s.receiver, e, start.blockSize) && s.receiver.phase == Receiving
      && |s.receiver.payloads| == p - 1 && s.conn.blockSize == start.blockSize
      && Message(k, DataWire(e, start.blockSize, k)) in s.data
  {
    actions := Progress(policy, start, e, p - 1);
    if k > p {
      CanBeDriven(policy, Run(policy, start, actions), e, start.blockSize, start.blockNumber);
      actions := Drive(policy, start, e, actions, k);
    }
  }

  lemma WrongBlockRun(policy: Policy, start: Conn, e: Data, p: nat, k: nat) returns (actions: seq<Action>)
    requires Starts(policy, start, e) && ConfusedWith(policy, e, start.blockSize, p, k)
    ensures StoresWrongBlock(policy, start, e, actions)
  {
    var m := Message(k, DataWire(e, start.blockSize, k));
    actions := ConfusedRun(policy, start, e, p, k);
    TakenForNext(policy, Run(policy, start, actions).receiver, e, start.blockSize, p, k);
    Delivered(policy, Run(policy, start, actions), m);
    RunOne(policy, start, actions, ReceiverReads(m, true));
    actions := actions + [ReceiverReads(m, true)];
  }

  /** Where all blocks before the last decode, blocks can be confused exactly when the wire numbers repeat. */
  lemma ConfusableExactly(policy: Policy, e: Data, size: nat)
    requires size >= 1 && FifoProgress.Decodable(policy, e, size, |Blocks.Blocks(e, size)| - 1)
    ensures Confusable(policy, e, size) <==> |Blocks.Blocks(e, size)| > 65536
  {
    var n := |Blocks.Blocks(e, size)|;
    if n > 65536 {
      Blocks.BlocksShape(e, size, n - 1);
      Blocks.BlocksShape(e, size, n - 65537);
      assert ConfusedWith(policy, e, size, n, n - 65536);
    }
  }

  lemma NothingWrong(policy: Policy, start: Conn, e: Data, actions: seq<Action>)
    requires Starts(policy, start, e) && !Confusable(policy, e, start.blockSize)
    ensures !StoresWrongBlock(policy, start, e, actions)
  {
    if policy.Strict? {
      SoundAlways(policy, start, e, actions);
    } else {
      ConfusableExactly(policy, e, start.blockSize);
      BagSafety(policy, start, e, actions);
    }
  }

  /**
   * A READ over a reordering network can make its receiver store a wrong block if and only if, after more than
   * 65535 blocks that can be stored, two different blocks of the file share the wire number that is next.
   */
  lemma WrongBlockExactly(policy: Policy, start: Conn, e: Data)
    requires Starts(policy, start, e)
    ensures (exists actions :: StoresWrongBlock(policy, start, e, actions)) <==> Confusable(policy, e, start.blockSize)
  {
    if Confusable(policy, e, start.blockSize) {
      var p: nat, k: nat :| ConfusedWith(policy, e, start.blockSize, p, k);
      var actions := WrongBlockRun(policy, start, e, p, k);
    } else {
      forall actions ensures !StoresWrongBlock(policy, start, e, actions) {
        NothingWrong(policy, start, e, actions);
      }
    }
  }

  // ------------------------------------------------------------------ early finish

  /** An acknowledgement ends the transfer although the receiver does not hold all the blocks. */
  predicate FinishesEarly(policy: Policy, start: Conn, e: Data, actions: seq<Action>, m: Message)
    requires start.blockSize >= 1
  {
    && FinishesBy(policy, Run(policy, start, actions), m)
    && Run(policy, start, actions).receiver.payloads != Blocks.Blocks(e, start.blockSize)
  }

  lemma OldAckFinishes(policy: Policy, s: System, e: Data, size: nat, low: nat)
    requires ToReceive(policy, s, e, size, low) && s.n == |Blocks.Blocks(e, size)| >= 65536 + low
    ensures FinishesBy(policy, s, AckMessage(s.n - 65536))
  {
    AckTaken(policy, s, AckMessage(s.n - 65536));
  }

  lemma EarlyFinishRun(policy: Policy, start: Conn, e: Data) returns (actions: seq<Action>, m: Message)
    requires Starts(policy, start, e) && |Blocks.Blocks(e, start.blockSize)| >= 65536 + start.blockNumber
    requires FifoProgress.Decodable(policy, e, start.blockSize, |Blocks.Blocks(e, start.blockSize)| - 1)
    ensures FinishesEarly(policy, start, e, actions, m)
  {
    var n := |Blocks.Blocks(e, start.blockSize)|;
    m := AckMessage(n - 65536);
    actions := Progress(policy, start, e, n - 1);
    actions := SendOnce(policy, start, e, actions, start.blockNumber);
    OldAckFinishes(policy, Run(policy, start, actions), e, start.blockSize, start.blockNumber);
  }

  /** Block 65536 is stored and answered even by a receiver that cannot decode it. */
  lemma LastOfRound(policy: Policy, s: System, e: Data, size: nat)
    requires ToReceive(policy, s, e, size, 1) && s.n == 65536 < |Blocks.Blocks(e, size)|
    ensures var t := Step(policy, s, ReceiverReads(Message(s.n, DataWire(e, size, s.n)), true));
      && DrivenSent(t, e, size) && t.n == 65536 && |t.receiver.payloads| == 65536
  {
    NextBlockStored(policy, s.receiver, e, size, true);
  }

  lemma RoundComplete(policy: Policy, start: Conn, e: Data) returns (actions: seq<Action>)
    requires policy.Strict? && Starts(policy, start, e) && |Blocks.Blocks(e, start.blockSize)| > 65536
    requires FifoProgress.Decodable(policy, e, start.blockSize, 65535)
    ensures var s := Run(policy, start, actions);
      Driven(s, e, start.blockSize) && s.n == 65537 && |s.receiver.payloads| == 65536
  {
    actions := Progress(policy, start, e, 65535);
    actions := SendOnce(policy, start, e, actions, 1);
    LastOfRound(policy, Run(policy, start, actions), e, start.blockSize);
    var receive := ReceiverReads(Message(65536, DataWire(e, start.blockSize, 65536)), true);
    RunOne(policy, start, actions, receive);
    actions := actions + [receive];
    DrivenOn(policy, Run(policy, start, actions), e, start.blockSize);
    RunOne(policy, start, actions, ServerReads(Some(AckMessage(Residue(65536))), false));
    actions := actions + [ServerReads(Some(AckMessage(Residue(65536))), false)];
  }

  lemma DrivenFinishes(policy: Policy, s: System, e: Data, size: nat)
    requires DrivenSent(s, e, size) && s.n == |Blocks.Blocks(e, size)|
    ensures FinishesBy(policy, s, AckMessage(Residue(s.n)))
  {
    AckTaken(policy, s, AckMessage(Residue(s.n)));
  }

  /** Once every wire number has been acknowledged the receiver is not needed any more. */
  lemma DrivenFinishRun(policy: Policy, start: Conn, e: Data) returns (actions: seq<Action>, m: Message)
    requires policy.Strict? && Starts(policy, start, e) && |Blocks.Blocks(e, start.blockSize)| > 65536
    requires FifoProgress.Decodable(policy, e, start.blockSize, 65535)
    ensures FinishesEarly(policy, start, e, actions, m)
  {
    var n := |Blocks.Blocks(e, start.blockSize)|;
    actions := RoundComplete(policy, start, e);
    actions := Drive(policy, start, e, actions, n);
    m := AckMessage(Residue(n));
    DrivenFinishes(policy, Run(policy, start, actions), e, start.blockSize);
  }

  /** What it takes to finish early. */
  predicate CanFinishEarly(policy: Policy, start: Conn, e: Data)
    requires start.blockSize >= 1
  {
    && |Blocks.Blocks(e, start.blockSize)| >= 65536 + start.blockNumber
    && FifoProgress.Decodable(policy, e, start.blockSize, 65535)
  }

  lemma SomeEarlyFinish(policy: Policy, start: Conn, e: Data) returns (actions: seq<Action>, m: Message)
    requires Starts(policy, start, e) && CanFinishEarly(policy, start, e)
    ensures FinishesEarly(policy, start, e, actions, m)
  {
    if policy.Strict? {
      actions, m := DrivenFinishRun(policy, start, e);
    } else {
      actions, m := EarlyFinishRun(policy, start, e);
    }
  }

  lemma NeverEarly(policy: Policy, start: Conn, e: Data, actions: seq<Action>, m: Message)
    requires Starts(policy, start, e) && !CanFinishEarly(policy, start, e)
    ensures !FinishesEarly(policy, start, e, actions, m)
  {
    if FinishesBy(policy, Run(policy, start, actions), m) {
      if |Blocks.Blocks(e, start.blockSize)| < 65536 + start.blockNumber {
        BagCompletion(policy, start, e, actions, m);
      } else {
        StuckAlways(policy, start, e, actions);
        StuckNeverFinishes(policy, Run(policy, start, actions), e, start.blockSize, start.oack, m);
      }
    }
  }

  /** The server stays within a block of a receiver that does not get far, so it sees no end of a long file. */
  lemma StuckNeverFinishes(policy: Policy, s: System, e: Data, size: nat, oack: seq<Opt>, m: Message)
    requires Stuck(policy, s, e, size, oack) && |Blocks.Blocks(e, size)| > 65536
    ensures !FinishesBy(policy, s, m)
  {
    if FinishesBy(policy, s, m) {
      AckTaken(policy, s, m);
      FinishingAck(s.conn, s.n, e, m.index);
    }
  }

  /**
   * The server can finish early if and only if the file has 65536 blocks or more, one more without an option
   * acknowledgement, and the receiver gets as far as answering block 65536: then acknowledgements sent
   * 65536 blocks before pass for its own.
   */
  lemma EarlyFinishExactly(policy: Policy, start: Conn, e: Data)
    requires Starts(policy, start, e)
    ensures (exists actions, m :: FinishesEarly(policy, start, e, actions, m)) <==> CanFinishEarly(policy, start, e)
  {
    if CanFinishEarly(policy, start, e) {
      var actions, m := SomeEarlyFinish(policy, start, e);
    } else {
      forall actions, m ensures !FinishesEarly(policy, start, e, actions, m) {
        NeverEarly(policy, start, e, actions, m);
      }
    }
  }
}
