/** What holds of a strict receiver over a reordering network however long the file is. */
module BagStrict {
  import opened Bytes
  import opened Packets
  import opened Connection
  import opened Client
  import opened ReadSide
  import opened Transfer
  import opened BagTransfer
  import FifoProgress
  import Blocks

  /** Something the server may have sent to a receiver without options, whatever its index. */
  predicate Sendable(m: Message, e: Data, size: nat, oack: seq<Opt>, n: nat)
    requires size >= 1
  {
    1 <= m.index <= n && FromServer(m, e, size, oack)
  }

  /**
   * The receiver holds leading blocks of which all but the last decode; and as long as it holds less than
   * 65536 of them, no wire number has been used twice.
   */
  predicate Sound(policy: Policy, s: System, e: Data, size: nat, oack: seq<Opt>) {
    && size == DATA_PKT_DATA_MAX_SIZE && s.conn.blockSize == size && s.conn.oack == oack
    && s.n >= 1 && ReadInv(s.conn, s.n, e)
    && ReceiverAt(policy, s.receiver, e, size) && FrontDecodes(policy, s.receiver)
    && (forall m :: m in s.data ==> Sendable(m, e, size, oack, s.n))
    && (|s.receiver.payloads| <= 65535 ==> Ordered(policy, s, e, size, oack) && FromStart(s, 1))
  }

  // ---------------------------------------------------------------------- the server

  lemma SoundWrites(policy: Policy, s: System, e: Data, size: nat, oack: seq<Opt>, send: Send, readFails: bool)
    requires policy.Strict? && Sound(policy, s, e, size, oack)
    ensures Sound(policy, Step(policy, s, ServerWrites(send, readFails)), e, size, oack)
  {
    WriteStep(s.conn, s.n, e, send, readFails);
    SentByServer(s.conn, s.n, e, send, readFails);
    if |s.receiver.payloads| <= 65535 {
      ServerWritesStep(policy, s, e, send, readFails);
      FromStartStep(policy, s, ServerWrites(send, readFails), 1);
    }
  }

  lemma SoundReads(policy: Policy, s: System, e: Data, size: nat, oack: seq<Opt>, arrival: Option<Message>,
                   socketFails: bool)
    requires policy.Strict? && Sound(policy, s, e, size, oack)
    ensures Sound(policy, Step(policy, s, ServerReads(arrival, socketFails)), e, size, oack)
  {
    ReadStep(s.conn, s.n, e, Incoming(s, arrival, socketFails), s.conn.blockSize, false);
    if |s.receiver.payloads| <= 65535 {
      ServerReadsStep(policy, s, e, arrival, socketFails);
      FromStartStep(policy, s, ServerReads(arrival, socketFails), 1);
    }
  }

  // -------------------------------------------------------------------- the receiver

  /** Block k would be taken for block p, after all the blocks before p were stored. */
  predicate ConfusedWith(policy: Policy, e: Data, size: nat, p: nat, k: nat)
    requires size >= 1
  {
    var bs := Blocks.Blocks(e, size);
    && 65536 < p <= |bs| && 1 <= k <= |bs| && Wire(k) == Wire(p) && bs[k - 1] != bs[p - 1]
    && FifoProgress.Decodable(policy, e, size, p - 1)
  }

  ghost predicate Confusable(policy: Policy, e: Data, size: nat)
    requires size >= 1
  {
    exists p: nat, k: nat :: ConfusedWith(policy, e, size, p, k)
  }

  /** A receiver that waits for a block and cannot confuse it takes nothing else for it. */
  lemma SameNumberSameBlock(policy: Policy, r: Receiver, e: Data, size: nat, k: nat)
    requires policy.Strict? && size >= 1 && ReceiverAt(policy, r, e, size) && r.phase == Receiving
    requires |r.payloads| >= 65536 && !Confusable(policy, e, size)
    requires 1 <= k <= |Blocks.Blocks(e, size)| && Wire(k) == Wire(|r.payloads| + 1)
    ensures DataWire(e, size, k) == DataWire(e, size, |r.payloads| + 1)
  {
    assert !ConfusedWith(policy, e, size, |r.payloads| + 1, k);
  }

  lemma LateReaction(policy: Policy, r: Receiver, e: Data, size: nat, oack: seq<Opt>, m: Message, n: nat, reply: bool)
    requires policy.Strict? && size == DATA_PKT_DATA_MAX_SIZE && ReceiverAt(policy, r, e, size)
    requires Sendable(m, e, size, oack, n) && |r.payloads| >= 65536 && !Confusable(policy, e, size)
    ensures var s := React(policy, size, r, m.bytes, reply).receiver;
      ReceiverAt(policy, s, e, size) && |s.payloads| >= |r.payloads|
  {
    if IsErrorDatagram(m.bytes) {
      ErrorDatagramIgnored(m.bytes);
    } else if r.phase == Receiving && Wire(m.index) == Wire(|r.payloads| + 1) {
      SameNumberSameBlock(policy, r, e, size, m.index);
      NextBlockStored(policy, r, e, size, reply);
    } else {
      OtherBlockIgnored(policy, r, e, size, m.index, reply);
    }
  }

  lemma SoundReceives(policy: Policy, s: System, e: Data, size: nat, oack: seq<Opt>, m: Message, reply: bool)
    requires policy.Strict? && Sound(policy, s, e, size, oack) && !Confusable(policy, e, size)
    ensures Sound(policy, Step(policy, s, ReceiverReads(m, reply)), e, size, oack)
  {
    if m in s.data {
      FrontKept(policy, size, s.receiver, e, m.bytes, reply);
      if |s.receiver.payloads| <= 65535 {
        ReceiverReadsStep(policy, s, e, m, reply);
        FromStartStep(policy, s, ReceiverReads(m, reply), 1);
      } else {
        LateReaction(policy, s.receiver, e, size, oack, m, s.n, reply);
      }
    }
  }

  lemma SoundStep(policy: Policy, s: System, e: Data, size: nat, oack: seq<Opt>, a: Action)
    requires policy.Strict? && Sound(policy, s, e, size, oack) && !Confusable(policy, e, size)
    ensures Sound(policy, Step(policy, s, a), e, size, oack)
  {
    match a
    case ServerWrites(send, readFails) => SoundWrites(policy, s, e, size, oack, send, readFails);
    case ServerReads(arrival, socketFails) => SoundReads(policy, s, e, size, oack, arrival, socketFails);
    case Elapses =>
    case ReceiverReads(m, reply) => SoundReceives(policy, s, e, size, oack, m, reply);
  }

  lemma SoundInitially(policy: Policy, start: Conn, e: Data)
    requires policy.Strict? && Starts(policy, start, e)
    ensures Sound(policy, Initial(start), e, start.blockSize, start.oack)
  {
    InitialOrdered(policy, start, e);
  }

  lemma {:induction false} SoundAlways(policy: Policy, start: Conn, e: Data, actions: seq<Action>)
    requires policy.Strict? && Starts(policy, start, e) && !Confusable(policy, e, start.blockSize)
    ensures Sound(policy, Run(policy, start, actions), e, start.blockSize, start.oack)
  {
    if actions == [] {
      SoundInitially(policy, start, e);
    } else {
      SoundAlways(policy, start, e, actions[..|actions| - 1]);
      SoundStep(policy, Run(policy, start, actions[..|actions| - 1]), e, start.blockSize, start.oack,
                actions[|actions| - 1]);
    }
  }

  // ------------------------------------------------ a receiver that does not get far

  /** The receiver meets an undecodable block before the wire numbers repeat. */
  predicate Stuck(policy: Policy, s: System, e: Data, size: nat, oack: seq<Opt>) {
    Ordered(policy, s, e, size, oack) && FromStart(s, 1) && FrontDecodes(policy, s.receiver)
    && |s.receiver.payloads| <= 65535
  }

  lemma GetsNoFurther(policy: Policy, r: Receiver, e: Data, size: nat)
    requires policy.Strict? && size >= 1 && ReceiverAt(policy, r, e, size) && FrontDecodes(policy, r)
    requires |Blocks.Blocks(e, size)| >= 65535 && !FifoProgress.Decodable(policy, e, size, 65535)
    ensures |r.payloads| <= 65535
  {
    var bs := Blocks.Blocks(e, size);
    if |r.payloads| > 65535 {
      assert r.payloads[..|r.payloads| - 1] == bs[..|r.payloads| - 1];
      FifoProgress.DecodableFewer(policy, e, size, 65535, |r.payloads| - 1);
    }
  }

  lemma StuckStep(policy: Policy, s: System, e: Data, size: nat, oack: seq<Opt>, a: Action)
    requires policy.Strict? && Stuck(policy, s, e, size, oack)
    requires |Blocks.Blocks(e, size)| >= 65535 && !FifoProgress.Decodable(policy, e, size, 65535)
    ensures Stuck(policy, Step(policy, s, a), e, size, oack)
  {
    OrderedStep(policy, s, e, size, oack, a);
    FromStartStep(policy, s, a, 1);
    if a.ReceiverReads? && a.m in s.data {
      FrontKept(policy, size, s.receiver, e, a.m.bytes, a.reply);
    }
    GetsNoFurther(policy, Step(policy, s, a).receiver, e, size);
  }

  lemma {:induction false} StuckAlways(policy: Policy, start: Conn, e: Data, actions: seq<Action>)
    requires policy.Strict? && Starts(policy, start, e)
    requires |Blocks.Blocks(e, start.blockSize)| >= 65535
    requires !FifoProgress.Decodable(policy, e, start.blockSize, 65535)
    ensures Stuck(policy, Run(policy, start, actions), e, start.blockSize, start.oack)
  {
    if actions == [] {
      InitialOrdered(policy, start, e);
    } else {
      StuckAlways(policy, start, e, actions[..|actions| - 1]);
      StuckStep(policy, Run(policy, start, actions[..|actions| - 1]), e, start.blockSize, start.oack,
                actions[|actions| - 1]);
    }
  }
}
