/** When a healthy server gives up on a healthy READ. */
module FalseAborts {
  import opened Bytes
  import opened Packets
  import opened Timers
  import opened Connection
  import opened Client
  import opened ReadSide
  import opened Transfer
  import opened FifoTransfer
  import opened FifoResults
  import opened FifoProgress
  import Blocks

  lemma FrontDecodesStep(policy: Policy, s: System, e: Data, a: Action)
    requires Lockstep(policy, s, e, s.conn.blockSize, s.conn.oack) && FrontDecodes(policy, s.receiver)
    ensures FrontDecodes(policy, Step(policy, s, a).receiver)
  {
    StepReceiver(policy, s, a);
    if a.ReceiverReads? && s.toClient != [] {
      FrontKept(policy, s.conn.blockSize, s.receiver, e, s.toClient[0].bytes, a.reply);
    }
  }

  lemma {:induction false} FrontDecodesAlways(policy: Policy, start: Conn, e: Data, actions: seq<Action>)
    requires Starts(policy, start, e)
    ensures FrontDecodes(policy, Run(policy, start, actions).receiver)
  {
    if actions != [] {
      var front := actions[..|actions| - 1];
      FrontDecodesAlways(policy, start, e, front);
      LockstepAlways(policy, start, e, front);
      FrontDecodesStep(policy, Run(policy, start, front), e, actions[|actions| - 1]);
    }
  }

  /**
   * The false abort is real. A run without any local failure that puts the server into ERROR exists if and
   * only if the file has 65536 blocks or more and the receiver gets as far as answering block 65535: a
   * receiver that gives up on an undecodable block must not meet one earlier. One acknowledgement
   * repeated right at the wrap is enough.
   */
  lemma FalseAbortExactly(policy: Policy, start: Conn, e: Data)
    requires Starts(policy, start, e)
    ensures (exists actions :: AllHealthy(actions) && Run(policy, start, actions).conn.state == State.ERROR)
       <==> |Blocks.Blocks(e, start.blockSize)| >= 65536 && Decodable(policy, e, start.blockSize, 65534)
  {
    if |Blocks.Blocks(e, start.blockSize)| >= 65536 && Decodable(policy, e, start.blockSize, 65534) {
      var actions := FalseAbortAtWrap(policy, start, e);
    } else {
      forall actions | AllHealthy(actions) ensures Run(policy, start, actions).conn.state != State.ERROR {
        if Run(policy, start, actions).conn.state == State.ERROR {
          AbortNeedsWrap(policy, start, e, actions);
        }
      }
    }
  }

  lemma AbortNeedsWrap(policy: Policy, start: Conn, e: Data, actions: seq<Action>)
    requires Starts(policy, start, e) && AllHealthy(actions)
    requires Run(policy, start, actions).conn.state == State.ERROR
    ensures |Blocks.Blocks(e, start.blockSize)| >= 65536 && Decodable(policy, e, start.blockSize, 65534)
  {
    ErrorAfterWrap(policy, start, e, actions);
    LockstepAlways(policy, start, e, actions);
    FrontDecodesAlways(policy, start, e, actions);
    FrontIsDecodable(policy, Run(policy, start, actions).receiver, e, start.blockSize);
    DecodableFewer(policy, e, start.blockSize, 65534, |Run(policy, start, actions).receiver.payloads| - 1);
  }

  lemma FrontIsDecodable(policy: Policy, r: Receiver, e: Data, size: nat)
    requires size >= 1 && ReceiverAt(policy, r, e, size) && FrontDecodes(policy, r) && r.payloads != []
    ensures Decodable(policy, e, size, |r.payloads| - 1)
  {
    assert r.payloads[..|r.payloads| - 1] == Blocks.Blocks(e, size)[..|r.payloads| - 1];
  }

  lemma FalseAbortAtWrap(policy: Policy, start: Conn, e: Data) returns (actions: seq<Action>)
    requires Starts(policy, start, e) && Decodable(policy, e, start.blockSize, 65534)
    requires |Blocks.Blocks(e, start.blockSize)| >= 65536
    ensures AllHealthy(actions) && Run(policy, start, actions).conn.state == State.ERROR
  {
    actions := CleanProgress(policy, start, e, 65534);
    actions := RunSends(policy, start, e, actions);
    actions := RunAnswers(policy, start, e, actions);
    actions := RunRepeats(policy, start, actions);
    actions := RunTakesAck(policy, start, e, actions);
    actions := RunSendsAgain(policy, start, e, actions);
    actions := RunRefuses(policy, start, e, actions);
  }

  /** The wait for block 65535's acknowledgement, or after it for block 65536's, with `acks` still to come. */
  predicate AtWrap(s: System, n: nat, state: State, acks: seq<Message>) {
    s.n == n && s.conn.state == state && !s.conn.timer.Expired? && s.toServer == acks
  }

  lemma RunRepeats(policy: Policy, start: Conn, actions: seq<Action>) returns (more: seq<Action>)
    requires AllHealthy(actions)
    requires BlockAnswered(Run(policy, start, actions))
    ensures AllHealthy(more)
    ensures var n := Run(policy, start, actions).n;
      AtWrap(Run(policy, start, more), n, WAIT_FOR_ACK, [AckMessage(n), AckMessage(n)])
  {
    RunOne(policy, start, actions, RepeatAck(0));
    HealthySnoc(actions, RepeatAck(0));
    more := actions + [RepeatAck(0)];
  }

  lemma RunTakesAck(policy: Policy, start: Conn, e: Data, actions: seq<Action>) returns (more: seq<Action>)
    requires Starts(policy, start, e) && |Blocks.Blocks(e, start.blockSize)| >= 65536
    requires AllHealthy(actions)
    requires AtWrap(Run(policy, start, actions), 65535, WAIT_FOR_ACK, [AckMessage(65535), AckMessage(65535)])
    ensures AllHealthy(more)
    ensures AtWrap(Run(policy, start, more), 65536, SEND_DATA, [AckMessage(65535)])
  {
    LockstepAlways(policy, start, e, actions);
    TakeAck(policy, Run(policy, start, actions), e);
    RunOne(policy, start, actions, ServerReads(false));
    HealthySnoc(actions, ServerReads(false));
    more := actions + [ServerReads(false)];
  }

  lemma TakeAck(policy: Policy, s: System, e: Data)
    requires Lockstep(policy, s, e, s.conn.blockSize, s.conn.oack)
    requires |Blocks.Blocks(e, s.conn.blockSize)| >= 65536
    requires AtWrap(s, 65535, WAIT_FOR_ACK, [AckMessage(65535), AckMessage(65535)])
    ensures AtWrap(Step(policy, s, ServerReads(false)), 65536, SEND_DATA, [AckMessage(65535)])
  {
    HeadAckRead(s.conn, 65535, s.conn.blockSize, false);
    AckAt(s.conn, 65535, e, 65535);
  }

  lemma RunSendsAgain(policy: Policy, start: Conn, e: Data, actions: seq<Action>) returns (more: seq<Action>)
    requires Starts(policy, start, e) && AllHealthy(actions)
    requires AtWrap(Run(policy, start, actions), 65536, SEND_DATA, [AckMessage(65535)])
    ensures AllHealthy(more)
    ensures AtWrap(Run(policy, start, more), 65536, WAIT_FOR_ACK, [AckMessage(65535)])
  {
    LockstepAlways(policy, start, e, actions);
    SendAgain(policy, Run(policy, start, actions), e);
    RunOne(policy, start, actions, ServerWrites(Sent, false));
    HealthySnoc(actions, ServerWrites(Sent, false));
    more := actions + [ServerWrites(Sent, false)];
  }

  lemma SendAgain(policy: Policy, s: System, e: Data)
    requires Lockstep(policy, s, e, s.conn.blockSize, s.conn.oack)
    requires AtWrap(s, 65536, SEND_DATA, [AckMessage(65535)])
    ensures AtWrap(Step(policy, s, ServerWrites(Sent, false)), 65536, WAIT_FOR_ACK, [AckMessage(65535)])
  {
    WriteStep(s.conn, s.n, e, Sent, false);
  }

  lemma RunRefuses(policy: Policy, start: Conn, e: Data, actions: seq<Action>) returns (more: seq<Action>)
    requires Starts(policy, start, e) && AllHealthy(actions)
    requires AtWrap(Run(policy, start, actions), 65536, WAIT_FOR_ACK, [AckMessage(65535)])
    ensures AllHealthy(more) && Run(policy, start, more).conn.state == State.ERROR
  {
    LockstepAlways(policy, start, e, actions);
    RefuseAck(policy, Run(policy, start, actions), e);
    RunOne(policy, start, actions, ServerReads(false));
    HealthySnoc(actions, ServerReads(false));
    more := actions + [ServerReads(false)];
  }

  lemma RefuseAck(policy: Policy, s: System, e: Data)
    requires Lockstep(policy, s, e, s.conn.blockSize, s.conn.oack)
    requires AtWrap(s, 65536, WAIT_FOR_ACK, [AckMessage(65535)])
    ensures Step(policy, s, ServerReads(false)).conn.state == State.ERROR
  {
    HeadAckRead(s.conn, 65535, s.conn.blockSize, false);
    AckAt(s.conn, 65536, e, 65535);
  }
}
