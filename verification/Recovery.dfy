/** Whatever the network did so far, a READ can still be completed, unless its option acknowledgement was lost. */
module Recovery {
  import opened Bytes
  import opened Packets
  import opened Timers
  import opened Connection
  import opened Client
  import opened ReadSide
  import opened Transfer
  import opened FifoTransfer
  import opened FifoResults
  import opened FifoProgress
  import Blocks

  // ----------------------------------------------------------- two more invariants

  predicate NoErrors(q: seq<Message>) {
    forall i :: 0 <= i < |q| ==> !IsErrorDatagram(q[i].bytes)
  }

  /**
   * No ERROR packet is in flight before the server is in ERROR, a wait for a block's answer is timed, and none for
   * the answer to an option acknowledgement times out.
   */
  predicate Tidy(s: System) {
    && s.conn.timeoutS >= 1 && (s.n == 0 ==> s.conn.timeoutCount == 0)
    && (s.conn.state != State.ERROR ==> NoErrors(s.toClient))
    && (s.conn.state == WAIT_FOR_ACK && s.n >= 1 && !s.conn.finished ==> !s.conn.timer.Disarmed?)
  }

  lemma TidyWrite(s: System, e: Data, send: Send, readFails: bool)
    requires ReadInv(s.conn, s.n, e) && Tidy(s)
    ensures Tidy(ServerWrite(s, send, readFails))
  {
    WriteStep(s.conn, s.n, e, send, readFails);
  }

  lemma TidyRead(s: System, e: Data, socketFails: bool)
    requires ReadInv(s.conn, s.n, e) && Tidy(s)
    ensures Tidy(ServerRead(s, socketFails))
  {
    StillWaiting(s.conn, Incoming(s, socketFails), s.conn.blockSize);
    if s.n == 0 {
      CountStays(s.conn, Incoming(s, socketFails), s.conn.blockSize);
    }
  }

  lemma CountStays(c: Conn, r: Recv, limit: nat)
    requires c.timer.Disarmed? && c.timeoutCount == 0
    ensures Connection.HandleRead(c, r, limit, false).conn.timeoutCount == 0
  {
  }

  /** Reading leads to no wait, and out of no ERROR. */
  lemma StillWaiting(c: Conn, r: Recv, limit: nat)
    requires c.state != WAIT_FOR_DATA
    ensures var d := Connection.HandleRead(c, r, limit, false).conn;
      && d.timeoutS == c.timeoutS && (c.state == State.ERROR ==> d.state == State.ERROR)
      && (d.state == WAIT_FOR_ACK ==>
            c.state == WAIT_FOR_ACK && d.blockNumber == c.blockNumber && (d.finished || d == c))
  {
  }

  lemma TidyStep(s: System, e: Data, a: Action)
    requires ReadInv(s.conn, s.n, e) && Tidy(s)
    ensures Tidy(Step(Rfc1350, s, a))
  {
    match a
    case ServerWrites(send, readFails) => TidyWrite(s, e, send, readFails);
    case ServerReads(socketFails) => TidyRead(s, e, socketFails);
    case _ =>
  }

  lemma {:induction false} TidyAlways(start: Conn, e: Data, actions: seq<Action>)
    requires ReadStart(start, e)
    ensures Tidy(Run(Rfc1350, start, actions))
  {
    if actions != [] {
      TidyAlways(start, e, actions[..|actions| - 1]);
      LockstepAlways(Rfc1350, start, e, actions[..|actions| - 1]);
      TidyStep(Run(Rfc1350, start, actions[..|actions| - 1]), e, actions[|actions| - 1]);
    }
  }

  // ---------------------------------------------------------------- single actions

  lemma Extend(start: Conn, actions: seq<Action>, a: Action) returns (more: seq<Action>)
    ensures actions <= more && Run(Rfc1350, start, more) == Step(Rfc1350, Run(Rfc1350, start, actions), a)
  {
    RunOne(Rfc1350, start, actions, a);
    more := actions + [a];
  }

  /** Everything the server sent and the receiver has not read gets lost. */
  lemma {:induction false} DrainData(start: Conn, actions: seq<Action>) returns (more: seq<Action>)
    ensures actions <= more
    ensures Run(Rfc1350, start, more) == Run(Rfc1350, start, actions).(toClient := [])
    decreases |Run(Rfc1350, start, actions).toClient|
  {
    more := actions;
    if Run(Rfc1350, start, actions).toClient != [] {
      more := Extend(start, actions, LoseData(0));
      more := DrainData(start, more);
    }
  }

  lemma {:induction false} DrainAcks(start: Conn, actions: seq<Action>) returns (more: seq<Action>)
    ensures actions <= more
    ensures Run(Rfc1350, start, more) == Run(Rfc1350, start, actions).(toServer := [])
    decreases |Run(Rfc1350, start, actions).toServer|
  {
    more := actions;
    if Run(Rfc1350, start, actions).toServer != [] {
      more := Extend(start, actions, LoseAck(0));
      more := DrainAcks(start, more);
    }
  }

  // ------------------------------------------------------- from a block to the end

  predicate Empty(s: System) {
    s.toClient == [] && s.toServer == []
  }

  /** Block n is to be sent, for the first time or again, and nothing is in flight. */
  predicate Resends(s: System) {
    Empty(s) && s.conn.state == SEND_DATA && s.n >= 1
  }

  predicate Done(s: System) {
    s.conn.finished && s.receiver.phase == Complete
  }

  lemma {:induction false} QuietToDone(start: Conn, e: Data, actions: seq<Action>) returns (more: seq<Action>)
    requires ReadStart(start, e) && Quiet(Run(Rfc1350, start, actions))
    requires Run(Rfc1350, start, actions).n <= |Blocks.Blocks(e, start.blockSize)|
    ensures actions <= more && Done(Run(Rfc1350, start, more))
    decreases |Blocks.Blocks(e, start.blockSize)| - Run(Rfc1350, start, actions).n
  {
    var n := Run(Rfc1350, start, actions).n;
    more := QuietRound(Rfc1350, start, e, actions);
    if n < |Blocks.Blocks(e, start.blockSize)| {
      more := QuietToDone(start, e, more);
    }
  }

  lemma SendsAgain(s: System, e: Data)
    requires Lockstep(Rfc1350, s, e, s.conn.blockSize, s.conn.oack) && Resends(s)
    ensures var t := Step(Rfc1350, s, ServerWrites(Sent, false));
      && t.toClient == [Message(s.n, DataWire(e, s.conn.blockSize, s.n))] && t.toServer == []
      && t.receiver == s.receiver && t.n == s.n
      && t.conn.state == WAIT_FOR_ACK && !t.conn.timer.Expired?
  {
    WriteStep(s.conn, s.n, e, Sent, false);
  }

  /** A receiver that already holds block n answers it once more. */
  lemma AnswersAgain(s: System, e: Data)
    requires Lockstep(Rfc1350, s, e, s.conn.blockSize, s.conn.oack) && s.n == |s.receiver.payloads| >= 1
    requires s.toClient == [Message(s.n, DataWire(e, s.conn.blockSize, s.n))] && s.toServer == []
    requires s.conn.state == WAIT_FOR_ACK && !s.conn.timer.Expired?
    ensures BlockAnswered(Step(Rfc1350, s, ReceiverReads(true))) && Step(Rfc1350, s, ReceiverReads(true)).n == s.n
  {
    var size := s.conn.blockSize;
    BlockFits(e, size, s.n);
    var p := DataPacket(Wire(s.n), Blocks.Blocks(e, size)[s.n - 1]);
    WireNext(s.n);
    AnsweredAgain(size, s.receiver, DataWire(e, size, s.n), p);
    OnlyMessage(Rfc1350, s, s.toClient[0], Reaction(s.receiver, Some(Wire(s.n))), true);
  }

  lemma AnsweredAgain(size: nat, r: Receiver, d: Data, p: DataPacket)
    requires DeserialiseData(d) == Some(p) && p.blockNumber != r.expected
    ensures React(Rfc1350, size, r, d, true) == Reaction(r, Some(p.blockNumber))
  {
  }

  /** From a resend the transfer goes through, whichever side lost what. */
  lemma ResendToDone(start: Conn, e: Data, actions: seq<Action>) returns (more: seq<Action>)
    requires ReadStart(start, e) && Resends(Run(Rfc1350, start, actions))
    ensures actions <= more && Done(Run(Rfc1350, start, more))
  {
    more := ResendAnswered(start, e, actions);
    LockstepAlways(Rfc1350, start, e, more);
    var n := Run(Rfc1350, start, more).n;
    more := RunAcknowledged(Rfc1350, start, e, more);
    if n < |Blocks.Blocks(e, start.blockSize)| {
      more := QuietToDone(start, e, more);
    }
  }

  lemma ResendAnswered(start: Conn, e: Data, actions: seq<Action>) returns (more: seq<Action>)
    requires ReadStart(start, e) && Resends(Run(Rfc1350, start, actions))
    ensures actions <= more && BlockAnswered(Run(Rfc1350, start, more))
  {
    LockstepAlways(Rfc1350, start, e, actions);
    SendsAgain(Run(Rfc1350, start, actions), e);
    more := Extend(start, actions, ServerWrites(Sent, false));
    LockstepAlways(Rfc1350, start, e, more);
    var s := Run(Rfc1350, start, more);
    if s.n == |s.receiver.payloads| {
      AnswersAgain(s, e);
      more := Extend(start, more, ReceiverReads(true));
    } else {
      more := RunAnswers(Rfc1350, start, e, more);
    }
  }

  // ------------------------------------------------------------ from any state on

  /** With nothing in flight a timeout makes the server send the block again. */
  lemma Wakes(start: Conn, e: Data, actions: seq<Action>) returns (more: seq<Action>)
    requires ReadStart(start, e)
    requires var s := Run(Rfc1350, start, actions);
      Empty(s) && s.n >= 1 && !s.conn.finished && s.conn.state != State.ERROR && s.conn.timeoutCount < MAX_TIMEOUTS
    ensures actions <= more && Resends(Run(Rfc1350, start, more))
  {
    LockstepAlways(Rfc1350, start, e, actions);
    TidyAlways(start, e, actions);
    more := actions;
    if Run(Rfc1350, start, actions).conn.state == WAIT_FOR_ACK {
      more := Extend(start, more, Elapses);
      TimesOut(Run(Rfc1350, start, more));
      more := Extend(start, more, ServerReads(false));
    }
  }

  lemma TimesOut(s: System)
    requires Empty(s) && s.n >= 1 && !s.conn.finished && s.conn.timeoutCount < MAX_TIMEOUTS
    requires s.conn.state == WAIT_FOR_ACK && s.conn.timer.Expired?
    ensures Resends(Step(Rfc1350, s, ServerReads(false)))
  {
  }

  lemma BlockToDone(start: Conn, e: Data, actions: seq<Action>) returns (more: seq<Action>)
    requires ReadStart(start, e)
    requires var s := Run(Rfc1350, start, actions);
      s.n >= 1 && !s.conn.finished && s.conn.state != State.ERROR && s.conn.timeoutCount < MAX_TIMEOUTS
    ensures actions <= more && Done(Run(Rfc1350, start, more))
  {
    more := DrainData(start, actions);
    more := DrainAcks(start, more);
    more := Wakes(start, e, more);
    more := ResendToDone(start, e, more);
  }

  // ------------------------------------------------------ the option acknowledgement

  /** The server waits for the answer to its option acknowledgement, and neither is on its way. */
  predicate OackLost(s: System) {
    s.n == 0 && s.conn.state == WAIT_FOR_ACK && Empty(s)
  }

  lemma TakesAckZero(s: System, e: Data)
    requires Lockstep(Rfc1350, s, e, s.conn.blockSize, s.conn.oack)
    requires s.n == 0 && s.conn.state == WAIT_FOR_ACK && s.toServer != [] && !s.conn.finished
    ensures var t := Step(Rfc1350, s, ServerReads(false));
      t.n == 1 && t.conn.state == SEND_DATA && !t.conn.finished && t.conn.timeoutCount == 0
  {
    assert s.toServer[0].index == 0;
    HeadAckTaken(Rfc1350, s, 0);
    AckZero(s.conn, e);
  }

  /** The receiver answers the option acknowledgement at the head of its queue. */
  lemma AnswersOack(s: System, e: Data)
    requires Lockstep(Rfc1350, s, e, s.conn.blockSize, s.conn.oack) && Tidy(s)
    requires s.n == 0 && s.conn.state == WAIT_FOR_ACK && s.toClient != [] && !s.conn.finished
    ensures var t := Step(Rfc1350, s, ReceiverReads(true));
      t.conn == s.conn && t.n == 0 && t.toServer != []
  {
    OackReaction(s.conn.blockSize, s.receiver, s.conn.oack);
  }

  lemma OackReaction(size: nat, r: Receiver, oack: seq<Opt>)
    requires r.payloads == []
    ensures React(Rfc1350, size, r, SerialiseOack(OackPacket(oack)), true) == Reaction(r, Some(0))
  {
    OackIsNoData(oack);
  }

  /** From the option acknowledgement to the first block, unless it was lost. */
  lemma OackToBlock(start: Conn, e: Data, actions: seq<Action>) returns (more: seq<Action>)
    requires ReadStart(start, e)
    requires var s := Run(Rfc1350, start, actions);
      s.n == 0 && !s.conn.finished && s.conn.state != State.ERROR && !OackLost(s)
    ensures actions <= more
    ensures var t := Run(Rfc1350, start, more);
      t.n == 1 && t.conn.state == SEND_DATA && !t.conn.finished && t.conn.timeoutCount == 0
  {
    more := OackOut(start, e, actions);
    more := OackToAck(start, e, more);
    LockstepAlways(Rfc1350, start, e, more);
    TakesAckZero(Run(Rfc1350, start, more), e);
    more := Extend(start, more, ServerReads(false));
  }

  lemma OackOut(start: Conn, e: Data, actions: seq<Action>) returns (more: seq<Action>)
    requires ReadStart(start, e)
    requires var s := Run(Rfc1350, start, actions);
      s.n == 0 && !s.conn.finished && s.conn.state != State.ERROR && !OackLost(s)
    ensures actions <= more
    ensures var t := Run(Rfc1350, start, more);
      t.n == 0 && t.conn.state == WAIT_FOR_ACK && !t.conn.finished && !Empty(t)
  {
    LockstepAlways(Rfc1350, start, e, actions);
    more := actions;
    if Run(Rfc1350, start, actions).conn.state == SEND_OACK {
      more := Extend(start, actions, ServerWrites(Sent, false));
    }
  }

  lemma OackToAck(start: Conn, e: Data, actions: seq<Action>) returns (more: seq<Action>)
    requires ReadStart(start, e)
    requires var s := Run(Rfc1350, start, actions);
      s.n == 0 && s.conn.state == WAIT_FOR_ACK && !s.conn.finished && !Empty(s)
    ensures actions <= more
    ensures var t := Run(Rfc1350, start, more);
      t.n == 0 && t.conn.state == WAIT_FOR_ACK && !t.conn.finished && t.toServer != []
  {
    LockstepAlways(Rfc1350, start, e, actions);
    TidyAlways(start, e, actions);
    more := actions;
    if Run(Rfc1350, start, actions).toServer == [] {
      AnswersOack(Run(Rfc1350, start, actions), e);
      more := Extend(start, actions, ReceiverReads(true));
    }
  }

  lemma Recovers(start: Conn, e: Data, actions: seq<Action>) returns (more: seq<Action>)
    requires ReadStart(start, e)
    requires var s := Run(Rfc1350, start, actions);
      !s.conn.finished && s.conn.state != State.ERROR && s.conn.timeoutCount < MAX_TIMEOUTS && !OackLost(s)
    ensures actions <= more && Done(Run(Rfc1350, start, more))
  {
    more := actions;
    if Run(Rfc1350, start, actions).n == 0 {
      more := OackToBlock(start, e, actions);
    }
    more := BlockToDone(start, e, more);
  }

  lemma LostStep(s: System, e: Data, a: Action)
    requires ReadInv(s.conn, s.n, e) && OackLost(s) && s.receiver.phase != Complete
    ensures var t := Step(Rfc1350, s, a);
      OackLost(t) && t.receiver.phase != Complete
  {
    assert !IsErrorPacket([]);
  }

  lemma {:induction false} LostForGood(start: Conn, e: Data, k: nat, actions: seq<Action>)
    requires ReadStart(start, e) && k <= |actions|
    requires var s := Run(Rfc1350, start, actions[..k]); OackLost(s) && s.receiver.phase != Complete
    ensures var t := Run(Rfc1350, start, actions); OackLost(t) && t.receiver.phase != Complete
    decreases |actions|
  {
    if k == |actions| {
      assert actions[..k] == actions;
    } else {
      var front := actions[..|actions| - 1];
      assert front[..k] == actions[..k];
      LostForGood(start, e, k, front);
      LockstepAlways(Rfc1350, start, e, front);
      LostStep(Run(Rfc1350, start, front), e, actions[|actions| - 1]);
    }
  }

  predicate Continues(start: Conn, actions: seq<Action>, more: seq<Action>) {
    actions <= more && Done(Run(Rfc1350, start, more))
  }
}
