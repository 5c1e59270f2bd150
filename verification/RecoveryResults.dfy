/** Exactly from which states a READ can still be completed. */
module RecoveryResults {
  import opened Bytes
  import opened Packets
  import opened Timers
  import opened Connection
  import opened Client
  import opened ReadSide
  import opened Transfer
  import opened FifoTransfer
  import opened FifoResults
  import opened Recovery
  import Blocks

  // ------------------------------------------------------------- the last retry is used

  /** Something with this index is in the queue. */
  predicate Carries(q: seq<Message>, index: nat) {
    exists i :: 0 <= i < |q| && q[i].index == index
  }

  /**
   * A server that has no retry left waits for an answer to block n. It can still get on if the answer or the
   * block is on its way, or anything older that makes it send once more (which does not work at wire
   * number 0); and nothing is missing any more if the receiver has got everything.
   */
  predicate GetsOn(s: System) {
    || s.receiver.phase == Complete
    || Carries(s.toClient, s.n) || Carries(s.toServer, s.n)
    || (Wire(s.n) != 0 && !Empty(s))
  }

  predicate Hopeful(s: System) {
    !OackLost(s) && (s.conn.timeoutCount < MAX_TIMEOUTS || s.conn.state != WAIT_FOR_ACK || GetsOn(s))
  }

  /** Dropping acknowledgements until the one at position i is first. */
  lemma {:induction false} DrainTo(start: Conn, actions: seq<Action>, i: nat) returns (more: seq<Action>)
    requires i < |Run(Rfc1350, start, actions).toServer|
    ensures actions <= more
    ensures var s := Run(Rfc1350, start, actions);
      Run(Rfc1350, start, more) == s.(toServer := s.toServer[i..])
    decreases i
  {
    more := actions;
    if i > 0 {
      more := Extend(start, actions, LoseAck(0));
      more := DrainTo(start, more, i - 1);
    }
  }

  lemma {:induction false} DrainDataTo(start: Conn, actions: seq<Action>, i: nat) returns (more: seq<Action>)
    requires i < |Run(Rfc1350, start, actions).toClient|
    ensures actions <= more
    ensures var s := Run(Rfc1350, start, actions);
      Run(Rfc1350, start, more) == s.(toClient := s.toClient[i..])
    decreases i
  {
    more := actions;
    if i > 0 {
      more := Extend(start, actions, LoseData(0));
      more := DrainDataTo(start, more, i - 1);
    }
  }

  /** From any state that is about to send a block. */
  lemma SendingToDone(start: Conn, e: Data, actions: seq<Action>) returns (more: seq<Action>)
    requires ReadStart(start, e)
    requires Run(Rfc1350, start, actions).conn.state == SEND_DATA && Run(Rfc1350, start, actions).n >= 1
    ensures actions <= more && Done(Run(Rfc1350, start, more))
  {
    more := DrainData(start, actions);
    more := DrainAcks(start, more);
    more := ResendToDone(start, e, more);
  }

  /** What taking an acknowledgement of block n, or of the block before it, leads to. */
  lemma AckGetsOn(s: System, e: Data)
    requires Lockstep(Rfc1350, s, e, s.conn.blockSize, s.conn.oack)
    requires s.conn.state == WAIT_FOR_ACK && !s.conn.timer.Expired? && s.n >= 1 && s.toServer != []
    requires s.toServer[0].index == s.n || Wire(s.n) != 0
    ensures var t := Step(Rfc1350, s, ServerReads(false));
      (t.conn.state == SEND_DATA && t.n >= 1) || Done(t)
  {
    HeadAckTaken(Rfc1350, s, s.toServer[0].index);
    AckAt(s.conn, s.n, e, s.toServer[0].index);
  }

  lemma AckToDone(start: Conn, e: Data, actions: seq<Action>) returns (more: seq<Action>)
    requires ReadStart(start, e)
    requires var s := Run(Rfc1350, start, actions);
      && s.conn.state == WAIT_FOR_ACK && !s.conn.timer.Expired? && s.n >= 1 && s.toServer != []
      && (s.toServer[0].index == s.n || Wire(s.n) != 0)
    ensures actions <= more && Done(Run(Rfc1350, start, more))
  {
    LockstepAlways(Rfc1350, start, e, actions);
    AckGetsOn(Run(Rfc1350, start, actions), e);
    more := Extend(start, actions, ServerReads(false));
    if !Done(Run(Rfc1350, start, more)) {
      more := SendingToDone(start, e, more);
    }
  }

  /** The receiver answers the datagram at the head of its queue with its own number. */
  lemma HeadAnswered(s: System, e: Data)
    requires Lockstep(Rfc1350, s, e, s.conn.blockSize, s.conn.oack) && s.n >= 1
    requires s.toClient != [] && !IsErrorDatagram(s.toClient[0].bytes) && s.toServer == []
    ensures var t := Step(Rfc1350, s, ReceiverReads(true));
      t.conn == s.conn && t.n == s.n && t.toServer != [] && t.toServer[0].index == s.toClient[0].index
  {
    var m, size := s.toClient[0], s.conn.blockSize;
    if m.index == 0 && m.bytes == SerialiseOack(OackPacket(s.conn.oack)) {
      OackReaction(size, s.receiver, s.conn.oack);
    } else {
      BlockFits(e, size, m.index);
      DataAnswered(size, s.receiver, m.bytes, DataPacket(Wire(m.index), Blocks.Blocks(e, size)[m.index - 1]));
    }
  }

  lemma DataAnswered(size: nat, r: Receiver, d: Data, p: DataPacket)
    requires DeserialiseData(d) == Some(p)
    ensures React(Rfc1350, size, r, d, true).ack.Some?
  {
  }

  /** A datagram on its way to the receiver is as good as its answer. */
  lemma DataToDone(start: Conn, e: Data, actions: seq<Action>, i: nat) returns (more: seq<Action>)
    requires ReadStart(start, e)
    requires var s := Run(Rfc1350, start, actions);
      && s.conn.state == WAIT_FOR_ACK && !s.conn.timer.Expired? && s.n >= 1
      && i < |s.toClient| && (s.toClient[i].index == s.n || Wire(s.n) != 0)
    ensures actions <= more && Done(Run(Rfc1350, start, more))
  {
    TidyAlways(start, e, actions);
    more := DrainDataTo(start, actions, i);
    more := DrainAcks(start, more);
    LockstepAlways(Rfc1350, start, e, more);
    HeadAnswered(Run(Rfc1350, start, more), e);
    more := Extend(start, more, ReceiverReads(true));
    more := AckToDone(start, e, more);
  }

  /** The acknowledgement at this place of the queue takes the server on when its turn comes. */
  predicate AckUseful(s: System, i: nat)
    requires i < |s.toServer|
  {
    s.toServer[i].index == s.n || Wire(s.n) != 0
  }

  lemma {:induction false} UsefulData(s: System) returns (i: nat)
    requires s.receiver.phase != Complete && GetsOn(s)
    requires forall k :: 0 <= k < |s.toServer| ==> !AckUseful(s, k)
    ensures i < |s.toClient| && (s.toClient[i].index == s.n || Wire(s.n) != 0)
  {
    forall k | 0 <= k < |s.toServer| ensures s.toServer[k].index != s.n && Wire(s.n) == 0 {
      assert !AckUseful(s, k);
    }
    if s.toServer != [] {
      assert s.toServer[0].index != s.n;
    }
    if Carries(s.toClient, s.n) {
      i :| 0 <= i < |s.toClient| && s.toClient[i].index == s.n;
    } else {
      i := 0;
    }
  }

  /** Without an unread expiry any of the ways to get on is open. */
  lemma GetsOnUnexpired(start: Conn, e: Data, actions: seq<Action>) returns (more: seq<Action>)
    requires ReadStart(start, e)
    requires var s := Run(Rfc1350, start, actions);
      && s.conn.state == WAIT_FOR_ACK && !s.conn.timer.Expired? && s.n >= 1
      && s.receiver.phase != Complete && GetsOn(s)
    ensures actions <= more && Done(Run(Rfc1350, start, more))
  {
    var s := Run(Rfc1350, start, actions);
    if i :| 0 <= i < |s.toServer| && AckUseful(s, i) {
      more := DrainTo(start, actions, i);
      more := AckToDone(start, e, more);
    } else {
      var i := UsefulData(s);
      more := DataToDone(start, e, actions, i);
    }
  }

  /** Reading an expiry without a retry left finishes the connection, which is served until it is swept. */
  lemma LastExpiry(s: System)
    requires s.conn.state == WAIT_FOR_ACK && s.conn.timer.Expired? && s.conn.timeoutCount >= MAX_TIMEOUTS
    ensures Step(Rfc1350, s, ServerReads(false)) == s.(conn := s.conn.(timer := Disarmed, finished := true))
  {
  }

  lemma WaitingToDone(start: Conn, e: Data, actions: seq<Action>) returns (more: seq<Action>)
    requires ReadStart(start, e)
    requires var s := Run(Rfc1350, start, actions);
      && s.conn.state == WAIT_FOR_ACK && s.n >= 1 && !s.conn.finished
      && s.conn.timeoutCount >= MAX_TIMEOUTS && GetsOn(s)
    ensures actions <= more && Done(Run(Rfc1350, start, more))
  {
    TidyAlways(start, e, actions);
    more := actions;
    if Run(Rfc1350, start, actions).receiver.phase == Complete {
      more := Extend(start, more, Elapses);
      LastExpiry(Run(Rfc1350, start, more));
      more := Extend(start, more, ServerReads(false));
    } else {
      if Run(Rfc1350, start, actions).conn.timer.Expired? {
        LastExpiry(Run(Rfc1350, start, actions));
        more := Extend(start, more, ServerReads(false));
      }
      more := GetsOnUnexpired(start, e, more);
    }
  }

  lemma HopefulToDone(start: Conn, e: Data, actions: seq<Action>) returns (more: seq<Action>)
    requires ReadStart(start, e)
    requires var s := Run(Rfc1350, start, actions);
      !s.conn.finished && s.conn.state != State.ERROR && Hopeful(s)
    ensures actions <= more && Done(Run(Rfc1350, start, more))
  {
    var s := Run(Rfc1350, start, actions);
    TidyAlways(start, e, actions);
    LockstepAlways(Rfc1350, start, e, actions);
    if s.conn.timeoutCount < MAX_TIMEOUTS {
      more := Recovers(start, e, actions);
    } else if s.conn.state == WAIT_FOR_ACK {
      more := WaitingToDone(start, e, actions);
    } else {
      more := SendingToDone(start, e, actions);
    }
  }

  // -------------------------------------------------------------------- beyond hope

  /** All that is in flight is about the block before, which wire number 0 does not follow on. */
  predicate OnlyOld(q: seq<Message>, n: nat) {
    forall m :: m in q ==> IsErrorDatagram(m.bytes) || (m.index + 1 == n && Wire(n) == 0)
  }

  predicate OnlyOldAcks(q: seq<Message>, n: nat) {
    forall m :: m in q ==> m.index + 1 == n && Wire(n) == 0
  }

  predicate Hopeless(s: System) {
    && s.n >= 1 && s.receiver.phase != Complete
    && OnlyOld(s.toClient, s.n) && OnlyOldAcks(s.toServer, s.n)
    && (s.conn.state == State.ERROR || (s.conn.state == WAIT_FOR_ACK && s.conn.timeoutCount >= MAX_TIMEOUTS))
  }

  lemma NotHopeful(s: System, e: Data)
    requires Lockstep(Rfc1350, s, e, s.conn.blockSize, s.conn.oack) && Tidy(s)
    requires s.conn.state == WAIT_FOR_ACK && s.conn.timeoutCount >= MAX_TIMEOUTS && !GetsOn(s)
    ensures Hopeless(s)
  {
    forall i | 0 <= i < |s.toClient| ensures s.toClient[i].index + 1 == s.n && Wire(s.n) == 0 {
      assert s.toClient[i].index != s.n;
    }
    forall i | 0 <= i < |s.toServer| ensures s.toServer[i].index + 1 == s.n && Wire(s.n) == 0 {
      assert s.toServer[i].index != s.n;
    }
  }

  lemma HopelessWrites(s: System, e: Data, send: Send, readFails: bool)
    requires Hopeless(s)
    ensures Hopeless(Step(Rfc1350, s, ServerWrites(send, readFails)))
  {
  }

  lemma HopelessConn(c: Conn, r: Recv, limit: nat)
    requires c.state == State.ERROR || (c.state == WAIT_FOR_ACK && c.timeoutCount >= MAX_TIMEOUTS)
    requires Consumes(c) ==> !r.Datagram?
    ensures var d := Connection.HandleRead(c, r, limit, false).conn;
      && d.state == c.state && d.blockNumber == c.blockNumber
      && (c.state == WAIT_FOR_ACK ==> d.timeoutCount == c.timeoutCount)
  {
  }

  lemma HopelessReads(s: System, e: Data, socketFails: bool)
    requires Lockstep(Rfc1350, s, e, s.conn.blockSize, s.conn.oack) && Hopeless(s)
    ensures Hopeless(Step(Rfc1350, s, ServerReads(socketFails)))
  {
    if Consumes(s.conn) && !socketFails && s.toServer != [] {
      var j := s.toServer[0].index;
      HeadAckTaken(Rfc1350, s, j);
      AckAt(s.conn, s.n, e, j);
    } else {
      HopelessConn(s.conn, Incoming(s, socketFails), s.conn.blockSize);
    }
  }

  lemma OldIgnored(s: System, e: Data, reply: bool)
    requires Lockstep(Rfc1350, s, e, s.conn.blockSize, s.conn.oack) && Hopeless(s) && s.toClient != []
    ensures var x := React(Rfc1350, s.conn.blockSize, s.receiver, s.toClient[0].bytes, reply);
      x.receiver.phase != Complete && (x.ack.Some? ==> s.toClient[0].index + 1 == s.n && Wire(s.n) == 0)
  {
    var m, size := s.toClient[0], s.conn.blockSize;
    if IsErrorDatagram(m.bytes) {
      ErrorDatagramIgnored(m.bytes);
    } else {
      WireNext(m.index);
      OtherBlockIgnored(Rfc1350, s.receiver, e, size, m.index, reply);
      BlockFits(e, size, m.index);
      PhaseKept(size, s.receiver, m.bytes, DataPacket(Wire(m.index), Blocks.Blocks(e, size)[m.index - 1]), reply);
    }
  }

  lemma PhaseKept(size: nat, r: Receiver, d: Data, p: DataPacket, reply: bool)
    requires DeserialiseData(d) == Some(p) && p.blockNumber != r.expected
    ensures React(Rfc1350, size, r, d, reply).receiver == r
  {
  }

  lemma HopelessReceives(s: System, e: Data, reply: bool)
    requires Lockstep(Rfc1350, s, e, s.conn.blockSize, s.conn.oack) && Hopeless(s)
    ensures Hopeless(Step(Rfc1350, s, ReceiverReads(reply)))
  {
    if s.toClient != [] {
      OldIgnored(s, e, reply);
    }
  }

  lemma HopelessStep(s: System, e: Data, a: Action)
    requires Lockstep(Rfc1350, s, e, s.conn.blockSize, s.conn.oack) && Hopeless(s)
    ensures Hopeless(Step(Rfc1350, s, a))
  {
    match a
    case ServerWrites(send, readFails) => HopelessWrites(s, e, send, readFails);
    case ServerReads(socketFails) => HopelessReads(s, e, socketFails);
    case ReceiverReads(reply) => HopelessReceives(s, e, reply);
    case Elapses =>
    case LoseData(i) => OldQueueOps(s.toClient, s.n, i);
    case RepeatData(i) => OldQueueOps(s.toClient, s.n, i);
    case LoseAck(i) => OldAckOps(s.toServer, s.n, i);
    case RepeatAck(i) => OldAckOps(s.toServer, s.n, i);
  }

  lemma OldQueueOps(q: seq<Message>, n: nat, i: nat)
    requires OnlyOld(q, n)
    ensures OnlyOld(Lose(q, i), n) && OnlyOld(Repeat(q, i), n)
  {
    forall k | 0 <= k < |Lose(q, i)| ensures Lose(q, i)[k] in q {}
    forall k | 0 <= k < |Repeat(q, i)| ensures Repeat(q, i)[k] in q {}
  }

  lemma OldAckOps(q: seq<Message>, n: nat, i: nat)
    requires OnlyOldAcks(q, n)
    ensures OnlyOldAcks(Lose(q, i), n) && OnlyOldAcks(Repeat(q, i), n)
  {
    forall k | 0 <= k < |Lose(q, i)| ensures Lose(q, i)[k] in q {}
    forall k | 0 <= k < |Repeat(q, i)| ensures Repeat(q, i)[k] in q {}
  }

  lemma {:induction false} HopelessForGood(start: Conn, e: Data, k: nat, actions: seq<Action>)
    requires ReadStart(start, e) && k <= |actions| && Hopeless(Run(Rfc1350, start, actions[..k]))
    ensures Hopeless(Run(Rfc1350, start, actions))
    decreases |actions|
  {
    if k == |actions| {
      assert actions[..k] == actions;
    } else {
      var front := actions[..|actions| - 1];
      assert front[..k] == actions[..k];
      HopelessForGood(start, e, k, front);
      LockstepAlways(Rfc1350, start, e, front);
      HopelessStep(Run(Rfc1350, start, front), e, actions[|actions| - 1]);
    }
  }

  // ---------------------------------------------------------------- the condition

  lemma NoHope(start: Conn, e: Data, actions: seq<Action>, more: seq<Action>)
    requires ReadStart(start, e) && actions <= more
    requires var s := Run(Rfc1350, start, actions);
      !s.conn.finished && s.conn.state != State.ERROR && !Hopeful(s)
    ensures !Done(Run(Rfc1350, start, more))
  {
    assert more[..|actions|] == actions;
    LockstepAlways(Rfc1350, start, e, actions);
    TidyAlways(start, e, actions);
    if OackLost(Run(Rfc1350, start, actions)) {
      LostForGood(start, e, |actions|, more);
    } else {
      NotHopeful(Run(Rfc1350, start, actions), e);
      HopelessForGood(start, e, |actions|, more);
    }
  }

  /**
   * Whatever was lost and repeated so far, and however long the file: as long as the server has not given up, some
   * continuation ends with the whole file at the receiver and a finished server, if and only if the
   * server does not wait for the answer to an option acknowledgement that got lost, and, with its last
   * retry used, can still get on by what is in flight.
   */
  lemma RecoverableExactly(start: Conn, e: Data, actions: seq<Action>)
    requires ReadStart(start, e)
    requires !Run(Rfc1350, start, actions).conn.finished && Run(Rfc1350, start, actions).conn.state != State.ERROR
    ensures (exists more :: Continues(start, actions, more)) <==> Hopeful(Run(Rfc1350, start, actions))
  {
    if Hopeful(Run(Rfc1350, start, actions)) {
      var more := HopefulToDone(start, e, actions);
      assert Continues(start, actions, more);
    } else {
      forall more ensures !Continues(start, actions, more) {
        if actions <= more {
          NoHope(start, e, actions, more);
        }
      }
    }
  }
}
