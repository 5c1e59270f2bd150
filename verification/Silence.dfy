/** What a connection makes of a peer that stays silent, and of one that reports an error. */
module Silence {
  import opened Bytes
  import opened CStrings
  import opened Packets
  import opened Timers
  import opened Connection
  import opened History
  import opened Effort

  /** Nothing comes in: only time passes, or a wake-up finds an empty socket. */
  predicate Silent(e: Event) {
    e.Elapse? || (e.Readable? && e.r == WouldBlock)
  }

  lemma {:induction false} SilenceChangesNothing(c: Conn, es: seq<Event>, limit: nat)
    requires WaitForRead(c.state) && c.timer == Disarmed
    requires forall i :: 0 <= i < |es| ==> Silent(es[i])
    ensures Run(c, es, limit).conn == c
  {
    if es != [] {
      SilenceChangesNothing(c, es[..|es| - 1], limit);
      assert Silent(es[|es| - 1]);
      assert !IsErrorPacket([]);
    }
  }

  /**
   * The exception: a lost option acknowledgement. Sending it arms no timer, so while the peer stays
   * silent the connection keeps waiting, unchanged and unfinished, for ever.
   */
  lemma {:induction false} LostOackWaitsForever(start: Conn, es: seq<Event>, limit: nat)
    requires InitialEffort(start) && start.state == SEND_OACK
    requires forall i :: 0 <= i < |es| ==> Silent(es[i])
    ensures var c := HandleWrite(start, Sent, false).conn;
      && WaitForRead(c.state) && !c.finished
      && Run(c, es, limit).conn == c
  {
    SilenceChangesNothing(HandleWrite(start, Sent, false).conn, es, limit);
  }

  /** The peer says nothing: time passes, wake-ups find an empty socket, sends go out. */
  predicate Unanswered(e: Event) {
    Silent(e) || (e.Writable? && e.s == Sent)
  }

  predicate AllUnanswered(es: seq<Event>) {
    forall i :: 0 <= i < |es| ==> Unanswered(es[i])
  }

  predicate Ends(start: Conn, es: seq<Event>, limit: nat) {
    Run(start, es, limit).conn.finished
  }

  /** Reading an expiry either ends a waiting connection or has it send again, with one more timeout counted. */
  lemma ExpiryRead(c: Conn, limit: nat)
    requires WaitForRead(c.state) && !c.timer.Disarmed? && !c.finished && c.timeoutCount <= MAX_TIMEOUTS
    ensures var d := HandleRead(c.(timer := Elapsed(c.timer)), WouldBlock, limit, false).conn;
      if c.timeoutCount == MAX_TIMEOUTS then d.finished
      else
        && (d.state == SEND_DATA || d.state == SEND_ACK)
        && d.timeoutCount == c.timeoutCount + 1 && d.timeoutS == c.timeoutS
  {
  }

  /** A send that goes out leaves the connection finished, in ERROR, or waiting with its timer running. */
  lemma SendGoesOut(c: Conn)
    requires (c.state == SEND_DATA || c.state == SEND_ACK) && c.timeoutS >= 1
    ensures var d := HandleWrite(c, Sent, false).conn;
      && d.timeoutCount == c.timeoutCount
      && (d.finished || d.state == State.ERROR || (WaitForRead(d.state) && d.timer.Armed?))
  {
  }

  lemma RunLonger(start: Conn, es: seq<Event>, more: seq<Event>, e: Event, limit: nat)
    requires AllUnanswered(more) && Unanswered(e)
    ensures AllUnanswered(more + [e])
    ensures Run(start, es + (more + [e]), limit) == After(Run(start, es + more, limit), e, limit)
  {
    UnansweredSnoc(more, e);
    Assoc(es, more, [e]);
    RunSnoc(start, es + more, e, limit);
  }

  lemma UnansweredSnoc(more: seq<Event>, e: Event)
    requires AllUnanswered(more) && Unanswered(e)
    ensures AllUnanswered(more + [e])
  {
  }

  /** One timeout in silence: the connection ends, or waits again with the timeout counted. */
  lemma TimeoutInSilence(start: Conn, es: seq<Event>, limit: nat) returns (more: seq<Event>)
    requires InitialEffort(start)
    requires var h := Run(start, es, limit);
      WaitForRead(h.conn.state) && !h.conn.finished && !h.conn.timer.Disarmed?
    ensures AllUnanswered(more)
    ensures var c, d := Run(start, es, limit).conn, Run(start, es + more, limit).conn;
      if d.finished then |more| <= if c.timeoutCount == MAX_TIMEOUTS then 2 else 4
      else
        && |more| == 3 && c.timeoutCount < MAX_TIMEOUTS && d.timeoutCount == c.timeoutCount + 1
        && WaitForRead(d.state) && d.timer.Armed?
  {
    var c := Run(start, es, limit).conn;
    EffortRun(start, es, limit);
    assert es + [] == es;
    RunLonger(start, es, [], Elapse, limit);
    more := [] + [Elapse];
    RunLonger(start, es, more, Readable(WouldBlock, false), limit);
    more := more + [Readable(WouldBlock, false)];
    ExpiryRead(c, limit);
    if c.timeoutCount < MAX_TIMEOUTS {
      more := SendInSilence(start, es, more, limit);
    }
  }

  lemma SendInSilence(start: Conn, es: seq<Event>, more: seq<Event>, limit: nat) returns (longer: seq<Event>)
    requires AllUnanswered(more)
    requires var c := Run(start, es + more, limit).conn;
      (c.state == SEND_DATA || c.state == SEND_ACK) && c.timeoutS >= 1
    ensures AllUnanswered(longer)
    ensures var c, d := Run(start, es + more, limit).conn, Run(start, es + longer, limit).conn;
      if d.finished then |longer| <= |more| + 2
      else |longer| == |more| + 1 && d.timeoutCount == c.timeoutCount && WaitForRead(d.state) && d.timer.Armed?
  {
    SendGoesOut(Run(start, es + more, limit).conn);
    RunLonger(start, es, more, Writable(Sent, false), limit);
    longer := more + [Writable(Sent, false)];
    var d := Run(start, es + longer, limit).conn;
    if !d.finished && d.state == State.ERROR {
      RunLonger(start, es, longer, Writable(Sent, false), limit);
      longer := longer + [Writable(Sent, false)];
    }
  }

  /** With its timer running, silence ends a waiting connection within the timeouts it has left and one more. */
  lemma {:induction false} SilenceEnds(start: Conn, es: seq<Event>, limit: nat) returns (more: seq<Event>)
    requires InitialEffort(start)
    requires var h := Run(start, es, limit);
      WaitForRead(h.conn.state) && !h.conn.finished && !h.conn.timer.Disarmed?
    ensures AllUnanswered(more) && Ends(start, es + more, limit)
    ensures |more| + 3 * Run(start, es, limit).conn.timeoutCount <= 12
    decreases MAX_TIMEOUTS - Run(start, es, limit).conn.timeoutCount
  {
    EffortRun(start, es, limit);
    more := TimeoutInSilence(start, es, limit);
    if !Run(start, es + more, limit).conn.finished {
      EffortRun(start, es + more, limit);
      var rest := SilenceEnds(start, es + more, limit);
      Assoc(es, more, rest);
      more := more + rest;
    }
  }

  lemma {:induction false} SilenceKeeps(start: Conn, es: seq<Event>, k: nat, limit: nat)
    requires k <= |es| && (forall i :: k <= i < |es| ==> Unanswered(es[i]))
    requires var c := Run(start, es[..k], limit).conn; WaitForRead(c.state) && c.timer.Disarmed?
    ensures Run(start, es, limit).conn == Run(start, es[..k], limit).conn
    decreases |es|
  {
    if k == |es| {
      assert es[..k] == es;
    } else {
      var front := es[..|es| - 1];
      assert front[..k] == es[..k];
      SilenceKeeps(start, front, k, limit);
      assert Unanswered(es[|es| - 1]);
      SilentStep(Run(start, front, limit), es[|es| - 1], limit);
    }
  }

  lemma SilentStep(h: History, e: Event, limit: nat)
    requires WaitForRead(h.conn.state) && h.conn.timer.Disarmed? && Unanswered(e)
    ensures After(h, e, limit).conn == h.conn
  {
    assert !IsErrorPacket([]);
  }

  /**
   * A waiting connection whose peer falls silent comes to an end, within twelve events and so four expiries, if
   * and only if it has sent a DATA or ACK packet. Otherwise it waits for ever.
   */
  lemma SilenceEndsExactly(start: Conn, es: seq<Event>, limit: nat)
    requires InitialEffort(start)
    requires WaitForRead(Run(start, es, limit).conn.state) && !Run(start, es, limit).conn.finished
    ensures (exists more :: AllUnanswered(more) && |more| <= 12 && Ends(start, es + more, limit))
       <==> Run(start, es, limit).transmissions >= 1
    ensures (exists more :: AllUnanswered(more) && Ends(start, es + more, limit))
       <==> Run(start, es, limit).transmissions >= 1
  {
    WokenExactly(start, es, limit);
    if Run(start, es, limit).transmissions >= 1 {
      var more := SilenceEnds(start, es, limit);
    } else {
      forall more | AllUnanswered(more) ensures !Ends(start, es + more, limit) {
        assert (es + more)[..|es|] == es;
        SilenceKeeps(start, es + more, |es|, limit);
      }
    }
  }

  // ------------------------------------------------------------------ ERROR packets

  /** ERROR packets are invisible while waiting for an acknowledgement: four bytes are never enough for one. */
  lemma ErrorUnseenInWaitForAck(c: Conn, r: Recv, limit: nat, writeFails: bool)
    requires c.state == WAIT_FOR_ACK && !c.timer.Expired? && !r.RecvFailed?
    requires DeserialiseAck(Received(r, ACK_PKT_MAX_SIZE)).None?
    ensures HandleRead(c, r, limit, writeFails).conn == c
  {
  }

  /** A NUL falls within the first n bytes of a terminated message exactly when the text before it is shorter. */
  lemma NulWithin(message: Data, n: nat)
    ensures var t := Take(message + [NUL], n);
      FirstNul(t) < |t| <==> FirstNul(message) < n
  {
    var all := message + [NUL];
    var k := FirstNul(message);
    FirstNulIs(all, k);
    var t := Take(all, n);
    FirstNulIs(t, Min(k, |t|));
  }

  /**
   * Which ERROR packets a waiting connection notices: only those that end a WRITE's wait for data and whose
   * message, with its header and its NUL, fits the receive limit. Every other one is dropped.
   */
  lemma ErrorSeenExactly(c: Conn, p: ErrorPacket, limit: nat, writeFails: bool)
    requires WaitForRead(c.state) && !c.timer.Expired? && !c.finished
    ensures HandleRead(c, Datagram(SerialiseError(p)), limit, writeFails).conn.finished
       <==> c.state == WAIT_FOR_DATA && FirstNul(p.message) + 5 <= limit
  {
    if c.state == WAIT_FOR_DATA {
      ErrorCut(p, limit);
    }
  }

  lemma ErrorCut(p: ErrorPacket, limit: nat)
    ensures var d := Take(SerialiseError(p), limit);
      && DeserialiseData(d).None?
      && (IsErrorPacket(d) <==> FirstNul(p.message) + 5 <= limit)
  {
    var d := SerialiseError(p);
    assert d[4..] == p.message + [NUL];
    if limit >= 5 {
      NulWithin(p.message, limit - 4);
      assert Take(d, limit)[4..] == Take(d[4..], limit - 4);
    }
  }
}
