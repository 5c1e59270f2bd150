/** The terms of a transfer: what the request's options come to, and that they stay in force in every run. */
module Terms {
  import opened Bytes
  import opened Packets
  import opened Timers
  import opened Connection
  import opened History
  import opened Options

  /** What no event changes. */
  predicate SameTerms(c: Conn, d: Conn) {
    c.kind == d.kind && c.mode == d.mode && c.blockSize == d.blockSize && c.timeoutS == d.timeoutS && c.oack == d.oack
  }

  predicate RunsByTerms(c: Conn) {
    c.timer.Armed? ==> c.timer.seconds == c.timeoutS
  }

  lemma AckKeepsTerms(c: Conn, number: Word)
    ensures SameTerms(c, OnAck(c, number)) && OnAck(c, number).timer == c.timer
  {
  }

  lemma DataKeepsTerms(c: Conn, p: DataPacket, writeFails: bool)
    ensures var d := OnData(c, p, writeFails).conn;
      SameTerms(c, d) && d.timer == c.timer
  {
  }

  lemma TimeoutKeepsTerms(c: Conn)
    ensures SameTerms(c, Connection.OnTimeout(c)) && Connection.OnTimeout(c).timer == c.timer
  {
  }

  lemma ReadKeepsTerms(c: Conn, r: Recv, limit: nat, writeFails: bool)
    ensures var d := HandleRead(c, r, limit, writeFails).conn;
      SameTerms(c, d) && (d.timer == c.timer || d.timer == Disarmed)
  {
    if c.timer.Expired? {
      TimeoutKeepsTerms(c.(timer := Disarmed));
    } else if c.state == WAIT_FOR_ACK && DeserialiseAck(Received(r, ACK_PKT_MAX_SIZE)).Some? {
      AckKeepsTerms(c, DeserialiseAck(Received(r, ACK_PKT_MAX_SIZE)).value.blockNumber);
    } else if c.state == WAIT_FOR_DATA && DeserialiseData(Received(r, limit)).Some? {
      DataKeepsTerms(c, DeserialiseData(Received(r, limit)).value, writeFails);
    }
  }

  lemma DataSendKeepsTerms(c: Conn, s: Send, readFails: bool)
    ensures var d := WriteData(c, s, readFails).conn;
      SameTerms(c, d) && (RunsByTerms(c) ==> RunsByTerms(d))
  {
  }

  lemma AckSendKeepsTerms(c: Conn, s: Send)
    ensures var d := WriteAck(c, s).conn;
      SameTerms(c, d) && (RunsByTerms(c) ==> RunsByTerms(d))
  {
  }

  lemma OtherSendKeepsTerms(c: Conn, s: Send, readFails: bool)
    requires c.state != SEND_DATA && c.state != SEND_ACK
    ensures var d := HandleWrite(c, s, readFails).conn;
      SameTerms(c, d) && d.timer == c.timer
  {
  }

  lemma WriteKeepsTerms(c: Conn, s: Send, readFails: bool)
    ensures var d := HandleWrite(c, s, readFails).conn;
      SameTerms(c, d) && (RunsByTerms(c) ==> RunsByTerms(d))
  {
    if c.state == SEND_DATA {
      DataSendKeepsTerms(c, s, readFails);
    } else if c.state == SEND_ACK {
      AckSendKeepsTerms(c, s);
    } else {
      OtherSendKeepsTerms(c, s, readFails);
    }
  }

  lemma {:induction false} TermsKept(start: Conn, es: seq<Event>, limit: nat)
    ensures var c := Run(start, es, limit).conn;
      SameTerms(start, c) && (RunsByTerms(start) ==> RunsByTerms(c))
  {
    if es != [] {
      TermsKept(start, es[..|es| - 1], limit);
      var c := Run(start, es[..|es| - 1], limit).conn;
      match es[|es| - 1]
      case Readable(r, writeFails) => ReadKeepsTerms(c, r, limit, writeFails);
      case Writable(s, readFails) => WriteKeepsTerms(c, s, readFails);
      case _ =>
    }
  }

  /** A started transfer of a request. */
  predicate Starts(request: RwPacket, openFails: bool) {
    request.kind == READ || (request.kind == WRITE && !openFails)
  }

  /**
   * In every run of a started transfer the kind and mode are those of the request, a running timer has the period
   * the last TIMEOUT from 1 to 255 asked for, or two seconds, and the block size is the last one asked for, cut to
   * 32 bits and to the MTU, or 512.
   */
  lemma TermsInForce(request: RwPacket, env: Surroundings, file: Data, openFails: bool, es: seq<Event>, limit: nat)
    requires Starts(request, openFails)
    ensures var c := Run(Created(request, None, env, file, openFails), es, limit).conn;
      && c.kind == request.kind && c.mode == request.mode
      && (c.timer.Armed? ==>
            c.timer.seconds == if LastTimeout(request.options).Some? then LastTimeout(request.options).value else 2)
      && (match LastRequested(request.options)
          case None => c.blockSize == 512
          case Some(v) =>
            var size := v % 0x1_0000_0000;
            c.blockSize == if env.mtu >= 0 && size < 0x8000_0000 then Min(size, env.mtu) else size)
  {
    TermsKept(Created(request, None, env, file, openFails), es, limit);
    TimeoutDecided(request.options, env);
    BlockSizeClamped(request.options, env);
  }

  lemma OackSent(c: Conn, readFails: bool)
    requires c.state == SEND_OACK
    ensures HandleWrite(c, Sent, readFails).sent == Some(SerialiseOack(OackPacket(c.oack)))
  {
  }

  /**
   * A transfer starts with an option acknowledgement exactly when some option can be accepted, and whenever it is
   * sent it answers just these options.
   */
  lemma OackInForce(request: RwPacket, env: Surroundings, file: Data, openFails: bool, es: seq<Event>, limit: nat,
                    readFails: bool)
    requires Starts(request, openFails) && env.fileSize < 0x1_0000_0000_0000_0000
    ensures Created(request, None, env, file, openFails).state == SEND_OACK
       <==> Accepted(request.options, env) != []
    ensures var c := Run(Created(request, None, env, file, openFails), es, limit).conn;
      c.state == SEND_OACK ==> OackAnswers(request.options, env, HandleWrite(c, Sent, readFails).sent)
  {
    TermsKept(Created(request, None, env, file, openFails), es, limit);
    OackExactly(request.options, env);
    var c := Run(Created(request, None, env, file, openFails), es, limit).conn;
    if c.state == SEND_OACK {
      OackSent(c, readFails);
      assert AnswersAll(request.options, env, c.oack);
    }
  }

  predicate AnswersAll(options: seq<Opt>, env: Surroundings, acked: seq<Opt>) {
    var asked := Accepted(options, env);
    |acked| == |asked| && forall i :: 0 <= i < |acked| ==> Answers(asked[i], acked[i], env)
  }

  /** The datagram carries an answer to each acceptable option. */
  ghost predicate OackAnswers(options: seq<Opt>, env: Surroundings, sent: Option<Data>) {
    sent.Some? && exists acked :: AnswersAll(options, env, acked) && sent.value == SerialiseOack(OackPacket(acked))
  }
}
