/**
 * The receiving side: `tftp_client::get_file` of src/client/tftp_client.cpp, and a receiver that keeps
 * to sections 2 and 6 of RFC 1350 by answering repeated packets instead of giving up.
 */
module Client {
  import opened Bytes
  import opened Packets
  import Blocks
  import Connection

  datatype Phase = Receiving | Complete | Aborted | Threw

  /** `expected` is the number the next DATA packet must carry and `payloads` what was acknowledged so far. */
  datatype Receiver = Receiver(expected: Word, payloads: seq<Data>, output: Data, phase: Phase)

  datatype Reaction = Reaction(receiver: Receiver, ack: Option<Word>)

  function NewReceiver(): Receiver {
    Receiver(1, [], [], Receiving)
  }

  /** The acknowledgement goes out before the payload is decoded and written. */
  function Accept(mode: Mode, size: nat, r: Receiver, p: DataPacket): Reaction {
    var native := Blocks.Decoded(mode, p.data);
    Reaction(
      Receiver(Connection.Next(r.expected), r.payloads + [p.data],
               if native.Some? then r.output + native.value else r.output,
               if native.None? then Threw else if |p.data| < size then Complete else Receiving),
      Some(p.blockNumber))
  }

  /** One datagram through the loop of `get_file`, which takes nothing but the next block. */
  function StrictStep(mode: Mode, r: Receiver, d: Data): Reaction {
    if r.phase != Receiving then Reaction(r, None)
    else
      var p := DeserialiseData(Connection.Take(d, DATA_PKT_MAX_SIZE));
      if p.None? || p.value.blockNumber != r.expected then Reaction(r.(phase := Aborted), None)
      else Accept(mode, DATA_PKT_DATA_MAX_SIZE, r, p.value)
  }

  /**
   * A receiver after RFC 1350: it stores the next block as it is and may answer any other DATA
   * packet, or a repeated option acknowledgement, by acknowledging its number once more.
   */
  function Rfc1350Step(size: nat, r: Receiver, d: Data, reply: bool): Reaction {
    var p := DeserialiseData(d);
    if p.None? then
      Reaction(r, if reply && r.payloads == [] && DeserialiseOack(d).Some? then Some(0) else None)
    else if r.phase == Receiving && p.value.blockNumber == r.expected then Accept(OCTET, size, r, p.value)
    else Reaction(r, if reply then Some(p.value.blockNumber) else None)
  }

  datatype ClientRun = ClientRun(receiver: Receiver, acks: seq<Data>)

  /** `get_file` after the datagrams received so far. */
  function StrictRun(mode: Mode, incoming: seq<Data>): ClientRun {
    if incoming == [] then ClientRun(NewReceiver(), [])
    else
      var before := StrictRun(mode, incoming[..|incoming| - 1]);
      var x := StrictStep(mode, before.receiver, incoming[|incoming| - 1]);
      ClientRun(x.receiver,
                if x.ack.Some? then before.acks + [SerialiseAck(AckPacket(x.ack.value))] else before.acks)
  }

  lemma {:induction false} StoppedRun(mode: Mode, incoming: seq<Data>, k: nat)
    requires k <= |incoming| && StrictRun(mode, incoming[..k]).receiver.phase != Receiving
    ensures StrictRun(mode, incoming) == StrictRun(mode, incoming[..k])
    decreases |incoming|
  {
    if k == |incoming| {
      assert incoming[..k] == incoming;
    } else {
      var front := incoming[..|incoming| - 1];
      assert front[..k] == incoming[..k];
      StoppedRun(mode, front, k);
    }
  }

  lemma RunNext(mode: Mode, incoming: seq<Data>, i: nat)
    requires i < |incoming|
    ensures var before := StrictRun(mode, incoming[..i]);
      var x := StrictStep(mode, before.receiver, incoming[i]);
      StrictRun(mode, incoming[..i + 1])
      == ClientRun(x.receiver,
                   if x.ack.Some? then before.acks + [SerialiseAck(AckPacket(x.ack.value))] else before.acks)
  {
    assert incoming[..i + 1][..i] == incoming[..i];
  }

  /** How a call of `get_file` stands: it returned, an exception escaped, or it waits in `recv`. */
  datatype Outcome = Returned(ok: bool) | Escaped | Waiting

  function OutcomeOf(phase: Phase): Outcome {
    match phase
    case Receiving => Waiting
    case Complete => Returned(true)
    case Aborted => Returned(false)
    case Threw => Escaped
  }

  // ------------------------------------------------- how a call of `get_file` ends

  /** The DATA packet in a datagram, as far as the receive buffer holds it. */
  function PacketIn(d: Data): Option<DataPacket> {
    DeserialiseData(Connection.Take(d, DATA_PKT_MAX_SIZE))
  }

  /** Of a longer datagram only the first 512 bytes of payload are taken. */
  lemma PayloadTaken(d: Data)
    ensures PacketIn(d).Some? ==> |d| >= 4 && PacketIn(d).value.data == Connection.Take(d[4..], 512)
  {
    if |d| > 516 {
      assert d[..516][4..] == d[4..][..512];
    }
  }

  /** A datagram carries block i, counted from zero, and its payload can be stored. */
  predicate CarriesBlock(mode: Mode, d: Data, i: nat) {
    && PacketIn(d).Some?
    && PacketIn(d).value.blockNumber == Wire(i + 1)
    && Blocks.Decoded(mode, PacketIn(d).value.data).Some?
  }

  predicate FullBlock(mode: Mode, d: Data, i: nat) {
    CarriesBlock(mode, d, i) && |PacketIn(d).value.data| >= 512
  }

  predicate ShortBlock(mode: Mode, d: Data, i: nat) {
    CarriesBlock(mode, d, i) && |PacketIn(d).value.data| < 512
  }

  predicate AllFull(mode: Mode, incoming: seq<Data>) {
    forall i :: 0 <= i < |incoming| ==> FullBlock(mode, incoming[i], i)
  }

  /** The next block, which cannot be decoded. */
  predicate BrokenBlock(mode: Mode, d: Data, i: nat) {
    && PacketIn(d).Some?
    && PacketIn(d).value.blockNumber == Wire(i + 1)
    && Blocks.Decoded(mode, PacketIn(d).value.data).None?
  }

  /** Not DATA, or not the next block. */
  predicate Foreign(d: Data, i: nat) {
    PacketIn(d).None? || PacketIn(d).value.blockNumber != Wire(i + 1)
  }

  /** What a datagram does to a call that waits for block i. */
  predicate Stops(mode: Mode, d: Data, i: nat, outcome: Outcome) {
    match outcome
    case Waiting => false
    case Escaped => BrokenBlock(mode, d, i)
    case Returned(ok) => if ok then ShortBlock(mode, d, i) else Foreign(d, i)
  }

  /** The first k datagrams are full blocks 1, 2, 3, ... in order, and the next one ends the call. */
  predicate EndsAt(mode: Mode, incoming: seq<Data>, k: nat, outcome: Outcome) {
    k < |incoming| && AllFull(mode, incoming[..k]) && Stops(mode, incoming[k], k, outcome)
  }

  /** The acknowledgements of blocks 1 to n. */
  function AcksUpTo(n: nat): (acks: seq<Data>)
    ensures |acks| == n
  {
    if n == 0 then [] else AcksUpTo(n - 1) + [SerialiseAck(AckPacket(Wire(n)))]
  }

  /** While it waits `get_file` has taken every datagram as the next full block, and acknowledged each once. */
  lemma {:induction false} WaitingRun(mode: Mode, incoming: seq<Data>)
    ensures var run := StrictRun(mode, incoming);
      && (run.receiver.phase == Receiving <==> AllFull(mode, incoming))
      && run.acks == AcksUpTo(|run.receiver.payloads|)
      && (run.receiver.phase == Receiving ==>
            |run.receiver.payloads| == |incoming| && run.receiver.expected == Wire(|incoming| + 1))
  {
    if incoming != [] {
      var front, d := incoming[..|incoming| - 1], incoming[|incoming| - 1];
      WaitingRun(mode, front);
      StepTakes(mode, StrictRun(mode, front).receiver, d, |front|);
      AllFullSnoc(mode, incoming);
    }
  }

  lemma AllFullSnoc(mode: Mode, incoming: seq<Data>)
    requires incoming != []
    ensures var n := |incoming| - 1;
      AllFull(mode, incoming) <==> AllFull(mode, incoming[..n]) && FullBlock(mode, incoming[n], n)
  {
    var n := |incoming| - 1;
    if AllFull(mode, incoming[..n]) && FullBlock(mode, incoming[n], n) {
      forall i | 0 <= i < |incoming| ensures FullBlock(mode, incoming[i], i) {
        if i < n { assert incoming[..n][i] == incoming[i]; }
      }
    }
  }

  lemma StepTakes(mode: Mode, r: Receiver, d: Data, n: nat)
    requires r.phase == Receiving ==> r.expected == Wire(n + 1)
    ensures var x := StrictStep(mode, r, d);
      && (x.receiver.phase == Receiving <==> r.phase == Receiving && FullBlock(mode, d, n))
      && (x.ack.Some? ==> r.phase == Receiving && x.ack.value == Wire(n + 1))
      && (x.ack.Some? ==> |x.receiver.payloads| == |r.payloads| + 1)
      && (x.ack.None? ==> |x.receiver.payloads| == |r.payloads|)
      && (x.receiver.phase == Receiving ==> x.ack.Some? && x.receiver.expected == Wire(n + 2))
  {
    Connection.WireNext(n + 1);
  }

  lemma StepEnds(mode: Mode, r: Receiver, d: Data, n: nat, outcome: Outcome)
    requires r.phase == Receiving ==> r.expected == Wire(n + 1)
    requires outcome != Waiting
    ensures OutcomeOf(StrictStep(mode, r, d).receiver.phase) == outcome
       <==> if r.phase == Receiving then Stops(mode, d, n, outcome) else OutcomeOf(r.phase) == outcome
  {
  }

  /** A call ends in a given way exactly when some datagram behind nothing but full blocks makes it. */
  lemma {:induction false} OutcomeExactly(mode: Mode, incoming: seq<Data>, outcome: Outcome)
    requires outcome != Waiting
    ensures OutcomeOf(StrictRun(mode, incoming).receiver.phase) == outcome
       <==> exists k :: 0 <= k < |incoming| && EndsAt(mode, incoming, k, outcome)
  {
    if incoming != [] {
      var n := |incoming| - 1;
      var front := incoming[..n];
      OutcomeExactly(mode, front, outcome);
      WaitingRun(mode, front);
      StepEnds(mode, StrictRun(mode, front).receiver, incoming[n], n, outcome);
      EndsAtSnoc(mode, incoming, outcome);
      if AllFull(mode, front) {
        NoEndYet(mode, front, outcome);
      }
    }
  }

  lemma NoEndYet(mode: Mode, incoming: seq<Data>, outcome: Outcome)
    requires AllFull(mode, incoming)
    ensures !exists k :: 0 <= k < |incoming| && EndsAt(mode, incoming, k, outcome)
  {
    forall k | 0 <= k < |incoming| ensures !EndsAt(mode, incoming, k, outcome) {
      assert FullBlock(mode, incoming[k], k);
    }
  }

  lemma EndsAtSnoc(mode: Mode, incoming: seq<Data>, outcome: Outcome)
    requires incoming != []
    ensures var n := |incoming| - 1;
      (exists k :: 0 <= k < |incoming| && EndsAt(mode, incoming, k, outcome))
      <==> (exists k :: 0 <= k < n && EndsAt(mode, incoming[..n], k, outcome))
           || (AllFull(mode, incoming[..n]) && Stops(mode, incoming[n], n, outcome))
  {
    var n := |incoming| - 1;
    forall k | 0 <= k < n ensures EndsAt(mode, incoming, k, outcome) == EndsAt(mode, incoming[..n], k, outcome) {
      assert incoming[..n][..k] == incoming[..k];
    }
    if AllFull(mode, incoming[..n]) && Stops(mode, incoming[n], n, outcome) {
      assert EndsAt(mode, incoming, n, outcome);
    }
  }

  /**
   * `get_file` returns true exactly on the datagram sequences that start with blocks 1, 2, 3, ... modulo
   * 65536, each of them decodable, all full but the last: no gap, no repetition, nothing foreign.
   */
  lemma SucceedsExactly(mode: Mode, incoming: seq<Data>)
    ensures OutcomeOf(StrictRun(mode, incoming).receiver.phase) == Returned(true)
       <==> exists k :: 0 <= k < |incoming| && AllFull(mode, incoming[..k]) && ShortBlock(mode, incoming[k], k)
  {
    OutcomeExactly(mode, incoming, Returned(true));
    forall k | 0 <= k < |incoming|
      ensures EndsAt(mode, incoming, k, Returned(true))
           == (AllFull(mode, incoming[..k]) && ShortBlock(mode, incoming[k], k)) {}
  }

  /** The codec's exception escapes exactly when the next block in turn does not decode. */
  lemma EscapesExactly(mode: Mode, incoming: seq<Data>)
    ensures OutcomeOf(StrictRun(mode, incoming).receiver.phase) == Escaped
       <==> exists k :: 0 <= k < |incoming| && AllFull(mode, incoming[..k]) && BrokenBlock(mode, incoming[k], k)
  {
    OutcomeExactly(mode, incoming, Escaped);
    forall k | 0 <= k < |incoming|
      ensures EndsAt(mode, incoming, k, Escaped)
           == (AllFull(mode, incoming[..k]) && BrokenBlock(mode, incoming[k], k)) {}
  }

  /** `get_file` returns false exactly when something comes that is not the next block. */
  lemma GivesUpExactly(mode: Mode, incoming: seq<Data>)
    ensures OutcomeOf(StrictRun(mode, incoming).receiver.phase) == Returned(false)
       <==> exists k :: 0 <= k < |incoming| && AllFull(mode, incoming[..k]) && Foreign(incoming[k], k)
  {
    OutcomeExactly(mode, incoming, Returned(false));
    forall k | 0 <= k < |incoming|
      ensures EndsAt(mode, incoming, k, Returned(false))
           == (AllFull(mode, incoming[..k]) && Foreign(incoming[k], k)) {}
  }

  /** The payloads of the datagrams taken so far. */
  predicate TakenFrom(payloads: seq<Data>, incoming: seq<Data>) {
    |payloads| <= |incoming| && forall i :: 0 <= i < |payloads| ==> IsPayload(payloads[i], incoming[i])
  }

  predicate IsPayload(b: Data, d: Data) {
    PacketIn(d).Some? && b == PacketIn(d).value.data
  }

  lemma TakenSnoc(payloads: seq<Data>, incoming: seq<Data>, more: seq<Data>, d: Data)
    requires TakenFrom(payloads, incoming)
    requires more == payloads || (|payloads| == |incoming| && (exists b :: IsPayload(b, d) && more == payloads + [b]))
    ensures TakenFrom(more, incoming + [d])
  {
  }

  /** What is in the output file: everything taken, but for a last payload that did not decode. */
  predicate OutputIs(mode: Mode, r: Receiver) {
    if r.phase == Threw then
      && r.payloads != [] && Blocks.DecodedBlocks(mode, r.payloads) == None
      && Blocks.DecodedBlocks(mode, r.payloads[..|r.payloads| - 1]) == Some(r.output)
    else Blocks.DecodedBlocks(mode, r.payloads) == Some(r.output)
  }

  /** Whatever becomes of the call, the output file holds the payloads of the blocks taken, decoded. */
  lemma {:induction false} OutputExactly(mode: Mode, incoming: seq<Data>)
    ensures var r := StrictRun(mode, incoming).receiver;
      TakenFrom(r.payloads, incoming) && OutputIs(mode, r)
      && (r.phase == Receiving ==> |r.payloads| == |incoming|)
  {
    if incoming != [] {
      var n := |incoming| - 1;
      OutputExactly(mode, incoming[..n]);
      var r := StrictRun(mode, incoming[..n]).receiver;
      OutputStep(mode, r, incoming[n]);
      TakenSnoc(r.payloads, incoming[..n], StrictStep(mode, r, incoming[n]).receiver.payloads, incoming[n]);
      assert incoming[..n] + [incoming[n]] == incoming;
    }
  }

  lemma OutputStep(mode: Mode, r: Receiver, d: Data)
    requires OutputIs(mode, r)
    ensures var s := StrictStep(mode, r, d).receiver;
      && OutputIs(mode, s)
      && (s.payloads == r.payloads
          || (r.phase == Receiving && PacketIn(d).Some? && s.payloads == r.payloads + [PacketIn(d).value.data]))
      && (s.phase == Receiving ==> r.phase == Receiving && |s.payloads| == |r.payloads| + 1)
  {
    if PacketIn(d).Some? {
      Blocks.DecodedBlocksSnoc(mode, r.payloads, PacketIn(d).value.data);
      assert (r.payloads + [PacketIn(d).value.data])[..|r.payloads|] == r.payloads;
    }
  }

  lemma TakesPacket(mode: Mode, incoming: seq<Data>, i: nat, r: Receiver, acks: seq<Data>, p: DataPacket)
    requires i < |incoming| && StrictRun(mode, incoming[..i]) == ClientRun(r, acks)
    requires r.phase == Receiving && PacketIn(incoming[i]) == Some(p) && p.blockNumber == r.expected
    ensures var s := Accept(mode, DATA_PKT_DATA_MAX_SIZE, r, p).receiver;
      var run := ClientRun(s, acks + [SerialiseAck(AckPacket(p.blockNumber))]);
      && StrictRun(mode, incoming[..i + 1]) == run
      && (s.phase != Receiving ==> StrictRun(mode, incoming) == run)
  {
    RunNext(mode, incoming, i);
    if StrictRun(mode, incoming[..i + 1]).receiver.phase != Receiving {
      StoppedRun(mode, incoming, i + 1);
    }
  }

  lemma RefusesPacket(mode: Mode, incoming: seq<Data>, i: nat, r: Receiver, acks: seq<Data>)
    requires i < |incoming| && StrictRun(mode, incoming[..i]) == ClientRun(r, acks)
    requires r.phase == Receiving
    requires PacketIn(incoming[i]).None? || PacketIn(incoming[i]).value.blockNumber != r.expected
    ensures StrictRun(mode, incoming) == ClientRun(r.(phase := Aborted), acks)
  {
    RunNext(mode, incoming, i);
    StoppedRun(mode, incoming, i + 1);
  }

  /** What a caller and the server see of `get_file`: how it ended, the output file and the acknowledgements. */
  datatype Report = Report(outcome: Outcome, output: Data, acks: seq<Data>)

  function ReportOf(run: ClientRun): Report {
    Report(OutcomeOf(run.receiver.phase), run.receiver.output, run.acks)
  }

  /** `get_file` on a given sequence of incoming datagrams. */
  method GetFile(mode: Mode, incoming: seq<Data>) returns (outcome: Outcome, output: Data, acks: seq<Data>)
    ensures Report(outcome, output, acks) == ReportOf(StrictRun(mode, incoming))
  {
    output, acks := [], [];
    var blockNumber: Word := 1;
    var i := 0;
    if |incoming| == 0 {
      return Waiting, output, acks;
    }
    var packet := PacketIn(incoming[0]);
    assert incoming[..0] == [];
    if packet.None? || packet.value.blockNumber != blockNumber {
      RefusesPacket(mode, incoming, 0, NewReceiver(), []);
      return Returned(false), output, acks;
    }
    ghost var r := NewReceiver();
    while true
      invariant i < |incoming| && packet == PacketIn(incoming[i])
      invariant packet.Some? && packet.value.blockNumber == blockNumber
      invariant r.phase == Receiving && r.expected == blockNumber && r.output == output
      invariant StrictRun(mode, incoming[..i]) == ClientRun(r, acks)
      decreases |incoming| - i
    {
      TakesPacket(mode, incoming, i, r, acks, packet.value);
      r := Accept(mode, DATA_PKT_DATA_MAX_SIZE, r, packet.value).receiver;
      acks := acks + [SerialiseAck(AckPacket(blockNumber))];
      blockNumber := Connection.Next(blockNumber);
      i := i + 1;
      if mode == NETASCII {
        var native := Blocks.Decoded(mode, packet.value.data);
        if native.None? {
          return Escaped, output, acks;
        }
        output := output + native.value;
      } else {
        output := output + packet.value.data;
      }
      if |packet.value.data| < DATA_PKT_DATA_MAX_SIZE {
        return Returned(true), output, acks;
      }
      if i == |incoming| {
        assert incoming[..i] == incoming;
        return Waiting, output, acks;
      }
      packet := PacketIn(incoming[i]);
      if packet.None? || packet.value.blockNumber != blockNumber {
        RefusesPacket(mode, incoming, i, r, acks);
        return Returned(false), output, acks;
      }
    }
  }
}
