/**
 * The server's connection state machine, src/server/tftp_server_connection.cpp, as functions from
 * one connection value to the next. The class in ServerConnection.dfy is proved to follow them.
 */
module Connection {
  import opened Bytes
  import opened Packets
  import opened Timers
  import Blocks
  import Options

  datatype State = SEND_ACK | SEND_OACK | SEND_DATA | WAIT_FOR_ACK | WAIT_FOR_DATA | ERROR

  const MAX_TIMEOUTS := 3

  /** Where the contents of `_error_pkt` come from. */
  datatype ServerError = Unset | Denied(packet: ErrorPacket) | Internal | OpenFailed | IllegalRequest

  function PacketOf(e: ServerError): ErrorPacket {
    match e
    case Unset => ErrorPacket(0, [])
    case Denied(packet) => packet
    case Internal => ErrorPacket(NOT_DEFINED, Ascii("Internal server error"))
    case OpenFailed => ErrorPacket(ACCESS_ERROR, Ascii("Failed to open file for writing"))
    case IllegalRequest => ErrorPacket(ILLEGAL_OPERATION, Ascii("ILLEGAL_OPERATION"))
  }

  /**
   * `packet` is the cached DATA packet (None while `_pkt_ready` is false), `source` the encoded bytes
   * the file reader has still to hand out (None once it failed) and `sink` the file written so far
   * (None once the writer failed).
   */
  datatype Conn = Conn(
    kind: PacketType,
    mode: Mode,
    state: State,
    blockNumber: Word,
    blockSize: nat,
    packet: Option<DataPacket>,
    finalAck: bool,
    finished: bool,
    timeoutS: nat,
    timeoutCount: nat,
    timer: TimerState,
    oack: seq<Opt>,
    error: ServerError,
    source: Option<Data>,
    sink: Option<Data>)

  /** What a receive finds: one datagram, nothing yet, or a socket error. */
  datatype Recv = Datagram(bytes: Data) | WouldBlock | RecvFailed

  /** How a send ends. */
  datatype Send = Sent | Busy | SendFailed

  /** The exceptions a handler can let escape. */
  datatype Thrown = Nothing | RecvError | BadNetascii | ErrorState

  datatype ReadResult = ReadResult(conn: Conn, thrown: Thrown)

  datatype WriteResult = WriteResult(conn: Conn, sent: Option<Data>, thrown: Thrown)

  predicate WaitForRead(s: State) {
    s == WAIT_FOR_ACK || s == WAIT_FOR_DATA
  }

  predicate WaitForWrite(s: State) {
    s == SEND_ACK || s == SEND_DATA || s == SEND_OACK || s == State.ERROR
  }

  function Take(d: Data, limit: nat): Data {
    if |d| <= limit then d else d[..limit]
  }

  /** `++` and `-= 1` on a `uint16_t`. */
  function Next(w: Word): Word { if w == 65535 then 0 else w + 1 }

  function Previous(w: Word): Word { if w == 0 then 65535 else w - 1 }

  lemma {:induction false} WireNext(n: nat)
    ensures Wire(n + 1) == Next(Wire(n))
  {
    if n >= 65536 {
      WireNext(n - 65536);
    }
  }

  /** Numbers less than 65536 apart share a wire number only if they are equal. */
  lemma {:induction false} WireApart(a: nat, b: nat)
    requires a <= b < a + 65536 && Wire(a) == Wire(b)
    ensures a == b
  {
    if a >= 65536 {
      WireApart(a - 65536, b - 65536);
    }
  }

  // ------------------------------------------------------------------ construction

  /** What the member initialisers of the constructor set up. */
  function Blank(kind: PacketType): Conn {
    Conn(kind, OCTET, State.ERROR, 0, Options.DEFAULT_BLOCK_SIZE, None, false, false,
         Options.DEFAULT_TIMEOUT_S, 0, Disarmed, [], Unset, Some([]), Some([]))
  }

  function OpenedForReading(c: Conn, mode: Mode, file: Data): Conn {
    c.(mode := mode,
       source := Some(Blocks.Encoded(mode, file)),
       state := if c.oack == [] then SEND_DATA else SEND_OACK,
       blockNumber := if c.oack == [] then 1 else 0)
  }

  function OpenedForWriting(c: Conn, mode: Mode, openFails: bool): Conn {
    if openFails then c.(error := OpenFailed)
    else c.(mode := mode, state := if c.oack == [] then SEND_ACK else SEND_OACK)
  }

  /** A new connection; `denied` is the outcome of the permission check. */
  function Created(request: RwPacket, denied: Option<ErrorPacket>, env: Options.Surroundings,
                   file: Data, openFails: bool): Conn
  {
    if denied.Some? then Blank(request.kind).(error := Denied(denied.value))
    else
      var g := Options.Negotiate(request.options, env);
      var c := Blank(request.kind).(blockSize := g.blockSize, timeoutS := g.timeoutS, oack := g.oack);
      match request.kind
      case READ => OpenedForReading(c, request.mode, file)
      case WRITE => OpenedForWriting(c, request.mode, openFails)
      case _ => c.(error := IllegalRequest)
  }

  // ------------------------------------------------------------------- handle_read

  /** `retransmit` in a release build, where the assertion of its last branch is compiled out. */
  function Retransmitted(c: Conn): Conn {
    if c.state == WAIT_FOR_ACK then c.(state := SEND_DATA)
    else if c.state == WAIT_FOR_DATA then c.(state := SEND_ACK, blockNumber := Previous(c.blockNumber))
    else c
  }

  function OnTimeout(c: Conn): Conn {
    if c.timeoutCount >= MAX_TIMEOUTS then c.(finished := true)
    else Retransmitted(c.(timeoutCount := c.timeoutCount + 1))
  }

  /** The bytes `udp_connection::recv` returns for a buffer of `limit` bytes. */
  function Received(r: Recv, limit: nat): Data {
    if r.Datagram? then Take(r.bytes, limit) else []
  }

  function OnAck(c: Conn, number: Word): Conn {
    var d := c.(timeoutCount := 0);
    if number == c.blockNumber - 1 then d.(state := SEND_DATA)
    else if number == c.blockNumber then
      if c.finalAck then d.(finished := true)
      else d.(packet := None, state := SEND_DATA, blockNumber := Next(c.blockNumber))
    else d.(state := State.ERROR)
  }

  /** A packet of neither kind ends the transfer if it is an ERROR and is ignored otherwise. */
  function OnOther(c: Conn, d: Data): Conn {
    if IsErrorPacket(d) then c.(finished := true) else c
  }

  /** Decodes and appends the payload of the expected block. */
  function Stored(c: Conn, payload: Data, writeFails: bool): ReadResult {
    var native := Blocks.Decoded(c.mode, payload);
    if native.None? then ReadResult(c, BadNetascii)
    else if c.sink.None? || writeFails then
      ReadResult(c.(sink := None, error := Internal, state := State.ERROR), Nothing)
    else
      ReadResult(c.(sink := Some(c.sink.value + native.value),
                    finalAck := c.finalAck || |payload| < c.blockSize,
                    state := SEND_ACK), Nothing)
  }

  function OnData(c: Conn, p: DataPacket, writeFails: bool): ReadResult {
    var d := c.(timeoutCount := 0);
    if p.blockNumber == c.blockNumber - 1 then
      ReadResult(d.(blockNumber := Previous(c.blockNumber), state := SEND_ACK), Nothing)
    else if p.blockNumber == c.blockNumber then Stored(d, p.data, writeFails)
    else ReadResult(d.(state := State.ERROR), Nothing)
  }

  /**
   * `handle_read`. `dataLimit` is the receive limit in WAIT_FOR_DATA, which the code sets to the
   * block size; `writeFails` tells whether the file's error flag is up after the write.
   */
  function HandleRead(c: Conn, r: Recv, dataLimit: nat, writeFails: bool): ReadResult {
    if c.timer.Expired? then ReadResult(OnTimeout(c.(timer := Disarmed)), Nothing)
    else
      match c.state
      case WAIT_FOR_ACK =>
        if r.RecvFailed? then ReadResult(c, RecvError)
        else
          var d := Received(r, ACK_PKT_MAX_SIZE);
          var ack := DeserialiseAck(d);
          ReadResult(if ack.Some? then OnAck(c, ack.value.blockNumber) else OnOther(c, d), Nothing)
      case WAIT_FOR_DATA =>
        if r.RecvFailed? then ReadResult(c, RecvError)
        else
          var d := Received(r, dataLimit);
          var data := DeserialiseData(d);
          if data.Some? then OnData(c, data.value, writeFails) else ReadResult(OnOther(c, d), Nothing)
      case _ => ReadResult(c, Nothing)
  }

  /** Whether `handle_read` takes the datagram out of the socket. */
  predicate Consumes(c: Conn) {
    !c.timer.Expired? && WaitForRead(c.state)
  }

  // ------------------------------------------------------------------ handle_write

  /** Reads and caches the next block unless one is cached already. */
  function Loaded(c: Conn, readFails: bool): Conn {
    if c.packet.Some? then c
    else if c.source.None? || readFails then c.(source := None, error := Internal, state := State.ERROR)
    else
      var data := Take(c.source.value, c.blockSize);
      c.(packet := Some(DataPacket(c.blockNumber, data)),
         source := Some(c.source.value[|data|..]),
         finalAck := c.finalAck || |data| < c.blockSize)
  }

  function WriteData(c: Conn, s: Send, readFails: bool): WriteResult {
    var d := Loaded(c, readFails);
    if d.packet.None? then WriteResult(d, None, Nothing)
    else
      match s
      case SendFailed => WriteResult(d.(error := Internal, state := State.ERROR), None, Nothing)
      case Sent =>
        WriteResult(d.(state := WAIT_FOR_ACK, timer := ArmedFor(d.timeoutS)),
                    Some(SerialiseData(d.packet.value)), Nothing)
      case Busy => WriteResult(d, None, Nothing)
  }

  function WriteAck(c: Conn, s: Send): WriteResult {
    match s
    case SendFailed => WriteResult(c.(error := Internal, state := State.ERROR), None, Nothing)
    case Sent =>
      var d := if c.finalAck then c.(finished := true)
               else c.(blockNumber := Next(c.blockNumber), state := WAIT_FOR_DATA, timer := ArmedFor(c.timeoutS));
      WriteResult(d, Some(SerialiseAck(AckPacket(c.blockNumber))), Nothing)
    case Busy => WriteResult(c, None, Nothing)
  }

  /** Sending the option acknowledgement does not arm the timer. */
  function WriteOack(c: Conn, s: Send): WriteResult {
    match s
    case SendFailed => WriteResult(c.(finished := true), None, Nothing)
    case Sent =>
      WriteResult(c.(state := if c.kind == READ then WAIT_FOR_ACK else WAIT_FOR_DATA),
                  Some(SerialiseOack(OackPacket(c.oack))), Nothing)
    case Busy => WriteResult(c, None, Nothing)
  }

  function WriteError(c: Conn, s: Send): WriteResult {
    match s
    case SendFailed => WriteResult(c.(finished := true), None, Nothing)
    case Sent => WriteResult(c.(finished := true), Some(SerialiseError(PacketOf(c.error))), Nothing)
    case Busy => WriteResult(c, None, Nothing)
  }

  /** `handle_write`; `readFails` tells whether the file's error flag is up after the read. */
  function HandleWrite(c: Conn, s: Send, readFails: bool): WriteResult {
    match c.state
    case SEND_DATA => WriteData(c, s, readFails)
    case SEND_ACK => WriteAck(c, s)
    case SEND_OACK => WriteOack(c, s)
    case ERROR => WriteError(c, s)
    case _ => WriteResult(c, None, ErrorState)
  }
}
