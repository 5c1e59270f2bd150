/** The class `tftp_server_connection` itself, proved to follow the functions of Connection. */
module ServerConnection {
  import opened Bytes
  import opened CStrings
  import opened Packets
  import opened Timers
  import opened ReadFile
  import opened WriteFile
  import opened Connection
  import Options

  class TftpServerConnection {
    const kind: PacketType
    const fileReader: TftpReadFile
    const fileWriter: TftpWriteFile
    const timer: Timer
    var dataPkt: DataPacket
    var error: ServerError
    var finished: bool
    var finalAck: bool
    var pktReady: bool
    var state: State
    var timeoutS: nat
    var timeoutCount: nat
    var blockNumber: Word
    var blockSize: nat
    var oackOptions: seq<Opt>

    ghost predicate Valid()
      reads this, fileReader, fileWriter, timer
    {
      && fileReader.Valid()
      && |fileReader.overflow| <= blockSize
      && (state == SEND_DATA || state == WAIT_FOR_ACK ==> kind == READ)
      && (state == SEND_ACK || state == WAIT_FOR_DATA ==> kind == WRITE)
      && (state == SEND_OACK ==> kind == READ || kind == WRITE)
    }

    /** The connection as a value. */
    ghost function View(): Conn
      requires Valid()
      reads this, fileReader, fileWriter, timer
    {
      Conn(kind,
           if kind == WRITE then fileWriter.mode else fileReader.mode,
           state, blockNumber, blockSize,
           if pktReady then Some(dataPkt) else None,
           finalAck, finished, timeoutS, timeoutCount, timer.state, oackOptions, error,
           if fileReader.failed then None else Some(fileReader.remaining),
           if fileWriter.failed then None else Some(fileWriter.contents))
    }

    constructor (request: RwPacket, denied: Option<ErrorPacket>, env: Options.Surroundings,
                 file: Data, openFails: bool)
      requires env.kind == request.kind
      ensures Valid() && fresh(fileReader) && fresh(fileWriter) && fresh(timer)
      ensures View() == Created(request, denied, env, file, openFails)
    {
      kind := request.kind;
      fileReader := new TftpReadFile();
      fileWriter := new TftpWriteFile();
      timer := new Timer();
      dataPkt := DataPacket(0, []);
      error := Unset;
      finished, finalAck, pktReady := false, false, false;
      state := State.ERROR;
      timeoutS, timeoutCount := Options.DEFAULT_TIMEOUT_S, 0;
      blockNumber, blockSize := 0, Options.DEFAULT_BLOCK_SIZE;
      oackOptions := [];
      new;
      if denied.Some? {
        error := Denied(denied.value);
        state := State.ERROR;
      } else {
        Begin(request, env, file, openFails);
      }
    }

    /** The part of the constructor that runs once the request is permitted. */
    method Begin(request: RwPacket, env: Options.Surroundings, file: Data, openFails: bool)
      requires Valid() && kind == request.kind == env.kind
      requires View() == Blank(kind) && fileReader.overflow == []
      modifies this, fileReader, fileWriter
      ensures Valid()
      ensures View() == Created(request, None, env, file, openFails)
    {
      dataPkt := dataPkt.(data := seq(blockSize, _ => 0));
      ProcessOptions(request.options, env);
      ghost var g := Options.Negotiate(request.options, env);
      assert View() == Blank(kind).(blockSize := g.blockSize, timeoutS := g.timeoutS, oack := g.oack);
      match request.kind {
        case READ =>
          BeginRead(request.mode, file);
        case WRITE =>
          BeginWrite(request.mode, openFails);
        case _ =>
          error := IllegalRequest;
          state := State.ERROR;
      }
    }

    method BeginRead(mode: Mode, file: Data)
      requires Valid() && kind == READ && fileReader.overflow == []
      modifies this`state, this`blockNumber, fileReader
      ensures Valid()
      ensures View() == OpenedForReading(old(View()), mode, file)
    {
      fileReader.Open(file, mode);
      if oackOptions == [] {
        state := SEND_DATA;
        blockNumber := 1;
      } else {
        blockNumber := 0;
        state := SEND_OACK;
      }
    }

    method BeginWrite(mode: Mode, openFails: bool)
      requires Valid() && kind == WRITE && state == State.ERROR && blockNumber == 0
      requires fileWriter.contents == [] && !fileWriter.failed
      modifies this`state, this`blockNumber, this`error, fileWriter
      ensures Valid()
      ensures View() == OpenedForWriting(old(View()), mode, openFails)
    {
      if oackOptions == [] {
        state := SEND_ACK;
      } else {
        state := SEND_OACK;
      }
      blockNumber := 0;
      if openFails {
        error := OpenFailed;
        state := State.ERROR;
      } else {
        fileWriter.Open(mode);
      }
    }

    method ProcessOptions(options: seq<Opt>, env: Options.Surroundings)
      requires blockSize == Options.DEFAULT_BLOCK_SIZE && timeoutS == Options.DEFAULT_TIMEOUT_S
      requires oackOptions == [] && env.kind == kind
      modifies this`blockSize, this`timeoutS, this`oackOptions
      ensures Options.Negotiated(blockSize, timeoutS, oackOptions) == Options.Negotiate(options, env)
    {
      for i := 0 to |options|
        invariant Options.Negotiated(blockSize, timeoutS, oackOptions) == Options.Negotiate(options[..i], env)
      {
        assert options[..i + 1][..i] == options[..i];
        ProcessOption(options[i], env);
      }
      assert options[..|options|] == options;
    }

    method ProcessOption(opt: Opt, env: Options.Surroundings)
      requires env.kind == kind
      modifies this`blockSize, this`timeoutS, this`oackOptions
      ensures Options.Negotiated(blockSize, timeoutS, oackOptions)
           == Options.OnOption(old(Options.Negotiated(blockSize, timeoutS, oackOptions)), opt, env)
    {
      Options.NamesDiffer();
      if CStr(opt.name) == Options.BlksizeName() {
        var val := Options.ParseUnsigned(opt.value);
        if val.Value? {
          blockSize := val.n % Options.UINT32_LIMIT;
          if env.mtu < 0 {
            oackOptions := oackOptions + [Opt(opt.name, opt.value)];
          } else if env.mtu < Options.AsInt32(blockSize) {
            blockSize := env.mtu;
            oackOptions := oackOptions + [Opt(opt.name, Options.ToDecimal(env.mtu))];
          } else {
            oackOptions := oackOptions + [Opt(opt.name, opt.value)];
          }
        }
      } else if CStr(opt.name) == Options.TsizeName() {
        if kind == READ {
          oackOptions := oackOptions + [Opt(opt.name, Options.ToDecimal(env.fileSize))];
        }
      } else if CStr(opt.name) == Options.TimeoutName() {
        var reqTimeoutS := Options.ParseUnsigned(opt.value);
        if reqTimeoutS.Value? {
          if !(reqTimeoutS.n < 1 || reqTimeoutS.n > 255) {
            timeoutS := reqTimeoutS.n;
            oackOptions := oackOptions + [Opt(opt.name, Options.ToDecimal(timeoutS))];
          }
        }
      }
    }

    method Retransmit()
      requires Valid()
      modifies this`state, this`blockNumber
      ensures Valid() && View() == Retransmitted(old(View()))
    {
      if state == WAIT_FOR_ACK {
        state := SEND_DATA;
      } else if state == WAIT_FOR_DATA {
        state := SEND_ACK;
        blockNumber := Previous(blockNumber);
      }
    }

    /** `udp_connection::recv`: cut to the buffer, empty when nothing is there. */
    method RecvFrom(r: Recv, size: nat) returns (buffer: Data)
      requires !r.RecvFailed?
      ensures buffer == Received(r, size)
    {
      buffer := [];
      if r.Datagram? {
        buffer := if |r.bytes| <= size then r.bytes else r.bytes[..size];
      }
    }

    method HandleRead(r: Recv, faults: nat) returns (thrown: Thrown)
      requires Valid()
      modifies this, fileWriter, timer
      ensures Valid()
      ensures ReadResult(View(), thrown)
           == Connection.HandleRead(old(View()), r, old(blockSize), fileWriter.failed)
    {
      thrown := Nothing;
      var expired := timer.HasExpired();
      if expired {
        TimedOut();
        return;
      }
      match state {
        case WAIT_FOR_ACK =>
          if r.RecvFailed? {
            return RecvError;
          }
          ReadAck(r);
        case WAIT_FOR_DATA =>
          if r.RecvFailed? {
            return RecvError;
          }
          thrown := ReadData(r, faults);
        case _ =>
      }
    }

    method TimedOut()
      requires Valid()
      modifies this`finished, this`timeoutCount, this`state, this`blockNumber
      ensures Valid() && View() == OnTimeout(old(View()))
    {
      if timeoutCount >= MAX_TIMEOUTS {
        finished := true;
      } else {
        timeoutCount := timeoutCount + 1;
        Retransmit();
      }
    }

    method ReadAck(r: Recv)
      requires Valid() && state == WAIT_FOR_ACK && !r.RecvFailed?
      modifies this`timeoutCount, this`state, this`finished, this`pktReady, this`blockNumber
      ensures Valid()
      ensures var d := Received(r, ACK_PKT_MAX_SIZE);
        View() == if DeserialiseAck(d).Some? then OnAck(old(View()), DeserialiseAck(d).value.blockNumber)
                  else OnOther(old(View()), d)
    {
      var recvData := RecvFrom(r, ACK_PKT_MAX_SIZE);
      var ackPacket := DeserialiseAck(recvData);
      if ackPacket.Some? {
        AcceptAck(ackPacket.value.blockNumber);
      } else {
        var errorPacket := DeserialiseError(recvData);
        finished := finished || errorPacket.Some?;
      }
    }

    method AcceptAck(number: Word)
      requires Valid() && state == WAIT_FOR_ACK
      modifies this`timeoutCount, this`state, this`finished, this`pktReady, this`blockNumber
      ensures Valid() && View() == OnAck(old(View()), number)
    {
      timeoutCount := 0;
      if number == blockNumber - 1 {
        state := SEND_DATA;
      } else if number == blockNumber {
        if finalAck {
          finished := true;
          return;
        }
        pktReady := false;
        state := SEND_DATA;
        blockNumber := Next(blockNumber);
      } else {
        state := State.ERROR;
      }
    }

    method ReadData(r: Recv, faults: nat) returns (thrown: Thrown)
      requires Valid() && state == WAIT_FOR_DATA && !r.RecvFailed?
      modifies this`timeoutCount, this`state, this`finished, this`finalAck, this`error, this`blockNumber
      modifies fileWriter
      ensures Valid()
      ensures var d := Received(r, old(blockSize));
        ReadResult(View(), thrown)
        == if DeserialiseData(d).Some? then OnData(old(View()), DeserialiseData(d).value, fileWriter.failed)
           else ReadResult(OnOther(old(View()), d), Nothing)
    {
      thrown := Nothing;
      var recvData := RecvFrom(r, blockSize);
      var dataPacket := DeserialiseData(recvData);
      if dataPacket.Some? {
        thrown := AcceptData(dataPacket.value, faults);
      } else {
        var errorPacket := DeserialiseError(recvData);
        finished := finished || errorPacket.Some?;
      }
    }

    method AcceptData(packet: DataPacket, faults: nat) returns (thrown: Thrown)
      requires Valid() && state == WAIT_FOR_DATA
      modifies this`timeoutCount, this`state, this`finalAck, this`error, this`blockNumber
      modifies fileWriter
      ensures Valid()
      ensures ReadResult(View(), thrown) == OnData(old(View()), packet, fileWriter.failed)
    {
      thrown := Nothing;
      timeoutCount := 0;
      if packet.blockNumber == blockNumber - 1 {
        blockNumber := Previous(blockNumber);
        state := SEND_ACK;
      } else if packet.blockNumber == blockNumber {
        thrown := StorePayload(packet.data, faults);
      } else {
        state := State.ERROR;
      }
    }

    method StorePayload(data: Data, faults: nat) returns (thrown: Thrown)
      requires Valid() && state == WAIT_FOR_DATA
      modifies this`state, this`finalAck, this`error
      modifies fileWriter
      ensures Valid()
      ensures ReadResult(View(), thrown) == Stored(old(View()), data, fileWriter.failed)
    {
      thrown := Nothing;
      var threw := fileWriter.Write(data, faults);
      if threw {
        return BadNetascii;
      }
      if fileWriter.failed {
        error := Internal;
        state := State.ERROR;
        return;
      }
      if |data| < blockSize {
        finalAck := true;
      }
      state := SEND_ACK;
    }

    method HandleWrite(s: Send, fault: Option<nat>) returns (sent: Option<Data>, thrown: Thrown)
      requires Valid()
      modifies this, fileReader, timer
      ensures Valid()
      ensures WriteResult(View(), sent, thrown) == Connection.HandleWrite(old(View()), s, fileReader.failed)
    {
      sent, thrown := None, Nothing;
      match state {
        case SEND_DATA =>
          sent := SendData(s, fault);
        case SEND_ACK =>
          sent := SendAck(s);
        case SEND_OACK =>
          match s {
            case SendFailed => finished := true;
            case Sent =>
              sent := SendOack();
              state := if kind == READ then WAIT_FOR_ACK else WAIT_FOR_DATA;
            case Busy =>
          }
        case ERROR =>
          match s {
            case SendFailed => finished := true;
            case Sent =>
              sent := Some(SerialiseError(PacketOf(error)));
              finished := true;
            case Busy =>
          }
        case _ =>
          thrown := ErrorState;
      }
    }

    method SendOack() returns (sent: Option<Data>)
      ensures sent == Some(SerialiseOack(OackPacket(oackOptions)))
    {
      var data := SerialiseOackPacket(OackPacket(oackOptions));
      sent := Some(data);
    }

    method SendData(s: Send, fault: Option<nat>) returns (sent: Option<Data>)
      requires Valid() && state == SEND_DATA
      modifies this, fileReader, timer
      ensures Valid()
      ensures WriteResult(View(), sent, Nothing) == WriteData(old(View()), s, fileReader.failed)
    {
      sent := None;
      if !pktReady {
        LoadPacket(fault);
        if fileReader.failed {
          return;
        }
      }
      match s {
        case SendFailed =>
          error := Internal;
          state := State.ERROR;
        case Sent =>
          sent := Some(SerialiseData(dataPkt));
          state := WAIT_FOR_ACK;
          timer.ArmTimer(timeoutS);
        case Busy =>
      }
    }

    method LoadPacket(fault: Option<nat>)
      requires Valid() && state == SEND_DATA && !pktReady
      modifies this`dataPkt, this`error, this`state, this`finalAck, this`pktReady
      modifies fileReader`position, fileReader`atEof, fileReader`failed, fileReader`overflow, fileReader`remaining
      ensures Valid() && View() == Loaded(old(View()), fileReader.failed)
      ensures pktReady == !fileReader.failed
    {
      var data := ReadBlock(fault);
      if fileReader.failed {
        error := Internal;
        state := State.ERROR;
        return;
      }
      StorePacket(data);
    }

    method StorePacket(data: Data)
      requires Valid()
      modifies this`dataPkt, this`finalAck, this`pktReady
      ensures Valid() && pktReady
      ensures View() == old(View()).(packet := Some(DataPacket(blockNumber, data)),
                                     finalAck := old(finalAck) || |data| < blockSize)
    {
      dataPkt := dataPkt.(data := data);
      if |dataPkt.data| < blockSize || fileReader.Eof() {
        if |dataPkt.data| < blockSize {
          finalAck := true;
        }
      }
      dataPkt := dataPkt.(blockNumber := blockNumber);
      pktReady := true;
    }

    method ReadBlock(fault: Option<nat>) returns (data: Data)
      requires fileReader.Valid() && |fileReader.overflow| <= blockSize
      modifies fileReader`position, fileReader`atEof, fileReader`failed, fileReader`overflow, fileReader`remaining
      ensures fileReader.Valid() && |fileReader.overflow| <= blockSize
      ensures old(fileReader.failed) ==> fileReader.failed
      ensures !fileReader.failed ==>
        && data == Take(old(fileReader.remaining), blockSize)
        && fileReader.remaining == old(fileReader.remaining)[|data|..]
    {
      data := fileReader.ReadInTo(blockSize, fault);
      if !fileReader.failed {
        TakeIsPrefix(old(fileReader.remaining), data, fileReader.remaining, blockSize);
      }
    }

    static lemma TakeIsPrefix(all: Data, front: Data, back: Data, size: nat)
      requires front + back == all && |front| == Min(size, |all|)
      ensures front == Take(all, size) && back == all[|front|..]
    {
      assert all[..|front|] == front;
    }

    method SendAck(s: Send) returns (sent: Option<Data>)
      requires Valid() && state == SEND_ACK
      modifies this`error, this`state, this`finished, this`blockNumber, timer
      ensures Valid()
      ensures WriteResult(View(), sent, Nothing) == WriteAck(old(View()), s)
    {
      sent := None;
      match s {
        case SendFailed =>
          error := Internal;
          state := State.ERROR;
        case Sent =>
          sent := Some(SerialiseAck(AckPacket(blockNumber)));
          if finalAck {
            finished := true;
            return;
          }
          blockNumber := Next(blockNumber);
          state := WAIT_FOR_DATA;
          timer.ArmTimer(timeoutS);
        case Busy =>
      }
    }
  }
}
