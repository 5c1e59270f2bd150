/** The packet formats of src/common/tftp.cpp. */
module Packets {
  import opened Bytes
  import opened CStrings

  datatype PacketType = READ | WRITE | DATA | ACK | ERROR | OACK

  datatype Mode = NETASCII | OCTET

  datatype Opt = Opt(name: Data, value: Data)

  datatype RwPacket = RwPacket(kind: PacketType, filename: Data, mode: Mode, options: seq<Opt>)

  datatype DataPacket = DataPacket(blockNumber: Word, data: Data)

  datatype AckPacket = AckPacket(blockNumber: Word)

  datatype ErrorPacket = ErrorPacket(code: Word, message: Data)

  datatype OackPacket = OackPacket(options: seq<Opt>)

  const DATA_PKT_MAX_SIZE := 516
  const DATA_PKT_DATA_MAX_SIZE := 512
  const ACK_PKT_MAX_SIZE := 4

  const NOT_DEFINED: Word := 0
  const ACCESS_ERROR: Word := 2
  const ILLEGAL_OPERATION: Word := 4
  const NO_USER: Word := 7

  function Opcode(kind: PacketType): Byte {
    match kind
    case READ => 1
    case WRITE => 2
    case DATA => 3
    case ACK => 4
    case ERROR => 5
    case OACK => 6
  }

  /** `w >> 8`, by repeated subtraction. */
  function High(w: Word): (b: Byte)
    ensures 256 * b as int <= w
  {
    if w < 256 then 0 else High(w - 256) + 1
  }

  /** `w & 0xFF`, likewise. */
  function Low(w: Word): Byte {
    if w < 256 then w as Byte else Low(w - 256)
  }

  /** `(high << 8) | low` for two unsigned bytes. */
  function Join16(high: Byte, low: Byte): (w: Word)
    ensures w <= 256 * high as int + 255
  {
    if high == 0 then low as int else Join16(high - 1, low) + 256
  }

  lemma {:induction false} Join16Is(high: Byte, low: Byte)
    ensures Join16(high, low) == 256 * high as int + low as int
  {
    if high > 0 {
      Join16Is(high - 1, low);
    }
  }

  /** A word and the two bytes it is sent in determine each other. */
  lemma {:induction false} WordOfBytes(w: Word)
    ensures Join16(High(w), Low(w)) == w
  {
    if w >= 256 {
      WordOfBytes(w - 256);
    }
  }

  lemma {:induction false} BytesOfWord(high: Byte, low: Byte)
    ensures High(Join16(high, low)) == high && Low(Join16(high, low)) == low
  {
    if high > 0 {
      BytesOfWord(high - 1, low);
    }
  }

  /** A signed `char` converted to `uint16_t`. */
  function SignExtend(b: Byte): Word { if b < 128 then b as int else b as int + 65280 }

  /** "OCTET" */
  function OctetName(): Data { [79, 67, 84, 69, 84] }

  /** "NETASCII" */
  function NetasciiName(): Data { [78, 69, 84, 65, 83, 67, 73, 73] }

  function ModeToString(mode: Mode): Data {
    match mode
    case OCTET => OctetName()
    case NETASCII => NetasciiName()
  }

  function StringToMode(s: Data): Option<Mode> {
    var u := CStr(Upper(s));
    if u == OctetName() then Some(OCTET)
    else if u == NetasciiName() then Some(NETASCII)
    else None
  }

  // ------------------------------------------------------------------ serialisers

  function SerialiseRw(p: RwPacket): Data {
    [0, Opcode(p.kind)] + p.filename + [NUL] + ModeToString(p.mode) + [NUL]
  }

  function SerialiseData(p: DataPacket): (d: Data)
    ensures |d| == 4 + |p.data|
  {
    [0, Opcode(DATA), High(p.blockNumber), Low(p.blockNumber)] + p.data
  }

  function SerialiseAck(p: AckPacket): (d: Data)
    ensures |d| == ACK_PKT_MAX_SIZE
  {
    [0, Opcode(ACK), High(p.blockNumber), Low(p.blockNumber)]
  }

  function SerialiseError(p: ErrorPacket): Data {
    [0, Opcode(ERROR), High(p.code), Low(p.code)] + p.message + [NUL]
  }

  function Flatten(options: seq<Opt>): (ss: seq<Data>)
    ensures |ss| == 2 * |options|
  {
    if options == [] then [] else [options[0].name, options[0].value] + Flatten(options[1..])
  }

  function SerialiseOack(p: OackPacket): Data {
    [0, Opcode(OACK)] + Join(Flatten(p.options))
  }

  /** The first i options are written and the others are still to come. */
  predicate Written(options: seq<Opt>, i: nat, ret: Data) {
    i <= |options| && SerialiseOack(OackPacket(options)) == ret + Join(Flatten(options[i..]))
  }

  lemma FlattenStep(options: seq<Opt>, i: nat)
    requires i < |options|
    ensures Join(Flatten(options[i..]))
         == (options[i].name + [NUL] + options[i].value + [NUL]) + Join(Flatten(options[i + 1..]))
  {
    assert options[i..][1..] == options[i + 1..];
    JoinTwo(options[i].name, options[i].value, Flatten(options[i + 1..]));
  }

  lemma WrittenNext(options: seq<Opt>, i: nat, ret: Data)
    requires i < |options| && Written(options, i, ret)
    ensures Written(options, i + 1, ret + options[i].name + [NUL] + options[i].value + [NUL])
  {
    FlattenStep(options, i);
    var o := options[i];
    Assoc(ret, o.name + [NUL] + o.value + [NUL], Join(Flatten(options[i + 1..])));
    assert ret + (o.name + [NUL] + o.value + [NUL]) == ret + o.name + [NUL] + o.value + [NUL];
  }

  method SerialiseOackPacket(packet: OackPacket) returns (ret: Data)
    ensures ret == SerialiseOack(packet)
  {
    ret := [];
    ret := ret + [0];
    ret := ret + [Opcode(OACK)];
    assert packet.options[0..] == packet.options;
    for i := 0 to |packet.options|
      invariant Written(packet.options, i, ret)
    {
      var param := packet.options[i];
      WrittenNext(packet.options, i, ret);
      ret := ret + param.name;
      ret := ret + [NUL];
      ret := ret + param.value;
      ret := ret + [NUL];
    }
    assert ret + Join(Flatten(packet.options[|packet.options|..])) == ret;
  }

  // ---------------------------------------------------------------- deserialisers

  /** Consecutive strings taken two at a time. */
  function Pairs(ss: seq<Data>): (options: seq<Opt>)
    ensures |options| == |ss| / 2
  {
    if |ss| < 2 then [] else [Opt(ss[0], ss[1])] + Pairs(ss[2..])
  }

  function UpperOpt(o: Opt): Opt {
    Opt(Upper(o.name), Upper(o.value))
  }

  function UpperOpts(os: seq<Opt>): (us: seq<Opt>)
    ensures |us| == |os|
  {
    seq(|os|, i requires 0 <= i < |os| => UpperOpt(os[i]))
  }

  /** A request from its strings: file name, mode, then option names and values in turn. */
  function FromParams(kind: PacketType, params: seq<Data>): Option<RwPacket> {
    if |params| < 2 then None
    else
      var mode := StringToMode(params[1]);
      if mode.None? then None
      else if |params| % 2 != 0 then Some(RwPacket(kind, params[0], mode.value, []))
      else Some(RwPacket(kind, params[0], mode.value, UpperOpts(Pairs(params[2..]))))
  }

  function DeserialiseRw(d: Data): Option<RwPacket> {
    if |d| < 4 || (d[1] != Opcode(READ) && d[1] != Opcode(WRITE)) then None
    else FromParams(if d[1] == Opcode(READ) then READ else WRITE, Extract(d[2..]))
  }

  method DeserialiseRwPacket(d: Data) returns (result: Option<RwPacket>)
    ensures result == DeserialiseRw(d)
  {
    if |d| < 4 || (d[1] != Opcode(READ) && d[1] != Opcode(WRITE)) {
      return None;
    }
    var kind := if d[1] == Opcode(READ) then READ else WRITE;
    var params := ExtractCStringsFromBuffer(d, 2);
    if |params| < 2 {
      return None;
    }
    var mode := StringToMode(params[1]);
    if mode.None? {
      return None;
    }
    if |params| % 2 != 0 {
      return Some(RwPacket(kind, params[0], mode.value, []));
    }
    var options := CollectOptions(params);
    return Some(RwPacket(kind, params[0], mode.value, options));
  }

  /** The pairs before position i are collected and the others are still to come. */
  predicate PairedTo(params: seq<Data>, i: nat, options: seq<Opt>, all: seq<Opt>) {
    i <= |params| && all == options + Pairs(params[i..])
  }

  lemma PairedNext(params: seq<Data>, i: nat, options: seq<Opt>, all: seq<Opt>)
    requires PairedTo(params, i, options, all) && i + 2 <= |params|
    ensures PairedTo(params, i + 2, options + [Opt(params[i], params[i + 1])], all)
  {
    assert params[i..][2..] == params[i + 2..];
    Assoc(options, [Opt(params[i], params[i + 1])], Pairs(params[i + 2..]));
  }

  lemma PairedStart(params: seq<Data>, i: nat)
    requires i <= |params|
    ensures PairedTo(params, i, [], Pairs(params[i..]))
  {
    assert [] + Pairs(params[i..]) == Pairs(params[i..]);
  }

  lemma PairedDone(params: seq<Data>, options: seq<Opt>, all: seq<Opt>)
    requires PairedTo(params, |params|, options, all)
    ensures options == all
  {
    assert options + [] == options;
  }

  /** The options collected so far and those from position i on. */
  function UpperOnto(params: seq<Data>, i: nat, options: seq<Opt>): seq<Opt>
    decreases |params| - i
  {
    if i + 2 > |params| then options
    else UpperOnto(params, i + 2, options + [UpperOpt(Opt(params[i], params[i + 1]))])
  }

  lemma {:induction false} UpperOntoIs(params: seq<Data>, i: nat, options: seq<Opt>)
    requires i <= |params|
    ensures UpperOnto(params, i, options) == options + UpperOpts(Pairs(params[i..]))
    decreases |params| - i
  {
    if i + 2 > |params| {
      assert options + [] == options;
    } else {
      var o := Opt(params[i], params[i + 1]);
      UpperOntoIs(params, i + 2, options + [UpperOpt(o)]);
      PairsFrom(params, i);
      UpperFirst(o, Pairs(params[i + 2..]));
      Assoc(options, [UpperOpt(o)], UpperOpts(Pairs(params[i + 2..])));
    }
  }

  lemma PairsFrom(params: seq<Data>, i: nat)
    requires i + 2 <= |params|
    ensures Pairs(params[i..]) == [Opt(params[i], params[i + 1])] + Pairs(params[i + 2..])
  {
    assert params[i..][2..] == params[i + 2..];
  }

  lemma UpperFirst(o: Opt, options: seq<Opt>)
    ensures UpperOpts([o] + options) == [UpperOpt(o)] + UpperOpts(options)
  {
  }

  method CollectOptions(params: seq<Data>) returns (options: seq<Opt>)
    requires |params| >= 2 && |params| % 2 == 0
    ensures options == UpperOpts(Pairs(params[2..]))
  {
    options := [];
    var i := 2;
    ghost var left := |params| / 2 - 1;
    while i < |params|
      invariant |params| == i + 2 * left
      invariant UpperOnto(params, i, options) == UpperOnto(params, 2, [])
    {
      options := options + [Opt(Upper(params[i]), Upper(params[i + 1]))];
      i := i + 2;
      left := left - 1;
    }
    UpperOntoIs(params, 2, []);
    assert [] + UpperOpts(Pairs(params[2..])) == UpperOpts(Pairs(params[2..]));
  }

  function DeserialiseData(d: Data): Option<DataPacket> {
    if |d| < 4 || d[1] != Opcode(DATA) then None
    else Some(DataPacket(Join16(d[2], d[3]), d[4..]))
  }

  function DeserialiseAck(d: Data): Option<AckPacket> {
    if |d| < 4 || d[1] != Opcode(ACK) then None
    else Some(AckPacket(Join16(d[2], d[3])))
  }

  /** Opcode, code and a terminated message are there. */
  predicate IsErrorPacket(d: Data) {
    |d| >= 5 && d[1] == Opcode(ERROR) && FirstNul(d[4..]) < |d[4..]|
  }

  /** Unlike the other parsers this one ORs signed characters together. */
  function ErrorCode(high: Byte, low: Byte): Word {
    Wire(BitOr(256 * SignExtend(high), SignExtend(low)))
  }

  function DeserialiseError(d: Data): Option<ErrorPacket> {
    if !IsErrorPacket(d) then None
    else Some(ErrorPacket(ErrorCode(d[2], d[3]), d[4..][..FirstNul(d[4..])]))
  }

  function DeserialiseOack(d: Data): Option<OackPacket> {
    if |d| < 2 || d[1] != Opcode(OACK) then None
    else
      var params := Extract(d[2..]);
      if |params| % 2 != 0 then Some(OackPacket([]))
      else Some(OackPacket(Pairs(params)))
  }

  method DeserialiseOackPacket(d: Data) returns (result: Option<OackPacket>)
    ensures result == DeserialiseOack(d)
  {
    if |d| < 2 || d[1] != Opcode(OACK) {
      return None;
    }
    var options: seq<Opt> := [];
    var params := ExtractCStringsFromBuffer(d, 2);
    if |params| % 2 != 0 {
      return Some(OackPacket(options));
    }
    var i := 0;
    PairedStart(params, 0);
    assert params[0..] == params;
    while i < |params|
      invariant 0 <= i <= |params| && i % 2 == 0
      invariant PairedTo(params, i, options, Pairs(params))
    {
      PairedNext(params, i, options, Pairs(params));
      options := options + [Opt(params[i], params[i + 1])];
      i := i + 2;
    }
    PairedDone(params, options, Pairs(params));
    return Some(OackPacket(options));
  }

  // ----------------------------------------------------------------- round trips

  /** Every block number and payload survives the wire. */
  lemma DataRoundTrip(p: DataPacket)
    ensures DeserialiseData(SerialiseData(p)) == Some(p)
  {
    WordOfBytes(p.blockNumber);
    assert SerialiseData(p)[4..] == p.data;
  }

  /** Nothing but that datagram parses to the packet, up to the first byte, which no parser looks at. */
  lemma DataParseUnique(p: DataPacket, d: Data)
    ensures DeserialiseData(d) == Some(p) ==> d[1..] == SerialiseData(p)[1..]
  {
    if DeserialiseData(d) == Some(p) {
      BytesOfWord(d[2], d[3]);
      assert d[1..] == [d[1], d[2], d[3]] + d[4..];
    }
  }

  /** Every acknowledged number survives the wire. */
  lemma AckRoundTrip(p: AckPacket)
    ensures DeserialiseAck(SerialiseAck(p)) == Some(p)
  {
    WordOfBytes(p.blockNumber);
  }

  /** An acknowledgement is read from its first four bytes alone. */
  lemma AckParseUnique(p: AckPacket, d: Data)
    ensures DeserialiseAck(d) == Some(p) ==> d[1..4] == SerialiseAck(p)[1..]
  {
    if DeserialiseAck(d) == Some(p) {
      BytesOfWord(d[2], d[3]);
      assert d[1..4] == [d[1], d[2], d[3]];
    }
  }

  /** The number the error parser reads back from the two bytes of a code. */
  lemma ErrorCodeRead(high: Byte, low: Byte)
    ensures ErrorCode(high, low) == if low < 128 then Join16(high, low) else Join16(255, low)
  {
    var h: nat := SignExtend(high);
    var l: nat := low as int;
    Join16Is(high, low);
    Join16Is(255, low);
    if low < 128 {
      BitOrBelow(h, 0, l);
      WireAdds(if high < 128 then 0 else 255, Join16(high, low));
    } else {
      BitOrBelow(h, 255, l);
      var x := BitOrOnes(h);
      WireAdds(x, Join16(255, low));
    }
  }

  /** ERROR packets round-trip exactly when the low code byte is not sign-extended over the high one. */
  lemma ErrorRoundTrip(p: ErrorPacket)
    ensures DeserialiseError(SerialiseError(p)) == Some(p)
       <==> NulFree(p.message) && (Low(p.code) < 128 || High(p.code) == 255)
  {
    var d := SerialiseError(p);
    var body := d[4..];
    ErrorCodeRead(High(p.code), Low(p.code));
    WordOfBytes(p.code);
    if High(p.code) != 255 {
      BytesOfWord(255, Low(p.code));
    }
    assert body[|p.message|] == NUL;
    var end := FirstNul(body);
    if NulFree(p.message) {
      FirstNulIs(body, |p.message|);
      assert body[..end] == p.message;
    }
  }

  /** In particular every code of section 5 of RFC 1350 survives. */
  lemma StandardErrorsRoundTrip(p: ErrorPacket)
    requires NulFree(p.message)
    ensures p.code <= NO_USER ==> DeserialiseError(SerialiseError(p)) == Some(p)
  {
    ErrorRoundTrip(p);
  }

  lemma {:induction false} PairsOfFlatten(options: seq<Opt>)
    ensures Pairs(Flatten(options)) == options
  {
    if options != [] {
      assert Flatten(options)[2..] == Flatten(options[1..]);
      PairsOfFlatten(options[1..]);
      assert [options[0]] + options[1..] == options;
    }
  }

  predicate OptsNulFree(options: seq<Opt>) {
    forall o :: o in options ==> NulFree(o.name) && NulFree(o.value)
  }

  lemma {:induction false} FlattenNulFree(options: seq<Opt>)
    ensures OptsNulFree(options) <==> AllNulFree(Flatten(options))
  {
    if options != [] {
      FlattenNulFree(options[1..]);
      var ss := Flatten(options);
      assert ss[0] == options[0].name && ss[1] == options[0].value && ss[2..] == Flatten(options[1..]);
      assert forall s :: s in ss <==> s == ss[0] || s == ss[1] || s in ss[2..];
      assert forall o :: o in options <==> o == options[0] || o in options[1..];
    }
  }

  /** OACK packets round-trip exactly when no name or value contains a NUL. */
  lemma OackRoundTrip(p: OackPacket)
    ensures DeserialiseOack(SerialiseOack(p)) == Some(p) <==> OptsNulFree(p.options)
  {
    var ss := Flatten(p.options);
    assert SerialiseOack(p)[2..] == Join(ss);
    FlattenNulFree(p.options);
    JoinRoundTrip(ss);
    PairsOfFlatten(p.options);
    JoinCount(ss);
    ExtractCount(Join(ss));
  }

  // ------------------------------------------------------------------- letter case

  /** The same byte, or the same letter in upper and lower case. */
  predicate SameLetter(x: Byte, y: Byte) {
    x == y || (65 <= x <= 90 && y == x + 32) || (65 <= y <= 90 && x == y + 32)
  }

  predicate SameText(a: Data, b: Data) {
    |a| == |b| && forall i :: 0 <= i < |a| ==> SameLetter(a[i], b[i])
  }

  lemma UpperOfSame(a: Data, b: Data)
    requires SameText(a, b)
    ensures Upper(a) == Upper(b)
  {
  }

  /** Mode strings that differ only in the case of letters mean the same. */
  lemma ModeIgnoresCase(a: Data, b: Data)
    requires SameText(a, b)
    ensures StringToMode(a) == StringToMode(b)
  {
    UpperOfSame(a, b);
  }

  /** The letters of a string in either case. */
  predicate SpellsIgnoringCase(d: Data, s: string) {
    |d| == |s| && forall i :: 0 <= i < |s| ==> s[i] as int < 256 && SameLetter(d[i], s[i] as int as Byte)
  }

  lemma UpperNuls(s: Data)
    ensures FirstNul(Upper(s)) == FirstNul(s)
  {
    FirstNulIs(Upper(s), FirstNul(s));
  }

  lemma UpperSpells(d: Data, name: Data, s: string)
    requires Spells(name, s) && forall i :: 0 <= i < |s| ==> 65 <= s[i] as int <= 90
    ensures Upper(d) == name <==> SpellsIgnoringCase(d, s)
  {
    if Upper(d) == name {
      forall i | 0 <= i < |s| ensures SameLetter(d[i], s[i] as int as Byte) {
        assert Upper(d)[i] == name[i];
      }
    }
  }

  lemma CStrUpper(s: Data)
    ensures CStr(Upper(s)) == Upper(s[..FirstNul(s)])
  {
    UpperNuls(s);
  }

  /**
   * A mode string counts up to its first NUL; it means a mode exactly when it spells that mode's name in
   * letters of either case, and anything else is refused.
   */
  lemma ModeExactly(s: Data)
    ensures StringToMode(s) == Some(OCTET) <==> SpellsIgnoringCase(s[..FirstNul(s)], "OCTET")
    ensures StringToMode(s) == Some(NETASCII) <==> SpellsIgnoringCase(s[..FirstNul(s)], "NETASCII")
  {
    CStrUpper(s);
    ModeByName(s);
    OctetSpelled(s[..FirstNul(s)]);
    NetasciiSpelled(s[..FirstNul(s)]);
  }

  lemma OctetSpelled(d: Data)
    ensures Upper(d) == OctetName() <==> SpellsIgnoringCase(d, "OCTET")
  {
    UpperSpells(d, OctetName(), "OCTET");
  }

  lemma NetasciiSpelled(d: Data)
    ensures Upper(d) == NetasciiName() <==> SpellsIgnoringCase(d, "NETASCII")
  {
    UpperSpells(d, NetasciiName(), "NETASCII");
  }

  lemma ModeByName(s: Data)
    ensures StringToMode(s) == Some(OCTET) <==> CStr(Upper(s)) == OctetName()
    ensures StringToMode(s) == Some(NETASCII) <==> CStr(Upper(s)) == NetasciiName()
  {
    assert |OctetName()| != |NetasciiName()|;
  }

  /** A letter arrives as a capital and every other byte as it was sent. */
  predicate Capital(sent: Byte, got: Byte) {
    if 97 <= sent <= 122 || 65 <= sent <= 90 then 65 <= got <= 90 && (got == sent || got + 32 == sent)
    else got == sent
  }

  predicate Capitals(sent: Data, got: Data) {
    |sent| == |got| && forall i :: 0 <= i < |sent| ==> Capital(sent[i], got[i])
  }

  /** Every option of a request is read, in order, with its letters turned into capitals and nothing else changed. */
  lemma OptionsReceived(kind: PacketType, filename: Data, mode: Mode, options: seq<Opt>) returns (got: seq<Opt>)
    requires kind == READ || kind == WRITE
    requires NulFree(filename) && OptsNulFree(options)
    ensures DeserialiseRw(SerialiseRw(RwPacket(kind, filename, mode, [])) + Join(Flatten(options)))
         == Some(RwPacket(kind, filename, mode, got))
    ensures |got| == |options|
    ensures forall i :: 0 <= i < |got| ==>
      Capitals(options[i].name, got[i].name) && Capitals(options[i].value, got[i].value)
  {
    RequestParsed(kind, filename, mode, options);
    got := UpperOpts(options);
  }

  lemma TwoStrings(a: Data, b: Data, rest: Data)
    requires NulFree(a) && NulFree(b)
    ensures Extract(a + [NUL] + (b + [NUL] + rest)) == [a, b] + Extract(rest)
  {
    HeadThen(a, b + [NUL] + rest, [b] + Extract(rest)) by {
      ExtractHead(b, rest);
    }
    Assoc([a], [b], Extract(rest));
    assert [a] + [b] == [a, b];
  }

  lemma HeadThen(a: Data, more: Data, strings: seq<Data>)
    requires NulFree(a) && Extract(more) == strings
    ensures Extract(a + [NUL] + more) == [a] + strings
  {
    ExtractHead(a, more);
  }

  /** With its file name and mode terminated, a request is refused exactly when the mode means nothing. */
  lemma RequestRefused(kind: PacketType, filename: Data, mode: Data, rest: Data)
    requires kind == READ || kind == WRITE
    requires NulFree(filename) && NulFree(mode)
    ensures DeserialiseRw([0, Opcode(kind)] + (filename + [NUL] + (mode + [NUL] + rest))).Some?
       <==> SpellsIgnoringCase(mode, "OCTET") || SpellsIgnoringCase(mode, "NETASCII")
  {
    var body := filename + [NUL] + (mode + [NUL] + rest);
    TwoStrings(filename, mode, rest);
    BodyDecides(kind, body);
    FirstNulIs(mode, |mode|);
    assert mode[..|mode|] == mode;
    ModeExactly(mode);
  }

  lemma BodyDecides(kind: PacketType, body: Data)
    requires (kind == READ || kind == WRITE) && |body| >= 2 && |Extract(body)| >= 2
    ensures DeserialiseRw([0, Opcode(kind)] + body).Some? <==> StringToMode(Extract(body)[1]).Some?
  {
    assert ([0, Opcode(kind)] + body)[2..] == body;
  }

  /** Fewer strings than that are no request, and neither is another opcode. */
  lemma NoRequest(first: Byte, opcode: Byte, body: Data)
    requires |Extract(body)| < 2 || (opcode != 1 && opcode != 2)
    ensures DeserialiseRw([first, opcode] + body) == None
  {
    assert ([first, opcode] + body)[2..] == body;
  }

  // --------------------------------------------------------------- the bytes on the wire

  /** The five packet formats of section 5 of RFC 1350, and that of RFC 2347, byte by byte. */
  lemma WireFormats(filename: Data, mode: Mode, number: Word, payload: Data, message: Data)
    ensures SerialiseRw(RwPacket(READ, filename, mode, [])) == [0, 1] + filename + [0] + ModeToString(mode) + [0]
    ensures SerialiseRw(RwPacket(WRITE, filename, mode, [])) == [0, 2] + filename + [0] + ModeToString(mode) + [0]
    ensures Spells(ModeToString(mode), if mode == OCTET then "OCTET" else "NETASCII")
    ensures SerialiseData(DataPacket(number, payload)) == [0, 3] + TwoBytes(number) + payload
    ensures SerialiseAck(AckPacket(number)) == [0, 4] + TwoBytes(number)
    ensures SerialiseError(ErrorPacket(number, message)) == [0, 5] + TwoBytes(number) + message + [0]
    ensures SerialiseOack(OackPacket([])) == [0, 6]
  {
    WordOfBytes(number);
    Join16Is(High(number), Low(number));
    BigEndian(number, High(number), Low(number));
  }

  /** A number in network byte order. */
  function TwoBytes(w: Word): Data {
    [(w / 256) as Byte, (w % 256) as Byte]
  }

  lemma BigEndian(w: Word, high: Byte, low: Byte)
    requires w == 256 * high as int + low as int
    ensures TwoBytes(w) == [high, low]
  {
  }

  // --------------------------------------------------- which datagrams parse, and to what

  lemma WordRead(w: Word, high: Byte, low: Byte)
    ensures Join16(high, low) == w <==> [high, low] == TwoBytes(w)
  {
    Join16Is(high, low);
    if Join16(high, low) == w {
      BigEndian(w, high, low);
    } else {
      assert w == 256 * (w / 256) + w % 256;
    }
  }

  lemma Middle(d: Data)
    requires |d| >= 4
    ensures d[2..4] == [d[2], d[3]]
  {
  }

  /** DATA is opcode 3 and a number, whatever the first byte; all the rest is payload. */
  lemma DataReadExactly(d: Data, p: DataPacket)
    ensures DeserialiseData(d) == Some(p)
       <==> |d| >= 4 && d[1] == 3 && d[2..4] == TwoBytes(p.blockNumber) && d[4..] == p.data
  {
    if |d| >= 4 {
      WordRead(p.blockNumber, d[2], d[3]);
      Middle(d);
    }
  }

  /** An acknowledgement is opcode 4 and a number, whatever the first byte and whatever follows. */
  lemma AckReadExactly(d: Data, p: AckPacket)
    ensures DeserialiseAck(d) == Some(p) <==> |d| >= 4 && d[1] == 4 && d[2..4] == TwoBytes(p.blockNumber)
  {
    if |d| >= 4 {
      WordRead(p.blockNumber, d[2], d[3]);
      Middle(d);
    }
  }

  /** ERROR is opcode 5, a code and a text up to the first NUL, whatever follows; a text without one is refused. */
  lemma ErrorReadExactly(d: Data)
    ensures DeserialiseError(d).Some? <==> |d| >= 5 && d[1] == 5 && !NulFree(d[4..])
    ensures DeserialiseError(d).Some? ==>
      var p := DeserialiseError(d).value;
      && p.code == (if d[3] < 128 then 256 * d[2] as int else 256 * 255) + d[3] as int
      && NulFree(p.message) && p.message + [0] <= d[4..]
  {
    if |d| >= 5 && d[1] == 5 {
      ErrorCodeRead(d[2], d[3]);
      Join16Is(d[2], d[3]);
      Join16Is(255, d[3]);
      var k := FirstNul(d[4..]);
      if k < |d[4..]| {
        assert d[4..][k] == 0 && d[4..][..k] + [0] == d[4..][..k + 1];
      }
    }
  }

  /** The list of names and values, and the same with a name left over. */
  function Listed(options: seq<Opt>, odd: Option<Data>): seq<Data> {
    Flatten(options) + if odd.Some? then [odd.value] else []
  }

  predicate ListedNulFree(options: seq<Opt>, odd: Option<Data>) {
    OptsNulFree(options) && (odd.Some? ==> NulFree(odd.value))
  }

  lemma ListedSplits(options: seq<Opt>, odd: Option<Data>, tail: Data)
    requires ListedNulFree(options, odd) && NulFree(tail)
    ensures Extract(Join(Listed(options, odd)) + tail) == Listed(options, odd)
    ensures odd.None? ==> Listed(options, odd) == Flatten(options)
  {
    FlattenNulFree(options);
    assert AllNulFree(Listed(options, odd));
    ExtractOfJoin(Listed(options, odd), tail);
  }

  lemma OddLength(n: nat)
    ensures (2 * n) % 2 == 0 && (2 * n + 1) % 2 == 1
  {
  }

  /**
   * An option acknowledgement is opcode 6 and its names and values in turn, whatever the first byte; an unterminated
   * rest is dropped, and with a name left over all options are.
   */
  lemma OackRead(first: Byte, options: seq<Opt>, odd: Option<Data>, tail: Data)
    requires ListedNulFree(options, odd) && NulFree(tail)
    ensures DeserialiseOack([first, 6] + (Join(Listed(options, odd)) + tail))
         == Some(OackPacket(if odd.Some? then [] else options))
  {
    ListedSplits(options, odd, tail);
    ListedPairs(options, odd);
    OackOf(first, Join(Listed(options, odd)) + tail, Listed(options, odd));
  }

  lemma OackOf(first: Byte, body: Data, params: seq<Data>)
    requires Extract(body) == params
    ensures DeserialiseOack([first, 6] + body) == Some(OackPacket(if |params| % 2 != 0 then [] else Pairs(params)))
  {
    assert ([first, 6] + body)[2..] == body;
  }

  lemma ListedPairs(options: seq<Opt>, odd: Option<Data>)
    ensures |Listed(options, odd)| % 2 == if odd.Some? then 1 else 0
    ensures odd.None? ==> Pairs(Listed(options, odd)) == options
  {
    OddLength(|options|);
    if odd.None? {
      assert Listed(options, odd) == Flatten(options);
      PairsOfFlatten(options);
    }
  }

  /**
   * A request, whatever its first byte: an unterminated rest is dropped, and with a name left over all options
   * are; otherwise they arrive in order and in capitals.
   */
  lemma RequestRead(first: Byte, kind: PacketType, filename: Data, text: Data, mode: Mode,
                    options: seq<Opt>, odd: Option<Data>, tail: Data)
    requires kind == READ || kind == WRITE
    requires NulFree(filename) && NulFree(text) && StringToMode(text) == Some(mode)
    requires ListedNulFree(options, odd) && NulFree(tail)
    ensures var body := filename + [0] + (text + [0] + (Join(Listed(options, odd)) + tail));
      DeserialiseRw([first, if kind == READ then 1 else 2] + body)
      == Some(RwPacket(kind, filename, mode, if odd.Some? then [] else UpperOpts(options)))
  {
    var rest := Join(Listed(options, odd)) + tail;
    var body := filename + [0] + (text + [0] + rest);
    TwoStrings(filename, text, rest);
    ListedSplits(options, odd, tail);
    RequestOf(first, kind, body, [filename, text] + Listed(options, odd));
    if odd.None? {
      ParamsRead(kind, filename, text, mode, options);
    } else {
      OddParams(kind, filename, text, mode, options, odd.value);
    }
  }

  lemma OddParams(kind: PacketType, filename: Data, text: Data, mode: Mode, options: seq<Opt>, odd: Data)
    requires StringToMode(text) == Some(mode)
    ensures FromParams(kind, [filename, text] + Listed(options, Some(odd))) == Some(RwPacket(kind, filename, mode, []))
  {
    var params := [filename, text] + Listed(options, Some(odd));
    assert |params| == 2 * (|options| + 1) + 1;
    OddLength(|options| + 1);
    assert params[0] == filename && params[1] == text;
  }

  lemma RequestOf(first: Byte, kind: PacketType, body: Data, params: seq<Data>)
    requires (kind == READ || kind == WRITE) && |body| >= 2 && Extract(body) == params
    ensures DeserialiseRw([first, if kind == READ then 1 else 2] + body) == FromParams(kind, params)
  {
    assert ([first, if kind == READ then 1 else 2] + body)[2..] == body;
  }

  lemma ModeRoundTrip(mode: Mode)
    ensures NulFree(ModeToString(mode)) && StringToMode(ModeToString(mode)) == Some(mode)
  {
    var s := ModeToString(mode);
    assert Upper(s) == s;
    CStrOfNulFree(s);
  }

  /**
   * What the server reads from a request: for NUL-free fields the file name and mode come back
   * and every option arrives in order with its name and value in upper case.
   */
  lemma RequestParsed(kind: PacketType, filename: Data, mode: Mode, options: seq<Opt>)
    requires kind == READ || kind == WRITE
    requires NulFree(filename) && OptsNulFree(options)
    ensures DeserialiseRw(SerialiseRw(RwPacket(kind, filename, mode, [])) + Join(Flatten(options)))
         == Some(RwPacket(kind, filename, mode, UpperOpts(options)))
  {
    RequestBody(kind, filename, mode, options);
    ModeRoundTrip(mode);
    var d := SerialiseRw(RwPacket(kind, filename, mode, [])) + Join(Flatten(options));
    RequestFields(d, kind, filename, ModeToString(mode), mode, options);
  }

  lemma RequestFields(d: Data, kind: PacketType, filename: Data, modeStr: Data, mode: Mode, options: seq<Opt>)
    requires NulFree(filename) && NulFree(modeStr) && OptsNulFree(options)
    requires kind == READ || kind == WRITE
    requires StringToMode(modeStr) == Some(mode)
    requires |d| >= 4 && d[1] == Opcode(kind) && d[2..] == Join([filename, modeStr] + Flatten(options))
    ensures DeserialiseRw(d) == Some(RwPacket(kind, filename, mode, UpperOpts(options)))
  {
    RequestSplits(filename, modeStr, options);
    ParamsRead(kind, filename, modeStr, mode, options);
  }

  lemma RequestSplits(filename: Data, modeStr: Data, options: seq<Opt>)
    requires NulFree(filename) && NulFree(modeStr) && OptsNulFree(options)
    ensures var params := [filename, modeStr] + Flatten(options); Extract(Join(params)) == params
  {
    FlattenNulFree(options);
    JoinRoundTrip([filename, modeStr] + Flatten(options));
  }

  lemma ParamsRead(kind: PacketType, filename: Data, modeStr: Data, mode: Mode, options: seq<Opt>)
    requires StringToMode(modeStr) == Some(mode)
    ensures FromParams(kind, [filename, modeStr] + Flatten(options))
         == Some(RwPacket(kind, filename, mode, UpperOpts(options)))
  {
    var params := [filename, modeStr] + Flatten(options);
    PairsOfFlatten(options);
    assert params[2..] == Flatten(options);
    EvenLength(|options|);
    ParamsOf(params, kind, mode);
  }

  lemma EvenLength(n: nat)
    ensures (2 + 2 * n) % 2 == 0
  {
  }

  lemma ParamsOf(params: seq<Data>, kind: PacketType, mode: Mode)
    requires |params| >= 2 && |params| % 2 == 0 && StringToMode(params[1]) == Some(mode)
    ensures FromParams(kind, params) == Some(RwPacket(kind, params[0], mode, UpperOpts(Pairs(params[2..]))))
  {
  }

  lemma RequestBody(kind: PacketType, filename: Data, mode: Mode, options: seq<Opt>)
    ensures var d := SerialiseRw(RwPacket(kind, filename, mode, [])) + Join(Flatten(options));
      |d| >= 4 && d[1] == Opcode(kind) && d[2..] == Join([filename, ModeToString(mode)] + Flatten(options))
  {
    JoinTwo(filename, ModeToString(mode), Flatten(options));
  }

  lemma JoinTwo(a: Data, b: Data, rest: seq<Data>)
    ensures Join([a, b] + rest) == a + [NUL] + b + [NUL] + Join(rest)
  {
    var ss := [a, b] + rest;
    assert ss[1..] == [b] + rest && ss[1..][1..] == rest;
    assert Join(ss) == a + [NUL] + (b + [NUL] + Join(rest));
  }

  /** Requests as the client sends them round-trip exactly when the file name has no NUL. */
  lemma RwRoundTrip(p: RwPacket)
    ensures DeserialiseRw(SerialiseRw(p)) == Some(p)
       <==> (p.kind == READ || p.kind == WRITE) && p.options == [] && NulFree(p.filename)
  {
    var d := SerialiseRw(p);
    if (p.kind == READ || p.kind == WRITE) && NulFree(p.filename) {
      RequestParsed(p.kind, p.filename, p.mode, []);
      assert d == SerialiseRw(RwPacket(p.kind, p.filename, p.mode, [])) + Join(Flatten([]));
    }
  }
}
