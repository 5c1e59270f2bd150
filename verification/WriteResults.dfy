/** Exactly when a whole file can be written: the receive limit and the block boundaries decide. */
module WriteResults {
  import opened Bytes
  import opened Packets
  import opened Connection
  import opened History
  import opened ReadSide
  import opened WriteSide
  import opened HonestWrites
  import opened StoredBlocks
  import Blocks
  import Netascii
  import Terms

  // ------------------------------------------------------------ a clean transfer

  lemma HonestExchange(es: seq<Event>, e: Data, size: nat, k: nat)
    requires size >= 1 && AllHonest(es, e, size) && 1 <= k <= |Blocks.Blocks(e, size)|
    ensures AllHonest(es + Exchange(Wire(k), Blocks.Blocks(e, size)[k - 1]), e, size)
  {
    var d := SerialiseData(DataPacket(Wire(k), Blocks.Blocks(e, size)[k - 1]));
    assert d == DataWire(e, size, k);
    assert HonestBytes(d, e, size);
  }

  /** The first k blocks are in, and the last of them is to be acknowledged. */
  predicate Holds(h: History, e: Data, size: nat, mode: Mode, k: nat)
    requires size >= 1 && k <= |Blocks.Blocks(e, size)|
  {
    var bs := Blocks.Blocks(e, size);
    && Payloads(h.accepted) == bs[..k]
    && h.conn.blockNumber == Wire(k) && h.conn.blockSize == size && h.conn.mode == mode
    && h.conn.finalAck == (k == |bs|) && CanStore(h.conn.(finalAck := false))
  }

  lemma HoldsNext(h: History, g: History, e: Data, size: nat, mode: Mode, k: nat)
    requires size >= 1 && k < |Blocks.Blocks(e, size)| && Holds(h, e, size, mode, k)
    requires Exchanged(h, g, Wire(k + 1), Blocks.Blocks(e, size)[k])
    ensures Holds(g, e, size, mode, k + 1)
  {
    var bs := Blocks.Blocks(e, size);
    PayloadsSnoc(h.accepted, DataPacket(Wire(k + 1), bs[k]));
    Blocks.BlocksShape(e, size, k);
    assert bs[..k + 1] == bs[..k] + [bs[k]];
  }

  lemma {:induction false} CleanWrite(start: Conn, e: Data, limit: nat, k: nat) returns (es: seq<Event>)
    requires WriteStart(start, 1) && start.blockSize >= 1 && limit >= 4 + Min(|e|, start.blockSize)
    requires k <= |Blocks.Blocks(e, start.blockSize)|
    requires Blocks.DecodedBlocks(start.mode, Blocks.Blocks(e, start.blockSize)[..k]).Some?
    ensures |es| == 2 * k && AllHonest(es, e, start.blockSize) && InOrder(start, es, e, limit)
    ensures Holds(Run(start, es, limit), e, start.blockSize, start.mode, k)
  {
    if k == 0 {
      es := [];
    } else {
      Blocks.FrontDecodes(start.mode, Blocks.Blocks(e, start.blockSize), k - 1, k);
      es := CleanWrite(start, e, limit, k - 1);
      es := WriteBlock(start, e, limit, k - 1, es);
    }
  }

  lemma WriteBlock(start: Conn, e: Data, limit: nat, k: nat, es: seq<Event>) returns (more: seq<Event>)
    requires start.blockSize >= 1 && limit >= 4 + Min(|e|, start.blockSize)
    requires k < |Blocks.Blocks(e, start.blockSize)|
    requires Blocks.DecodedBlocks(start.mode, Blocks.Blocks(e, start.blockSize)[..k + 1]).Some?
    requires AllHonest(es, e, start.blockSize) && InOrder(start, es, e, limit)
    requires Holds(Run(start, es, limit), e, start.blockSize, start.mode, k)
    ensures |more| == |es| + 2 && AllHonest(more, e, start.blockSize) && InOrder(start, more, e, limit)
    ensures Holds(Run(start, more, limit), e, start.blockSize, start.mode, k + 1)
  {
    var bs := Blocks.Blocks(e, start.blockSize);
    BlocksFit(e, start.blockSize, k);
    Blocks.BlockDecodes(start.mode, bs[..k + 1], k);
    WireNext(k);
    HonestExchange(es, e, start.blockSize, k + 1);
    InOrderExchange(start, es, e, limit, k);
    more := RunAccepts(start, es, Wire(k + 1), bs[k], limit);
    HoldsNext(Run(start, es, limit), Run(start, more, limit), e, start.blockSize, start.mode, k);
  }

  lemma InStepAfterSend(h: History, e: Data, size: nat, d: Data, limit: nat)
    requires size >= 1 && IsBlock(d, e, size, |h.accepted| + 1)
    ensures InStep(After(h, Writable(Sent, false), limit), Readable(Datagram(d), false), e, size)
  {
  }

  lemma InOrderTwo(start: Conn, es: seq<Event>, e: Data, limit: nat, d: Data)
    requires start.blockSize >= 1 && InOrder(start, es, e, limit)
    requires IsBlock(d, e, start.blockSize, |Run(start, es, limit).accepted| + 1)
    ensures InOrder(start, es + [Writable(Sent, false)] + [Readable(Datagram(d), false)], e, limit)
  {
    InOrderSnoc(start, es, Writable(Sent, false), e, limit);
    RunSnoc(start, es, Writable(Sent, false), limit);
    InStepAfterSend(Run(start, es, limit), e, start.blockSize, d, limit);
    InOrderSnoc(start, es + [Writable(Sent, false)], Readable(Datagram(d), false), e, limit);
  }

  lemma InOrderExchange(start: Conn, es: seq<Event>, e: Data, limit: nat, k: nat)
    requires start.blockSize >= 1 && InOrder(start, es, e, limit)
    requires k == |Run(start, es, limit).accepted| < |Blocks.Blocks(e, start.blockSize)|
    ensures InOrder(start, es + Exchange(Wire(k + 1), Blocks.Blocks(e, start.blockSize)[k]), e, limit)
  {
    var d := DataWire(e, start.blockSize, k + 1);
    InOrderTwo(start, es, e, limit, d);
    ExchangeIs(es, Wire(k + 1), Blocks.Blocks(e, start.blockSize)[k]);
  }

  lemma ExchangeIs(es: seq<Event>, number: Word, payload: Data)
    ensures es + Exchange(number, payload)
         == es + [Writable(Sent, false)] + [Readable(Datagram(SerialiseData(DataPacket(number, payload))), false)]
  {
  }

  lemma LastAck(start: Conn, e: Data, limit: nat, es: seq<Event>) returns (more: seq<Event>)
    requires start.blockSize >= 1 && AllHonest(es, e, start.blockSize)
    requires Run(start, es, limit).conn.state == SEND_ACK && Run(start, es, limit).conn.finalAck
    ensures AllHonest(more, e, start.blockSize)
    ensures Run(start, more, limit).conn == Run(start, es, limit).conn.(finished := true)
  {
    more := es + [Writable(Sent, false)];
    RunSnoc(start, es, Writable(Sent, false), limit);
  }

  lemma WriteCompletes(start: Conn, file: Data, limit: nat) returns (es: seq<Event>)
    requires WriteStart(start, 1) && start.blockSize >= 1
    requires var e := Blocks.Encoded(start.mode, file);
      && limit >= 4 + Min(|e|, start.blockSize)
      && Blocks.DecodedBlocks(start.mode, Blocks.Blocks(e, start.blockSize)).Some?
    ensures AllHonest(es, Blocks.Encoded(start.mode, file), start.blockSize)
    ensures Completed(Run(start, es, limit).conn, file)
  {
    var e := Blocks.Encoded(start.mode, file);
    var bs := Blocks.Blocks(e, start.blockSize);
    assert bs[..|bs|] == bs;
    es := CleanWrite(start, e, limit, |bs|);
    StoredIsFile(start, file, limit, es);
    es := LastAck(start, e, limit, es);
  }

  lemma StoredIsFile(start: Conn, file: Data, limit: nat, es: seq<Event>)
    requires WriteStart(start, 1) && start.blockSize >= 1
    requires var e := Blocks.Encoded(start.mode, file);
      Holds(Run(start, es, limit), e, start.blockSize, start.mode, |Blocks.Blocks(e, start.blockSize)|)
    ensures Run(start, es, limit).conn.sink == Some(file)
  {
    var bs := Blocks.Blocks(Blocks.Encoded(start.mode, file), start.blockSize);
    WriteRun(start, 1, es, limit);
    assert bs[..|bs|] == bs;
    Blocks.BlocksDecodeToFile(start.mode, file, start.blockSize);
  }

  // -------------------------------------------------------- what a short limit does

  /** At most the first block was taken, and only its front. */
  predicate OnlyFront(ps: seq<DataPacket>, e: Data, limit: nat) {
    ps != [] ==> 4 <= limit <= |e| + 4 && ps[0].data == e[..limit - 4]
  }

  lemma FrontOfFirst(e: Data, size: nat, limit: nat)
    requires size >= 1 && 4 <= limit < 4 + Min(|e|, size)
    ensures Take(Blocks.Blocks(e, size)[0], limit - 4) == e[..limit - 4]
  {
  }

  lemma CutTaken(ps: seq<DataPacket>, e: Data, size: nat, d: Data, limit: nat, p: DataPacket)
    requires size >= 1 && limit < 4 + Min(|e|, size) && |Blocks.Blocks(e, size)| <= 65536
    requires HonestBytes(d, e, size) && DeserialiseData(Take(d, limit)) == Some(p)
    requires OnlyFront(ps, e, limit) && p.blockNumber == Wire(|ps| + 1)
    ensures OnlyFront(ps + [p], e, limit)
  {
    if ps == [] {
      assert |ps| + 1 == 1;
      var k := HonestPacket(d, e, size, limit, p);
      WireApart(1, k);
      FrontOfFirst(e, size, limit);
    }
  }

  lemma {:induction false} CutRun(start: Conn, e: Data, es: seq<Event>, limit: nat)
    requires WriteStart(start, 1) && start.blockSize >= 1 && limit < 4 + Min(|e|, start.blockSize)
    requires |Blocks.Blocks(e, start.blockSize)| <= 65536 && AllHonest(es, e, start.blockSize)
    ensures OnlyFront(Run(start, es, limit).accepted, e, limit)
  {
    if es != [] {
      CutRun(start, e, es[..|es| - 1], limit);
      WriteRun(start, 1, es[..|es| - 1], limit);
      CutStep(Run(start, es[..|es| - 1], limit), e, es[|es| - 1], limit);
    }
  }

  lemma CutStep(h: History, e: Data, ev: Event, limit: nat)
    requires h.conn.blockSize >= 1 && limit < 4 + Min(|e|, h.conn.blockSize)
    requires |Blocks.Blocks(e, h.conn.blockSize)| <= 65536 && Honest(ev, e, h.conn.blockSize)
    requires Numbered(h.conn, |h.accepted|, 1) && OnlyFront(h.accepted, e, limit)
    ensures OnlyFront(After(h, ev, limit).accepted, e, limit)
  {
    var taken := TakenBy(h, ev, limit);
    if taken.Some? {
      CutTaken(h.accepted, e, h.conn.blockSize, ev.r.bytes, limit, taken.value);
    }
  }

  /** Decoding a proper front of an encoded file never yields the file. */
  lemma FrontIsNotFile(mode: Mode, file: Data, p: nat)
    requires p < |Blocks.Encoded(mode, file)|
    ensures Blocks.Decoded(mode, Blocks.Encoded(mode, file)[..p]) != Some(file)
  {
    var e := Blocks.Encoded(mode, file);
    if mode == NETASCII {
      Netascii.RoundTrip(file);
      FrontDecodesToLess(e, p);
    }
  }

  lemma FrontDecodesToLess(e: Data, p: nat)
    requires p < |e|
    ensures Netascii.Decode(e).Some? ==> Netascii.Decode(e[..p]) != Netascii.Decode(e)
  {
    if Netascii.Decode(e[..p]).Some? && Netascii.Decode(e[p..]).Some? {
      Netascii.DecodesToSomething(e[p..]);
      assert |Netascii.Decode(e[p..]).value| > 0;
    }
    if Netascii.Decode(e[..p]).Some? {
      Netascii.DecodeConcat(e[..p], e[p..]);
      assert e == e[..p] + e[p..];
    }
  }

  /** Without room for the header no run with an honest sender ends with the file stored. */
  lemma ShortLimitNeverCompletes(start: Conn, base: nat, file: Data, es: seq<Event>, limit: nat)
    requires WriteStart(start, base) && start.blockSize >= 1
    requires var e := Blocks.Encoded(start.mode, file);
      limit < 4 + Min(|e|, start.blockSize) && AllHonest(es, e, start.blockSize)
    ensures !Completed(Run(start, es, limit).conn, file)
  {
    var e := Blocks.Encoded(start.mode, file);
    WriteRun(start, base, es, limit);
    Terms.TermsKept(start, es, limit);
    AcceptedAllFit(start, es, limit);
    SecondNeedsRoom(Run(start, es, limit).accepted, base, start.blockSize, limit);
    if |Blocks.Blocks(e, start.blockSize)| >= 3 {
      TooShort(Run(start, es, limit), base, file, limit);
    } else if base == 0 {
      FewBlocksAfterOptions(start, file, es, limit);
    } else {
      CutRun(start, e, es, limit);
      FrontNotStored(Run(start, es, limit), file, limit);
    }
  }

  /** One packet cut to less than a block does not make up three blocks. */
  lemma {:induction false} TooShort(h: History, base: nat, file: Data, limit: nat)
    requires h.conn.blockSize >= 1 && WriteInv(h.conn, h.accepted, base) && |h.accepted| <= 1
    requires limit < 4 + h.conn.blockSize && (forall p :: p in h.accepted ==> |p.data| + 4 <= limit)
    requires |Blocks.Blocks(Blocks.Encoded(h.conn.mode, file), h.conn.blockSize)| >= 3
    ensures !Completed(h.conn, file)
  {
    if h.accepted != [] && h.conn.sink.Some? {
      assert h.accepted[0] in h.accepted;
      OneShortBlock(h, base, file);
    }
  }

  lemma FrontNotStored(h: History, file: Data, limit: nat)
    requires WriteInv(h.conn, h.accepted, 1) && |h.accepted| <= 1
    requires var e := Blocks.Encoded(h.conn.mode, file); limit < 4 + |e| && OnlyFront(h.accepted, e, limit)
    ensures !Completed(h.conn, file)
  {
    var e := Blocks.Encoded(h.conn.mode, file);
    if h.accepted != [] && h.conn.sink.Some? {
      FrontIsNotFile(h.conn.mode, file, limit - 4);
      assert Payloads(h.accepted) == [e[..limit - 4]];
      OneDecoded(h.conn.mode, e[..limit - 4]);
    }
  }

  lemma OneDecoded(mode: Mode, b: Data)
    ensures Blocks.DecodedBlocks(mode, [b]) == Blocks.Decoded(mode, b)
  {
    Blocks.DecodedBlocksSnoc(mode, [], b);
    assert [] + [b] == [b];
    if Blocks.Decoded(mode, b).Some? {
      assert [] + Blocks.Decoded(mode, b).value == Blocks.Decoded(mode, b).value;
    }
  }

  // --------------------------------------------------- what acknowledged options do

  /** A WRITE that waits for block 0 finds none but, in a file of 65536 blocks, the last one. */
  predicate OnlyLast(ps: seq<DataPacket>, e: Data, size: nat)
    requires size >= 1
  {
    ps != [] ==> |Blocks.Blocks(e, size)| == 65536 && |ps[0].data| < size
  }

  lemma ZeroTaken(ps: seq<DataPacket>, e: Data, size: nat, d: Data, limit: nat, p: DataPacket)
    requires size >= 1 && |Blocks.Blocks(e, size)| <= 65536
    requires HonestBytes(d, e, size) && DeserialiseData(Take(d, limit)) == Some(p)
    requires OnlyLast(ps, e, size) && p.blockNumber == Wire(|ps|)
    ensures OnlyLast(ps + [p], e, size)
  {
    if ps == [] {
      var k := HonestPacket(d, e, size, limit, p);
      Blocks.BlocksShape(e, size, k - 1);
    }
  }

  lemma {:induction false} ZeroRun(start: Conn, e: Data, es: seq<Event>, limit: nat)
    requires WriteStart(start, 0) && start.blockSize >= 1
    requires |Blocks.Blocks(e, start.blockSize)| <= 65536 && AllHonest(es, e, start.blockSize)
    ensures OnlyLast(Run(start, es, limit).accepted, e, start.blockSize)
  {
    if es != [] {
      var h := Run(start, es[..|es| - 1], limit);
      ZeroRun(start, e, es[..|es| - 1], limit);
      WriteRun(start, 0, es[..|es| - 1], limit);
      var taken := TakenBy(h, es[|es| - 1], limit);
      if taken.Some? {
        ZeroTaken(h.accepted, e, start.blockSize, es[|es| - 1].r.bytes, limit, taken.value);
      }
    }
  }

  lemma FewBlocksAfterOptions(start: Conn, file: Data, es: seq<Event>, limit: nat)
    requires WriteStart(start, 0) && start.blockSize >= 1
    requires var e := Blocks.Encoded(start.mode, file);
      |Blocks.Blocks(e, start.blockSize)| <= 65536 && AllHonest(es, e, start.blockSize)
    ensures !Completed(Run(start, es, limit).conn, file)
  {
    ZeroRun(start, Blocks.Encoded(start.mode, file), es, limit);
    WriteRun(start, 0, es, limit);
    Terms.TermsKept(start, es, limit);
    LastNotStored(Run(start, es, limit), file);
  }

  lemma LastNotStored(h: History, file: Data)
    requires h.conn.blockSize >= 1 && WriteInv(h.conn, h.accepted, 0)
    requires OnlyLast(h.accepted, Blocks.Encoded(h.conn.mode, file), h.conn.blockSize)
    ensures !Completed(h.conn, file)
  {
    if h.accepted != [] && h.conn.sink.Some? {
      assert |h.accepted| == 1;
      OneShortBlock(h, 0, file);
    }
  }

  /** A single short packet stores less than a file of three blocks. */
  lemma OneShortBlock(h: History, base: nat, file: Data)
    requires h.conn.blockSize >= 1 && WriteInv(h.conn, h.accepted, base) && h.conn.sink.Some?
    requires |h.accepted| == 1 && |h.accepted[0].data| < h.conn.blockSize
    requires |Blocks.Blocks(Blocks.Encoded(h.conn.mode, file), h.conn.blockSize)| >= 3
    ensures h.conn.sink.value != file
  {
    var b := h.accepted[0].data;
    assert Payloads(h.accepted) == [b];
    OneDecoded(h.conn.mode, b);
    Blocks.DecodedNoLonger(h.conn.mode, b);
    TwoFullBlocks(Blocks.Encoded(h.conn.mode, file), h.conn.blockSize);
    Blocks.EncodedNoShorter(h.conn.mode, file);
  }

  lemma TwoFullBlocks(e: Data, size: nat)
    requires size >= 1 && |Blocks.Blocks(e, size)| >= 3
    ensures |e| >= 2 * size
  {
  }

  // ------------------------------------------------------------------- the condition

  /** Splitting boundaries exist only in files of more than one block. */
  lemma SplitNeedsTwoBlocks(e: Data, size: nat)
    requires size >= 1 && Blocks.BoundarySplitsPair(e, size)
    ensures |e| >= size
  {
    var i :| 0 <= i < |e| - 1 && e[i] == CR && Blocks.BlockEndsAt(i, size);
  }

  /**
   * All the blocks of the file decode, or there are not too many of them. Otherwise wrong blocks with the
   * right numbers can happen to decode to the file (see `LuckyWrites.SplitFileStored`).
   */
  predicate NoLuck(base: nat, mode: Mode, file: Data, size: nat)
    requires size >= 1
  {
    var e := Blocks.Encoded(mode, file);
    mode == OCTET || !Blocks.BoundarySplitsPair(e, size) || |Blocks.Blocks(e, size)| < (65535 + base) * (size + 1)
  }

  /** No run ends with the file stored once options were acknowledged. */
  lemma OptionsNeverComplete(start: Conn, file: Data, es: seq<Event>, limit: nat)
    requires WriteStart(start, 0) && start.blockSize >= 1
    requires AllHonest(es, Blocks.Encoded(start.mode, file), start.blockSize)
    requires NoLuck(0, start.mode, file, start.blockSize)
    ensures !Completed(Run(start, es, limit).conn, file)
  {
    var e := Blocks.Encoded(start.mode, file);
    if limit < 4 + Min(|e|, start.blockSize) {
      ShortLimitNeverCompletes(start, 0, file, es, limit);
    } else if |e| < start.blockSize {
      ShortFile(e, start.blockSize);
      FewBlocksAfterOptions(start, file, es, limit);
    } else {
      RoomAfterOptions(start, file, es, limit);
    }
  }

  lemma RoomAfterOptions(start: Conn, file: Data, es: seq<Event>, limit: nat)
    requires WriteStart(start, 0) && start.blockSize >= 1 && limit >= start.blockSize + 4
    requires AllHonest(es, Blocks.Encoded(start.mode, file), start.blockSize)
    requires NoLuck(0, start.mode, file, start.blockSize)
    ensures !Completed(Run(start, es, limit).conn, file)
  {
    BlocksOnly(start, Blocks.Encoded(start.mode, file), es, limit);
    WriteRun(start, 0, es, limit);
    Terms.TermsKept(start, es, limit);
    NothingAddsUp(Run(start, es, limit), file);
  }

  lemma NothingAddsUp(h: History, file: Data)
    requires h.conn.blockSize >= 1 && WriteInv(h.conn, h.accepted, 0)
    requires FromFile(h.accepted, Blocks.Blocks(Blocks.Encoded(h.conn.mode, file), h.conn.blockSize))
    requires NoLuck(0, h.conn.mode, file, h.conn.blockSize)
    ensures !Completed(h.conn, file)
  {
    if h.conn.mode == OCTET || !Blocks.BoundarySplitsPair(Netascii.Encode(file), h.conn.blockSize) {
      NumberOffByOne(h, file);
    } else {
      CountedOut(h, 0, file);
    }
  }

  lemma SplitNeverCompletes(start: Conn, file: Data, es: seq<Event>, limit: nat)
    requires WriteStart(start, 1) && start.blockSize >= 1 && limit >= start.blockSize + 4
    requires NoLuck(1, start.mode, file, start.blockSize)
    requires var e := Blocks.Encoded(start.mode, file);
      AllHonest(es, e, start.blockSize) && start.mode == NETASCII && Blocks.BoundarySplitsPair(e, start.blockSize)
    ensures !Completed(Run(start, es, limit).conn, file)
  {
    BlocksOnly(start, Netascii.Encode(file), es, limit);
    WriteRun(start, 1, es, limit);
    Terms.TermsKept(start, es, limit);
    DecodableExactly(start.mode, file, start.blockSize);
    CountedOut(Run(start, es, limit), 1, file);
  }

  /**
   * A WRITE can end with the sender's file stored if and only if no option was acknowledged, the receive limit
   * leaves room for the header in front of the longest block, and no block boundary splits a carriage
   * return pair.
   */
  lemma WriteSucceedsExactly(start: Conn, base: nat, file: Data, limit: nat)
    requires WriteStart(start, base) && start.blockSize >= 1
    requires NoLuck(base, start.mode, file, start.blockSize)
    ensures var e := Blocks.Encoded(start.mode, file);
      (exists es :: AllHonest(es, e, start.blockSize) && Completed(Run(start, es, limit).conn, file))
      <==> base == 1 && limit >= 4 + Min(|e|, start.blockSize)
           && (start.mode == OCTET || !Blocks.BoundarySplitsPair(e, start.blockSize))
  {
    var e := Blocks.Encoded(start.mode, file);
    DecodableExactly(start.mode, file, start.blockSize);
    if base == 1 && limit >= 4 + Min(|e|, start.blockSize)
       && Blocks.DecodedBlocks(start.mode, Blocks.Blocks(e, start.blockSize)).Some? {
      var es := WriteCompletes(start, file, limit);
    } else {
      forall es | AllHonest(es, e, start.blockSize) ensures !Completed(Run(start, es, limit).conn, file) {
        WriteFails(start, base, file, es, limit);
      }
    }
  }

  lemma WriteFails(start: Conn, base: nat, file: Data, es: seq<Event>, limit: nat)
    requires WriteStart(start, base) && start.blockSize >= 1 && NoLuck(base, start.mode, file, start.blockSize)
    requires var e := Blocks.Encoded(start.mode, file);
      && AllHonest(es, e, start.blockSize)
      && (base == 0 || limit < 4 + Min(|e|, start.blockSize)
          || Blocks.DecodedBlocks(start.mode, Blocks.Blocks(e, start.blockSize)).None?)
    ensures !Completed(Run(start, es, limit).conn, file)
  {
    var e := Blocks.Encoded(start.mode, file);
    if limit < 4 + Min(|e|, start.blockSize) {
      ShortLimitNeverCompletes(start, base, file, es, limit);
    } else if base == 0 {
      OptionsNeverComplete(start, file, es, limit);
    } else {
      DecodableExactly(start.mode, file, start.blockSize);
      SplitNeedsTwoBlocks(e, start.blockSize);
      SplitNeverCompletes(start, file, es, limit);
    }
  }

  /** With the limit of the code that leaves files at least four bytes shorter than a block, and no others. */
  lemma CodedWriteSucceedsExactly(start: Conn, base: nat, file: Data)
    requires WriteStart(start, base) && start.blockSize >= 1
    ensures var e := Blocks.Encoded(start.mode, file);
      (exists es :: AllHonest(es, e, start.blockSize) && Completed(Run(start, es, start.blockSize).conn, file))
      <==> base == 1 && |e| + 4 <= start.blockSize
  {
    var e := Blocks.Encoded(start.mode, file);
    if |e| < start.blockSize {
      ShortFile(e, start.blockSize);
      WriteSucceedsExactly(start, base, file, start.blockSize);
    } else {
      forall es | AllHonest(es, e, start.blockSize) ensures !Completed(Run(start, es, start.blockSize).conn, file) {
        ShortLimitNeverCompletes(start, base, file, es, start.blockSize);
      }
    }
  }

  lemma ShortFile(e: Data, size: nat)
    requires size >= 1 && |e| < size
    ensures |Blocks.Blocks(e, size)| == 1 && !Blocks.BoundarySplitsPair(e, size)
  {
    if Blocks.BoundarySplitsPair(e, size) {
      SplitNeedsTwoBlocks(e, size);
    }
  }

  // ------------------------------------------------------------------- the wrap

  /**
   * Block k can be stored in place of block p: the numbers agree, what fits the receive limit of block k decodes
   * and is not block p, and everything before block p can be stored.
   */
  predicate Confused(mode: Mode, bs: seq<Data>, size: nat, limit: nat, p: nat, k: nat) {
    && 1 <= p <= |bs| && 1 <= k <= |bs| && Wire(k) == Wire(p)
    && limit >= 4 && (p == 1 || limit >= size + 4)
    && Take(bs[k - 1], limit - 4) != bs[p - 1] && Blocks.Decoded(mode, Take(bs[k - 1], limit - 4)).Some?
    && Blocks.DecodedBlocks(mode, bs[..p - 1]).Some?
  }

  ghost predicate Confusable(mode: Mode, bs: seq<Data>, size: nat, limit: nat) {
    exists p: nat, k: nat :: Confused(mode, bs, size, limit, p, k)
  }

  predicate StoresWrong(start: Conn, e: Data, es: seq<Event>, limit: nat)
    requires start.blockSize >= 1
  {
    AllHonest(es, e, start.blockSize)
    && !(Payloads(Run(start, es, limit).accepted) <= Blocks.Blocks(e, start.blockSize))
  }

  /**
   * An honest sender whose datagrams get lost, repeated and reordered can make a plain WRITE store something else than
   * the next block, under any receive limit, if and only if two blocks can be confused.
   */
  lemma WrongWriteExactly(start: Conn, e: Data, limit: nat)
    requires WriteStart(start, 1) && start.blockSize >= 1
    ensures (exists es :: StoresWrong(start, e, es, limit))
       <==> Confusable(start.mode, Blocks.Blocks(e, start.blockSize), start.blockSize, limit)
  {
    if Confusable(start.mode, Blocks.Blocks(e, start.blockSize), start.blockSize, limit) {
      var p: nat, k: nat :| Confused(start.mode, Blocks.Blocks(e, start.blockSize), start.blockSize, limit, p, k);
      var es := ConfusedRun(start, e, limit, p, k);
    } else {
      forall es ensures !StoresWrong(start, e, es, limit) {
        if AllHonest(es, e, start.blockSize) {
          UnconfusedRun(start, e, es, limit);
        }
      }
    }
  }

  /** With room for the header and blocks that decode, that is exactly when the wire numbers repeat. */
  lemma ConfusedExactly(mode: Mode, e: Data, size: nat, limit: nat)
    requires size >= 1 && limit >= size + 4
    requires var bs := Blocks.Blocks(e, size); Blocks.DecodedBlocks(mode, bs[..|bs| - 1]).Some?
    ensures Confusable(mode, Blocks.Blocks(e, size), size, limit) <==> |Blocks.Blocks(e, size)| > 65536
  {
    var bs := Blocks.Blocks(e, size);
    if |bs| > 65536 {
      var n := |bs|;
      Blocks.BlocksShape(e, size, n - 1);
      Blocks.BlocksShape(e, size, n - 65537);
      Blocks.BlockDecodes(mode, bs[..n - 1], n - 65537);
      assert Confused(mode, bs, size, limit, n, n - 65536);
    } else {
      forall p: nat, k: nat ensures !Confused(mode, bs, size, limit, p, k) {
        if Confused(mode, bs, size, limit, p, k) {
          if p <= k { WireApart(p, k); } else { WireApart(k, p); }
          BlocksFit(e, size, k - 1);
        }
      }
    }
  }

  lemma ConfusedRun(start: Conn, e: Data, limit: nat, p: nat, k: nat) returns (es: seq<Event>)
    requires WriteStart(start, 1) && start.blockSize >= 1
    requires Confused(start.mode, Blocks.Blocks(e, start.blockSize), start.blockSize, limit, p, k)
    ensures StoresWrong(start, e, es, limit)
  {
    var bs := Blocks.Blocks(e, start.blockSize);
    es := [];
    if p > 1 {
      es := CleanWrite(start, e, limit, p - 1);
    }
    var h := Run(start, es, limit);
    assert Holds(h, e, start.blockSize, start.mode, p - 1);
    WireNext(p - 1);
    HonestExchange(es, e, start.blockSize, k);
    es := RunAccepts(start, es, Wire(k), bs[k - 1], limit);
    var cut := Take(bs[k - 1], limit - 4);
    PayloadsSnoc(h.accepted, DataPacket(Wire(k), cut));
    assert Payloads(Run(start, es, limit).accepted)[p - 1] == cut;
  }

  lemma {:induction false} UnconfusedRun(start: Conn, e: Data, es: seq<Event>, limit: nat)
    requires WriteStart(start, 1) && start.blockSize >= 1 && AllHonest(es, e, start.blockSize)
    requires !Confusable(start.mode, Blocks.Blocks(e, start.blockSize), start.blockSize, limit)
    ensures Payloads(Run(start, es, limit).accepted) <= Blocks.Blocks(e, start.blockSize)
  {
    if es != [] {
      var h := Run(start, es[..|es| - 1], limit);
      UnconfusedRun(start, e, es[..|es| - 1], limit);
      WriteRun(start, 1, es[..|es| - 1], limit);
      WriteRun(start, 1, es, limit);
      Terms.TermsKept(start, es[..|es| - 1], limit);
      AcceptedAllFit(start, es, limit);
      SecondNeedsRoom(Run(start, es, limit).accepted, 1, start.blockSize, limit);
      var taken := TakenBy(h, es[|es| - 1], limit);
      if taken.Some? {
        UnconfusedTaken(h, e, es[|es| - 1], limit, taken.value);
      }
    }
  }

  lemma {:induction false} UnconfusedTaken(h: History, e: Data, ev: Event, limit: nat, packet: DataPacket)
    requires h.conn.blockSize >= 1 && WriteInv(h.conn, h.accepted, 1) && h.conn.state == WAIT_FOR_DATA
    requires ev.Readable? && ev.r.Datagram? && Honest(ev, e, h.conn.blockSize)
    requires DeserialiseData(Take(ev.r.bytes, limit)) == Some(packet) && packet.blockNumber == h.conn.blockNumber
    requires Blocks.Decoded(h.conn.mode, packet.data).Some? && h.conn.sink.Some?
    requires |h.accepted| == 0 || limit >= h.conn.blockSize + 4
    requires Payloads(h.accepted) <= Blocks.Blocks(e, h.conn.blockSize)
    requires !Confusable(h.conn.mode, Blocks.Blocks(e, h.conn.blockSize), h.conn.blockSize, limit)
    ensures Payloads(h.accepted + [packet]) <= Blocks.Blocks(e, h.conn.blockSize)
  {
    var bs := Blocks.Blocks(e, h.conn.blockSize);
    var n := |h.accepted|;
    StillToCome(h.accepted, e, h.conn.blockSize);
    var k := HonestPacket(ev.r.bytes, e, h.conn.blockSize, limit, packet);
    assert Payloads(h.accepted) == bs[..n];
    assert !Confused(h.conn.mode, bs, h.conn.blockSize, limit, n + 1, k);
    PrefixGrows(h.accepted, packet, bs);
  }
}
