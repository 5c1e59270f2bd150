/**
 * A file that no honest sender could write block by block, because carriage returns end up alone in blocks, and which
 * a reordering network writes all the same: wrong blocks with the right numbers decode to it.
 */
module LuckyWrites {
  import opened Bytes
  import opened Packets
  import opened Connection
  import opened History
  import opened WriteSide
  import opened HonestWrites
  import opened StoredBlocks
  import opened WriteResults
  import Blocks
  import Netascii

  function Lines(n: nat): Data {
    seq(n, _ => LF)
  }

  /** 65536 empty lines, a letter, and as many empty lines again. */
  function File(): Data {
    Lines(65536) + [97] + Lines(65536)
  }

  /** Encoded, a line feed stands at every second place. */
  lemma {:induction false} EncodedLines(n: nat)
    ensures var e := Netascii.Encode(Lines(n));
      |e| == 2 * n && forall i :: 0 <= i < n ==> e[2 * i + 1] == LF
  {
    if n > 0 {
      var e, rest := Netascii.Encode(Lines(n)), Netascii.Encode(Lines(n - 1));
      EncodedLines(n - 1);
      assert Lines(n)[1..] == Lines(n - 1);
      assert e == [CR, LF] + rest;
      forall i | 0 <= i < n ensures e[2 * i + 1] == LF {
        if i > 0 {
          assert e[2 * i + 1] == rest[2 * (i - 1) + 1];
        }
      }
    }
  }

  /** Where the file's bytes are found in its encoding. */
  lemma EncodedFile(n: nat)
    ensures var e := Netascii.Encode(Lines(n) + [97] + Lines(n));
      && |e| == 4 * n + 1 && e[2 * n] == 97
      && (forall i :: 0 <= i < n ==> e[2 * i + 1] == LF)
      && (forall i :: 0 <= i < n ==> e[2 * n + 2 * i + 2] == LF)
  {
    var half := Netascii.Encode(Lines(n));
    EncodedLines(n);
    Netascii.EncodeConcat(Lines(n) + [97], Lines(n));
    Netascii.EncodeConcat(Lines(n), [97]);
    assert Netascii.Encode([97]) == [97] + Netascii.Encode([]);
    var e := half + [97] + half;
    assert Netascii.Encode(Lines(n) + [97] + Lines(n)) == e;
    forall i | 0 <= i < n ensures e[2 * i + 1] == LF && e[2 * n + 2 * i + 2] == LF {
      assert e[2 * i + 1] == half[2 * i + 1];
      assert e[2 * n + 1 + (2 * i + 1)] == half[2 * i + 1];
    }
  }

  /** Blocks of one byte. */
  lemma {:induction false} SingleBlocks(e: Data)
    ensures var bs := Blocks.Blocks(e, 1);
      && |bs| == |e| + 1 && bs[|e|] == []
      && forall k :: 0 <= k < |e| ==> bs[k] == [e[k]]
    decreases |e|
  {
    if e != [] {
      SingleBlocks(e[1..]);
    }
  }

  /** A place in the encoding with the i-th byte of the file and the number of the i-th block. */
  function Place(i: nat): nat {
    var t := if i < 65536 then i else i - 65536;
    if i == 65536 then 131072
    else if t % 2 == 1 then t
    else if t == 0 then 196608
    else 131072 + t
  }

  lemma SameWire(n: nat)
    ensures Wire(n + 65536) == Wire(n)
  {
  }

  lemma PlaceFits(i: nat)
    requires i <= 131072
    ensures Place(i) < 262145 && Wire(Place(i) + 1) == Wire(i + 1)
  {
    var k := Place(i) + 1;
    if k == i + 1 + 65536 {
      SameWire(i + 1);
    } else if k + 65536 == i + 1 {
      SameWire(k);
    } else if k == i + 1 + 131072 {
      SameWire(i + 1);
      SameWire(i + 1 + 65536);
    } else if k == i + 1 + 196608 {
      SameWire(i + 1);
      SameWire(i + 1 + 65536);
      SameWire(i + 1 + 131072);
    }
  }

  /** The encoding, as far as it matters. */
  predicate FileEncoding(e: Data) {
    && |e| == 262145 && e[131072] == 97
    && (forall i :: 0 <= i < 65536 ==> e[2 * i + 1] == LF)
    && (forall i :: 0 <= i < 65536 ==> e[2 * i + 131074] == LF)
  }

  lemma EncodingOfFile()
    ensures FileEncoding(Netascii.Encode(File()))
  {
    EncodedFile(65536);
    var e := Netascii.Encode(File());
    forall i | 0 <= i < 65536 ensures e[2 * i + 131074] == LF {
      assert e[2 * 65536 + 2 * i + 2] == LF;
    }
  }

  lemma PlaceHolds(e: Data, i: nat)
    requires FileEncoding(e) && i <= 131072
    ensures Place(i) < |e| && e[Place(i)] == if i == 65536 then 97 else LF
  {
    var t := if i < 65536 then i else i - 65536;
    if i != 65536 {
      if t % 2 == 1 {
        assert e[2 * (t / 2) + 1] == LF;
      } else if t == 0 {
        assert e[2 * 32767 + 131074] == LF;
      } else {
        assert e[2 * (t / 2 - 1) + 131074] == LF;
      }
    }
  }

  lemma FileAt(i: nat)
    requires i <= 131072
    ensures |File()| == 131073 && File()[i] == if i == 65536 then 97 else LF
  {
  }

  /** The first i bytes of the file are stored. */
  predicate Stored(h: History, i: nat) {
    && i <= |File()|
    && CanStore(h.conn) && h.conn.blockNumber == Wire(i) && h.conn.blockSize == 1 && h.conn.mode == NETASCII
    && Blocks.DecodedBlocks(NETASCII, Payloads(h.accepted)) == Some(File()[..i])
  }

  lemma StoredNext(h: History, g: History, i: nat)
    requires i < |File()| && Stored(h, i) && Exchanged(h, g, Wire(i + 1), [File()[i]])
    ensures Stored(g, i + 1)
  {
    var b := [File()[i]];
    PayloadsSnoc(h.accepted, DataPacket(Wire(i + 1), b));
    Blocks.DecodedBlocksSnoc(NETASCII, Payloads(h.accepted), b);
    NotCr(i);
    Netascii.DecodeWithoutCr(b);
    assert File()[..i] + b == File()[..i + 1];
  }

  lemma NotCr(i: nat)
    requires i < |File()|
    ensures File()[i] != CR
  {
  }

  /** Some datagram of the sender carries byte i under number i + 1. */
  lemma ByteOffered(e: Data, i: nat) returns (k: nat)
    requires e == Netascii.Encode(File()) && i < |File()|
    ensures 1 <= k <= |Blocks.Blocks(e, 1)| && Wire(k) == Wire(i + 1) && Blocks.Blocks(e, 1)[k - 1] == [File()[i]]
  {
    EncodingOfFile();
    FileAt(i);
    PlaceFits(i);
    PlaceHolds(e, i);
    SingleBlocks(e);
    k := Place(i) + 1;
  }

  lemma StoreByte(start: Conn, es: seq<Event>, limit: nat, e: Data, i: nat) returns (more: seq<Event>)
    requires limit >= 5 && e == Netascii.Encode(File()) && i < |File()| && AllHonest(es, e, 1)
    requires Stored(Run(start, es, limit), i)
    ensures AllHonest(more, e, 1) && Stored(Run(start, more, limit), i + 1)
  {
    var k := ByteOffered(e, i);
    HonestExchange(es, e, 1, k);
    WireNext(i);
    OneByteTaken(i, limit);
    more := RunAccepts(start, es, Wire(k), [File()[i]], limit);
    StoredNext(Run(start, es, limit), Run(start, more, limit), i);
  }

  lemma OneByteTaken(i: nat, limit: nat)
    requires i < |File()| && limit >= 5
    ensures var b := [File()[i]]; Take(b, limit - 4) == b && Blocks.Decoded(NETASCII, b).Some?
  {
    NotCr(i);
    Netascii.DecodeWithoutCr([File()[i]]);
  }

  lemma {:induction false} StoreBytes(start: Conn, limit: nat, e: Data, i: nat) returns (es: seq<Event>)
    requires WriteStart(start, 1) && start.mode == NETASCII && start.blockSize == 1 && limit >= 5
    requires e == Netascii.Encode(File()) && i <= |File()|
    ensures AllHonest(es, e, 1) && Stored(Run(start, es, limit), i)
    decreases i
  {
    if i == 0 {
      es := [];
      NothingStored(start, limit);
    } else {
      es := StoreBytes(start, limit, e, i - 1);
      es := StoreByte(start, es, limit, e, i - 1);
    }
  }

  lemma NothingStored(start: Conn, limit: nat)
    requires WriteStart(start, 1) && start.mode == NETASCII && start.blockSize == 1
    ensures Stored(Run(start, [], limit), 0)
  {
    assert Payloads([]) == [] && File()[..0] == [];
  }

  /** The sender's empty last block has the number of the empty block that is still missing. */
  lemma LastOffered(e: Data)
    requires e == Netascii.Encode(File())
    ensures var bs := Blocks.Blocks(e, 1);
      |bs| == 262146 && bs[262145] == [] && Wire(262146) == Wire(|File()| + 1)
  {
    EncodingOfFile();
    SingleBlocks(e);
    FileAt(0);
    SameWire(131074);
    SameWire(196610);
  }

  lemma StoreLast(start: Conn, es: seq<Event>, limit: nat, e: Data) returns (more: seq<Event>)
    requires limit >= 5 && e == Netascii.Encode(File())
    requires AllHonest(es, e, 1) && Stored(Run(start, es, limit), |File()|)
    ensures AllHonest(more, e, 1)
    ensures Exchanged(Run(start, es, limit), Run(start, more, limit), Wire(262146), [])
  {
    LastOffered(e);
    HonestExchange(es, e, 1, 262146);
    WireNext(|File()|);
    Netascii.DecodeWithoutCr([]);
    more := RunAccepts(start, es, Wire(262146), [], limit);
  }

  /** With the empty block behind it the file is complete. */
  lemma FileStored(h: History, g: History, number: Word)
    requires Stored(h, |File()|) && Exchanged(h, g, number, []) && WriteInv(g.conn, g.accepted, 1)
    ensures g.conn.state == SEND_ACK && g.conn.finalAck && g.conn.sink == Some(File())
  {
    PayloadsSnoc(h.accepted, DataPacket(number, []));
    Netascii.DecodeWithoutCr([]);
    Blocks.DecodedBlocksSnoc(NETASCII, Payloads(h.accepted), []);
    assert File()[..|File()|] + [] == File();
  }

  /**
   * The file's blocks do not all decode, and yet some run with an honest sender ends with it stored: above 65536 blocks
   * `WriteSucceedsExactly` cannot hold of every file.
   */
  lemma SplitFileStored(start: Conn, limit: nat) returns (es: seq<Event>)
    requires WriteStart(start, 1) && start.mode == NETASCII && start.blockSize == 1 && limit >= 5
    ensures Blocks.BoundarySplitsPair(Netascii.Encode(File()), 1)
    ensures AllHonest(es, Netascii.Encode(File()), 1) && Completed(Run(start, es, limit).conn, File())
  {
    var e := Netascii.Encode(File());
    SplitsAtOnce();
    es := StoreBytes(start, limit, e, |File()|);
    var h := Run(start, es, limit);
    es := StoreLast(start, es, limit, e);
    WriteRun(start, 1, es, limit);
    FileStored(h, Run(start, es, limit), Wire(262146));
    es := LastAck(start, e, limit, es);
  }

  lemma SplitsAtOnce()
    ensures Blocks.BoundarySplitsPair(Netascii.Encode(File()), 1)
  {
    EncodingOfFile();
    assert File()[0] == LF;
    assert Netascii.Encode(File())[0] == CR && Blocks.BlockEndsAt(0, 1);
  }
}
