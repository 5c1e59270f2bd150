/** A WRITE from a sender whose DATA datagrams are those of one file, in whatever order they arrive. */
module HonestWrites {
  import opened Bytes
  import opened Packets
  import opened Connection
  import opened History
  import opened ReadSide
  import opened WriteSide
  import Blocks
  import Terms

  /** The datagram is not DATA, or it is one of the file's own DATA datagrams. */
  predicate HonestBytes(d: Data, e: Data, size: nat)
    requires size >= 1
  {
    DeserialiseData(d).Some? ==> exists k :: 1 <= k <= |Blocks.Blocks(e, size)| && d == DataWire(e, size, k)
  }

  predicate Honest(ev: Event, e: Data, size: nat)
    requires size >= 1
  {
    ev.Readable? && ev.r.Datagram? ==> HonestBytes(ev.r.bytes, e, size)
  }

  predicate AllHonest(es: seq<Event>, e: Data, size: nat)
    requires size >= 1
  {
    forall i :: 0 <= i < |es| ==> Honest(es[i], e, size)
  }

  /**
   * A sender that waits for each acknowledgement, over a network that keeps the order: besides the next block
   * only the last accepted one can still arrive.
   */
  predicate InStep(h: History, ev: Event, e: Data, size: nat)
    requires size >= 1
  {
    ev.Readable? && ev.r.Datagram? && DeserialiseData(ev.r.bytes).Some? ==>
      exists k :: |h.accepted| <= k <= |h.accepted| + 1 && IsBlock(ev.r.bytes, e, size, k)
  }

  predicate IsBlock(d: Data, e: Data, size: nat, k: nat)
    requires size >= 1
  {
    1 <= k <= |Blocks.Blocks(e, size)| && d == DataWire(e, size, k)
  }

  /** Nothing failed locally. */
  predicate Healthy(ev: Event) {
    && (ev.Writable? ==> ev.s != SendFailed)
    && (ev.Readable? ==> !ev.writeFails)
  }

  predicate InOrder(start: Conn, es: seq<Event>, e: Data, limit: nat)
    requires start.blockSize >= 1
  {
    es == []
    || (var front, ev := es[..|es| - 1], es[|es| - 1];
        && InOrder(start, front, e, limit)
        && InStep(Run(start, front, limit), ev, e, start.blockSize) && Healthy(ev))
  }

  lemma InOrderSnoc(start: Conn, es: seq<Event>, ev: Event, e: Data, limit: nat)
    requires start.blockSize >= 1 && InOrder(start, es, e, limit)
    requires InStep(Run(start, es, limit), ev, e, start.blockSize) && Healthy(ev)
    ensures InOrder(start, es + [ev], e, limit)
  {
    assert (es + [ev])[..|es|] == es;
  }

  lemma ParsesOnlyData(d: Data, limit: nat)
    requires DeserialiseData(Take(d, limit)).Some?
    ensures DeserialiseData(d).Some? && limit >= 4
  {
  }

  /** What a server can parse from an honest sender: the number of some block and the front of its payload. */
  lemma HonestPacket(d: Data, e: Data, size: nat, limit: nat, p: DataPacket) returns (k: nat)
    requires size >= 1 && HonestBytes(d, e, size) && DeserialiseData(Take(d, limit)) == Some(p)
    ensures limit >= 4 && 1 <= k <= |Blocks.Blocks(e, size)|
    ensures p == DataPacket(Wire(k), Take(Blocks.Blocks(e, size)[k - 1], limit - 4))
  {
    ParsesOnlyData(d, limit);
    k :| 1 <= k <= |Blocks.Blocks(e, size)| && d == DataWire(e, size, k);
    CutDatagram(Wire(k), Blocks.Blocks(e, size)[k - 1], limit);
  }

  /** What one event adds to the accepted packets. */
  lemma TakenBy(h: History, ev: Event, limit: nat) returns (taken: Option<DataPacket>)
    ensures After(h, ev, limit).accepted == if taken.Some? then h.accepted + [taken.value] else h.accepted
    ensures taken.Some? ==> ev.Readable? && ev.r.Datagram? && DeserialiseData(Take(ev.r.bytes, limit)) == taken
    ensures taken.Some? ==> taken.value.blockNumber == h.conn.blockNumber && h.conn.state == WAIT_FOR_DATA
    ensures taken.Some? ==> Blocks.Decoded(h.conn.mode, taken.value.data).Some? && h.conn.sink.Some?
  {
    taken := None;
    if ev.Readable? {
      taken := AcceptedPacket(h.conn, ev.r, limit, ev.writeFails);
      if taken.Some? {
        AcceptedIsReceived(h.conn, ev.r, limit, ev.writeFails);
      }
    }
  }

  lemma BlocksFit(e: Data, size: nat, k: nat)
    requires size >= 1 && k < |Blocks.Blocks(e, size)|
    ensures |Blocks.Blocks(e, size)[k]| <= Min(|e|, size)
  {
    Blocks.BlocksShape(e, size, k);
  }

  /** With room for the header, the packet with the next number is the next block. */
  lemma NextHonest(d: Data, e: Data, size: nat, limit: nat, p: DataPacket, n: nat)
    requires size >= 1 && limit >= size + 4 && n < |Blocks.Blocks(e, size)| <= 65536
    requires HonestBytes(d, e, size) && DeserialiseData(Take(d, limit)) == Some(p) && p.blockNumber == Wire(n + 1)
    ensures p.data == Blocks.Blocks(e, size)[n]
  {
    var k := HonestPacket(d, e, size, limit, p);
    if k <= n + 1 {
      WireApart(k, n + 1);
    } else {
      WireApart(n + 1, k);
    }
    BlocksFit(e, size, n);
  }

  lemma {:induction false} HonestRun(start: Conn, e: Data, es: seq<Event>, limit: nat)
    requires WriteStart(start, 1) && start.blockSize >= 1 && limit >= start.blockSize + 4
    requires |Blocks.Blocks(e, start.blockSize)| <= 65536 && AllHonest(es, e, start.blockSize)
    ensures Payloads(Run(start, es, limit).accepted) <= Blocks.Blocks(e, start.blockSize)
  {
    if es != [] {
      HonestRun(start, e, es[..|es| - 1], limit);
      WriteRun(start, 1, es[..|es| - 1], limit);
      HonestStep(Run(start, es[..|es| - 1], limit), e, es[|es| - 1], limit);
    }
  }

  lemma HonestStep(h: History, e: Data, ev: Event, limit: nat)
    requires h.conn.blockSize >= 1 && limit >= h.conn.blockSize + 4 && WriteInv(h.conn, h.accepted, 1)
    requires |Blocks.Blocks(e, h.conn.blockSize)| <= 65536 && Honest(ev, e, h.conn.blockSize)
    requires Payloads(h.accepted) <= Blocks.Blocks(e, h.conn.blockSize)
    ensures Payloads(After(h, ev, limit).accepted) <= Blocks.Blocks(e, h.conn.blockSize)
  {
    if ev.Readable? {
      var taken := AcceptedPacket(h.conn, ev.r, limit, ev.writeFails);
      if taken.Some? {
        AcceptedIsReceived(h.conn, ev.r, limit, ev.writeFails);
        StillToCome(h.accepted, e, h.conn.blockSize);
        NextHonest(ev.r.bytes, e, h.conn.blockSize, limit, taken.value, |h.accepted|);
        PrefixGrows(h.accepted, taken.value, Blocks.Blocks(e, h.conn.blockSize));
      }
    }
  }

  /** Without the final block some block is still to come. */
  lemma StillToCome(ps: seq<DataPacket>, e: Data, size: nat)
    requires size >= 1 && Payloads(ps) <= Blocks.Blocks(e, size) && !Final(ps, size)
    ensures |ps| < |Blocks.Blocks(e, size)|
  {
    var bs := Blocks.Blocks(e, size);
    Blocks.BlocksShape(e, size, |bs| - 1);
    if ps != [] {
      assert Payloads(ps)[|ps| - 1] == bs[|ps| - 1];
    }
  }

  lemma PrefixGrows(ps: seq<DataPacket>, p: DataPacket, bs: seq<Data>)
    requires Payloads(ps) <= bs && |ps| < |bs| && p.data == bs[|ps|]
    ensures Payloads(ps + [p]) <= bs
  {
    PayloadsSnoc(ps, p);
  }

  /**
   * Against an honest sender of at most 65536 blocks, however its datagrams are lost, repeated, delayed
   * or reordered, a receive limit of at least S + 4 stores only leading blocks of the file in order,
   * and once the final block is in, the stored file is the sender's. One block more and this can fail
   * (see `WriteResults.WrongWriteExactly`).
   */
  lemma HonestWrite(start: Conn, file: Data, es: seq<Event>, limit: nat)
    requires WriteStart(start, 1) && start.blockSize >= 1 && limit >= start.blockSize + 4
    requires |Blocks.Blocks(Blocks.Encoded(start.mode, file), start.blockSize)| <= 65536
    requires AllHonest(es, Blocks.Encoded(start.mode, file), start.blockSize)
    ensures var h := Run(start, es, limit);
      var bs := Blocks.Blocks(Blocks.Encoded(start.mode, file), start.blockSize);
      && Payloads(h.accepted) <= bs
      && (h.conn.finalAck ==> Payloads(h.accepted) == bs)
      && (h.conn.finalAck && h.conn.sink.Some? ==> h.conn.sink.value == file)
  {
    var e := Blocks.Encoded(start.mode, file);
    var size := start.blockSize;
    HonestRun(start, e, es, limit);
    WriteRun(start, 1, es, limit);
    Terms.TermsKept(start, es, limit);
    var h := Run(start, es, limit);
    if h.conn.finalAck {
      FinalIsLast(h.accepted, e, size);
      Blocks.BlocksDecodeToFile(start.mode, file, size);
    }
  }

  /** Only the last block of a file is short. */
  lemma FinalIsLast(ps: seq<DataPacket>, e: Data, size: nat)
    requires size >= 1 && Payloads(ps) <= Blocks.Blocks(e, size) && Final(ps, size)
    ensures Payloads(ps) == Blocks.Blocks(e, size)
  {
    Blocks.BlocksShape(e, size, |ps| - 1);
    assert Payloads(ps)[|ps| - 1] == Blocks.Blocks(e, size)[|ps| - 1];
  }
}
