/** What a WRITE can store of the blocks of one file, and what that can decode to. */
module StoredBlocks {
  import opened Bytes
  import opened Packets
  import opened Connection
  import opened History
  import opened WriteSide
  import opened HonestWrites
  import Blocks
  import Netascii

  /** The connection acknowledged a final block and ended with this file written. */
  predicate Completed(c: Conn, file: Data) {
    c.finished && c.finalAck && c.sink == Some(file)
  }

  /** Every packet is a block of the file. */
  predicate FromFile(ps: seq<DataPacket>, bs: seq<Data>) {
    forall i :: 0 <= i < |ps| ==> IsPacketOf(ps[i], bs)
  }

  predicate IsPacketOf(p: DataPacket, bs: seq<Data>) {
    exists k :: 1 <= k <= |bs| && p == DataPacket(Wire(k), bs[k - 1])
  }

  lemma HonestIsBlock(d: Data, e: Data, size: nat, limit: nat, p: DataPacket)
    requires size >= 1 && HonestBytes(d, e, size) && DeserialiseData(Take(d, limit)) == Some(p)
    requires limit >= size + 4
    ensures IsPacketOf(p, Blocks.Blocks(e, size))
  {
    var k := HonestPacket(d, e, size, limit, p);
    BlocksFit(e, size, k - 1);
    assert p == DataPacket(Wire(k), Blocks.Blocks(e, size)[k - 1]);
  }

  lemma {:induction false} BlocksOnly(start: Conn, e: Data, es: seq<Event>, limit: nat)
    requires start.blockSize >= 1 && limit >= start.blockSize + 4 && AllHonest(es, e, start.blockSize)
    ensures FromFile(Run(start, es, limit).accepted, Blocks.Blocks(e, start.blockSize))
  {
    if es != [] {
      var h := Run(start, es[..|es| - 1], limit);
      BlocksOnly(start, e, es[..|es| - 1], limit);
      assert Honest(es[|es| - 1], e, start.blockSize);
      var taken := TakenBy(h, es[|es| - 1], limit);
      if taken.Some? {
        HonestIsBlock(es[|es| - 1].r.bytes, e, start.blockSize, limit, taken.value);
      }
    }
  }

  /** Consecutive blocks of a file, the last of them short, have the shape of a whole file. */
  lemma ShapedLikeBlocks(ps: seq<DataPacket>, base: nat, e: Data, size: nat)
    requires size >= 1 && FromFile(ps, Blocks.Blocks(e, size)) && Consecutive(ps, base, size) && Final(ps, size)
    ensures Blocks.Blocks(Concat(Payloads(ps)), size) == Payloads(ps)
  {
    forall i | 0 <= i < |ps| - 1 ensures |Payloads(ps)[i]| == size {
      PacketFits(ps[i], e, size);
    }
    Blocks.BlocksUnique(Payloads(ps), size);
  }

  lemma PacketFits(p: DataPacket, e: Data, size: nat)
    requires size >= 1 && IsPacketOf(p, Blocks.Blocks(e, size))
    ensures |p.data| <= size
  {
    var k :| 1 <= k <= |Blocks.Blocks(e, size)| && p == DataPacket(Wire(k), Blocks.Blocks(e, size)[k - 1]);
    Blocks.BlocksShape(e, size, k - 1);
  }

  /** If its blocks are whole, nothing but its own bytes decodes to a file. */
  lemma StoredBytes(mode: Mode, file: Data, size: nat, ps: seq<DataPacket>)
    requires size >= 1 && FromFile(ps, Blocks.Blocks(Blocks.Encoded(mode, file), size))
    requires mode == OCTET || !Blocks.BoundarySplitsPair(Blocks.Encoded(mode, file), size)
    requires Blocks.DecodedBlocks(mode, Payloads(ps)) == Some(file)
    ensures Concat(Payloads(ps)) == Blocks.Encoded(mode, file)
  {
    if mode == OCTET {
      Blocks.OctetBlocksDecode(Payloads(ps));
    } else {
      forall i | 0 <= i < |ps| ensures Blocks.Reencodes(Payloads(ps)[i]) {
        PacketReencodes(file, size, ps[i]);
      }
      Blocks.ReencodesTogether(Payloads(ps));
    }
  }

  lemma PacketReencodes(file: Data, size: nat, p: DataPacket)
    requires size >= 1 && IsPacketOf(p, Blocks.Blocks(Netascii.Encode(file), size))
    requires !Blocks.BoundarySplitsPair(Netascii.Encode(file), size)
    ensures Blocks.Reencodes(p.data)
  {
    var bs := Blocks.Blocks(Netascii.Encode(file), size);
    var k :| 1 <= k <= |bs| && p == DataPacket(Wire(k), bs[k - 1]);
    Blocks.WholeBlocksReencode(file, size, k - 1);
  }

  /** After acknowledged options the last block has the wrong number for the number of blocks before it. */
  lemma NumberOffByOne(h: History, file: Data)
    requires h.conn.blockSize >= 1 && WriteInv(h.conn, h.accepted, 0)
    requires var e := Blocks.Encoded(h.conn.mode, file);
      && FromFile(h.accepted, Blocks.Blocks(e, h.conn.blockSize))
      && (h.conn.mode == OCTET || !Blocks.BoundarySplitsPair(e, h.conn.blockSize))
    ensures !Completed(h.conn, file)
  {
    if Completed(h.conn, file) {
      StoredBytes(h.conn.mode, file, h.conn.blockSize, h.accepted);
      WholeFileNumbers(h.accepted, Blocks.Encoded(h.conn.mode, file), h.conn.blockSize);
    }
  }

  /** All the blocks of a file cannot have numbers that start at 0. */
  lemma WholeFileNumbers(ps: seq<DataPacket>, e: Data, size: nat)
    requires size >= 1 && FromFile(ps, Blocks.Blocks(e, size)) && Final(ps, size) && Concat(Payloads(ps)) == e
    ensures !Consecutive(ps, 0, size)
  {
    if Consecutive(ps, 0, size) {
      ShapedLikeBlocks(ps, 0, e, size);
      LastIsLast(ps, e, size);
      WireNext(|ps| - 1);
    }
  }

  lemma DecodableExactly(mode: Mode, file: Data, size: nat)
    requires size >= 1
    ensures var e := Blocks.Encoded(mode, file);
      Blocks.DecodedBlocks(mode, Blocks.Blocks(e, size)).Some?
      <==> mode == OCTET || !Blocks.BoundarySplitsPair(e, size)
  {
    if mode == OCTET {
      Blocks.OctetBlocksDecode(Blocks.Blocks(file, size));
    } else {
      Blocks.NetasciiBlocksDecode(file, size);
    }
  }

  // ------------------------------------------------------- when wrong blocks can add up

  /** What the counts of blocks and of bare line feeds come to when the numbers agree; d blocks are left out. */
  lemma CountsAgree(stored: nat, d: nat, size: nat, bare: nat, base: nat)
    requires size >= 1 && stored >= 1 && base <= 1
    requires Blocks.Full(d, size) == bare <= stored && Wire(stored - 1 + base) == Wire(stored + d)
    ensures (d == 0 && bare == 0 && base == 1) || stored + d >= (65535 + base) * (size + 1)
  {
    if d == 0 {
      WireNext(stored - 1);
    } else {
      if d + 1 < base + 65536 {
        WireApart(stored - 1 + base, stored + d);
      }
      Blocks.FullIs(d, size);
      MoreBlocks(d, 65535 + base, size);
    }
  }

  lemma MoreBlocks(d: nat, least: nat, size: nat)
    requires d >= least
    ensures d * size + d >= least * (size + 1)
  {
    assert d * size + d == d * (size + 1);
    assert (d - least) * (size + 1) >= 0;
    assert d * (size + 1) == least * (size + 1) + (d - least) * (size + 1);
  }

  /** The last packet is the last block. */
  lemma LastIsLast(ps: seq<DataPacket>, e: Data, size: nat)
    requires size >= 1 && FromFile(ps, Blocks.Blocks(e, size)) && Final(ps, size)
    ensures var bs := Blocks.Blocks(e, size);
      ps[|ps| - 1] == DataPacket(Wire(|bs|), bs[|bs| - 1])
  {
    var bs := Blocks.Blocks(e, size);
    assert IsPacketOf(ps[|ps| - 1], bs);
    var k :| 1 <= k <= |bs| && ps[|ps| - 1] == DataPacket(Wire(k), bs[k - 1]);
    Blocks.BlocksShape(e, size, k - 1);
  }

  lemma FewBareLfs(file: Data, size: nat, ps: seq<DataPacket>)
    requires size >= 1 && FromFile(ps, Blocks.Blocks(Netascii.Encode(file), size))
    requires Blocks.DecodedBlocks(NETASCII, Payloads(ps)).Some?
    ensures Netascii.BareLfs(Concat(Payloads(ps))) <= |ps|
  {
    forall i | 0 <= i < |ps| ensures Blocks.AtMostOne(Payloads(ps)[i]) {
      Blocks.BlockDecodes(NETASCII, Payloads(ps), i);
      PacketHasOne(file, size, ps[i]);
    }
    Blocks.AtMostOneEach(Payloads(ps));
  }

  lemma PacketHasOne(file: Data, size: nat, p: DataPacket)
    requires size >= 1 && IsPacketOf(p, Blocks.Blocks(Netascii.Encode(file), size))
    ensures Netascii.Decode(p.data).Some? ==> Netascii.BareLfs(p.data) <= 1
  {
    var bs := Blocks.Blocks(Netascii.Encode(file), size);
    var k :| 1 <= k <= |bs| && p == DataPacket(Wire(k), bs[k - 1]);
    Blocks.BlockHasOne(file, size, k - 1);
  }

  /**
   * Blocks that decode to the file are the file's blocks, in order, or the file has so many that bare line feeds at
   * the starts of blocks can make up for left-out ones.
   */
  lemma SameCount(ps: seq<DataPacket>, base: nat, file: Data, size: nat)
    requires size >= 1 && base <= 1 && Consecutive(ps, base, size) && Final(ps, size)
    requires FromFile(ps, Blocks.Blocks(Netascii.Encode(file), size))
    requires Blocks.DecodedBlocks(NETASCII, Payloads(ps)) == Some(file)
    ensures var bs := Blocks.Blocks(Netascii.Encode(file), size);
      (base == 1 && Payloads(ps) == bs) || |bs| >= (65535 + base) * (size + 1)
  {
    var e, bare := Netascii.Encode(file), Netascii.BareLfs(Concat(Payloads(ps)));
    LastIsLast(ps, e, size);
    FewBareLfs(file, size, ps);
    var d := BlocksCounted(ps, base, file, size);
    CountsAgree(|ps|, d, size, bare, base);
    if bare == 0 {
      NothingBare(ps, base, file, size);
    }
  }

  lemma StoredDecodes(ps: seq<DataPacket>, file: Data)
    requires Blocks.DecodedBlocks(NETASCII, Payloads(ps)) == Some(file)
    ensures var stored := Concat(Payloads(ps));
      && |Netascii.Encode(file)| == |stored| + Netascii.BareLfs(stored)
      && (Netascii.BareLfs(stored) == 0 ==> Netascii.Encode(file) == stored)
  {
    Blocks.DecodedBlocksAgree(NETASCII, Payloads(ps));
    Netascii.EncodeAfterDecodeLength(Concat(Payloads(ps)));
  }

  lemma NothingBare(ps: seq<DataPacket>, base: nat, file: Data, size: nat)
    requires size >= 1 && Consecutive(ps, base, size) && Final(ps, size)
    requires FromFile(ps, Blocks.Blocks(Netascii.Encode(file), size))
    requires Blocks.DecodedBlocks(NETASCII, Payloads(ps)) == Some(file)
    requires Netascii.BareLfs(Concat(Payloads(ps))) == 0
    ensures Payloads(ps) == Blocks.Blocks(Netascii.Encode(file), size)
  {
    StoredDecodes(ps, file);
    ShapedLikeBlocks(ps, base, Netascii.Encode(file), size);
  }

  lemma BlocksCounted(ps: seq<DataPacket>, base: nat, file: Data, size: nat) returns (d: nat)
    requires size >= 1 && Consecutive(ps, base, size) && Final(ps, size)
    requires FromFile(ps, Blocks.Blocks(Netascii.Encode(file), size))
    requires Blocks.DecodedBlocks(NETASCII, Payloads(ps)) == Some(file)
    ensures |Blocks.Blocks(Netascii.Encode(file), size)| == |ps| + d
    ensures Blocks.Full(d, size) == Netascii.BareLfs(Concat(Payloads(ps)))
  {
    var e := Netascii.Encode(file);
    ShapedLikeBlocks(ps, base, e, size);
    LastSizes(ps, e, size);
    StoredDecodes(ps, file);
    d := CountFromLengths(e, Concat(Payloads(ps)), Payloads(ps), size);
  }

  lemma LastSizes(ps: seq<DataPacket>, e: Data, size: nat)
    requires size >= 1 && FromFile(ps, Blocks.Blocks(e, size)) && Final(ps, size)
    ensures LastOf(Payloads(ps)) == LastOf(Blocks.Blocks(e, size))
  {
    LastIsLast(ps, e, size);
  }

  function LastOf(ds: seq<Data>): Data
    requires ds != []
  {
    ds[|ds| - 1]
  }

  lemma CountFromLengths(e: Data, stored: Data, ds: seq<Data>, size: nat) returns (d: nat)
    requires size >= 1 && ds != [] && Blocks.Blocks(stored, size) == ds && |e| >= |stored|
    requires LastOf(ds) == LastOf(Blocks.Blocks(e, size))
    ensures |Blocks.Blocks(e, size)| == |ds| + d && Blocks.Full(d, size) == |e| - |stored|
  {
    LengthOf(e, size, Blocks.Blocks(e, size));
    LengthOf(stored, size, ds);
    d := CountedBlocks(|Blocks.Blocks(e, size)|, |ds|, |LastOf(ds)|, size, |e|, |stored|);
  }

  lemma LengthOf(e: Data, size: nat, bs: seq<Data>)
    requires size >= 1 && bs == Blocks.Blocks(e, size)
    ensures |e| == Blocks.Full(|bs| - 1, size) + |LastOf(bs)|
  {
    Blocks.LengthFromBlocks(e, size);
  }

  lemma CountedBlocks(n: nat, m: nat, last: nat, size: nat, total: nat, stored: nat) returns (d: nat)
    requires size >= 1 && n >= 1 && m >= 1 && total >= stored
    requires total == Blocks.Full(n - 1, size) + last && stored == Blocks.Full(m - 1, size) + last
    ensures n == m + d && Blocks.Full(d, size) == total - stored
  {
    if n < m {
      Blocks.FullAdds(n - 1, m - n, size);
    }
    d := n - m;
    Blocks.FullAdds(m - 1, d, size);
  }

  /** After acknowledged options, or with a block that does not decode, no file of fewer blocks is ever stored. */
  lemma CountedOut(h: History, base: nat, file: Data)
    requires h.conn.blockSize >= 1 && base <= 1 && WriteInv(h.conn, h.accepted, base) && h.conn.mode == NETASCII
    requires var bs := Blocks.Blocks(Netascii.Encode(file), h.conn.blockSize);
      && FromFile(h.accepted, bs) && |bs| < (65535 + base) * (h.conn.blockSize + 1)
      && (base == 0 || Blocks.DecodedBlocks(NETASCII, bs).None?)
    ensures !Completed(h.conn, file)
  {
    if Completed(h.conn, file) {
      SameCount(h.accepted, base, file, h.conn.blockSize);
    }
  }
}
