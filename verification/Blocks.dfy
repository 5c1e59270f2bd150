/** "Encode the whole file, then cut it into blocks": the specification both transfer directions refine. */
module Blocks {
  import opened Bytes
  import opened Packets
  import Netascii

  /** The bytes a transfer of `content` carries in the given mode. */
  function Encoded(mode: Mode, content: Data): Data {
    if mode == OCTET then content else Netascii.Encode(content)
  }

  /** The file bytes a received payload stands for; None where decoding throws. */
  function Decoded(mode: Mode, payload: Data): Option<Data> {
    if mode == OCTET then Some(payload) else Netascii.Decode(payload)
  }

  /** Full blocks of `size` bytes followed by one shorter, possibly empty, block. */
  function Blocks(e: Data, size: nat): (bs: seq<Data>)
    requires size >= 1
    ensures bs != []
    decreases |e|
  {
    if |e| < size then [e] else [e[..size]] + Blocks(e[size..], size)
  }

  lemma {:induction false} BlocksConcat(e: Data, size: nat)
    requires size >= 1
    ensures Concat(Blocks(e, size)) == e
    decreases |e|
  {
    var bs := Blocks(e, size);
    if |e| < size {
      assert bs[1..] == [];
      assert e + [] == e;
    } else {
      BlocksConcat(e[size..], size);
      assert bs[1..] == Blocks(e[size..], size);
      assert e[..size] + e[size..] == e;
    }
  }

  /** A file of |e| encoded bytes takes |e| / size + 1 blocks. */
  lemma {:induction false} BlocksCount(e: Data, size: nat)
    requires size >= 1
    ensures |Blocks(e, size)| == |e| / size + 1
    decreases |e|
  {
    if |e| >= size {
      BlocksCount(e[size..], size);
      DivStep(|e|, size);
    }
  }

  /** Every block but the last is full and the last one is short. */
  lemma {:induction false} BlocksShape(e: Data, size: nat, k: nat)
    requires size >= 1 && k < |Blocks(e, size)|
    ensures if k + 1 < |Blocks(e, size)| then |Blocks(e, size)[k]| == size else |Blocks(e, size)[k]| < size
    decreases |e|
  {
    if |e| >= size && k > 0 {
      BlocksShape(e[size..], size, k - 1);
    }
  }

  lemma DivStep(n: nat, d: nat)
    requires 1 <= d <= n
    ensures n / d == (n - d) / d + 1
  {
    var q, r := (n - d) / d, (n - d) % d;
    assert d * (q + 1) == d * q + d;
    QuotientUnique(n, d, q + 1, r);
  }

  lemma QuotientUnique(n: nat, d: nat, q: nat, r: nat)
    requires r < d && n == d * q + r
    ensures n / d == q
  {
    var x := n / d - q;
    assert d * x == d * (n / d) - d * q;
    assert d * x < d && d * x + d > 0;
    assert x >= 1 ==> d * x >= d;
    assert x <= -1 ==> d * x <= 0 - d;
  }

  /** The payloads decoded one block at a time, as both receivers do; None if any of them throws. */
  function DecodedBlocks(mode: Mode, bs: seq<Data>): Option<Data> {
    if bs == [] then Some([])
    else
      var first := Decoded(mode, bs[0]);
      var rest := DecodedBlocks(mode, bs[1..]);
      if first.Some? && rest.Some? then Some(first.value + rest.value) else None
  }

  lemma {:induction false} DecodedBlocksSnoc(mode: Mode, bs: seq<Data>, b: Data)
    ensures DecodedBlocks(mode, bs + [b])
         == (if DecodedBlocks(mode, bs).Some? && Decoded(mode, b).Some?
             then Some(DecodedBlocks(mode, bs).value + Decoded(mode, b).value) else None)
  {
    if bs == [] {
      assert ([] + [b])[1..] == [] && bs + [b] == [b];
      assert DecodedBlocks(mode, []) == Some([]);
      if Decoded(mode, b).Some? {
        assert Decoded(mode, b).value + [] == Decoded(mode, b).value == [] + Decoded(mode, b).value;
      }
    } else {
      assert (bs + [b])[1..] == bs[1..] + [b];
      DecodedBlocksSnoc(mode, bs[1..], b);
      var f, r, d := Decoded(mode, bs[0]), DecodedBlocks(mode, bs[1..]), Decoded(mode, b);
      if f.Some? && r.Some? && d.Some? {
        assert f.value + (r.value + d.value) == f.value + r.value + d.value;
      }
    }
  }

  /** Whenever block-by-block decoding succeeds it agrees with decoding everything at once. */
  lemma {:induction false} DecodedBlocksAgree(mode: Mode, bs: seq<Data>)
    requires DecodedBlocks(mode, bs).Some?
    ensures Decoded(mode, Concat(bs)) == DecodedBlocks(mode, bs)
  {
    if bs != [] {
      DecodedBlocksAgree(mode, bs[1..]);
      if mode == NETASCII {
        Netascii.DecodeConcat(bs[0], Concat(bs[1..]));
      }
    }
  }

  lemma {:induction false} BlockDecodes(mode: Mode, bs: seq<Data>, k: nat)
    requires k < |bs| && DecodedBlocks(mode, bs).Some?
    ensures Decoded(mode, bs[k]).Some?
  {
    if k > 0 {
      BlockDecodes(mode, bs[1..], k - 1);
    }
  }

  lemma {:induction false} PrefixFails(mode: Mode, bs: seq<Data>, k: nat)
    requires k <= |bs| && DecodedBlocks(mode, bs[..k]) == None
    ensures DecodedBlocks(mode, bs) == None
    decreases |bs|
  {
    if k == |bs| {
      assert bs[..k] == bs;
    } else {
      var front := bs[..|bs| - 1];
      assert front[..k] == bs[..k] && bs == front + [bs[|bs| - 1]];
      PrefixFails(mode, front, k);
      DecodedBlocksSnoc(mode, front, bs[|bs| - 1]);
    }
  }

  lemma FrontDecodes(mode: Mode, bs: seq<Data>, j: nat, k: nat)
    requires j <= k <= |bs| && DecodedBlocks(mode, bs[..k]).Some?
    ensures DecodedBlocks(mode, bs[..j]).Some?
  {
    assert bs[..k][..j] == bs[..j];
    if DecodedBlocks(mode, bs[..j]).None? {
      PrefixFails(mode, bs[..k], j);
    }
  }

  lemma DecodedNoLonger(mode: Mode, payload: Data)
    ensures Decoded(mode, payload).Some? ==> |Decoded(mode, payload).value| <= |payload|
  {
    Netascii.DecodeShrinks(payload);
  }

  lemma EncodedNoShorter(mode: Mode, content: Data)
    ensures |content| <= |Encoded(mode, content)| <= 2 * |content|
  {
  }

  lemma DecodedEncoded(mode: Mode, content: Data)
    ensures Decoded(mode, Encoded(mode, content)) == Some(content)
  {
    Netascii.RoundTrip(content);
  }

  /** Blocks of a file that all decode, decode to the file. */
  lemma BlocksDecodeToFile(mode: Mode, content: Data, size: nat)
    requires size >= 1
    ensures var d := DecodedBlocks(mode, Blocks(Encoded(mode, content), size));
      d.Some? ==> d.value == content
  {
    var e := Encoded(mode, content);
    BlocksConcat(e, size);
    DecodedEncoded(mode, content);
    if DecodedBlocks(mode, Blocks(e, size)).Some? {
      DecodedBlocksAgree(mode, Blocks(e, size));
    }
  }

  /** A block ends with the byte at index i. */
  predicate BlockEndsAt(i: nat, size: nat)
    requires size >= 1
  {
    if i + 1 < size then false else if i + 1 == size then true else BlockEndsAt(i - size, size)
  }

  lemma {:induction false} BlockEndsAtMultiples(i: nat, size: nat)
    requires size >= 1
    ensures BlockEndsAt(i, size) <==> (i + 1) % size == 0
    decreases i
  {
    if i + 1 > size {
      BlockEndsAtMultiples(i - size, size);
      DivStep(i + 1, size);
      var q := (i + 1 - size) / size;
      assert size * (q + 1) == size * q + size;
    }
  }

  /** Some block boundary falls right after a carriage return, inside its pair. */
  predicate BoundarySplitsPair(e: Data, size: nat)
    requires size >= 1
  {
    exists i :: 0 <= i < |e| - 1 && e[i] == CR && BlockEndsAt(i, size)
  }

  lemma BoundaryShift(e: Data, size: nat)
    requires 1 <= size <= |e|
    ensures BoundarySplitsPair(e, size)
       <==> (size < |e| && e[size - 1] == CR) || BoundarySplitsPair(e[size..], size)
  {
    var rest := e[size..];
    if BoundarySplitsPair(rest, size) {
      var i :| 0 <= i < |rest| - 1 && rest[i] == CR && BlockEndsAt(i, size);
      assert e[size + i] == CR && BlockEndsAt(size + i, size);
    }
    if size < |e| && e[size - 1] == CR {
      assert BlockEndsAt(size - 1, size);
    }
    if BoundarySplitsPair(e, size) {
      var i :| 0 <= i < |e| - 1 && e[i] == CR && BlockEndsAt(i, size);
      if i >= size {
        assert rest[i - size] == CR && BlockEndsAt(i - size, size);
      }
    }
  }

  /**
   * Decoding a netascii transfer block by block fails if and only if some block boundary separates
   * a carriage return from its line feed or NUL; otherwise the pieces make up the original file.
   */
  lemma {:induction false} NetasciiBlocksDecode(content: Data, size: nat)
    requires size >= 1
    ensures var e := Netascii.Encode(content);
      DecodedBlocks(NETASCII, Blocks(e, size)) == if BoundarySplitsPair(e, size) then None else Some(content)
    decreases |content|
  {
    var e := Netascii.Encode(content);
    if |e| < size {
      LastBlockDecodes(content, size);
    } else if e[size - 1] == CR {
      SplitFirstBlock(content, size);
    } else {
      var q := FirstBlockDecodes(content, size);
      NetasciiBlocksDecode(content[q..], size);
      WholeFirstBlock(content, size, q);
    }
  }

  lemma SplitFirstBlock(content: Data, size: nat)
    requires 1 <= size <= |Netascii.Encode(content)| && Netascii.Encode(content)[size - 1] == CR
    ensures var e := Netascii.Encode(content);
      DecodedBlocks(NETASCII, Blocks(e, size)) == None && BoundarySplitsPair(e, size)
  {
    var e := Netascii.Encode(content);
    BoundaryShift(e, size);
    FirstOfBlocks(e, size);
    Netascii.EncodedCrPaired(content, size - 1);
    DanglingCr(content, size);
  }

  lemma WholeFirstBlock(content: Data, size: nat, q: nat)
    requires 1 <= size <= |Netascii.Encode(content)| && Netascii.Encode(content)[size - 1] != CR
    requires q <= |content| && Netascii.Encode(content)[size..] == Netascii.Encode(content[q..])
    requires Netascii.Decode(Netascii.Encode(content)[..size]) == Some(content[..q])
    requires var rest := Netascii.Encode(content[q..]);
      DecodedBlocks(NETASCII, Blocks(rest, size)) == if BoundarySplitsPair(rest, size) then None else Some(content[q..])
    ensures var e := Netascii.Encode(content);
      DecodedBlocks(NETASCII, Blocks(e, size)) == if BoundarySplitsPair(e, size) then None else Some(content)
  {
    var e := Netascii.Encode(content);
    BoundaryShift(e, size);
    FirstOfBlocks(e, size);
    CutWhole(content, q);
  }

  lemma CutWhole(content: Data, q: nat)
    requires q <= |content|
    ensures content[..q] + content[q..] == content
  {
  }

  lemma FirstOfBlocks(e: Data, size: nat)
    requires 1 <= size <= |e|
    ensures var first := Netascii.Decode(e[..size]);
      var rest := DecodedBlocks(NETASCII, Blocks(e[size..], size));
      DecodedBlocks(NETASCII, Blocks(e, size))
      == if first.Some? && rest.Some? then Some(first.value + rest.value) else None
  {
    assert Blocks(e, size)[1..] == Blocks(e[size..], size);
  }

  /** A first block that does not end in CR holds whole encoded characters. */
  lemma FirstBlockDecodes(content: Data, size: nat) returns (q: nat)
    requires 1 <= size <= |Netascii.Encode(content)| && Netascii.Encode(content)[size - 1] != CR
    ensures 0 < q <= |content|
    ensures Netascii.Encode(content)[size..] == Netascii.Encode(content[q..])
    ensures Netascii.Decode(Netascii.Encode(content)[..size]) == Some(content[..q])
  {
    q := Netascii.CutEncoded(content, size);
    Netascii.RoundTrip(content[..q]);
    assert |Netascii.Encode(content[..q])| == size;
  }

  lemma LastBlockDecodes(content: Data, size: nat)
    requires |Netascii.Encode(content)| < size
    ensures var e := Netascii.Encode(content);
      DecodedBlocks(NETASCII, Blocks(e, size)) == Some(content) && !BoundarySplitsPair(e, size)
  {
    var e := Netascii.Encode(content);
    Netascii.RoundTrip(content);
    assert [e][1..] == [] && content + [] == content;
    assert DecodedBlocks(NETASCII, []) == Some([]);
  }

  lemma DanglingCr(content: Data, p: nat)
    requires 1 <= p <= |Netascii.Encode(content)| && Netascii.Encode(content)[p - 1] == CR
    ensures Netascii.Decode(Netascii.Encode(content)[..p]) == None
  {
    var e := Netascii.Encode(content);
    if p >= 2 {
      NoCrBefore(content, p);
    }
    var q := Netascii.CutEncoded(content, p - 1);
    Netascii.RoundTrip(content[..q]);
    assert e[..p] == e[..p - 1] + [CR];
    CrLeftOver(e[..p - 1]);
  }

  lemma NoCrBefore(content: Data, p: nat)
    requires 2 <= p <= |Netascii.Encode(content)| && Netascii.Encode(content)[p - 1] == CR
    ensures Netascii.Encode(content)[p - 2] != CR
  {
    if Netascii.Encode(content)[p - 2] == CR {
      Netascii.EncodedCrPaired(content, p - 2);
    }
  }

  lemma CrLeftOver(a: Data)
    requires Netascii.Decode(a).Some?
    ensures Netascii.Decode(a + [CR]) == None
  {
    Netascii.DecodeConcat(a, [CR]);
  }

  /** In octet mode no boundary can make decoding fail. */
  lemma {:induction false} OctetBlocksDecode(bs: seq<Data>)
    ensures DecodedBlocks(OCTET, bs) == Some(Concat(bs))
  {
    if bs != [] {
      OctetBlocksDecode(bs[1..]);
    }
  }

  /** Encoding what a block decodes to gives the block back. */
  predicate Reencodes(b: Data) {
    Netascii.Decode(b).Some? && Netascii.Encode(Netascii.Decode(b).value) == b
  }

  /** Where no boundary splits a pair every block holds whole encoded characters. */
  lemma {:induction false} WholeBlocksReencode(content: Data, size: nat, k: nat)
    requires size >= 1 && k < |Blocks(Netascii.Encode(content), size)|
    requires !BoundarySplitsPair(Netascii.Encode(content), size)
    ensures Reencodes(Blocks(Netascii.Encode(content), size)[k])
    decreases |content|
  {
    var e := Netascii.Encode(content);
    if |e| < size {
      Netascii.RoundTrip(content);
    } else {
      NoSplitAtFirst(content, size);
      var q := Netascii.CutEncoded(content, size);
      Netascii.RoundTrip(content[..q]);
      if k > 0 {
        BoundaryShift(e, size);
        assert |Netascii.Encode(content[..q])| == size;
        WholeBlocksReencode(content[q..], size, k - 1);
      }
    }
  }

  lemma NoSplitAtFirst(content: Data, size: nat)
    requires 1 <= size <= |Netascii.Encode(content)| && !BoundarySplitsPair(Netascii.Encode(content), size)
    ensures Netascii.Encode(content)[size - 1] != CR
  {
    BoundaryShift(Netascii.Encode(content), size);
    if Netascii.Encode(content)[size - 1] == CR {
      Netascii.EncodedCrPaired(content, size - 1);
    }
  }

  /** Blocks that re-encode one by one re-encode together. */
  lemma {:induction false} ReencodesTogether(ds: seq<Data>)
    requires forall d :: d in ds ==> Reencodes(d)
    ensures DecodedBlocks(NETASCII, ds).Some?
    ensures Netascii.Encode(DecodedBlocks(NETASCII, ds).value) == Concat(ds)
  {
    if ds != [] {
      ReencodesTogether(ds[1..]);
      assert Reencodes(ds[0]);
      Netascii.EncodeConcat(Netascii.Decode(ds[0]).value, DecodedBlocks(NETASCII, ds[1..]).value);
    }
  }

  /** Full pieces followed by one short piece are the blocks of what they make up. */
  lemma {:induction false} BlocksUnique(ds: seq<Data>, size: nat)
    requires size >= 1 && ds != [] && |ds[|ds| - 1]| < size
    requires forall i :: 0 <= i < |ds| - 1 ==> |ds[i]| == size
    ensures Blocks(Concat(ds), size) == ds
  {
    if |ds| == 1 {
      assert ds[1..] == [] && ds[0] + [] == ds[0];
    } else {
      BlocksUnique(ds[1..], size);
      var e := Concat(ds);
      assert e[..size] == ds[0] && e[size..] == Concat(ds[1..]);
      assert [ds[0]] + ds[1..] == ds;
    }
  }

  // ------------------------------------------------------- line feeds split off their pair

  /** A decodable front of encoded text has no line feed on its own. */
  lemma FrontHasNone(x: Data, p: nat)
    requires p <= |Netascii.Encode(x)| && Netascii.Decode(Netascii.Encode(x)[..p]).Some?
    ensures Netascii.BareLfs(Netascii.Encode(x)[..p]) == 0
  {
    if p >= 1 && Netascii.Encode(x)[p - 1] == CR {
      DanglingCr(x, p);
    } else {
      var q := Netascii.CutEncoded(x, p);
      Netascii.NoneEncoded(x[..q]);
    }
  }

  /** A decodable part of encoded text has at most one, at its start. */
  lemma PartHasOne(x: Data, i: nat, j: nat)
    requires i <= j <= |Netascii.Encode(x)| && Netascii.Decode(Netascii.Encode(x)[i..j]).Some?
    ensures Netascii.BareLfs(Netascii.Encode(x)[i..j]) <= 1
  {
    if i == 0 || Netascii.Encode(x)[i - 1] != CR {
      WholePartHasNone(x, i, j);
    } else if i < j {
      Netascii.EncodedCrPaired(x, i - 1);
      HalfPartHasOne(x, i, j);
    }
  }

  lemma WholePartHasNone(x: Data, i: nat, j: nat)
    requires i <= j <= |Netascii.Encode(x)| && Netascii.Decode(Netascii.Encode(x)[i..j]).Some?
    requires i == 0 || Netascii.Encode(x)[i - 1] != CR
    ensures Netascii.BareLfs(Netascii.Encode(x)[i..j]) == 0
  {
    var q := Netascii.CutEncoded(x, i);
    PartOfRest(Netascii.Encode(x), Netascii.Encode(x[q..]), i, j);
    FrontHasNone(x[q..], j - i);
  }

  lemma PartOfRest(e: Data, rest: Data, i: nat, j: nat)
    requires i <= j <= |e| && rest == e[i..]
    ensures e[i..j] == rest[..j - i]
  {
  }

  lemma HalfPartHasOne(x: Data, i: nat, j: nat)
    requires i < j <= |Netascii.Encode(x)| && Netascii.Decode(Netascii.Encode(x)[i..j]).Some?
    requires Netascii.Encode(x)[i] != CR
    ensures Netascii.BareLfs(Netascii.Encode(x)[i..j]) <= 1
  {
    var y := Netascii.Encode(x)[i..j];
    assert y[0] == Netascii.Encode(x)[i] && y[1..] == Netascii.Encode(x)[i + 1..j];
    WholePartHasNone(x, i + 1, j);
  }

  lemma {:induction false} BlockIsPart(e: Data, size: nat, k: nat) returns (i: nat)
    requires size >= 1 && k < |Blocks(e, size)|
    ensures i + |Blocks(e, size)[k]| <= |e| && Blocks(e, size)[k] == e[i..i + |Blocks(e, size)[k]|]
    decreases |e|
  {
    if |e| < size || k == 0 {
      i := 0;
    } else {
      var j := BlockIsPart(e[size..], size, k - 1);
      i := size + j;
      var b := Blocks(e, size)[k];
      assert b == Blocks(e[size..], size)[k - 1];
      assert e[i..i + |b|] == e[size..][j..j + |b|];
    }
  }

  lemma BlockHasOne(content: Data, size: nat, k: nat)
    requires size >= 1 && k < |Blocks(Netascii.Encode(content), size)|
    ensures var b := Blocks(Netascii.Encode(content), size)[k];
      Netascii.Decode(b).Some? ==> Netascii.BareLfs(b) <= 1
  {
    var e := Netascii.Encode(content);
    var i := BlockIsPart(e, size, k);
    if Netascii.Decode(Blocks(e, size)[k]).Some? {
      PartHasOne(content, i, i + |Blocks(e, size)[k]|);
    }
  }

  predicate AtMostOne(d: Data) {
    Netascii.Decode(d).Some? && Netascii.BareLfs(d) <= 1
  }

  lemma {:induction false} AtMostOneEach(ds: seq<Data>)
    requires forall d :: d in ds ==> AtMostOne(d)
    ensures Netascii.BareLfs(Concat(ds)) <= |ds|
  {
    if ds != [] {
      assert AtMostOne(ds[0]);
      AtMostOneEach(ds[1..]);
      Netascii.BareLfsConcat(ds[0], Concat(ds[1..]));
    }
  }

  /** The length of n full blocks. */
  function Full(n: nat, size: nat): nat {
    if n == 0 then 0 else size + Full(n - 1, size)
  }

  lemma {:induction false} FullIs(n: nat, size: nat)
    ensures Full(n, size) == n * size
  {
    if n > 0 {
      FullIs(n - 1, size);
      assert n * size == (n - 1) * size + size;
    }
  }

  lemma {:induction false} FullAdds(a: nat, b: nat, size: nat)
    ensures Full(a + b, size) == Full(a, size) + Full(b, size)
  {
    if a > 0 {
      FullAdds(a - 1, b, size);
    }
  }

  /** The length of a file from its blocks. */
  lemma {:induction false} LengthFromBlocks(e: Data, size: nat)
    requires size >= 1
    ensures var bs := Blocks(e, size);
      |e| == Full(|bs| - 1, size) + |bs[|bs| - 1]|
    decreases |e|
  {
    if |e| >= size {
      LengthFromBlocks(e[size..], size);
    }
  }
}
