/** Reading a whole file block by block, and what that has to do with its blocks. */
module Streams {
  import opened Bytes
  import opened Connection
  import opened ReadFile
  import opened ReadSide
  import opened Packets
  import Blocks
  import Netascii

  /** What consecutive calls of `read_in_to` hand out, each taking the front of what remains. */
  function Streamed(rest: Data, size: nat, calls: nat): seq<Data> {
    if calls == 0 then [] else [Take(rest, size)] + Streamed(rest[|Take(rest, size)|..], size, calls - 1)
  }

  /** The first blocks of an encoded file, and empty ones after the last. */
  function FirstBlocks(e: Data, size: nat, count: nat): seq<Data>
    requires size >= 1
  {
    var bs := Blocks.Blocks(e, size);
    if count <= |bs| then bs[..count] else bs + seq(count - |bs|, _ => [])
  }

  /** Reading block by block yields exactly the blocks of the encoded file and then nothing but empty ones. */
  lemma {:induction false} StreamRefinesBlocks(e: Data, size: nat, calls: nat)
    requires size >= 1
    ensures Streamed(e, size, calls) == FirstBlocks(e, size, calls)
    decreases calls
  {
    var bs := Blocks.Blocks(e, size);
    if calls > 0 {
      TakeBlock(e, size);
      var rest := e[|Take(e, size)|..];
      if |bs| == 1 {
        StreamedNothing(size, calls - 1);
      } else {
        StreamRefinesBlocks(rest, size, calls - 1);
        assert bs == [bs[0]] + Blocks.Blocks(rest, size);
      }
    }
  }

  lemma {:induction false} StreamedNothing(size: nat, calls: nat)
    ensures Streamed([], size, calls) == seq(calls, _ => [])
  {
    if calls > 0 {
      StreamedNothing(size, calls - 1);
    }
  }

  lemma {:induction false} StreamedSnoc(rest: Data, size: nat, calls: nat, front: seq<Data>, left: Data)
    requires front == Streamed(rest, size, calls) && Concat(front) + left == rest
    ensures Streamed(rest, size, calls + 1) == front + [Take(left, size)]
  {
    if calls == 0 {
      assert left == rest;
    } else {
      var b := Take(rest, size);
      assert front == [b] + front[1..];
      assert Concat(front) + left == b + (Concat(front[1..]) + left);
      assert rest[|b|..] == Concat(front[1..]) + left;
      StreamedSnoc(rest[|b|..], size, calls - 1, front[1..], left);
    }
  }

  lemma TakeFront(rest: Data, size: nat, b: Data, left: Data)
    requires b + left == rest && |b| == Min(size, |rest|)
    ensures b == Take(rest, size)
  {
    assert rest[..|b|] == b;
  }

  lemma ConcatGrows(front: seq<Data>, b: Data, left: Data, all: Data)
    requires Concat(front) + (b + left) == all
    ensures Concat(front + [b]) + left == all
  {
    ConcatSnoc(front, b);
    Assoc(Concat(front), b, left);
  }

  /** The bytes that take two places in netascii. */
  function Specials(x: Data): nat {
    if x == [] then 0 else (if x[0] == LF || x[0] == CR then 1 else 0) + Specials(x[1..])
  }

  lemma {:induction false} EncodedLength(x: Data)
    ensures |Netascii.Encode(x)| == |x| + Specials(x)
  {
    if x != [] {
      EncodedLength(x[1..]);
    }
  }

  /**
   * Whether the first block of a netascii file leaves bytes in the overflow buffer, where they stay and fail the
   * destructor's assertion if the transfer is abandoned then: exactly when the line feeds and carriage
   * returns among the first `size` bytes do not fit the block any more.
   */
  method ReadFirstBlock(r: TftpReadFile, size: nat) returns (b: Data)
    requires r.Valid() && r.mode == NETASCII && r.position == 0 && r.overflow == [] && !r.failed
    modifies r
    ensures r.Valid() && !r.failed && r.content == old(r.content)
    ensures r.overflow == [] <==>
      var read := r.content[..Min(size, |r.content|)]; |read| + Specials(read) <= size
  {
    b := r.ReadInTo(size, None);
    EncodedLength(r.content[..Min(size, |r.content|)]);
  }

  /** These calls handed out `bs`, the fronts of what remained, and `left` remains. */
  predicate ReadOff(all: Data, size: nat, calls: nat, bs: seq<Data>, left: Data) {
    bs == Streamed(all, size, calls) && Concat(bs) + left == all
  }

  lemma ReadOffNext(all: Data, size: nat, calls: nat, bs: seq<Data>, left: Data, b: Data, rest: Data)
    requires ReadOff(all, size, calls, bs, left) && b + rest == left && |b| == Min(size, |left|)
    ensures ReadOff(all, size, calls + 1, bs + [b], rest)
  {
    TakeFront(left, size, b, rest);
    StreamedSnoc(all, size, calls, bs, left);
    ConcatGrows(bs, b, rest, all);
  }

  /**
   * Any number of calls of `read_in_to` in a row, without a device error, hands out the blocks of what was left of
   * the encoded file, and after the last of them only empty ones.
   */
  method ReadBlocks(r: TftpReadFile, size: nat, calls: nat) returns (bs: seq<Data>)
    requires r.Valid() && |r.overflow| <= size && !r.failed
    modifies r
    ensures r.Valid() && !r.failed && r.mode == old(r.mode) && r.content == old(r.content)
    ensures ReadOff(old(r.remaining), size, calls, bs, r.remaining)
    ensures size >= 1 ==> bs == FirstBlocks(old(r.remaining), size, calls)
  {
    bs := [];
    ghost var all := r.remaining;
    for i := 0 to calls
      invariant r.Valid() && |r.overflow| <= size && !r.failed
      invariant r.mode == old(r.mode) && r.content == old(r.content)
      invariant ReadOff(all, size, i, bs, r.remaining)
    {
      bs := ReadOneMore(r, size, all, i, bs);
    }
    ReadOffBlocks(all, size, calls, bs, r.remaining);
  }

  method ReadOneMore(r: TftpReadFile, size: nat, ghost all: Data, ghost calls: nat, bs: seq<Data>)
    returns (more: seq<Data>)
    requires r.Valid() && |r.overflow| <= size && !r.failed
    requires ReadOff(all, size, calls, bs, r.remaining)
    modifies r
    ensures r.Valid() && |r.overflow| <= size && !r.failed && r.mode == old(r.mode) && r.content == old(r.content)
    ensures ReadOff(all, size, calls + 1, more, r.remaining)
  {
    ghost var left := r.remaining;
    var b := r.ReadInTo(size, None);
    ReadOffNext(all, size, calls, bs, left, b, r.remaining);
    more := bs + [b];
  }

  lemma ReadOffBlocks(all: Data, size: nat, calls: nat, bs: seq<Data>, left: Data)
    requires ReadOff(all, size, calls, bs, left)
    ensures size >= 1 ==> bs == FirstBlocks(all, size, calls)
  {
    if size >= 1 {
      StreamRefinesBlocks(all, size, calls);
    }
  }

  /** From the start of the file, the overflow buffer then holds what was read and encoded but not handed out. */
  method ReadFromStart(r: TftpReadFile, size: nat, calls: nat) returns (bs: seq<Data>)
    requires r.Valid() && r.position == 0 && r.overflow == [] && !r.failed
    modifies r
    ensures r.Valid() && !r.failed && r.mode == old(r.mode) && r.content == old(r.content)
    ensures Concat(bs) + r.overflow == Blocks.Encoded(r.mode, r.content[..r.position])
    ensures bs == Streamed(Blocks.Encoded(r.mode, r.content), size, calls)
  {
    assert r.content[0..] == r.content;
    assert [] + Blocks.Encoded(r.mode, r.content) == Blocks.Encoded(r.mode, r.content);
    bs := ReadBlocks(r, size, calls);
    CarriedBytes(r.mode, r.content, r.position, Concat(bs), r.overflow);
  }
}
