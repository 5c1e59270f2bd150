/** Bytes, 16-bit words and the few generic definitions every other module uses. */
module Bytes {

  /** A C++ `char`, read as the unsigned octet it occupies on the wire. */
  newtype Byte = b: int | 0 <= b < 256

  /** A `std::vector<char>` or a `std::string`. */
  type Data = seq<Byte>

  /** A `uint16_t`. */
  type Word = w: int | 0 <= w < 65536

  /** What remains of an unbounded number in a `uint16_t`, by repeated subtraction. */
  function Wire(n: nat): Word {
    if n < 65536 then n else Wire(n - 65536)
  }

  lemma {:induction false} WireIsRemainder(n: nat)
    ensures Wire(n) == n % 65536
  {
    if n >= 65536 {
      WireIsRemainder(n - 65536);
    }
  }

  lemma {:induction false} WireAdds(x: nat, w: Word)
    ensures Wire(65536 * x + w) == w
  {
    if x > 0 {
      WireAdds(x - 1, w);
      assert 65536 * x + w - 65536 == 65536 * (x - 1) + w;
    }
  }

  datatype Option<+T> = None | Some(value: T)

  const NUL: Byte := 0
  const LF: Byte := 10
  const CR: Byte := 13

  function Min(a: int, b: int): int {
    if a <= b then a else b
  }

  /** The bytes of a string literal. */
  function Ascii(s: string): (d: Data)
    ensures |d| == |s|
  {
    seq(|s|, i requires 0 <= i < |s| => if s[i] as int < 256 then s[i] as int as Byte else 63)
  }

  /** These bytes are the codes of these letters. */
  predicate Spells(d: Data, s: string) {
    |d| == |s| && forall i :: 0 <= i < |s| ==> d[i] as int == s[i] as int
  }

  function Concat(parts: seq<Data>): Data {
    if parts == [] then [] else parts[0] + Concat(parts[1..])
  }

  lemma {:induction false} ConcatSplit(a: seq<Data>, b: seq<Data>)
    ensures Concat(a + b) == Concat(a) + Concat(b)
  {
    if a == [] {
      assert a + b == b;
    } else {
      assert (a + b)[1..] == a[1..] + b;
      ConcatSplit(a[1..], b);
    }
  }

  lemma ConcatSnoc(a: seq<Data>, d: Data)
    ensures Concat(a + [d]) == Concat(a) + d
  {
    ConcatSplit(a, [d]);
    assert Concat([d]) == d + Concat([]);
  }

  lemma Assoc<T>(a: seq<T>, b: seq<T>, c: seq<T>)
    ensures a + (b + c) == a + b + c
  {
  }

  /** Cutting a concatenation inside its second part. */
  lemma CutBehind(a: Data, b: Data, p: nat)
    requires |a| <= p <= |a| + |b|
    ensures (a + b)[..p] == a + b[..p - |a|] && (a + b)[p..] == b[p - |a|..]
  {
  }

  lemma ConcatOfPrefix(bs: seq<Data>, k: nat)
    requires k <= |bs|
    ensures Concat(bs[..k]) <= Concat(bs)
  {
    ConcatSplit(bs[..k], bs[k..]);
    assert bs == bs[..k] + bs[k..];
  }

  /** Bitwise OR of two non-negative integers, bit by bit. */
  function BitOr(a: nat, b: nat): nat
    decreases a + b
  {
    if a == 0 then b
    else if b == 0 then a
    else 2 * BitOr(a / 2, b / 2) + (if a % 2 == 1 || b % 2 == 1 then 1 else 0)
  }

  lemma BitOrDouble(a: nat, b: nat, x: nat, y: nat)
    requires x < 2 && y < 2
    ensures BitOr(2 * a + x, 2 * b + y) == 2 * BitOr(a, b) + (if x == 1 || y == 1 then 1 else 0)
  {
  }

  lemma BitOrBelow4(a: nat, b: nat, low: nat)
    requires low < 4
    ensures BitOr(4 * a, 4 * b + low) == 4 * BitOr(a, b) + low
  {
    var x, y := low / 2, low % 2;
    BitOrDouble(a, b, 0, x);
    BitOrDouble(2 * a, 2 * b + x, 0, y);
    assert 2 * (2 * b + x) + y == 4 * b + low;
  }

  lemma BitOrBelow16(a: nat, b: nat, low: nat)
    requires low < 16
    ensures BitOr(16 * a, 16 * b + low) == 16 * BitOr(a, b) + low
  {
    var x, y := low / 4, low % 4;
    BitOrBelow4(a, b, x);
    BitOrBelow4(4 * a, 4 * b + x, y);
    assert 4 * (4 * b + x) + y == 16 * b + low;
  }

  /** A byte ORed below a number shifted left by eight bits stays as it is. */
  lemma BitOrBelow(a: nat, b: nat, low: nat)
    requires low < 256
    ensures BitOr(256 * a, 256 * b + low) == 256 * BitOr(a, b) + low
  {
    var x, y := low / 16, low % 16;
    BitOrBelow16(a, b, x);
    BitOrBelow16(16 * a, 16 * b + x, y);
    assert 16 * (16 * b + x) + y == 256 * b + low;
  }

  lemma BitOrOnes4(q: nat, x: nat, y: nat, b: nat)
    requires x < 2 && y < 2
    ensures BitOr(4 * q + 2 * x + y, 4 * b + 3) == 4 * BitOr(q, b) + 3
  {
    BitOrDouble(q, b, x, 1);
    BitOrDouble(2 * q + x, 2 * b + 1, y, 1);
    assert 2 * (2 * q + x) + y == 4 * q + 2 * x + y && 2 * (2 * b + 1) + 1 == 4 * b + 3;
  }

  lemma TwoBits(a: nat) returns (x: nat, y: nat)
    ensures x < 2 && y < 2 && a == 4 * (a / 4) + 2 * x + y
  {
    x, y := a / 2 % 2, a % 2;
  }

  lemma BitOrOnesStep(a: nat, b: nat) returns (q: nat)
    ensures BitOr(a, 4 * b + 3) == 4 * BitOr(q, b) + 3
  {
    var x, y := TwoBits(a);
    q := a / 4;
    BitOrOnes4(q, x, y, b);
  }

  /** ORing with eight ones leaves the low byte all ones. */
  lemma BitOrOnes(a: nat) returns (x: nat)
    ensures BitOr(a, 255) == 256 * x + 255
  {
    var q := BitOrOnesStep(a, 63);
    q := BitOrOnesStep(q, 15);
    q := BitOrOnesStep(q, 3);
    q := BitOrOnesStep(q, 0);
    x := BitOr(q, 0);
  }
}
