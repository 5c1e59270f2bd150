/** The netascii codec of src/common/utils.cpp. */
module Netascii {
  import opened Bytes

  function EncodeByte(b: Byte): Data {
    if b == LF then [CR, LF] else if b == CR then [CR, NUL] else [b]
  }

  /** What `native_to_netascii` produces. */
  function Encode(x: Data): (y: Data)
    ensures |x| <= |y| <= 2 * |x|
  {
    if x == [] then [] else EncodeByte(x[0]) + Encode(x[1..])
  }

  function Prepend(b: Byte, rest: Option<Data>): Option<Data> {
    if rest.Some? then Some([b] + rest.value) else None
  }

  /** What `netascii_to_native` produces; None where it throws. */
  function Decode(y: Data): Option<Data>
    decreases |y|
  {
    if y == [] then Some([])
    else if y[0] == CR then
      if |y| == 1 then None
      else if y[1] == NUL then Prepend(CR, Decode(y[2..]))
      else if y[1] == LF then Decode(y[1..])
      else None
    else Prepend(y[0], Decode(y[1..]))
  }

  /** The line ending of RFC 764: a line feed becomes 13, 10, a carriage return 13, 0, and nothing else changes. */
  lemma BytesEncoded(x: Data, b: Byte)
    ensures Encode(x + [b]) == Encode(x) + (if b == 10 then [13, 10] else if b == 13 then [13, 0] else [b])
  {
    EncodeConcat(x, [b]);
    assert [b][1..] == [];
    assert Encode([b]) == EncodeByte(b) + Encode([]);
  }

  method NativeToNetascii(data: Data) returns (ret: Data)
    ensures ret == Encode(data)
  {
    ret := [];
    for i := 0 to |data|
      invariant ret == Encode(data[..i])
    {
      EncodeConcat(data[..i], [data[i]]);
      assert data[..i + 1] == data[..i] + [data[i]];
      assert Encode([data[i]]) == EncodeByte(data[i]) + Encode([]);
      if data[i] == LF {
        ret := ret + [CR];
        ret := ret + [LF];
      } else if data[i] == CR {
        ret := ret + [CR];
        ret := ret + [NUL];
      } else {
        ret := ret + [data[i]];
      }
    }
    assert data[..|data|] == data;
  }

  method NetasciiToNative(data: Data) returns (result: Option<Data>)
    ensures result == Decode(data)
  {
    var ret: Data := [];
    var i := 0;
    assert data[0..] == data;
    assert Decode(data).Some? ==> ret + Decode(data).value == Decode(data).value;
    while i != |data|
      invariant 0 <= i <= |data|
      invariant Decode(data) == Joined(ret, Decode(data[i..]))
      decreases |data| - i
    {
      ghost var rest := data[i..];
      assert forall k :: 0 <= k < |rest| ==> rest[k] == data[i + k];
      assert rest[1..] == data[i + 1..];
      if data[i] == CR {
        if i + 1 != |data| {
          if data[i + 1] == NUL {
            assert rest[2..] == data[i + 2..];
            JoinedPush(ret, CR, Decode(data[i + 2..]));
            ret := ret + [data[i]];
            i := i + 1;
          } else if data[i + 1] == LF {
            // CR LF becomes LF: the CR is skipped and the next turn copies the LF.
          } else {
            return None;
          }
        } else {
          return None;
        }
      } else {
        JoinedPush(ret, data[i], Decode(data[i + 1..]));
        ret := ret + [data[i]];
      }
      i := i + 1;
    }
    assert data[|data|..] == [];
    assert ret + [] == ret;
    return Some(ret);
  }

  function Joined(front: Data, back: Option<Data>): Option<Data> {
    if back.Some? then Some(front + back.value) else None
  }

  lemma JoinedPush(front: Data, b: Byte, back: Option<Data>)
    ensures Joined(front, Prepend(b, back)) == Joined(front + [b], back)
  {
    if back.Some? {
      assert front + ([b] + back.value) == front + [b] + back.value;
    }
  }

  /** Encoding is a homomorphism, so it can be done piece by piece. */
  lemma {:induction false} EncodeConcat(a: Data, b: Data)
    ensures Encode(a + b) == Encode(a) + Encode(b)
  {
    if a == [] {
      assert a + b == b;
    } else {
      assert (a + b)[1..] == a[1..] + b;
      EncodeConcat(a[1..], b);
    }
  }

  /** Decoding a decodable front never depends on what follows it. */
  lemma {:induction false} DecodeConcat(a: Data, b: Data)
    requires Decode(a).Some?
    ensures Decode(a + b) == Joined(Decode(a).value, Decode(b))
    decreases |a|
  {
    if a == [] {
      assert a + b == b;
      if Decode(b).Some? { assert [] + Decode(b).value == Decode(b).value; }
    } else {
      assert (a + b)[1..] == a[1..] + b;
      if a[0] == CR && a[1] == NUL {
        assert (a + b)[2..] == a[2..] + b;
        DecodeConcat(a[2..], b);
        PrependJoined(CR, Decode(a[2..]).value, Decode(b));
      } else {
        DecodeConcat(a[1..], b);
        PrependJoined(a[0], Decode(a[1..]).value, Decode(b));
      }
    }
  }

  lemma PrependJoined(c: Byte, front: Data, back: Option<Data>)
    ensures Prepend(c, Joined(front, back)) == Joined([c] + front, back)
  {
    if back.Some? {
      assert [c] + (front + back.value) == [c] + front + back.value;
    }
  }

  lemma DecodeEncodedByte(b: Byte)
    ensures Decode(EncodeByte(b)) == Some([b])
  {
    var y := EncodeByte(b);
    assert Decode([]) == Some([]) && [b] + [] == [b];
    if b == LF {
      assert y[1..] == [LF];
      assert [LF][1..] == [];
      assert Decode([LF]) == Prepend(LF, Decode([]));
    } else if b == CR {
      assert y[2..] == [];
    } else {
      assert y[1..] == [];
    }
  }

  /** decode(encode(x)) == x for every byte string. */
  lemma {:induction false} RoundTrip(x: Data)
    ensures Decode(Encode(x)) == Some(x)
  {
    if x != [] {
      RoundTrip(x[1..]);
      var first := EncodeByte(x[0]);
      DecodeEncodedByte(x[0]);
      DecodeConcat(first, Encode(x[1..]));
      assert [x[0]] + x[1..] == x;
    }
  }

  lemma {:induction false} DecodeShrinks(y: Data)
    ensures Decode(y).Some? ==> |Decode(y).value| <= |y|
    decreases |y|
  {
    if y != [] {
      DecodeShrinks(y[1..]);
      if |y| >= 2 {
        DecodeShrinks(y[2..]);
      }
    }
  }

  lemma DecodesToSomething(y: Data)
    requires y != []
    ensures Decode(y) != Some([])
  {
    if y[0] == CR && |y| > 1 && y[1] == LF {
      assert Decode(y[1..]) == Prepend(LF, Decode(y[1..][1..]));
    }
  }

  /** Text without a carriage return decodes to itself. */
  lemma {:induction false} DecodeWithoutCr(y: Data)
    requires CR !in y
    ensures Decode(y) == Some(y)
  {
    if y != [] {
      DecodeWithoutCr(y[1..]);
      assert [y[0]] + y[1..] == y;
    }
  }

  /** A line feed that does not directly follow a carriage return. */
  predicate HasBareLf(y: Data) {
    exists i :: 0 <= i < |y| && BareLfAt(y, i)
  }

  predicate BareLfAt(y: Data, i: nat)
    requires i < |y|
  {
    y[i] == LF && (i == 0 || y[i - 1] != CR)
  }

  /** Dropping a prefix whose last byte is not CR drops exactly its own bare LFs. */
  lemma BareLfSplit(front: Data, back: Data)
    requires front != [] && front[|front| - 1] != CR
    ensures HasBareLf(front + back) <==> HasBareLf(front) || HasBareLf(back)
  {
    var y := front + back;
    forall i | 0 <= i < |front| ensures BareLfAt(y, i) == BareLfAt(front, i) {}
    forall i | 0 <= i < |back| ensures BareLfAt(y, |front| + i) == BareLfAt(back, i) {}
    if HasBareLf(y) {
      var i :| 0 <= i < |y| && BareLfAt(y, i);
      if i >= |front| { assert BareLfAt(back, i - |front|); }
    }
    if HasBareLf(back) {
      var i :| 0 <= i < |back| && BareLfAt(back, i);
      assert BareLfAt(y, |front| + i);
    }
    if HasBareLf(front) {
      var i :| 0 <= i < |front| && BareLfAt(front, i);
      assert BareLfAt(y, i);
    }
  }

  /** Of the decodable strings, re-encoding restores exactly those without a bare LF. */
  lemma {:induction false} EncodeAfterDecode(y: Data)
    requires Decode(y).Some?
    ensures Encode(Decode(y).value) == y <==> !HasBareLf(y)
    decreases |y|
  {
    if y != [] {
      var x := Decode(y).value;
      var used := if y[0] == CR then 2 else 1;
      var front, back := y[..used], y[used..];
      assert y == front + back;
      if y[0] == CR && y[1] == LF { assert y[1..][1..] == back; }
      assert Decode(back).Some? && x[1..] == Decode(back).value;
      EncodeAfterDecode(back);
      BareLfSplit(front, back);
      if y[0] == LF {
        assert BareLfAt(front, 0);
        assert Encode(x)[0] == CR;
      } else {
        assert EncodeByte(x[0]) == front;
        assert !HasBareLf(front);
      }
    }
  }

  /** The line feeds that decode as they stand, without a carriage return before them. */
  function BareLfs(y: Data): nat
    decreases |y|
  {
    if y == [] then 0
    else if y[0] == CR then (if |y| == 1 then 0 else BareLfs(y[2..]))
    else (if y[0] == LF then 1 else 0) + BareLfs(y[1..])
  }

  /** Each of them takes one byte less than its encoding. */
  lemma {:induction false} EncodeAfterDecodeLength(y: Data)
    requires Decode(y).Some?
    ensures |Encode(Decode(y).value)| == |y| + BareLfs(y)
    ensures BareLfs(y) == 0 ==> Encode(Decode(y).value) == y
    decreases |y|
  {
    if y != [] {
      var used := if y[0] == CR then 2 else 1;
      var x, back := Decode(y).value, y[used..];
      if y[0] == CR && y[1] == LF { assert y[1..][1..] == back; }
      assert Decode(back).Some? && x[1..] == Decode(back).value;
      EncodeAfterDecodeLength(back);
      assert y == y[..used] + back;
    }
  }

  lemma {:induction false} BareLfsConcat(a: Data, b: Data)
    requires Decode(a).Some?
    ensures BareLfs(a + b) == BareLfs(a) + BareLfs(b)
    decreases |a|
  {
    if a == [] {
      assert a + b == b;
    } else if a[0] == CR {
      assert (a + b)[2..] == a[2..] + b;
      if a[1] == LF { assert a[1..][1..] == a[2..]; }
      BareLfsConcat(a[2..], b);
    } else {
      assert (a + b)[1..] == a[1..] + b;
      BareLfsConcat(a[1..], b);
    }
  }

  lemma {:induction false} NoneEncoded(x: Data)
    ensures BareLfs(Encode(x)) == 0
  {
    if x != [] {
      NoneEncoded(x[1..]);
      assert Encode(x)[|EncodeByte(x[0])|..] == Encode(x[1..]);
    }
  }

  /** Every carriage return in encoded text is followed by its line feed or NUL. */
  lemma {:induction false} EncodedCrPaired(x: Data, i: nat)
    requires i < |Encode(x)| && Encode(x)[i] == CR
    ensures i + 1 < |Encode(x)| && (Encode(x)[i + 1] == LF || Encode(x)[i + 1] == NUL)
  {
    var first := EncodeByte(x[0]);
    if i >= |first| {
      EncodedCrPaired(x[1..], i - |first|);
    }
  }

  /** Cutting encoded text anywhere but inside a CR pair cuts the original text too. */
  lemma {:induction false} CutEncoded(x: Data, p: nat) returns (q: nat)
    requires p <= |Encode(x)|
    requires p == 0 || Encode(x)[p - 1] != CR
    ensures q <= |x|
    ensures Encode(x)[..p] == Encode(x[..q]) && Encode(x)[p..] == Encode(x[q..])
  {
    if p == 0 {
      q := 0;
      assert x[0..] == x;
    } else {
      var first := EncodeByte(x[0]);
      assert p >= |first|;
      var k := CutEncoded(x[1..], p - |first|);
      q := k + 1;
      CutBehind(first, Encode(x[1..]), p);
      assert x[..q][1..] == x[1..][..k];
      assert x[q..] == x[1..][k..];
    }
  }
}
