/** The NUL-terminated string splitter of src/common/utils.cpp. */
module CStrings {
  import opened Bytes

  predicate NulFree(s: Data) {
    NUL !in s
  }

  predicate AllNulFree(ss: seq<Data>) {
    forall s :: s in ss ==> NulFree(s)
  }

  /** Position of the first NUL, or the length when there is none. */
  function FirstNul(b: Data): (k: nat)
    ensures k <= |b| && (k < |b| ==> b[k] == NUL)
    ensures forall i :: 0 <= i < k ==> b[i] != NUL
  {
    if b == [] || b[0] == NUL then 0 else 1 + FirstNul(b[1..])
  }

  lemma {:induction false} FirstNulIs(b: Data, k: nat)
    requires k <= |b| && (k < |b| ==> b[k] == NUL)
    requires forall i :: 0 <= i < k ==> b[i] != NUL
    ensures FirstNul(b) == k
  {
  }

  /** What `extract_c_strings_from_buffer` returns for the part of the buffer past its offset. */
  function Extract(b: Data): seq<Data>
    decreases |b|
  {
    var k := FirstNul(b);
    if k == |b| then [] else [b[..k]] + Extract(b[k + 1..])
  }

  /** The inverse direction: every string followed by a NUL. */
  function Join(ss: seq<Data>): Data {
    if ss == [] then [] else ss[0] + [NUL] + Join(ss[1..])
  }

  /** Position of the first NUL from `start` on, or the length. */
  function NulAt(b: Data, start: nat): (k: nat)
    requires start <= |b|
    ensures start <= k <= |b|
    decreases |b| - start
  {
    if start == |b| || b[start] == NUL then start else NulAt(b, start + 1)
  }

  lemma {:induction false} NulAtIsFirst(b: Data, start: nat)
    requires start <= |b|
    ensures NulAt(b, start) == start + FirstNul(b[start..])
    decreases |b| - start
  {
    if start < |b| && b[start] != NUL {
      NulAtIsFirst(b, start + 1);
      assert b[start..][1..] == b[start + 1..];
    }
  }

  /** `std::find` for a NUL. */
  method FindNul(b: Data, start: nat) returns (end: nat)
    requires start <= |b|
    ensures end == NulAt(b, start)
  {
    end := start;
    while end < |b| && b[end] != NUL
      invariant start <= end <= |b| && NulAt(b, end) == NulAt(b, start)
    {
      end := end + 1;
    }
  }

  /** The strings found so far and those from `start` on. */
  function ExtractOnto(b: Data, start: nat, ret: seq<Data>): seq<Data>
    requires start <= |b|
    decreases |b| - start
  {
    var end := NulAt(b, start);
    if end == |b| then ret else ExtractOnto(b, end + 1, ret + [b[start..end]])
  }

  /** What finding a NUL means for the split. */
  lemma ExtractAt(b: Data, start: nat)
    requires start <= |b| && NulAt(b, start) < |b|
    ensures var end := NulAt(b, start);
      Extract(b[start..]) == [b[start..end]] + Extract(b[end + 1..])
  {
    NulAtIsFirst(b, start);
    ExtractStep(b, start, NulAt(b, start));
  }

  lemma ExtractStep(b: Data, start: nat, end: nat)
    requires start <= end < |b| && FirstNul(b[start..]) == end - start
    ensures Extract(b[start..]) == [b[start..end]] + Extract(b[end + 1..])
  {
    assert b[start..][..end - start] == b[start..end];
    assert b[start..][end - start + 1..] == b[end + 1..];
  }

  lemma ExtractNone(b: Data, start: nat)
    requires start <= |b| && NulAt(b, start) == |b|
    ensures Extract(b[start..]) == []
  {
    NulAtIsFirst(b, start);
  }

  lemma {:induction false} ExtractOntoIs(b: Data, start: nat, ret: seq<Data>)
    requires start <= |b|
    ensures ExtractOnto(b, start, ret) == ret + Extract(b[start..])
    decreases |b| - start
  {
    var end := NulAt(b, start);
    if end < |b| {
      ExtractOntoIs(b, end + 1, ret + [b[start..end]]);
      ExtractAt(b, start);
      Assoc(ret, [b[start..end]], Extract(b[end + 1..]));
    } else {
      ExtractNone(b, start);
      assert ret + [] == ret;
    }
  }

  method ExtractCStringsFromBuffer(buffer: Data, offset: nat) returns (ret: seq<Data>)
    requires offset <= |buffer|
    ensures ret == Extract(buffer[offset..])
  {
    ret := [];
    var start := offset;
    var end := FindNul(buffer, start);
    while end != |buffer|
      invariant start <= |buffer| && end == NulAt(buffer, start)
      invariant ExtractOnto(buffer, start, ret) == ExtractOnto(buffer, offset, [])
      decreases |buffer| - start
    {
      ret := ret + [buffer[start..end]];
      start := end + 1;
      end := FindNul(buffer, start);
    }
    ExtractOntoIs(buffer, offset, []);
    assert [] + Extract(buffer[offset..]) == Extract(buffer[offset..]);
  }

  /** Splitting peels off a leading terminated string. */
  lemma ExtractHead(s: Data, rest: Data)
    requires NulFree(s)
    ensures Extract(s + [NUL] + rest) == [s] + Extract(rest)
  {
    var b := s + [NUL] + rest;
    FirstNulIs(b, |s|);
    assert b[..|s|] == s && b[|s| + 1..] == rest;
  }

  /** Splitting undoes joining for NUL-free strings, whatever unterminated tail follows. */
  lemma {:induction false} ExtractOfJoin(ss: seq<Data>, tail: Data)
    requires AllNulFree(ss) && NulFree(tail)
    ensures Extract(Join(ss) + tail) == ss
  {
    if ss == [] {
      assert Join(ss) + tail == tail;
      FirstNulIs(tail, |tail|);
    } else {
      var rest := Join(ss[1..]) + tail;
      assert Join(ss) + tail == ss[0] + [NUL] + rest;
      ExtractHead(ss[0], rest);
      ExtractOfJoin(ss[1..], tail);
      assert [ss[0]] + ss[1..] == ss;
    }
  }

  /** Joining what was split gives back the buffer up to an unterminated tail. */
  lemma {:induction false} JoinOfExtract(b: Data) returns (tail: Data)
    ensures b == Join(Extract(b)) + tail && NulFree(tail) && AllNulFree(Extract(b))
    decreases |b|
  {
    var k := FirstNul(b);
    if k == |b| {
      tail := b;
      assert Extract(b) == [];
    } else {
      var s, rest := b[..k], b[k + 1..];
      tail := JoinOfExtract(rest);
      assert b == s + [NUL] + rest;
      ExtractHead(s, rest);
      assert ([s] + Extract(rest))[1..] == Extract(rest);
      Assoc(s + [NUL], Join(Extract(rest)), tail);
    }
  }

  /** The split is the only list of NUL-free strings that rejoins to a prefix with a NUL-free remainder. */
  lemma ExtractUnique(b: Data, ss: seq<Data>, tail: Data)
    requires AllNulFree(ss) && NulFree(tail)
    ensures b == Join(ss) + tail ==> ss == Extract(b)
  {
    ExtractOfJoin(ss, tail);
  }

  function CountNul(b: Data): nat {
    if b == [] then 0 else (if b[0] == NUL then 1 else 0) + CountNul(b[1..])
  }

  lemma {:induction false} CountNulConcat(a: Data, b: Data)
    ensures CountNul(a + b) == CountNul(a) + CountNul(b)
  {
    if a == [] {
      assert a + b == b;
    } else {
      assert (a + b)[1..] == a[1..] + b;
      CountNulConcat(a[1..], b);
    }
  }

  lemma {:induction false} CountNulFree(a: Data)
    ensures CountNul(a) == 0 <==> NulFree(a)
  {
    if a != [] {
      CountNulFree(a[1..]);
    }
  }

  lemma CountNulJoined(s: Data, rest: Data)
    ensures CountNul(s + [NUL] + rest) == CountNul(s) + 1 + CountNul(rest)
  {
    CountNulConcat(s, [NUL] + rest);
    assert s + ([NUL] + rest) == s + [NUL] + rest;
    assert ([NUL] + rest)[1..] == rest;
  }

  /** One string comes out for every NUL in the buffer. */
  lemma {:induction false} ExtractCount(b: Data)
    ensures |Extract(b)| == CountNul(b)
    decreases |b|
  {
    var k := FirstNul(b);
    if k == |b| {
      CountNulFree(b);
    } else {
      var s, rest := b[..k], b[k + 1..];
      CountNulFree(s);
      ExtractCount(rest);
      assert b == s + [NUL] + rest;
      ExtractHead(s, rest);
      CountNulJoined(s, rest);
    }
  }

  /** Joining n strings yields n NULs plus those inside the strings. */
  lemma {:induction false} JoinCount(ss: seq<Data>)
    ensures CountNul(Join(ss)) >= |ss|
    ensures CountNul(Join(ss)) == |ss| <==> AllNulFree(ss)
  {
    if ss != [] {
      JoinCount(ss[1..]);
      CountNulFree(ss[0]);
      CountNulJoined(ss[0], Join(ss[1..]));
      assert forall s :: s in ss <==> s == ss[0] || s in ss[1..];
    }
  }

  /** Splitting restores a joined list exactly when no string holds a NUL of its own. */
  lemma JoinRoundTrip(ss: seq<Data>)
    ensures Extract(Join(ss)) == ss <==> AllNulFree(ss)
  {
    JoinCount(ss);
    ExtractCount(Join(ss));
    if AllNulFree(ss) {
      ExtractOfJoin(ss, []);
      assert Join(ss) + [] == Join(ss);
    }
  }

  /** What a C string function sees of a `std::string`: the part before the first NUL. */
  function CStr(s: Data): Data {
    s[..FirstNul(s)]
  }

  lemma CStrOfNulFree(s: Data)
    requires NulFree(s)
    ensures CStr(s) == s
  {
    FirstNulIs(s, |s|);
  }

  /** `::toupper` in the C locale. */
  function ToUpper(b: Byte): Byte {
    if 97 <= b <= 122 then b - 32 else b
  }

  function Upper(s: Data): (u: Data)
    ensures |u| == |s|
    ensures NulFree(s) ==> NulFree(u)
  {
    seq(|s|, i requires 0 <= i < |s| => ToUpper(s[i]))
  }
}
