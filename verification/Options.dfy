/** Option negotiation: `process_options` of src/server/tftp_server_connection.cpp. */
module Options {
  import opened Bytes
  import opened CStrings
  import opened Packets

  const DEFAULT_BLOCK_SIZE := 512
  const DEFAULT_TIMEOUT_S := 2
  const ULONG_LIMIT: nat := 0x1_0000_0000_0000_0000
  const UINT32_LIMIT: nat := 0x1_0000_0000

  /** "BLKSIZE" */
  function BlksizeName(): Data { [66, 76, 75, 83, 73, 90, 69] }

  /** "TSIZE" */
  function TsizeName(): Data { [84, 83, 73, 90, 69] }

  /** "TIMEOUT" */
  function TimeoutName(): Data { [84, 73, 77, 69, 79, 85, 84] }

  // ------------------------------------------------------------ numbers as text

  datatype Parsed = Value(n: nat) | Invalid | OutOfRange

  predicate IsDigit(b: Byte) { 48 <= b <= 57 }

  predicate IsSpace(b: Byte) { b == 32 || 9 <= b <= 13 }

  /** The value of the leading digits, continuing from `acc`. */
  function DigitsValue(s: Data, acc: nat): nat {
    if s == [] || !IsDigit(s[0]) then acc else DigitsValue(s[1..], 10 * acc + (s[0] as int - 48))
  }

  function SkipSpaces(s: Data): Data {
    if s != [] && IsSpace(s[0]) then SkipSpaces(s[1..]) else s
  }

  /** `std::stoul` and `std::stoull` in base ten: blanks, a sign, digits, then anything. */
  function ParseUnsigned(s: Data): Parsed {
    var t := SkipSpaces(s);
    var negative := t != [] && t[0] == 45;
    var u := if t != [] && (t[0] == 45 || t[0] == 43) then t[1..] else t;
    if u == [] || !IsDigit(u[0]) then Invalid
    else
      var v := DigitsValue(u, 0);
      if v >= ULONG_LIMIT then OutOfRange
      else Value(if negative && v > 0 then ULONG_LIMIT - v else v)
  }

  /** `std::to_string` of a non-negative number. */
  function ToDecimal(n: nat): (s: Data)
    ensures s != [] && IsDigit(s[0])
  {
    if n < 10 then [(48 + n) as Byte] else ToDecimal(n / 10) + [(48 + n % 10) as Byte]
  }

  lemma {:induction false} DigitsOfDecimal(n: nat, tail: Data)
    ensures DigitsValue(ToDecimal(n) + tail, 0) == DigitsValue(tail, n)
  {
    if n < 10 {
      assert (ToDecimal(n) + tail)[1..] == tail;
    } else {
      var last: Data := [(48 + n % 10) as Byte];
      DigitsOfDecimal(n / 10, last + tail);
      assert ToDecimal(n) + tail == ToDecimal(n / 10) + (last + tail);
      assert (last + tail)[1..] == tail;
    }
  }

  /** Whatever number the server prints, `stoul` reads back. */
  lemma DecimalRoundTrip(n: nat)
    requires n < ULONG_LIMIT
    ensures ParseUnsigned(ToDecimal(n)) == Value(n)
  {
    var s := ToDecimal(n);
    DigitsOfDecimal(n, []);
    assert s + [] == s;
    assert !IsSpace(s[0]) && s[0] != 45 && s[0] != 43;
    assert SkipSpaces(s) == s;
  }

  /** Printed numbers are plain: digits only, and no zero in front of another digit. */
  lemma {:induction false} DecimalShape(n: nat)
    ensures var s := ToDecimal(n);
      (forall i :: 0 <= i < |s| ==> 48 <= s[i] <= 57) && (s[0] == 48 <==> n == 0) && (n == 0 ==> |s| == 1)
  {
    if n >= 10 {
      DecimalShape(n / 10);
    }
  }

  function Zeros(k: nat): Data {
    seq(k, _ => 48)
  }

  lemma {:induction false} LeadingZeros(k: nat, s: Data)
    ensures DigitsValue(Zeros(k) + s, 0) == DigitsValue(s, 0)
  {
    if k == 0 {
      assert Zeros(0) + s == s;
    } else {
      assert (Zeros(k) + s)[1..] == Zeros(k - 1) + s;
      LeadingZeros(k - 1, s);
    }
  }

  predicate Blank(b: Byte) { b == 32 || b == 9 || b == 10 || b == 11 || b == 12 || b == 13 }

  lemma {:induction false} BlanksSkipped(blanks: Data, s: Data)
    requires forall i :: 0 <= i < |blanks| ==> Blank(blanks[i])
    requires s == [] || !Blank(s[0])
    ensures SkipSpaces(blanks + s) == s
  {
    if blanks == [] {
      assert blanks + s == s;
    } else {
      assert (blanks + s)[1..] == blanks[1..] + s;
      BlanksSkipped(blanks[1..], s);
    }
  }

  /**
   * What `std::stoul` makes of a number: blanks before it, one sign, zeros in front and anything but a digit behind it
   * are allowed, a minus sign counts down from 2^64, and from 2^64 on it is out of range.
   */
  lemma {:induction false} NumberRead(blanks: Data, sign: Data, zeros: nat, n: nat, rest: Data)
    requires forall i :: 0 <= i < |blanks| ==> Blank(blanks[i])
    requires sign == [] || sign == [43] || sign == [45]
    requires rest == [] || !(48 <= rest[0] <= 57)
    ensures ParseUnsigned(blanks + (sign + (Zeros(zeros) + (ToDecimal(n) + rest))))
         == if n >= 0x1_0000_0000_0000_0000 then OutOfRange
            else Value(if sign == [45] && n > 0 then 0x1_0000_0000_0000_0000 - n else n)
  {
    var digits := Zeros(zeros) + (ToDecimal(n) + rest);
    DecimalShape(n);
    assert digits != [] && 48 <= digits[0] <= 57;
    BlanksSkipped(blanks, sign + digits);
    LeadingZeros(zeros, ToDecimal(n) + rest);
    DigitsOfDecimal(n, rest);
    SignTaken(sign, digits);
  }

  lemma SignTaken(sign: Data, digits: Data)
    requires sign == [] || sign == [43] || sign == [45]
    requires digits != [] && 48 <= digits[0] <= 57
    ensures sign == [] ==> sign + digits == digits
    ensures sign != [] ==> (sign + digits)[0] == sign[0] && (sign + digits)[1..] == digits
  {
  }

  /** Without a digit there is no number. */
  lemma {:induction false} NoNumberRead(blanks: Data, sign: Data, rest: Data)
    requires forall i :: 0 <= i < |blanks| ==> Blank(blanks[i])
    requires sign == [] || sign == [43] || sign == [45]
    requires rest == [] || !(48 <= rest[0] <= 57)
    requires sign == [] && rest != [] ==> !Blank(rest[0]) && rest[0] != 43 && rest[0] != 45
    ensures ParseUnsigned(blanks + (sign + rest)) == Invalid
  {
    BlanksSkipped(blanks, sign + rest);
    if sign == [] {
      assert sign + rest == rest;
    } else {
      assert (sign + rest)[1..] == rest;
    }
  }

  // ------------------------------------------------------------------ negotiation

  datatype Negotiated = Negotiated(blockSize: nat, timeoutS: nat, oack: seq<Opt>)

  /** What the server can see of its surroundings while it negotiates. */
  datatype Surroundings = Surroundings(kind: PacketType, mtu: int, fileSize: nat)

  /** `static_cast<int>` of a block size that came out of a `uint32_t`. */
  function AsInt32(n: nat): int {
    if n < UINT32_LIMIT / 2 then n else n - UINT32_LIMIT
  }

  function Acked(g: Negotiated, name: Data, value: Data): Negotiated {
    g.(oack := g.oack + [Opt(name, value)])
  }

  function OnBlksize(g: Negotiated, o: Opt, mtu: int): Negotiated {
    match ParseUnsigned(o.value)
    case Value(n) =>
      var size := n % UINT32_LIMIT;
      if 0 <= mtu < AsInt32(size) then Acked(g.(blockSize := mtu), o.name, ToDecimal(mtu))
      else Acked(g.(blockSize := size), o.name, o.value)
    case _ => g
  }

  function OnTimeout(g: Negotiated, o: Opt): Negotiated {
    match ParseUnsigned(o.value)
    case Value(n) =>
      if n < 1 || n > 255 then g else Acked(g.(timeoutS := n), o.name, ToDecimal(n))
    case _ => g
  }

  function OnOption(g: Negotiated, o: Opt, env: Surroundings): Negotiated {
    var name := CStr(o.name);
    if name == BlksizeName() then OnBlksize(g, o, env.mtu)
    else if name == TsizeName() then
      if env.kind == READ then Acked(g, o.name, ToDecimal(env.fileSize)) else g
    else if name == TimeoutName() then OnTimeout(g, o)
    else g
  }

  /** The outcome of handling the first options of a request, in order. */
  function Negotiate(options: seq<Opt>, env: Surroundings): Negotiated {
    if options == [] then Negotiated(DEFAULT_BLOCK_SIZE, DEFAULT_TIMEOUT_S, [])
    else OnOption(Negotiate(options[..|options| - 1], env), options[|options| - 1], env)
  }

  /** The last option of that name, if any. */
  function LastNamed(options: seq<Opt>, name: Data): Option<Opt> {
    if options == [] then None
    else if CStr(options[|options| - 1].name) == name then Some(options[|options| - 1])
    else LastNamed(options[..|options| - 1], name)
  }

  lemma LastNamedSnoc(options: seq<Opt>, o: Opt, name: Data)
    ensures LastNamed(options + [o], name)
         == if CStr(o.name) == name then Some(o) else LastNamed(options, name)
  {
    assert (options + [o])[..|options|] == options;
  }

  /** Names come out in request order, each from a request option of its own. */
  predicate NamesWithin(acked: seq<Opt>, asked: seq<Opt>) {
    if acked == [] then true
    else if asked == [] then false
    else if acked[|acked| - 1].name == asked[|asked| - 1].name
            && NamesWithin(acked[..|acked| - 1], asked[..|asked| - 1]) then true
    else NamesWithin(acked, asked[..|asked| - 1])
  }

  lemma NamesDiffer()
    ensures BlksizeName() != TsizeName() && BlksizeName() != TimeoutName() && TsizeName() != TimeoutName()
  {
    assert BlksizeName()[0] == 66;
    assert |TsizeName()| != |TimeoutName()|;
    assert TsizeName()[0] == 84 && TimeoutName()[0] == 84;
  }

  lemma {:induction false} OackNamesSubsequence(options: seq<Opt>, env: Surroundings)
    ensures NamesWithin(Negotiate(options, env).oack, options)
  {
    if options != [] {
      var init, o := options[..|options| - 1], options[|options| - 1];
      OackNamesSubsequence(init, env);
      var before, after := Negotiate(init, env).oack, Negotiate(options, env).oack;
      OneAckedAtMost(Negotiate(init, env), o, env);
      if after != before {
        assert after[..|after| - 1] == before;
      }
    }
  }

  lemma OneAckedAtMost(g: Negotiated, o: Opt, env: Surroundings)
    ensures var h := OnOption(g, o, env).oack;
      h == g.oack || (exists v :: h == g.oack + [Opt(o.name, v)])
  {
  }

  /** The timeout is always usable, and it is the one the last acknowledged TIMEOUT option names. */
  lemma {:induction false} TimeoutNegotiated(options: seq<Opt>, env: Surroundings)
    ensures var g := Negotiate(options, env);
      var last := LastNamed(g.oack, TimeoutName());
      && 1 <= g.timeoutS <= 255
      && (if last.None? then g.timeoutS == DEFAULT_TIMEOUT_S
          else ParseUnsigned(last.value.value) == Value(g.timeoutS))
  {
    if options != [] {
      var init, o := options[..|options| - 1], options[|options| - 1];
      TimeoutNegotiated(init, env);
      TimeoutStep(Negotiate(init, env), o, env);
    }
  }

  ghost predicate TimeoutAgrees(g: Negotiated) {
    var last := LastNamed(g.oack, TimeoutName());
    && 1 <= g.timeoutS <= 255
    && (if last.None? then g.timeoutS == DEFAULT_TIMEOUT_S
        else ParseUnsigned(last.value.value) == Value(g.timeoutS))
  }

  lemma TimeoutStep(g: Negotiated, o: Opt, env: Surroundings)
    requires TimeoutAgrees(g)
    ensures TimeoutAgrees(OnOption(g, o, env))
  {
    NamesDiffer();
    var h := OnOption(g, o, env);
    if h.oack != g.oack {
      LastNamedSnoc(g.oack, h.oack[|g.oack|], TimeoutName());
      if CStr(o.name) == TimeoutName() {
        DecimalRoundTrip(h.timeoutS);
      }
    }
  }

  ghost predicate BlockSizeAgrees(g: Negotiated) {
    var last := LastNamed(g.oack, BlksizeName());
    if last.None? then g.blockSize == DEFAULT_BLOCK_SIZE
    else (
      && ParseUnsigned(last.value.value).Value?
      && g.blockSize == ParseUnsigned(last.value.value).n % UINT32_LIMIT)
  }

  lemma BlockSizeStep(g: Negotiated, o: Opt, env: Surroundings)
    requires BlockSizeAgrees(g)
    ensures BlockSizeAgrees(OnOption(g, o, env))
  {
    NamesDiffer();
    if CStr(o.name) == BlksizeName() {
      BlksizeOptionStep(g, o, env.mtu);
    } else {
      var h := OnOption(g, o, env);
      if h.oack != g.oack {
        LastNamedSnoc(g.oack, h.oack[|g.oack|], BlksizeName());
      }
    }
  }

  lemma BlksizeOptionStep(g: Negotiated, o: Opt, mtu: int)
    requires BlockSizeAgrees(g) && CStr(o.name) == BlksizeName()
    ensures BlockSizeAgrees(OnBlksize(g, o, mtu))
  {
    var h := OnBlksize(g, o, mtu);
    if h.oack != g.oack {
      LastNamedSnoc(g.oack, h.oack[|g.oack|], BlksizeName());
      if 0 <= mtu == h.blockSize {
        DecimalRoundTrip(h.blockSize);
      }
    }
  }

  lemma {:induction false} BlockSizeInvariant(options: seq<Opt>, env: Surroundings)
    ensures BlockSizeAgrees(Negotiate(options, env))
  {
    if options != [] {
      BlockSizeInvariant(options[..|options| - 1], env);
      BlockSizeStep(Negotiate(options[..|options| - 1], env), options[|options| - 1], env);
    }
  }

  /**
   * The block size used is the number in the last acknowledged BLKSIZE option exactly when that
   * number fits 32 bits; without such an option it is the default of 512.
   */
  lemma BlockSizeAcknowledged(options: seq<Opt>, env: Surroundings)
    ensures var g := Negotiate(options, env);
      var last := LastNamed(g.oack, BlksizeName());
      if last.None? then g.blockSize == DEFAULT_BLOCK_SIZE
      else (
        && ParseUnsigned(last.value.value).Value?
        && (g.blockSize == ParseUnsigned(last.value.value).n
            <==> ParseUnsigned(last.value.value).n < 0x1_0000_0000))
  {
    BlockSizeInvariant(options, env);
  }

  /**
   * Any larger request goes wrong: a client that asks for n >= 2^32 is told n and served n modulo 2^32, for
   * instance 512-byte blocks when it asked for 4294967808.
   */
  lemma BlockSizeMisreported(env: Surroundings, n: nat)
    requires 0x1_0000_0000 <= n < 0x1_0000_0000_0000_0000 && env.mtu >= n % 0x1_0000_0000
    ensures var o := Opt(BlksizeName(), ToDecimal(n));
      var g := Negotiate([o], env);
      g.oack == [o] && g.blockSize == n % 0x1_0000_0000 < n
  {
    var o := Opt(BlksizeName(), ToDecimal(n));
    DecimalRoundTrip(n);
    CStrOfNulFree(BlksizeName());
    assert [o][..0] == [];
    assert Negotiate([o], env) == OnOption(Negotiate([], env), o, env);
  }

  /** The last requested block size that parses. */
  function LastRequested(options: seq<Opt>): Option<nat> {
    if options == [] then None
    else
      var o := options[|options| - 1];
      if CStr(o.name) == BlksizeName() && ParseUnsigned(o.value).Value? then Some(ParseUnsigned(o.value).n)
      else LastRequested(options[..|options| - 1])
  }

  /** The last block size asked for decides, cut to 32 bits and, when it is positive as an int, to the MTU. */
  lemma {:induction false} BlockSizeClamped(options: seq<Opt>, env: Surroundings)
    ensures var g := Negotiate(options, env);
      match LastRequested(options)
      case None => g.blockSize == 512
      case Some(v) =>
        var size := v % 0x1_0000_0000;
        g.blockSize == if env.mtu >= 0 && size < 0x8000_0000 then Min(size, env.mtu) else size
  {
    if options != [] {
      BlockSizeClamped(options[..|options| - 1], env);
      NamesDiffer();
    }
  }

  // ------------------------------------------------------ which options are acknowledged

  /** The seconds a TIMEOUT option asks for, if the server can do that. */
  function RequestedTimeout(o: Opt): Option<nat> {
    if CStr(o.name) == TimeoutName() && ParseUnsigned(o.value).Value? && 1 <= ParseUnsigned(o.value).n <= 255
    then Some(ParseUnsigned(o.value).n) else None
  }

  /** The last of them. */
  function LastTimeout(options: seq<Opt>): Option<nat> {
    if options == [] then None
    else if RequestedTimeout(options[|options| - 1]).Some? then RequestedTimeout(options[|options| - 1])
    else LastTimeout(options[..|options| - 1])
  }

  /** The last timeout from 1 to 255 asked for decides; without one it is two seconds. */
  lemma {:induction false} TimeoutDecided(options: seq<Opt>, env: Surroundings)
    ensures Negotiate(options, env).timeoutS == if LastTimeout(options).Some? then LastTimeout(options).value else 2
  {
    if options != [] {
      TimeoutDecided(options[..|options| - 1], env);
      NamesDiffer();
    }
  }

  /** The server does what the option asks for, in full or in part. */
  predicate Acceptable(o: Opt, env: Surroundings) {
    || (CStr(o.name) == BlksizeName() && ParseUnsigned(o.value).Value?)
    || (CStr(o.name) == TsizeName() && env.kind == READ)
    || RequestedTimeout(o).Some?
  }

  function Accepted(options: seq<Opt>, env: Surroundings): seq<Opt> {
    if options == [] then []
    else
      var front, o := Accepted(options[..|options| - 1], env), options[|options| - 1];
      if Acceptable(o, env) then front + [o] else front
  }

  /** Digits only, no zero in front of another digit, and read back as this number. */
  predicate Prints(s: Data, n: nat) {
    && s != [] && (forall i :: 0 <= i < |s| ==> 48 <= s[i] <= 57) && (s[0] == 48 ==> |s| == 1)
    && ParseUnsigned(s) == Value(n)
  }

  lemma DecimalPrints(n: nat)
    requires n < 0x1_0000_0000_0000_0000
    ensures Prints(ToDecimal(n), n)
  {
    DecimalShape(n);
    DecimalRoundTrip(n);
  }

  /** The text in an acknowledged option, as the client will read it. */
  predicate Answers(o: Opt, a: Opt, env: Surroundings) {
    && a.name == o.name
    && (CStr(o.name) == BlksizeName() && ParseUnsigned(o.value).Value? ==>
          var n := ParseUnsigned(o.value).n;
          if 0 <= env.mtu < AsInt32(n % 0x1_0000_0000) then Prints(a.value, env.mtu) else a.value == o.value)
    && (CStr(o.name) == TsizeName() ==> Prints(a.value, env.fileSize))
    && (RequestedTimeout(o).Some? ==> Prints(a.value, RequestedTimeout(o).value))
  }

  /**
   * The server acknowledges each BLKSIZE that parses, each TSIZE of a READ and each TIMEOUT from 1 to 255, in the
   * order of the request, with the MTU or the text of the request, the file's size and the timeout in plain decimal
   * digits; and nothing else.
   */
  lemma {:induction false} OackExactly(options: seq<Opt>, env: Surroundings)
    requires env.fileSize < 0x1_0000_0000_0000_0000
    ensures var asked, acked := Accepted(options, env), Negotiate(options, env).oack;
      |acked| == |asked| && forall i :: 0 <= i < |acked| ==> Answers(asked[i], acked[i], env)
  {
    if options != [] {
      var front, o := options[..|options| - 1], options[|options| - 1];
      OackExactly(front, env);
      AnswerStep(Negotiate(front, env), o, env);
    }
  }

  lemma AnswerStep(g: Negotiated, o: Opt, env: Surroundings)
    requires env.fileSize < 0x1_0000_0000_0000_0000
    ensures var h := OnOption(g, o, env);
      if Acceptable(o, env) then
        |h.oack| == |g.oack| + 1 && h.oack[..|g.oack|] == g.oack && Answers(o, h.oack[|g.oack|], env)
      else h.oack == g.oack
  {
    NamesDiffer();
    DecimalPrints(env.fileSize);
    if RequestedTimeout(o).Some? {
      DecimalPrints(RequestedTimeout(o).value);
    }
    if 0 <= env.mtu < 0x1_0000_0000_0000_0000 {
      DecimalPrints(env.mtu);
    }
  }

  /** The names on the wire, letter by letter. */
  lemma OptionNames()
    ensures Spells(BlksizeName(), "BLKSIZE") && Spells(TsizeName(), "TSIZE") && Spells(TimeoutName(), "TIMEOUT")
  {
  }
}
