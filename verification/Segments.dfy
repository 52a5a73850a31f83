/** Data segments: numeric, alphanumeric and byte mode (sections 7.4.3 to 7.4.5 of
    ISO/IEC 18004:2015), written to a bit buffer and parsed back. */
module Segments {
  import opened Bits
  import opened BitBuffer
  import opened Results

  const MODE_NUMBER: nat := 1
  const MODE_ALPHA_NUM: nat := 2
  const MODE_8BIT_BYTE: nat := 4
  const MODE_KANJI: nat := 8

  datatype Segment = Numeric(digits: string) | AlphaNum(text: string) | ByteData(bytes: seq<Byte>) {
    function GetMode(): nat {
      match this
      case Numeric(_) => MODE_NUMBER
      case AlphaNum(_) => MODE_ALPHA_NUM
      case ByteData(_) => MODE_8BIT_BYTE
    }

    function GetLength(): nat {
      match this
      case Numeric(s) => |s|
      case AlphaNum(s) => |s|
      case ByteData(b) => |b|
    }

    /** Whether writing the segment meets no illegal character. */
    predicate Legal() {
      match this
      case Numeric(s) => AllDigits(s)
      case AlphaNum(s) => AllAlphaNum(s)
      case ByteData(_) => true
    }

    function Payload(): seq<bool>
      requires Legal()
    {
      match this
      case Numeric(s) => NumericBits(s)
      case AlphaNum(s) => AlphaNumBits(s)
      case ByteData(b) => ByteBits(b)
    }
  }

  // ---- count fields ----

  /** The width of the character count field, by mode and version. */
  function GetLengthInBits(mode: nat, version: int): Result<nat> {
    if 1 <= version < 10 then
      if mode == MODE_NUMBER then Ok(10)
      else if mode == MODE_ALPHA_NUM then Ok(9)
      else if mode == MODE_8BIT_BYTE then Ok(8)
      else if mode == MODE_KANJI then Ok(8)
      else Throws(BadMode)
    else if version < 27 then
      if mode == MODE_NUMBER then Ok(12)
      else if mode == MODE_ALPHA_NUM then Ok(11)
      else if mode == MODE_8BIT_BYTE then Ok(16)
      else if mode == MODE_KANJI then Ok(10)
      else Throws(BadMode)
    else if version < 41 then
      if mode == MODE_NUMBER then Ok(14)
      else if mode == MODE_ALPHA_NUM then Ok(13)
      else if mode == MODE_8BIT_BYTE then Ok(16)
      else if mode == MODE_KANJI then Ok(12)
      else Throws(BadMode)
    else Throws(BadType)
  }

  function CountBits(s: Segment, version: nat): nat
    requires 1 <= version <= 40
  {
    GetLengthInBits(s.GetMode(), version).value
  }

  // ---- numeric mode: three digits in ten bits ----

  /** The widths of the standard's table: by version class, for numeric, alphanumeric and byte mode. */
  function CountWidth(mode: nat, version: nat): nat {
    var row := if version <= 9 then [10, 9, 8] else if version <= 26 then [12, 11, 16] else [14, 13, 16];
    if mode == 1 then row[0] else if mode == 2 then row[1] else row[2]
  }

  lemma CountBitsIs(s: Segment, version: nat)
    requires 1 <= version <= 40
    ensures CountBits(s, version) == CountWidth(s.GetMode(), version)
  {
  }

  /** Below version 41 exactly the four modes have a width; a version below 1 gets those of the second
      class. */
  lemma WidthTable(mode: nat, version: int)
    ensures var k := if 1 <= version <= 9 then 0 else if version <= 26 then 1 else 2;
            GetLengthInBits(mode, version)
            == if version > 40 then Throws(BadType)
               else if mode == 1 then Ok([10, 12, 14][k])
               else if mode == 2 then Ok([9, 11, 13][k])
               else if mode == 4 then Ok([8, 16, 16][k])
               else if mode == 8 then Ok([8, 10, 12][k])
               else Throws(BadMode)
  {
  }

  predicate IsDigit(c: char) {
    '0' <= c <= '9'
  }

  predicate AllDigits(s: string) {
    forall i :: 0 <= i < |s| ==> IsDigit(s[i])
  }

  function DigitValue(c: char): nat
    requires IsDigit(c)
  {
    c as int - '0' as int
  }

  function DigitChar(n: nat): char
    requires n < 10
  {
    (n + '0' as int) as char
  }

  function Number(s: string): nat
    requires AllDigits(s)
  {
    if |s| == 0 then 0 else 10 * Number(s[..|s| - 1]) + DigitValue(s[|s| - 1])
  }

  function Digits(n: nat, len: nat): (s: string)
    ensures |s| == len
  {
    if len == 0 then [] else Digits(n / 10, len - 1) + [DigitChar(n % 10)]
  }

  function Pow10(n: nat): nat {
    if n == 0 then 1 else 10 * Pow10(n - 1)
  }

  lemma {:induction false} DigitsOfNumber(s: string)
    requires AllDigits(s)
    ensures Number(s) < Pow10(|s|)
    ensures Digits(Number(s), |s|) == s
  {
    if |s| != 0 {
      DigitsOfNumber(s[..|s| - 1]);
      assert s == s[..|s| - 1] + [s[|s| - 1]];
    }
  }

  function NumericBits(s: string): seq<bool>
    requires AllDigits(s)
  {
    if |s| >= 3 then ToBits(Number(s[..3]), 10) + NumericBits(s[3..])
    else if |s| == 2 then ToBits(Number(s), 7)
    else if |s| == 1 then ToBits(Number(s), 4)
    else []
  }

  /** The exact length: ten bits for three digits, seven for two left over, four for one. */
  lemma {:induction false} NumericLength(s: string)
    requires AllDigits(s)
    ensures |NumericBits(s)| == 10 * (|s| / 3) + (if |s| % 3 == 2 then 7 else if |s| % 3 == 1 then 4 else 0)
  {
    if |s| >= 3 {
      NumericLength(s[3..]);
    }
  }

  // ---- alphanumeric mode: two characters in eleven bits ----

  function Code(c: char): Option<nat> {
    if '0' <= c <= '9' then Some(c as int - '0' as int)
    else if 'A' <= c <= 'Z' then Some(c as int - 'A' as int + 10)
    else match c
      case ' ' => Some(36)
      case '$' => Some(37)
      case '%' => Some(38)
      case '*' => Some(39)
      case '+' => Some(40)
      case '-' => Some(41)
      case '.' => Some(42)
      case '/' => Some(43)
      case ':' => Some(44)
      case _ => None
  }

  function CodeChar(n: nat): char {
    if n < 10 then (n + '0' as int) as char
    else if n < 36 then (n - 10 + 'A' as int) as char
    else match n
      case 36 => ' '
      case 37 => '$'
      case 38 => '%'
      case 39 => '*'
      case 40 => '+'
      case 41 => '-'
      case 42 => '.'
      case 43 => '/'
      case _ => ':'
  }

  predicate IsAlphaNum(c: char) {
    Code(c).Some?
  }

  predicate AllAlphaNum(s: string) {
    forall i :: 0 <= i < |s| ==> IsAlphaNum(s[i])
  }

  lemma CodeRoundTrip(c: char)
    requires IsAlphaNum(c)
    ensures Code(c).value < 45 && CodeChar(Code(c).value) == c
  {
  }

  function AlphaNumBits(s: string): seq<bool>
    requires AllAlphaNum(s)
  {
    if |s| >= 2 then ToBits(Code(s[0]).value * 45 + Code(s[1]).value, 11) + AlphaNumBits(s[2..])
    else if |s| == 1 then ToBits(Code(s[0]).value, 6)
    else []
  }

  lemma {:induction false} AlphaNumLength(s: string)
    requires AllAlphaNum(s)
    ensures |AlphaNumBits(s)| == 11 * (|s| / 2) + 6 * (|s| % 2)
  {
    if |s| >= 2 {
      AlphaNumLength(s[2..]);
    }
  }

  // ---- byte mode ----

  function ByteBits(b: seq<Byte>): (bits: seq<bool>)
    ensures |bits| == 8 * |b|
  {
    if |b| == 0 then [] else ToBits(b[0], 8) + ByteBits(b[1..])
  }

  // ---- reading back ----

  function ReadField(bits: seq<bool>, len: nat): Option<(nat, seq<bool>)> {
    if |bits| < len then None else Some((FromBits(bits[..len]), bits[len..]))
  }

  lemma ReadFieldBack(n: nat, len: nat, rest: seq<bool>)
    requires n < Pow2(len)
    ensures ReadField(ToBits(n, len) + rest, len) == Some((n, rest))
  {
    FromToBits(n, len);
    var bits := ToBits(n, len) + rest;
    assert bits[..len] == ToBits(n, len) && bits[len..] == rest;
  }

  function ReadNumeric(bits: seq<bool>, n: nat): (r: Option<(string, seq<bool>)>)
    ensures r.Some? ==> |r.value.1| <= |bits|
  {
    if n == 0 then Some(("", bits))
    else if n == 1 then
      var (v, rest) :- ReadField(bits, 4);
      Some((Digits(v, 1), rest))
    else if n == 2 then
      var (v, rest) :- ReadField(bits, 7);
      Some((Digits(v, 2), rest))
    else
      var (v, rest) :- ReadField(bits, 10);
      var (s, rest') :- ReadNumeric(rest, n - 3);
      Some((Digits(v, 3) + s, rest'))
  }

  function GroupWidth(digits: nat): nat {
    if digits == 1 then 4 else if digits == 2 then 7 else 10
  }

  /** One group of digits. */
  lemma GroupBack(s: string, more: seq<bool>)
    requires AllDigits(s) && 1 <= |s| <= 3
    ensures ReadField(ToBits(Number(s), GroupWidth(|s|)) + more, GroupWidth(|s|)) == Some((Number(s), more))
    ensures Digits(Number(s), |s|) == s
  {
    hide ReadField, ToBits, Digits, Number;
    DigitsOfNumber(s);
    assert Pow2(10) == 1024 && Pow2(7) == 128 && Pow2(4) == 16;
    assert Pow10(3) == 1000 && Pow10(2) == 100 && Pow10(1) == 10;
    ReadFieldBack(Number(s), GroupWidth(|s|), more);
  }

  lemma {:induction false} NumericRoundTrip(s: string, rest: seq<bool>)
    requires AllDigits(s)
    ensures ReadNumeric(NumericBits(s) + rest, |s|) == Some((s, rest))
  {
    hide ReadField, ToBits, Digits, Number;
    if |s| >= 3 {
      var head, tail := s[..3], s[3..];
      var more := NumericBits(tail) + rest;
      NumericRoundTrip(tail, rest);
      GroupBack(head, more);
      assert NumericBits(s) + rest == ToBits(Number(head), 10) + more;
      assert head + tail == s;
    } else if |s| >= 1 {
      GroupBack(s, rest);
    } else {
      assert NumericBits(s) + rest == rest;
    }
  }

  function ReadAlphaNum(bits: seq<bool>, n: nat): (r: Option<(string, seq<bool>)>)
    ensures r.Some? ==> |r.value.1| <= |bits|
  {
    if n == 0 then Some(("", bits))
    else if n == 1 then
      var (v, rest) :- ReadField(bits, 6);
      Some(([CodeChar(v)], rest))
    else
      var (v, rest) :- ReadField(bits, 11);
      var (s, rest') :- ReadAlphaNum(rest, n - 2);
      Some(([CodeChar(v / 45), CodeChar(v % 45)] + s, rest'))
  }

  lemma PairBack(c: char, d: char, more: seq<bool>)
    requires IsAlphaNum(c) && IsAlphaNum(d)
    ensures var v := Code(c).value * 45 + Code(d).value;
            && ReadField(ToBits(v, 11) + more, 11) == Some((v, more))
            && [CodeChar(v / 45), CodeChar(v % 45)] == [c, d]
  {
    hide ReadField, ToBits, Code, CodeChar;
    CodeRoundTrip(c);
    CodeRoundTrip(d);
    var v := Code(c).value * 45 + Code(d).value;
    assert v / 45 == Code(c).value && v % 45 == Code(d).value;
    assert Pow2(11) == 2048;
    ReadFieldBack(v, 11, more);
  }

  lemma SingleBack(c: char, more: seq<bool>)
    requires IsAlphaNum(c)
    ensures ReadField(ToBits(Code(c).value, 6) + more, 6) == Some((Code(c).value, more))
    ensures CodeChar(Code(c).value) == c
  {
    CodeRoundTrip(c);
    assert Pow2(6) == 64;
    ReadFieldBack(Code(c).value, 6, more);
  }

  lemma {:induction false} AlphaNumRoundTrip(s: string, rest: seq<bool>)
    requires AllAlphaNum(s)
    ensures ReadAlphaNum(AlphaNumBits(s) + rest, |s|) == Some((s, rest))
  {
    hide ReadField, ToBits, Code, CodeChar;
    if |s| >= 2 {
      var tail := s[2..];
      var more := AlphaNumBits(tail) + rest;
      AlphaNumRoundTrip(tail, rest);
      PairBack(s[0], s[1], more);
      assert AlphaNumBits(s) + rest == ToBits(Code(s[0]).value * 45 + Code(s[1]).value, 11) + more;
      assert [s[0], s[1]] + tail == s;
    } else if |s| == 1 {
      SingleBack(s[0], rest);
      assert [s[0]] == s;
    } else {
      assert AlphaNumBits(s) + rest == rest;
    }
  }

  function ReadBytes(bits: seq<bool>, n: nat): (r: Option<(seq<Byte>, seq<bool>)>)
    ensures r.Some? ==> |r.value.1| <= |bits|
  {
    if n == 0 then Some(([], bits))
    else if |bits| < 8 then None
    else
      var (b, rest) :- ReadBytes(bits[8..], n - 1);
      Some(([FullByte(bits[..8])] + b, rest))
  }

  lemma {:induction false} BytesRoundTrip(b: seq<Byte>, rest: seq<bool>)
    ensures ReadBytes(ByteBits(b) + rest, |b|) == Some((b, rest))
  {
    hide FullByte, ToBits;
    var bits := ByteBits(b) + rest;
    if |b| != 0 {
      BytesRoundTrip(b[1..], rest);
      FullByteBack(b[0]);
      assert bits[..8] == ToBits(b[0], 8) && bits[8..] == ByteBits(b[1..]) + rest;
      assert [b[0]] + b[1..] == b;
    } else {
      assert bits == rest;
    }
  }

  // ---- whole segments ----

  /** Mode, character count and data. */
  function SegmentBits(s: Segment, version: nat): (bits: seq<bool>)
    requires s.Legal() && 1 <= version <= 40
    ensures |bits| == 4 + CountBits(s, version) + |s.Payload()|
  {
    ToBits(s.GetMode(), 4) + ToBits(s.GetLength(), CountBits(s, version)) + s.Payload()
  }

  function ReadSegment(bits: seq<bool>, version: nat): (r: Option<(Segment, seq<bool>)>)
    requires 1 <= version <= 40
    ensures r.Some? ==> |r.value.1| < |bits|
  {
    var (mode, rest) :- ReadField(bits, 4);
    if mode != 1 && mode != 2 && mode != 4 then None
    else
      var (n, rest) :- ReadField(rest, CountWidth(mode, version));
      ReadData(mode, rest, n)
  }

  function ReadData(mode: nat, bits: seq<bool>, n: nat): (r: Option<(Segment, seq<bool>)>)
    ensures r.Some? ==> |r.value.1| <= |bits|
  {
    if mode == 1 then
      var (s, rest) :- ReadNumeric(bits, n);
      Some((Numeric(s), rest))
    else if mode == 2 then
      var (s, rest) :- ReadAlphaNum(bits, n);
      Some((AlphaNum(s), rest))
    else
      var (b, rest) :- ReadBytes(bits, n);
      Some((ByteData(b), rest))
  }

  lemma DataRoundTrip(s: Segment, rest: seq<bool>)
    requires s.Legal()
    ensures ReadData(s.GetMode(), s.Payload() + rest, s.GetLength()) == Some((s, rest))
  {
    match s
    case Numeric(t) => NumericRoundTrip(t, rest);
    case AlphaNum(t) => AlphaNumRoundTrip(t, rest);
    case ByteData(b) => BytesRoundTrip(b, rest);
  }

  lemma ModeIsKnown(s: Segment)
    ensures s.GetMode() < Pow2(4)
    ensures s.GetMode() in {1, 2, 4}
  {
    assert Pow2(4) == 16;
  }

  /** Mode indicator, count field and data, bit for bit as the standard lays them out. */
  lemma SegmentLayout(s: Segment, version: nat)
    requires s.Legal() && 1 <= version <= 40
    ensures var k := if version <= 9 then 0 else if version <= 26 then 1 else 2;
            match s
            case Numeric(t) =>
              SegmentBits(s, version)
              == [false, false, false, true] + ToBits(|t|, [10, 12, 14][k]) + NumericBits(t)
            case AlphaNum(t) =>
              SegmentBits(s, version)
              == [false, false, true, false] + ToBits(|t|, [9, 11, 13][k]) + AlphaNumBits(t)
            case ByteData(b) =>
              SegmentBits(s, version)
              == [false, true, false, false] + ToBits(|b|, [8, 16, 16][k]) + ByteBits(b)
  {
    ModeIndicators();
    hide ToBits, NumericBits, AlphaNumBits, ByteBits;
  }

  lemma ModeIndicators()
    ensures ToBits(1, 4) == [false, false, false, true]
    ensures ToBits(2, 4) == [false, false, true, false]
    ensures ToBits(4, 4) == [false, true, false, false]
  {
  }

  /** A segment whose count fits its field is read back, and nothing after it is consumed. */
  lemma SegmentRoundTrip(s: Segment, version: nat, rest: seq<bool>)
    requires s.Legal() && 1 <= version <= 40
    requires s.GetLength() < Pow2(CountBits(s, version))
    ensures ReadSegment(SegmentBits(s, version) + rest, version) == Some((s, rest))
  {
    hide ReadField, Pow2, ToBits, ReadData, Segment.Legal, Segment.Payload, Segment.GetLength, Segment.GetMode;
    hide CountBits, CountWidth;
    ModeIsKnown(s);
    CountBitsIs(s, version);
    var w := CountBits(s, version);
    var data := s.Payload() + rest;
    assert SegmentBits(s, version) + rest
        == ToBits(s.GetMode(), 4) + (ToBits(s.GetLength(), w) + data);
    ReadFieldBack(s.GetMode(), 4, ToBits(s.GetLength(), w) + data);
    ReadFieldBack(s.GetLength(), w, data);
    DataRoundTrip(s, rest);
  }

  // ---- the source's writers ----

  /** The value of a digit string; throws at the first other character. */
  method StrToNum(s: string) returns (r: Result<nat>)
    ensures r == if AllDigits(s) then Ok(Number(s)) else Throws(IllegalChar)
  {
    var num := 0;
    for i := 0 to |s|
      invariant AllDigits(s[..i]) && num == Number(s[..i])
    {
      assert s[..i + 1][..i] == s[..i];
      if !IsDigit(s[i]) {
        return Throws(IllegalChar);
      }
      num := num * 10 + DigitValue(s[i]);
    }
    assert s[..|s|] == s;
    return Ok(num);
  }

  method WriteNumeric(data: string, buffer: QrBitBuffer) returns (r: Result<()>)
    requires buffer.Valid()
    modifies buffer
    ensures buffer.Valid()
    ensures r == if AllDigits(data) then Ok(()) else Throws(IllegalChar)
    ensures r.Ok? ==> buffer.contents == old(buffer.contents) + NumericBits(data)
  {
    hide ToBits, Number, NumericBits;
    var i := 0;
    while i + 2 < |data|
      invariant i <= |data| && AllDigits(data[..i])
      invariant buffer.Valid()
      invariant AllDigits(data) ==>
        buffer.contents + NumericBits(data[i..]) == old(buffer.contents) + NumericBits(data)
    {
      NextTriple(data, i);
      assert data[..i + 3] == data[..i] + data[i..i + 3];
      var num :- StrToNum(data[i..i + 3]);
      buffer.Put(num, 10);
      i := i + 3;
    }
    assert data == data[..i] + data[i..];
    LastDigits(data, i);
    if i < |data| {
      if |data| - i == 1 {
        var num :- StrToNum(data[i..i + 1]);
        assert data[i..] == data[i..i + 1];
        buffer.Put(num, 4);
      } else if |data| - i == 2 {
        var num :- StrToNum(data[i..i + 2]);
        assert data[i..] == data[i..i + 2];
        buffer.Put(num, 7);
      }
    }
    return Ok(());
  }

  lemma NextTriple(s: string, i: nat)
    requires i + 2 < |s|
    ensures AllDigits(s) ==>
      && AllDigits(s[i..]) && AllDigits(s[i..i + 3]) && AllDigits(s[i + 3..])
      && NumericBits(s[i..]) == ToBits(Number(s[i..i + 3]), 10) + NumericBits(s[i + 3..])
  {
    hide ToBits, Number;
    var tail := s[i..];
    assert tail[..3] == s[i..i + 3] && tail[3..] == s[i + 3..];
  }

  lemma LastDigits(s: string, i: nat)
    requires i <= |s| <= i + 2
    ensures AllDigits(s) ==>
      && AllDigits(s[i..])
      && NumericBits(s[i..]) == if i == |s| then [] else ToBits(Number(s[i..]), if |s| - i == 2 then 7 else 4)
  {
    hide ToBits, Number;
  }

  method GetCode(c: char) returns (r: Result<nat>)
    ensures r == if IsAlphaNum(c) then Ok(Code(c).value) else Throws(IllegalChar)
  {
    var code := Code(c);
    if code.None? {
      return Throws(IllegalChar);
    }
    return Ok(code.value);
  }

  method WriteAlphaNum(s: string, buffer: QrBitBuffer) returns (r: Result<()>)
    requires buffer.Valid()
    modifies buffer
    ensures buffer.Valid()
    ensures r == if AllAlphaNum(s) then Ok(()) else Throws(IllegalChar)
    ensures r.Ok? ==> buffer.contents == old(buffer.contents) + AlphaNumBits(s)
  {
    hide ToBits, Code, AlphaNumBits;
    var i := 0;
    while i + 1 < |s|
      invariant i <= |s| && AllAlphaNum(s[..i])
      invariant buffer.Valid()
      invariant AllAlphaNum(s) ==>
        buffer.contents + AlphaNumBits(s[i..]) == old(buffer.contents) + AlphaNumBits(s)
    {
      NextPair(s, i);
      var c :- GetCode(s[i]);
      var d :- GetCode(s[i + 1]);
      buffer.Put(c * 45 + d, 11);
      i := i + 2;
    }
    LastOfPairs(s, i);
    if i < |s| {
      var c :- GetCode(s[i]);
      buffer.Put(c, 6);
    }
    return Ok(());
  }

  lemma NextPair(s: string, i: nat)
    requires i + 1 < |s|
    ensures AllAlphaNum(s) ==>
      && AllAlphaNum(s[i..]) && AllAlphaNum(s[i + 2..])
      && AlphaNumBits(s[i..]) == ToBits(Code(s[i]).value * 45 + Code(s[i + 1]).value, 11) + AlphaNumBits(s[i + 2..])
  {
    hide ToBits, Code;
    var tail := s[i..];
    assert tail[2..] == s[i + 2..] && tail[0] == s[i] && tail[1] == s[i + 1];
  }

  lemma LastOfPairs(s: string, i: nat)
    requires i <= |s| <= i + 1
    ensures AllAlphaNum(s) ==>
      && AllAlphaNum(s[i..])
      && AlphaNumBits(s[i..]) == if i < |s| then ToBits(Code(s[i]).value, 6) else []
  {
    hide ToBits, Code;
  }

  method WriteBytes(bytes: seq<Byte>, buffer: QrBitBuffer)
    requires buffer.Valid()
    modifies buffer
    ensures buffer.Valid()
    ensures buffer.contents == old(buffer.contents) + ByteBits(bytes)
  {
    hide ToBits;
    for i := 0 to |bytes|
      invariant buffer.Valid()
      invariant buffer.contents + ByteBits(bytes[i..]) == old(buffer.contents) + ByteBits(bytes)
    {
      assert bytes[i..][1..] == bytes[i + 1..];
      buffer.Put(bytes[i], 8);
    }
    assert buffer.contents + [] == buffer.contents;
  }

  lemma SegmentParts(s: Segment, version: nat, before: seq<bool>)
    requires 1 <= version <= 40
    ensures s.Legal() ==>
      before + ToBits(s.GetMode(), 4) + ToBits(s.GetLength(), CountBits(s, version)) + s.Payload()
      == before + SegmentBits(s, version)
  {
    hide ToBits, Segment.Payload, Segment.Legal;
  }

  /** Mode, count and data of one segment, as both createData and make append them. */
  method WriteSegment(s: Segment, version: nat, buffer: QrBitBuffer) returns (r: Result<()>)
    requires buffer.Valid() && 1 <= version <= 40
    modifies buffer
    ensures buffer.Valid()
    ensures r == if s.Legal() then Ok(()) else Throws(IllegalChar)
    ensures r.Ok? ==> buffer.contents == old(buffer.contents) + SegmentBits(s, version)
  {
    hide ToBits, NumericBits, AlphaNumBits, ByteBits, AllDigits, AllAlphaNum, SegmentBits;
    SegmentParts(s, version, buffer.contents);
    buffer.Put(s.GetMode(), 4);
    var w := GetLengthInBits(s.GetMode(), version).value;
    buffer.Put(s.GetLength(), w);
    match s
    case Numeric(data) => r := WriteNumeric(data, buffer);
    case AlphaNum(data) => r := WriteAlphaNum(data, buffer);
    case ByteData(bytes) => WriteBytes(bytes, buffer); r := Ok(());
  }
}
