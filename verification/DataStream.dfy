/** The data bit stream: segments, terminator and padding up to the version's capacity
    (sections 7.4.9 and 7.4.10 of ISO/IEC 18004:2015), and the choice of the version. */
module DataStream {
  import opened Bits
  import opened BitBuffer
  import opened Segments
  import opened Codewords
  import opened QrMath
  import opened Polynomial
  import opened Results

  const PAD0: nat := 0xEC
  const PAD1: nat := 0x11

  predicate AllLegal(segments: seq<Segment>) {
    forall i :: 0 <= i < |segments| ==> segments[i].Legal()
  }

  function StreamBits(segments: seq<Segment>, version: nat): seq<bool>
    requires AllLegal(segments) && 1 <= version <= 40
  {
    if |segments| == 0 then []
    else SegmentBits(segments[0], version) + StreamBits(segments[1..], version)
  }

  function Terminated(bits: seq<bool>, capacity: nat): seq<bool> {
    if |bits| + 4 <= capacity then bits + ToBits(0, 4) else bits
  }

  function ToWholeBytes(bits: seq<bool>): (r: seq<bool>)
    ensures |r| % 8 == 0 && |bits| <= |r| < |bits| + 8 && r[..|bits|] == bits
  {
    bits + Falses((8 - |bits| % 8) % 8)
  }

  lemma NextMultiple(a: nat, b: nat)
    requires a % 8 == 0 && b % 8 == 0 && a < b
    ensures a + 8 <= b && (a + 8) % 8 == 0
  {
  }

  function PadBits(first: bool): (bits: seq<bool>)
    ensures |bits| == 8
  {
    ToBits(if first then PAD0 else PAD1, 8)
  }

  /** Alternating pad bytes, up to the capacity. */
  function Padded(bits: seq<bool>, capacity: nat, first: bool): (r: seq<bool>)
    requires |bits| % 8 == 0 && capacity % 8 == 0 && |bits| <= capacity
    ensures |r| == capacity && r[..|bits|] == bits
    decreases capacity - |bits|
  {
    hide PadBits;
    if |bits| == capacity then bits
    else
      NextMultiple(|bits|, capacity);
      var r := Padded(bits + PadBits(first), capacity, !first);
      FirstPart(bits, PadBits(first), r);
      r
  }

  lemma FirstPart(bits: seq<bool>, pad: seq<bool>, r: seq<bool>)
    requires bits + pad <= r
    ensures r[..|bits|] == bits
  {
    assert r[..|bits|] == (bits + pad)[..|bits|];
  }

  lemma TerminatedFits(bits: seq<bool>, capacity: nat)
    requires |bits| <= capacity && capacity % 8 == 0
    ensures |ToWholeBytes(Terminated(bits, capacity))| <= capacity
  {
  }

  function DataBits(bits: seq<bool>, capacity: nat): (r: seq<bool>)
    requires |bits| <= capacity && capacity % 8 == 0
    ensures |r| == capacity
  {
    TerminatedFits(bits, capacity);
    Padded(ToWholeBytes(Terminated(bits, capacity)), capacity, true)
  }

  /** Place k of a pad byte, 11101100 and 00010001 in turn. */
  predicate PadHas(k: nat) {
    k % 16 in {0, 1, 2, 4, 5, 11, 15}
  }

  lemma PadDigits(first: bool, i: nat)
    requires i < 8
    ensures PadBits(first)[i] == PadHas(if first then i else i + 8)
  {
    hide PadBits;
    FirstPad();
    SecondPad();
  }

  lemma FirstPad()
    ensures PadBits(true) == [true, true, true, false, true, true, false, false]
  {
    assert ToBits(PAD0, 8) == [true, true, true, false, true, true, false, false];
  }

  lemma SecondPad()
    ensures PadBits(false) == [false, false, false, true, false, false, false, true]
  {
    assert ToBits(PAD1, 8) == [false, false, false, true, false, false, false, true];
  }

  lemma {:induction false} PaddedAt(bits: seq<bool>, capacity: nat, first: bool, i: nat)
    requires |bits| % 8 == 0 && capacity % 8 == 0 && |bits| <= i < capacity
    ensures Padded(bits, capacity, first)[i] == PadHas(if first then i - |bits| else i - |bits| + 8)
    decreases capacity - |bits|
  {
    hide PadBits, PadHas;
    NextMultiple(|bits|, capacity);
    var next := bits + PadBits(first);
    if i < |next| {
      PadDigits(first, i - |bits|);
      assert Padded(next, capacity, !first)[i] == next[i] by { hide Padded; }
    } else {
      PaddedAt(next, capacity, !first, i);
      PadRepeats(i - |next|);
    }
  }

  lemma PadRepeats(k: nat)
    ensures PadHas(k + 16) == PadHas(k)
  {
  }

  /** Every bit of the stream: the segments', four zeros if they fit, zeros to the end of the byte, and
      the two pad bytes in turn. */
  lemma DataBitsAt(bits: seq<bool>, capacity: nat, i: nat)
    requires |bits| <= capacity && capacity % 8 == 0 && i < capacity
    ensures var end := (if |bits| + 4 <= capacity then |bits| + 11 else |bits| + 7) / 8 * 8;
            DataBits(bits, capacity)[i]
            == if i < |bits| then bits[i] else if i < end then false else PadHas(i - end)
  {
    hide Padded, PadHas;
    FourZeros();
    TerminatedFits(bits, capacity);
    var w := ToWholeBytes(Terminated(bits, capacity));
    var end := (if |bits| + 4 <= capacity then |bits| + 11 else |bits| + 7) / 8 * 8;
    assert |w| == end by { WholeBytesEnd(Terminated(bits, capacity)); }
    if i < |w| {
      assert DataBits(bits, capacity)[..|w|][i] == w[i];
    } else {
      PaddedAt(w, capacity, true, i);
    }
  }

  lemma WholeBytesEnd(bits: seq<bool>)
    ensures |ToWholeBytes(bits)| == (|bits| + 7) / 8 * 8
  {
  }

  // ---- reading back ----

  /** Segments up to mode 0 or fewer than four remaining bits; None if one is malformed. */
  function ReadSegments(bits: seq<bool>, version: nat): Option<seq<Segment>>
    requires 1 <= version <= 40
    decreases |bits|
  {
    if |bits| < 4 || FromBits(bits[..4]) == 0 then Some([])
    else
      var (s, rest) :- ReadSegment(bits, version);
      var more :- ReadSegments(rest, version);
      Some([s] + more)
  }

  /** What follows the segments stops a reader: a zero mode, or too few bits for a mode. */
  predicate Stops(rest: seq<bool>) {
    |rest| < 4 || rest[..4] == [false, false, false, false]
  }

  lemma StopsReading(rest: seq<bool>, version: nat)
    requires Stops(rest) && 1 <= version <= 40
    ensures ReadSegments(rest, version) == Some([])
  {
    if |rest| >= 4 {
      assert FromBits([]) == 0;
      assert FromBits([false]) == 0;
      assert FromBits([false, false]) == 0;
      assert FromBits([false, false, false]) == 0;
      assert [false, false][..1] == [false];
      assert [false, false, false][..2] == [false, false];
      assert [false, false, false, false][..3] == [false, false, false];
    }
  }

  lemma FourZeros()
    ensures ToBits(0, 4) == [false, false, false, false]
  {
    assert ToBits(0, 2) == [false, false];
  }

  /** The stream is the segments' bits, followed by something that stops the reader. */
  lemma DataBitsShape(bits: seq<bool>, capacity: nat)
    requires |bits| <= capacity && capacity % 8 == 0
    ensures var r := DataBits(bits, capacity);
            r[..|bits|] == bits && Stops(r[|bits|..])
  {
    hide Padded;
    FourZeros();
    TerminatedFits(bits, capacity);
    var t := Terminated(bits, capacity);
    var w := ToWholeBytes(t);
    var r := Padded(w, capacity, true);
    assert t[..|bits|] == bits;
    assert r[..|t|] == r[..|w|][..|t|] == t;
    assert r[..|bits|] == t[..|bits|];
    if |bits| + 4 <= capacity {
      assert r[|bits|..][..4] == r[..|t|][|bits|..] == ToBits(0, 4);
    }
  }

  predicate CountsFit(segments: seq<Segment>, version: nat)
    requires 1 <= version <= 40
  {
    forall i :: 0 <= i < |segments| ==> segments[i].GetLength() < Pow2(CountBits(segments[i], version))
  }

  lemma ModeIsNotZero(s: Segment, version: nat, rest: seq<bool>)
    requires s.Legal() && 1 <= version <= 40
    ensures var bits := SegmentBits(s, version) + rest;
            |bits| >= 4 && FromBits(bits[..4]) != 0
  {
    hide ToBits, FromBits;
    var bits := SegmentBits(s, version) + rest;
    assert bits[..4] == ToBits(s.GetMode(), 4);
    assert Pow2(4) == 16;
    FromToBits(s.GetMode(), 4);
  }

  lemma {:induction false} SegmentsRoundTrip(segments: seq<Segment>, version: nat, rest: seq<bool>)
    requires AllLegal(segments) && 1 <= version <= 40 && CountsFit(segments, version)
    requires Stops(rest)
    ensures ReadSegments(StreamBits(segments, version) + rest, version) == Some(segments)
  {
    hide SegmentBits, ReadSegment, FromBits, Stops, CountsFit, Pow2, CountBits, Segment.Legal, Segment.GetLength;
    if |segments| == 0 {
      assert StreamBits(segments, version) + rest == rest;
      StopsReading(rest, version);
    } else {
      var s, more := segments[0], segments[1..];
      var tail := StreamBits(more, version) + rest;
      CountsFitParts(segments, version);
      SegmentsRoundTrip(more, version, rest);
      SegmentRoundTrip(s, version, tail);
      ModeIsNotZero(s, version, tail);
      FirstSegmentApart(segments, version, rest);
      assert [s] + more == segments;
    }
  }

  lemma FirstSegmentApart(segments: seq<Segment>, version: nat, rest: seq<bool>)
    requires AllLegal(segments) && 1 <= version <= 40 && |segments| > 0
    ensures StreamBits(segments, version) + rest
         == SegmentBits(segments[0], version) + (StreamBits(segments[1..], version) + rest)
  {
    hide SegmentBits, Segment.Legal;
  }

  lemma CountsFitParts(segments: seq<Segment>, version: nat)
    requires 1 <= version <= 40 && CountsFit(segments, version) && |segments| > 0
    ensures segments[0].GetLength() < Pow2(CountBits(segments[0], version))
    ensures CountsFit(segments[1..], version)
  {
    hide Pow2;
  }

  // ---- no count field is truncated ----

  /** The largest number of data codewords any error correction level gives a version up to 9,
      up to 26, and up to 40. */
  function MaxDataCount(version: nat): nat {
    if version < 10 then 232 else if version < 27 then 1370 else 2956
  }

  /** Data that fits the version has a length that fits the version's count field. */
  lemma LengthFitsField(s: Segment, version: nat)
    requires s.Legal() && 1 <= version <= 40
    requires |s.Payload()| <= 8 * MaxDataCount(version)
    ensures s.GetLength() < Pow2(CountBits(s, version))
  {
    assert Pow2(8) == 256 && Pow2(9) == 512 && Pow2(10) == 1024 && Pow2(11) == 2048;
    assert Pow2(12) == 4096 && Pow2(13) == 8192 && Pow2(14) == 16384;
    assert Pow2(16) == 65536 by { assert Pow2(15) == 32768; }
    match s
    case Numeric(t) => NumericLength(t);
    case AlphaNum(t) => AlphaNumLength(t);
    case ByteData(b) =>
  }

  lemma {:induction false} PayloadWithin(segments: seq<Segment>, version: nat, i: nat)
    requires AllLegal(segments) && 1 <= version <= 40 && i < |segments|
    ensures |segments[i].Payload()| <= |StreamBits(segments, version)|
  {
    if i > 0 {
      PayloadWithin(segments[1..], version, i - 1);
    }
  }

  lemma FittingCounts(segments: seq<Segment>, version: nat)
    requires AllLegal(segments) && 1 <= version <= 40
    requires |StreamBits(segments, version)| <= 8 * MaxDataCount(version)
    ensures CountsFit(segments, version)
  {
    forall i | 0 <= i < |segments|
      ensures segments[i].GetLength() < Pow2(CountBits(segments[i], version))
    {
      PayloadWithin(segments, version, i);
      LengthFitsField(segments[i], version);
    }
  }

  /** Segments that fit a version are read back from its padded bit stream. */
  lemma DataRoundTrip(segments: seq<Segment>, version: nat, capacity: nat)
    requires AllLegal(segments) && 1 <= version <= 40
    requires |StreamBits(segments, version)| <= capacity
    requires capacity % 8 == 0 && capacity <= 8 * MaxDataCount(version)
    ensures ReadSegments(DataBits(StreamBits(segments, version), capacity), version) == Some(segments)
  {
    hide StreamBits, DataBits, ReadSegments, CountsFit, Stops;
    var bits := StreamBits(segments, version);
    var r := DataBits(bits, capacity);
    FittingCounts(segments, version);
    DataBitsShape(bits, capacity);
    SegmentsRoundTrip(segments, version, r[|bits|..]);
    assert r == bits + r[|bits|..];
  }

  // ---- the source's loops ----

  method WriteAll(segments: seq<Segment>, version: nat, buffer: QrBitBuffer) returns (r: Result<()>)
    requires buffer.Valid() && 1 <= version <= 40
    modifies buffer
    ensures buffer.Valid()
    ensures r == if AllLegal(segments) then Ok(()) else Throws(IllegalChar)
    ensures r.Ok? ==> buffer.contents == old(buffer.contents) + StreamBits(segments, version)
  {
    hide SegmentBits, CountBits, Pack, Segment.Legal, Segment.Payload;
    for i := 0 to |segments|
      invariant buffer.Valid() && AllLegal(segments[..i])
      invariant AllLegal(segments) ==>
        buffer.contents + StreamBits(segments[i..], version)
        == old(buffer.contents) + StreamBits(segments, version)
    {
      assert segments[i..][1..] == segments[i + 1..];
      var _ :- WriteSegment(segments[i], version, buffer);
      assert segments[..i + 1] == segments[..i] + [segments[i]];
    }
    assert segments[..|segments|] == segments;
    return Ok(());
  }

  /** The number of data codewords of a version. */
  method CountData(rs: seq<RsBlock>) returns (totalDataCount: nat)
    ensures totalDataCount == TotalData(rs)
  {
    totalDataCount := 0;
    for i := 0 to |rs|
      invariant totalDataCount == TotalData(rs[..i])
    {
      assert rs[..i + 1][..i] == rs[..i];
      totalDataCount := totalDataCount + rs[i].dataCount;
    }
    assert rs[..|rs|] == rs;
  }

  predicate Fits(segments: seq<Segment>, version: nat, rs: seq<RsBlock>)
    requires 1 <= version <= 40
  {
    AllLegal(segments) && |StreamBits(segments, version)| <= 8 * TotalData(rs)
  }

  method PadToByte(buffer: QrBitBuffer)
    requires buffer.Valid()
    modifies buffer
    ensures buffer.Valid() && buffer.contents == ToWholeBytes(old(buffer.contents))
  {
    hide ToWholeBytes;
    ghost var bits, whole := buffer.contents, ToWholeBytes(buffer.contents);
    while buffer.length % 8 != 0
      invariant buffer.Valid() && |bits| <= buffer.length <= |whole|
      invariant buffer.contents == whole[..buffer.length]
      decreases |whole| - buffer.length
    {
      ZeroBehind(bits, buffer.length);
      buffer.PutBit(false);
    }
    MultiplesMeet(buffer.length, |whole|);
  }

  lemma ZeroBehind(bits: seq<bool>, i: nat)
    ensures |bits| <= i < |ToWholeBytes(bits)| ==> !ToWholeBytes(bits)[i]
  {
  }

  lemma MultiplesMeet(a: nat, b: nat)
    requires a % 8 == 0 && b % 8 == 0 && a <= b < a + 8
    ensures a == b
  {
  }

  lemma PaddedFull(bits: seq<bool>, capacity: nat)
    requires |bits| % 8 == 0 && capacity % 8 == 0 && |bits| <= capacity
    ensures |bits| == capacity ==> Padded(bits, capacity, true) == Padded(bits, capacity, false) == bits
  {
  }

  lemma PaddedStep(bits: seq<bool>, capacity: nat, first: bool)
    requires |bits| % 8 == 0 && capacity % 8 == 0 && |bits| < capacity
    ensures |bits| + 8 <= capacity && (|bits| + 8) % 8 == 0
    ensures Padded(bits, capacity, first) == Padded(bits + PadBits(first), capacity, !first)
  {
    hide PadBits;
    NextMultiple(|bits|, capacity);
  }

  /** One pad byte. */
  method PutPad(buffer: QrBitBuffer, pad: nat, capacity: nat, ghost first: bool)
    requires buffer.Valid() && buffer.length % 8 == 0 && capacity % 8 == 0 && buffer.length < capacity
    requires ToBits(pad, 8) == PadBits(first)
    modifies buffer
    ensures buffer.Valid() && buffer.length == old(buffer.length) + 8 <= capacity && buffer.length % 8 == 0
    ensures Padded(buffer.contents, capacity, !first) == Padded(old(buffer.contents), capacity, first)
  {
    hide ToBits, Pack, Padded, PadBits, FieldBits;
    PaddedStep(buffer.contents, capacity, first);
    buffer.Put(pad, 8);
  }

  method PadToCapacity(buffer: QrBitBuffer, capacity: nat)
    requires buffer.Valid() && buffer.length % 8 == 0 && capacity % 8 == 0
    requires buffer.length <= capacity
    modifies buffer
    ensures buffer.Valid() && buffer.contents == Padded(old(buffer.contents), capacity, true)
  {
    hide Padded;
    ghost var padded := Padded(buffer.contents, capacity, true);
    while true
      invariant buffer.Valid() && buffer.length % 8 == 0 && buffer.length <= capacity
      invariant Padded(buffer.contents, capacity, true) == padded
      decreases capacity - buffer.length
    {
      PaddedFull(buffer.contents, capacity);
      if buffer.length >= capacity {
        break;
      }
      PutPad(buffer, PAD0, capacity, true);
      PaddedFull(buffer.contents, capacity);
      if buffer.length >= capacity {
        break;
      }
      PutPad(buffer, PAD1, capacity, false);
    }
  }

  method Terminate(buffer: QrBitBuffer, capacity: nat)
    requires buffer.Valid() && |buffer.contents| <= capacity && capacity % 8 == 0
    modifies buffer
    ensures buffer.Valid() && buffer.contents == DataBits(old(buffer.contents), capacity)
  {
    hide ToBits, Padded, ToWholeBytes, Pack;
    TerminatedFits(buffer.contents, capacity);
    if buffer.length + 4 <= capacity {
      buffer.Put(0, 4);
    }
    PadToByte(buffer);
    PadToCapacity(buffer, capacity);
  }

  /** Throws exactly when a character is illegal or the segments exceed the capacity. */
  method CreateData(tables: Tables, version: nat, rs: seq<RsBlock>, segments: seq<Segment>)
    returns (r: Result<Poly>)
    requires tables.Valid()
    requires 1 <= version <= 40 && ValidBlocks(rs)
    ensures r.Ok? <==> Fits(segments, version, rs)
    ensures r.Throws? ==> r.error == if AllLegal(segments) then CodeLengthOverflow else IllegalChar
    ensures r.Ok? ==> r.value == DataMessage(segments, version, rs)
  {
    hide StreamBits, DataBits, Message, ToBits, Unpack;
    var buffer := new QrBitBuffer();
    var _ :- WriteAll(segments, version, buffer);
    assert buffer.contents == StreamBits(segments, version);
    var totalDataCount := CountData(rs);
    if buffer.length > totalDataCount * 8 {
      return Throws(CodeLengthOverflow);
    }
    Terminate(buffer, totalDataCount * 8);
    var message := CreateBytes(tables, buffer.buffer, rs);
    return Ok(message);
  }

  /** The bits padded to k bytes. */
  function DataBytes(bits: seq<bool>, k: nat): (bytes: Poly)
    requires |bits| <= 8 * k
    ensures |bytes| == k
  {
    hide DataBits, Pow2;
    Pack(DataBits(bits, 8 * k))
  }

  /** The codeword sequence of segments that fit. */
  ghost function DataMessage(segments: seq<Segment>, version: nat, rs: seq<RsBlock>): Poly
    requires 1 <= version <= 40 && ValidBlocks(rs) && Fits(segments, version, rs)
  {
    hide DataBytes, Message, StreamBits, TotalData, ValidBlocks, Segment.Legal;
    Message(DataBytes(StreamBits(segments, version), TotalData(rs)), rs)
  }

  /** From the codewords back to the segments, by way of the blocks. */
  function ReadMessage(message: Poly, version: nat, rs: seq<RsBlock>): Option<seq<Segment>>
    requires 1 <= version <= 40 && ValidBlocks(rs) && |message| == TotalCodes(rs)
  {
    ReadSegments(Unpack(Concat(ReadBlocks(message, rs).0)), version)
  }

  lemma MessageReadBack(segments: seq<Segment>, version: nat, rs: seq<RsBlock>)
    requires 1 <= version <= 40 && ValidBlocks(rs) && Fits(segments, version, rs)
    requires TotalData(rs) <= MaxDataCount(version)
    ensures |DataMessage(segments, version, rs)| == TotalCodes(rs)
    ensures ReadMessage(DataMessage(segments, version, rs), version, rs) == Some(segments)
  {
    hide StreamBits, DataBits, Message, ReadBlocks, Concat, ReadSegments, Pack, Unpack;
    var bits := DataBits(StreamBits(segments, version), 8 * TotalData(rs));
    BufferReadBack(Pack(bits), rs);
    UnpackPack(bits);
    DataRoundTrip(segments, version, 8 * TotalData(rs));
  }

  // ---- the choice of the version ----

  predicate FitsVersion(segments: seq<Segment>, version: nat, table: nat -> seq<RsBlock>)
    requires 1 <= version <= 40
  {
    Fits(segments, version, table(version))
  }

  /** The smallest version whose capacity holds the segments, or 40 when none below it does. */
  ghost predicate IsLeastVersion(segments: seq<Segment>, version: nat, table: nat -> seq<RsBlock>) {
    && 1 <= version <= 40
    && (forall v :: 1 <= v < version ==> !FitsVersion(segments, v, table))
    && (version < 40 ==> FitsVersion(segments, version, table))
  }

  method ChooseVersion(table: nat -> seq<RsBlock>, segments: seq<Segment>) returns (r: Result<nat>)
    ensures r.Throws? ==> r.error == IllegalChar
    ensures r.Ok? <==> AllLegal(segments)
    ensures r.Ok? ==> IsLeastVersion(segments, r.value, table)
  {
    hide StreamBits;
    var version := 1;
    while version < 40
      invariant 1 <= version <= 40
      invariant version > 1 ==> AllLegal(segments)
      invariant forall v :: 1 <= v < version ==> !FitsVersion(segments, v, table)
    {
      var buffer := new QrBitBuffer();
      var _ :- WriteAll(segments, version, buffer);
      assert buffer.contents == StreamBits(segments, version);
      var totalDataCount := CountData(table(version));
      if buffer.length <= totalDataCount * 8 {
        break;
      }
      version := version + 1;
    }
    return Ok(version);
  }
}
