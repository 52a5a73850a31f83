/** The base64 streams (section 4 of RFC 4648). Neither stream ever masks its bit buffer, so both
    are modelled with the 32 bits that shifts keep. */
module Base64 {
  import opened Bits
  import opened Characters
  import opened Results
  import opened Sequences
  import opened BitBuffer

  // ---- alphabet ----

  /** The character code of a sextet. */
  function Encode(n: nat): nat
    requires n < 64
  {
    if n < 26 then 0x41 + n
    else if n < 52 then 0x61 + (n - 26)
    else if n < 62 then 0x30 + (n - 52)
    else if n == 62 then 0x2b
    else 0x2f
  }

  function Decode(c: nat): Option<nat> {
    if 0x41 <= c <= 0x5a then Some(c - 0x41)
    else if 0x61 <= c <= 0x7a then Some(c - 0x61 + 26)
    else if 0x30 <= c <= 0x39 then Some(c - 0x30 + 52)
    else if c == 0x2b then Some(62)
    else if c == 0x2f then Some(63)
    else None
  }

  const PAD: nat := 0x3d

  lemma AlphabetRoundTrip(n: nat)
    requires n < 64
    ensures Decode(Encode(n)) == Some(n) && Encode(n) != PAD && !IsSpaceCode(Encode(n))
  {
  }

  // ---- base64 text ----

  function Sextet(bits: seq<bool>): (n: nat)
    requires |bits| == 6
    ensures n < 64
  {
    ToFromBits(bits);
    assert Pow2(6) == 64;
    FromBits(bits)
  }

  /** One character for every six bits. */
  function Chars(bits: seq<bool>): (s: seq<nat>)
    requires |bits| % 6 == 0
    ensures |s| == |bits| / 6
  {
    if |bits| == 0 then [] else Chars(bits[..|bits| - 6]) + [Encode(Sextet(bits[|bits| - 6..]))]
  }

  /** The bytes' bits, filled up with zeros to whole characters. */
  function TextBits(bytes: seq<Byte>): (bits: seq<bool>)
    ensures |bits| % 6 == 0
    ensures 8 * |bytes| <= |bits| < 8 * |bytes| + 6 && bits[..8 * |bytes|] == Unpack(bytes)
  {
    hide Unpack;
    WholeSextets(8 * |bytes|);
    Unpack(bytes) + Falses((6 - 8 * |bytes| % 6) % 6)
  }

  lemma WholeSextets(n: nat)
    ensures (n + (6 - n % 6) % 6) % 6 == 0
  {
  }

  function Pads(n: nat): seq<nat> {
    if n % 3 == 0 then [] else seq(3 - n % 3, _ => PAD)
  }

  /** Base64 of a byte sequence: groups of four characters, the last one padded. */
  function Text(bytes: seq<Byte>): seq<nat> {
    Chars(TextBits(bytes)) + Pads(|bytes|)
  }

  lemma GroupOfSix(n: nat, k: nat)
    requires n % 6 == 0 && 6 * k < n
    ensures k < n / 6 && 6 * k + 6 <= n && (6 * k + 6 < n || k == n / 6 - 1)
  {
  }

  lemma {:induction false} CharAt(bits: seq<bool>, k: nat)
    requires |bits| % 6 == 0 && 6 * k < |bits|
    ensures Chars(bits)[k] == Encode(Sextet(bits[6 * k..6 * k + 6]))
  {
    hide Encode, Sextet;
    var i, m := 6 * k, |bits| - 6;
    GroupOfSix(|bits|, k);
    if i < m {
      CharAt(bits[..m], k);
      assert bits[..m][i..i + 6] == bits[i..i + 6];
    } else {
      assert i == m && bits[m..] == bits[i..i + 6];
    }
  }

  /** Whole groups of four characters, of which the last has one or two pads where bytes are missing. */
  lemma TextShape(bytes: seq<Byte>, i: nat)
    ensures |Text(bytes)| == (|bytes| + 2) / 3 * 4
    ensures i < |Text(bytes)| ==> (Text(bytes)[i] == 0x3d <==> i >= (8 * |bytes| + 5) / 6)
  {
    hide TextBits, Encode, Sextet, Decode;
    SextetCount(|TextBits(bytes)|, |bytes|);
    if i < |TextBits(bytes)| / 6 {
      CharAt(TextBits(bytes), i);
      AlphabetRoundTrip(Sextet(TextBits(bytes)[6 * i..6 * i + 6]));
    }
  }

  lemma SextetCount(k: nat, n: nat)
    requires k % 6 == 0 && 8 * n <= k < 8 * n + 6
    ensures k / 6 == (8 * n + 5) / 6
    ensures (8 * n + 5) / 6 + (if n % 3 == 0 then 0 else 3 - n % 3) == (n + 2) / 3 * 4
  {
    var q, r := n / 3, n % 3;
    SextetsOf(k / 6, q, r);
    DivModUnique(8 * n + 5, 6, k / 6, 8 * n + 5 - k);
    var g := if r == 0 then q else q + 1;
    assert (n + 2) / 3 == g by { DivModUnique(n + 2, 3, g, n + 2 - 3 * g); }
  }

  lemma SextetsOf(j: nat, q: nat, r: nat)
    requires r < 3 && 24 * q + 8 * r <= 6 * j < 24 * q + 8 * r + 6
    ensures j == 4 * q + if r == 0 then 0 else r + 1
  {
  }

  // ---- the encoding stream ----

  class EncodeOutputStream {
    var buffer: nat
    var buflen: nat
    var length: nat
    var base64: seq<nat>
    /** the bits the complete characters hold */
    ghost var sent: seq<bool>
    ghost var bytes: seq<Byte>

    ghost predicate Valid()
      reads this
    {
      && length == |bytes| && buffer < WORD && buflen < 6
      && |sent| % 6 == 0 && base64 == Chars(sent)
      && sent + ToBits(buffer, buflen) == Unpack(bytes)
    }

    constructor ()
      ensures Valid() && bytes == []
    {
      buffer, buflen, length, base64 := 0, 0, 0, [];
      sent, bytes := [], [];
    }

    method WriteEncoded(b: nat)
      requires |sent| % 6 == 0 && base64 == Chars(sent)
      modifies `base64, `sent
      ensures |sent| % 6 == 0 && base64 == Chars(sent)
      ensures sent == old(sent) + ToBits(b, 6)
    {
      hide ToBits, FromBits;
      SextetOf(b);
      assert (sent + ToBits(b, 6))[..|sent|] == sent;
      base64 := base64 + [Encode(b % 64)];
      sent := sent + ToBits(b, 6);
    }

    method WriteByte(n: nat)
      requires Valid()
      modifies this
      ensures Valid() && bytes == old(bytes) + [n % 256]
    {
      hide ToBits, FromBits, Unpack, Chars, Shr, Pow2;
      UnpackAppend(bytes, n % 256);
      ShiftInByte(buffer, n % 256, buflen);
      buffer := (buffer * 256 + n % 256) % WORD;
      buflen := buflen + 8;
      length := length + 1;
      bytes := bytes + [n % 256];
      while buflen >= 6
        invariant length == |bytes| && bytes == old(bytes) + [n % 256]
        invariant buffer < WORD && buflen < 14
        invariant |sent| % 6 == 0 && base64 == Chars(sent)
        invariant sent + ToBits(buffer, buflen) == Unpack(bytes)
      {
        TopSextet(sent, buffer, buflen);
        WriteEncoded(Shr(buffer, buflen - 6));
        buflen := buflen - 6;
      }
    }

    /** Completes the last character. */
    method FlushBits()
      requires Valid()
      modifies this
      ensures bytes == old(bytes) && length == |bytes| && base64 == Chars(TextBits(bytes))
    {
      hide ToBits, FromBits, Unpack, Chars, Pow2, Encode, TextBits;
      FilledUp(bytes, sent, buffer, buflen);
      if buflen > 0 {
        WriteEncoded(buffer * Pow2(6 - buflen));
        buffer := 0;
        buflen := 0;
      }
    }

    /** Completes the last character and the last group; the text is then the bytes' base64. */
    method Flush()
      requires Valid()
      modifies this
      ensures bytes == old(bytes) && base64 == Text(bytes)
    {
      hide TextBits, Chars, Valid;
      FlushBits();
      if length % 3 != 0 {
        var padlen := 3 - length % 3;
        ghost var sofar := base64;
        for i := 0 to padlen
          invariant length == |bytes| && bytes == old(bytes)
          invariant base64 == sofar + seq(i, _ => PAD)
        {
          base64 := base64 + [PAD];
        }
      }
    }
  }

  lemma SextetOf(b: nat)
    ensures Sextet(ToBits(b, 6)) == b % 64
  {
    assert Pow2(6) == 64;
    FromToBits(b, 6);
  }

  lemma TopSextet(before: seq<bool>, buffer: nat, k: nat)
    requires k >= 6
    ensures before + ToBits(buffer, k) == before + ToBits(Shr(buffer, k - 6), 6) + ToBits(buffer, k - 6)
  {
    hide ToBits;
    ToBitsSplit(buffer, 6, k - 6);
    Associative(before, ToBits(Shr(buffer, k - 6), 6), ToBits(buffer, k - 6));
  }

  lemma PendingDigits(sent: nat, n: nat, k: nat)
    requires sent % 6 == 0 && k < 6 && sent + k == 8 * n
    ensures (6 - 8 * n % 6) % 6 == if k == 0 then 0 else 6 - k
  {
    DivModUnique(8 * n, 6, sent / 6, k);
  }

  /** The bits of the text are those sent, and the pending ones filled up with zeros. */
  lemma FilledUp(bytes: seq<Byte>, sent: seq<bool>, buffer: nat, k: nat)
    requires |sent| % 6 == 0 && k < 6 && sent + ToBits(buffer, k) == Unpack(bytes)
    ensures TextBits(bytes) == if k == 0 then sent else sent + ToBits(buffer * Pow2(6 - k), 6)
  {
    hide ToBits, Unpack, Pow2;
    PendingDigits(|sent|, |bytes|, k);
    if k == 0 {
      NoDigits(buffer);
    } else {
      LastSextet(buffer, k);
      Associative(sent, ToBits(buffer, k), Falses(6 - k));
    }
  }

  lemma NoDigits(n: nat)
    ensures ToBits(n, 0) == []
  {
  }

  /** Shifting a byte in keeps the pending digits above it. */
  lemma ShiftInByte(buffer: nat, b: Byte, k: nat)
    requires k + 8 <= 32
    ensures ToBits((buffer * 256 + b) % WORD, k + 8) == ToBits(buffer, k) + ToBits(b, 8)
  {
    hide ToBits, Pow2;
    KnownPowers();
    ToBitsLow(buffer * 256 + b, 32, k + 8);
    ToBitsJoin(buffer, k, b, 8);
  }

  lemma LastSextet(buffer: nat, k: nat)
    requires 0 < k < 6
    ensures ToBits(buffer * Pow2(6 - k), 6) == ToBits(buffer, k) + Falses(6 - k)
  {
    ToBitsJoin(buffer, k, 0, 6 - k);
    ZeroDigits(6 - k);
  }

  lemma {:induction false} ZeroDigits(k: nat)
    ensures ToBits(0, k) == Falses(k)
  {
    if k != 0 {
      ZeroDigits(k - 1);
    }
  }

  // ---- the decoding stream ----

  /** Position in the text, bit buffer, and number of buffered bits. */
  datatype Reader = Reader(pos: nat, buffer: nat, buflen: nat)

  /** One read: the next byte, -1 at the end or at padding, or what is thrown. */
  function Read(str: seq<nat>, r: Reader): (Result<int>, Reader)
    decreases if r.pos <= |str| then |str| - r.pos else 0
  {
    if r.buflen >= 8 then
      (Ok(Shr(r.buffer, r.buflen - 8) % 256), r.(buflen := r.buflen - 8))
    else if r.pos >= |str| then
      (if r.buflen == 0 then Ok(-1) else Throws(UnexpectedEndOfFile), r)
    else
      var c := str[r.pos];
      if c == PAD then (Ok(-1), Reader(r.pos + 1, r.buffer, 0))
      else if IsSpaceCode(c) then Read(str, r.(pos := r.pos + 1))
      else match Decode(c)
        case None => (Throws(BadBase64Char), r.(pos := r.pos + 1))
        case Some(v) => Read(str, Reader(r.pos + 1, (r.buffer * 64 + v) % WORD, r.buflen + 6))
  }

  class DecodeInputStream {
    const str: seq<nat>
    var pos: nat
    var buffer: nat
    var buflen: nat

    function State(): Reader
      reads this
    {
      Reader(pos, buffer, buflen)
    }

    constructor (str: seq<nat>)
      ensures this.str == str && State() == Reader(0, 0, 0)
    {
      this.str, pos, buffer, buflen := str, 0, 0, 0;
    }

    method ReadByte() returns (r: Result<int>)
      modifies this
      ensures (r, State()) == Read(str, old(State()))
    {
      hide Shr;
      while buflen < 8
        invariant Read(str, State()) == Read(str, old(State()))
        decreases if pos <= |str| then |str| - pos else 0
      {
        if pos >= |str| {
          if buflen == 0 {
            return Ok(-1);
          }
          return Throws(UnexpectedEndOfFile);
        }
        var c := str[pos];
        pos := pos + 1;
        if c == PAD {
          buflen := 0;
          return Ok(-1);
        } else if IsSpaceCode(c) {
          continue;
        }
        var v := Decode(c);
        if v == None {
          return Throws(BadBase64Char);
        }
        buffer := (buffer * 64 + v.value) % WORD;
        buflen := buflen + 6;
      }
      var n := Shr(buffer, buflen - 8) % 256;
      buflen := buflen - 8;
      return Ok(n);
    }
  }

  // ---- round trip ----

  /** i bytes of the bits are read; the buffer holds what the characters consumed so far have
      beyond them. */
  ghost predicate InStep(bits: seq<bool>, r: Reader, i: nat) {
    && 8 * i <= 6 * r.pos <= |bits|
    && r.buflen == 6 * r.pos - 8 * i && r.buflen < 14
    && ToBits(r.buffer, r.buflen) == bits[8 * i..6 * r.pos]
  }

  /** Consuming one character. */
  lemma ConsumeChar(bits: seq<bool>, str: seq<nat>, r: Reader, i: nat) returns (r': Reader)
    requires |bits| % 6 == 0 && Chars(bits) <= str
    requires InStep(bits, r, i) && r.buflen < 8 && 8 * i + 8 <= |bits|
    ensures r.pos < r'.pos && InStep(bits, r', i)
    ensures Read(str, r) == Read(str, r')
  {
    hide ToBits, FromBits, Chars, Pow2;
    var six := bits[6 * r.pos..6 * r.pos + 6];
    CharAt(bits, r.pos);
    assert str[r.pos] == Chars(bits)[r.pos];
    var v := Sextet(six);
    AlphabetRoundTrip(v);
    ShiftInSextet(r.buffer, six, r.buflen);
    r' := Reader(r.pos + 1, (r.buffer * 64 + v) % WORD, r.buflen + 6);
    assert bits[8 * i..6 * r'.pos] == bits[8 * i..6 * r.pos] + six;
  }

  lemma ShiftInSextet(buffer: nat, six: seq<bool>, k: nat)
    requires k + 6 <= 32 && |six| == 6
    ensures ToBits((buffer * 64 + Sextet(six)) % WORD, k + 6) == ToBits(buffer, k) + six
  {
    hide ToBits, FromBits;
    KnownPowers();
    ToFromBits(six);
    assert Pow2(6) == 64;
    hide Pow2;
    ToBitsLow(buffer * 64 + Sextet(six), 32, k + 6);
    ToBitsJoin(buffer, k, Sextet(six), 6);
  }

  /** The next byte. */
  lemma {:induction false} ReadNext(bits: seq<bool>, str: seq<nat>, r: Reader, i: nat)
    requires |bits| % 6 == 0 && Chars(bits) <= str
    requires InStep(bits, r, i) && 8 * i + 8 <= |bits|
    ensures var (b, r') := Read(str, r);
            b == Ok(FullByte(bits[8 * i..8 * i + 8]) as int) && InStep(bits, r', i + 1) && r'.buflen < 6
    decreases |bits| - 6 * r.pos
  {
    hide ToBits, FromBits, Chars, Pow2, Shr;
    if r.buflen >= 8 {
      var k := r.buflen - 8;
      ToBitsSplit(r.buffer, 8, k);
      var byte := bits[8 * i..8 * i + 8];
      var all := bits[8 * i..6 * r.pos];
      assert all[..8] == byte && all[8..] == bits[8 * i + 8..6 * r.pos];
      assert ToBits(Shr(r.buffer, k), 8) == byte;
      ByteOfDigits(Shr(r.buffer, k));
    } else {
      var r' := ConsumeChar(bits, str, r, i);
      ReadNext(bits, str, r', i);
    }
  }

  lemma ByteOfDigits(n: nat)
    ensures FullByte(ToBits(n, 8)) == n % 256
  {
    KnownPowers();
    FromToBits(n, 8);
  }

  /** The results of n reads in a row, and the reader after them. */
  function Reads(str: seq<nat>, r: Reader, n: nat): (seq<Result<int>>, Reader) {
    if n == 0 then ([], r)
    else
      var (results, r') := Reads(str, r, n - 1);
      var (b, r'') := Read(str, r');
      (results + [b], r'')
  }

  /** Reading back what was written and flushed gives the bytes... */
  lemma {:induction false} BytesReadBack(bytes: seq<Byte>, n: nat)
    requires n <= |bytes|
    ensures var (results, r) := Reads(Text(bytes), Reader(0, 0, 0), n);
            && |results| == n
            && (forall i :: 0 <= i < n ==> results[i] == Ok(bytes[i] as int))
            && InStep(TextBits(bytes), r, n) && r.buflen < 6
  {
    hide ToBits, FromBits, Chars, Pow2, Shr, Read, FullByte;
    if n == 0 {
      NoDigits(0);
    } else {
      hide InStep, Unpack, TextBits;
      BytesReadBack(bytes, n - 1);
      var (results, r) := Reads(Text(bytes), Reader(0, 0, 0), n - 1);
      ReadNext(TextBits(bytes), Text(bytes), r, n - 1);
      ByteOfText(bytes, n - 1);
    }
  }

  lemma ByteOfText(bytes: seq<Byte>, i: nat)
    requires i < |bytes|
    ensures FullByte(TextBits(bytes)[8 * i..8 * i + 8]) == bytes[i]
  {
    hide Unpack, FullByte;
    UnpackedByte(bytes, i);
    var bits := TextBits(bytes);
    assert bits[..8 * |bytes|][8 * i..8 * i + 8] == bits[8 * i..8 * i + 8];
  }

  lemma {:induction false} UnpackedByte(bytes: seq<Byte>, i: nat)
    requires i < |bytes|
    ensures FullByte(Unpack(bytes)[8 * i..8 * i + 8]) == bytes[i]
  {
    hide ToBits, FromBits, FullByte;
    var m := |bytes| - 1;
    var bits := Unpack(bytes);
    if i < m {
      UnpackedByte(bytes[..m], i);
      assert bits[8 * i..8 * i + 8] == Unpack(bytes[..m])[8 * i..8 * i + 8];
    } else {
      assert bits[8 * i..8 * i + 8] == ToBits(bytes[m], 8);
      ByteOfDigits(bytes[m]);
    }
  }

  /** At the end of the text, padding or not, a reader with an empty buffer reports the end. */
  predicate AtEnd(str: seq<nat>, r: Reader) {
    r.pos <= |str| && (forall i :: r.pos <= i < |str| ==> str[i] == PAD)
    && (r.buflen == 0 || (r.buflen < 8 && r.pos < |str|))
  }

  lemma EndRepeats(str: seq<nat>, r: Reader)
    requires AtEnd(str, r)
    ensures var (b, r') := Read(str, r); b == Ok(-1) && AtEnd(str, r')
  {
  }

  /** ... and from then on nothing but the end of the text. */
  lemma {:induction false} TextRoundTrip(bytes: seq<Byte>, more: nat)
    ensures var (results, r) := Reads(Text(bytes), Reader(0, 0, 0), |bytes| + more);
            && |results| == |bytes| + more && AtEnd(Text(bytes), r)
            && forall i :: 0 <= i < |results| ==> results[i] == if i < |bytes| then Ok(bytes[i] as int) else Ok(-1)
  {
    hide ToBits, FromBits, Chars, Pow2, Shr, Read, AtEnd;
    if more == 0 {
      BytesReadBack(bytes, |bytes|);
      TextEnds(bytes, Reads(Text(bytes), Reader(0, 0, 0), |bytes|).1);
    } else {
      TextRoundTrip(bytes, more - 1);
      EndRepeats(Text(bytes), Reads(Text(bytes), Reader(0, 0, 0), |bytes| + more - 1).1);
    }
  }

  lemma TextEnds(bytes: seq<Byte>, r: Reader)
    requires InStep(TextBits(bytes), r, |bytes|) && r.buflen < 6
    ensures AtEnd(Text(bytes), r)
  {
    var k, n := |TextBits(bytes)|, |bytes|;
    hide ToBits, FromBits, Chars, TextBits;
    LastSextets(r.pos, k, n);
    assert |Chars(TextBits(bytes))| == r.pos;
  }

  lemma LastSextets(pos: nat, k: nat, n: nat)
    requires k % 6 == 0 && 8 * n <= 6 * pos <= k < 8 * n + 6
    ensures k / 6 == pos && (6 * pos != 8 * n ==> n % 3 != 0)
  {
    if n % 3 == 0 {
      SextetsOf(pos, n / 3, 0);
    }
  }

  // ---- the whole text at once ----

  /** The bytes before the first result that is none. */
  function BytesBefore(results: seq<Result<int>>): seq<Byte> {
    if |results| == 0 || results[0].Throws? || !(0 <= results[0].value < 256) then []
    else [results[0].value] + BytesBefore(results[1..])
  }

  lemma {:induction false} BytesFirst(results: seq<Result<int>>, bytes: seq<Byte>)
    requires |bytes| <= |results|
    requires forall i :: 0 <= i < |results| ==> results[i] == if i < |bytes| then Ok(bytes[i] as int) else Ok(-1)
    ensures BytesBefore(results) == bytes
  {
    if |bytes| > 0 {
      BytesFirst(results[1..], bytes[1..]);
      assert [bytes[0]] + bytes[1..] == bytes;
    }
  }

  /** Everything a text holds: a text has no more bytes than characters. */
  function ReadAll(str: seq<nat>): seq<Byte> {
    BytesBefore(Reads(str, Reader(0, 0, 0), |str|).0)
  }

  lemma ReadAllOfText(bytes: seq<Byte>)
    ensures ReadAll(Text(bytes)) == bytes
  {
    hide Reads, BytesBefore, Chars, Unpack;
    var str := Text(bytes);
    assert |str| >= |TextBits(bytes)| / 6 >= |bytes|;
    TextRoundTrip(bytes, |str| - |bytes|);
    BytesFirst(Reads(str, Reader(0, 0, 0), |str|).0, bytes);
  }
}
