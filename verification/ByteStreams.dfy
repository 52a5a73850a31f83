/** The byte stream of the image writer, and the bit stream that packs codes of varying width into
    it, least significant bit first (section 22 of GIF89a). */
module ByteStreams {
  import opened Bits
  import opened Results
  import opened Sequences

  // ---- least significant bit first ----

  function LowBits(n: nat, len: nat): (bits: seq<bool>)
    ensures |bits| == len
  {
    if len == 0 then [] else [n % 2 == 1] + LowBits(n / 2, len - 1)
  }

  function FromLow(bits: seq<bool>): nat {
    if |bits| == 0 then 0 else (if bits[0] then 1 else 0) + 2 * FromLow(bits[1..])
  }

  lemma {:induction false} FromLowBits(n: nat, len: nat)
    requires n < Pow2(len)
    ensures FromLow(LowBits(n, len)) == n
  {
    if len != 0 {
      FromLowBits(n / 2, len - 1);
    }
  }

  /** A field above k lower bits. */
  lemma {:induction false} LowBitsJoin(hi: nat, k: nat, lo: nat, m: nat)
    requires lo < Pow2(k)
    ensures LowBits(hi * Pow2(k) + lo, k + m) == LowBits(lo, k) + LowBits(hi, m)
  {
    if k == 0 {
      assert hi * Pow2(0) + lo == hi;
    } else {
      var p := Pow2(k - 1);
      assert Pow2(k) == 2 * p && lo / 2 < p;
      hide Pow2;
      LowBitsJoin(hi, k - 1, lo / 2, m);
      DoubleProduct(hi, p);
      EvenPlus(hi * p, lo);
      assert LowBits(lo, k) + LowBits(hi, m) == [lo % 2 == 1] + (LowBits(lo / 2, k - 1) + LowBits(hi, m));
    }
  }

  lemma LowBitsSplit(n: nat, k: nat, m: nat)
    ensures LowBits(n, k + m) == LowBits(n, k) + LowBits(Shr(n, k), m)
  {
    hide LowBits, Pow2, Shr;
    ShrParts(n, k);
    LowBitsJoin(Shr(n, k), k, n % Pow2(k), m);
    LowBitsMod(n, k);
  }

  lemma {:induction false} LowBitsMod(n: nat, k: nat)
    ensures LowBits(n % Pow2(k), k) == LowBits(n, k)
  {
    if k != 0 {
      LowBitsMod(n / 2, k - 1);
      ModHalf(n, Pow2(k - 1));
      EvenPlus(n / 2 % Pow2(k - 1), n % 2);
    }
  }

  lemma {:induction false} LowBitsZero(k: nat)
    ensures LowBits(0, k) == Falses(k)
  {
    if k != 0 {
      LowBitsZero(k - 1);
    }
  }

  function UnpackLow(bytes: seq<Byte>): (bits: seq<bool>)
    ensures |bits| == 8 * |bytes|
  {
    if |bytes| == 0 then [] else UnpackLow(bytes[..|bytes| - 1]) + LowBits(bytes[|bytes| - 1], 8)
  }

  // ---- fields of varying width ----

  /** Codes and widths as a bit sequence. */
  function CodeBits(codes: seq<(nat, nat)>): seq<bool> {
    if |codes| == 0 then [] else LowBits(codes[0].0, codes[0].1) + CodeBits(codes[1..])
  }

  predicate AllFit(codes: seq<(nat, nat)>) {
    forall i :: 0 <= i < |codes| ==> codes[i].0 < Pow2(codes[i].1)
  }

  function Widths(codes: seq<(nat, nat)>): seq<nat> {
    if |codes| == 0 then [] else [codes[0].1] + Widths(codes[1..])
  }

  /** The fields of the given widths, and the bits after them. */
  function ReadCodes(bits: seq<bool>, widths: seq<nat>): Option<(seq<(nat, nat)>, seq<bool>)> {
    if |widths| == 0 then Some(([], bits))
    else if |bits| < widths[0] then None
    else
      var (codes, rest) :- ReadCodes(bits[widths[0]..], widths[1..]);
      Some(([(FromLow(bits[..widths[0]]), widths[0])] + codes, rest))
  }

  lemma {:induction false} CodesReadBack(codes: seq<(nat, nat)>, tail: seq<bool>)
    requires AllFit(codes)
    ensures ReadCodes(CodeBits(codes) + tail, Widths(codes)) == Some((codes, tail))
  {
    hide LowBits, FromLow, Pow2;
    if |codes| == 0 {
      assert CodeBits(codes) + tail == tail;
    } else {
      var (code, width) := codes[0];
      var rest := CodeBits(codes[1..]) + tail;
      CodesReadBack(codes[1..], tail);
      FromLowBits(code, width);
      assert CodeBits(codes) + tail == LowBits(code, width) + rest;
      assert (LowBits(code, width) + rest)[..width] == LowBits(code, width);
      assert (LowBits(code, width) + rest)[width..] == rest;
      assert [codes[0]] + codes[1..] == codes;
    }
  }

  // ---- byte stream ----

  class ByteArrayOutputStream {
    var bytes: seq<Byte>

    constructor ()
      ensures bytes == []
    {
      bytes := [];
    }

    method WriteByte(b: nat)
      modifies this
      ensures bytes == old(bytes) + [b % 256]
    {
      bytes := bytes + [b % 256];
    }

    /** Little-endian. */
    method WriteShort(i: nat)
      modifies this
      ensures bytes == old(bytes) + Short(i)
    {
      WriteByte(i);
      WriteByte(i / 256);
    }

    /** `len` bytes of b from `off` on; a length of 0 stands for all of b. */
    method WriteBytes(b: seq<Byte>, off: nat, len: nat)
      requires off + (if len == 0 then |b| else len) <= |b|
      modifies this
      ensures bytes == old(bytes) + b[off..][..if len == 0 then |b| else len]
    {
      var count := if len == 0 then |b| else len;
      for i := 0 to count
        invariant bytes == old(bytes) + b[off..][..i]
      {
        WriteByte(b[i + off]);
      }
    }

    method WriteString(s: string)
      requires forall i :: 0 <= i < |s| ==> s[i] < 256 as char
      modifies this
      ensures bytes == old(bytes) + Ascii(s)
    {
      for i := 0 to |s|
        invariant bytes == old(bytes) + Ascii(s[..i])
      {
        assert s[..i + 1] == s[..i] + [s[i]];
        WriteByte(s[i] as nat);
      }
      assert s[..|s|] == s;
    }
  }

  function Short(i: nat): (b: seq<Byte>)
    ensures |b| == 2
    ensures i < 65536 ==> i == b[0] as int + 256 * b[1] as int
  {
    [i % 256, i / 256 % 256]
  }

  function Ascii(s: string): (b: seq<Byte>)
    requires forall i :: 0 <= i < |s| ==> s[i] < 256 as char
    ensures |b| == |s|
  {
    seq(|s|, i requires 0 <= i < |s| => s[i] as nat)
  }

  // ---- bit stream ----

  class BitOutputStream {
    const out: ByteArrayOutputStream
    var bitLength: nat
    var bitBuffer: nat

    ghost predicate Valid()
      reads this, out
    {
      bitLength < 8 && bitBuffer < Pow2(bitLength)
    }

    /** Every bit written so far, the pending ones included. */
    ghost function Contents(): seq<bool>
      reads this, out
    {
      UnpackLow(out.bytes) + LowBits(bitBuffer, bitLength)
    }

    constructor (out: ByteArrayOutputStream)
      ensures Valid() && this.out == out && Contents() == UnpackLow(out.bytes)
    {
      this.out, bitLength, bitBuffer := out, 0, 0;
    }

    /** Appends `length` bits of data; throws when data is wider, as a shift of a 32-bit number sees
        it. */
    method Write(data: nat, length: nat) returns (r: Result<()>)
      requires Valid()
      modifies this, out
      ensures Valid()
      ensures r == if FitsField(data, length) then Ok(()) else Throws(LengthOver)
      ensures Contents() == old(Contents()) + if r.Ok? then LowBits(data % WORD, length) else []
    {
      hide LowBits, UnpackLow, Above, Pow2, Shr;
      var d: nat, len: nat := data % WORD, length;
      FieldOverflow(d, length % 32);
      if Shr(d, length % 32) != 0 {
        return Throws(LengthOver);
      }
      Pow2Monotone(length % 32, length);
      ghost var written := Contents() + LowBits(d, length);
      while bitLength + len >= 8
        invariant Valid() && d < Pow2(len)
        invariant Contents() + LowBits(d, len) == written
        decreases len, bitLength
      {
        d, len := WriteFull(d, len);
      }
      KeepPending(d, bitLength, bitBuffer, len);
      Associative(UnpackLow(out.bytes), LowBits(bitBuffer, bitLength), LowBits(d, len));
      bitBuffer := Above(d, bitLength, bitBuffer);
      bitLength := bitLength + len;
      return Ok(());
    }

    /** Completes a byte with the low bits of d. */
    method WriteFull(d: nat, len: nat) returns (rest: nat, left: nat)
      requires Valid() && d < Pow2(len) && bitLength + len >= 8
      modifies this, out
      ensures Valid() && bitLength == 0
      ensures left == len - (8 - old(bitLength)) && rest < Pow2(left)
      ensures Contents() + LowBits(rest, left) == old(Contents()) + LowBits(d, len)
    {
      hide LowBits, UnpackLow, Above, Pow2, Shr;
      var take := 8 - bitLength;
      EmitByte(out.bytes, d, bitLength, bitBuffer, len);
      ShrinksBy(d, take, len);
      NoPending();
      out.WriteByte(Above(d, bitLength, bitBuffer));
      left := len - take;
      rest := Shr(d, take);
      bitBuffer := 0;
      bitLength := 0;
    }

    /** Pads the pending bits to a byte with zeros. */
    method Flush()
      requires Valid()
      modifies out
      ensures bitLength == old(bitLength) && bitBuffer == old(bitBuffer)
      ensures UnpackLow(out.bytes) == old(Contents()) + Falses((8 - bitLength) % 8)
    {
      hide LowBits, UnpackLow;
      if bitLength > 0 {
        FlushByte(out.bytes, bitBuffer, bitLength);
        out.WriteByte(bitBuffer);
      } else {
        NoBits(bitBuffer);
      }
    }
  }

  lemma NoBits(n: nat)
    ensures LowBits(n, 0) == []
  {
  }

  lemma NoPending()
    ensures LowBits(0, 0) == [] && Pow2(0) == 1
  {
  }

  lemma UnpackAppend(bytes: seq<Byte>, b: Byte)
    ensures UnpackLow(bytes + [b]) == UnpackLow(bytes) + LowBits(b, 8)
  {
    assert (bytes + [b])[..|bytes|] == bytes;
  }

  /** `(d << k) | lo` */
  function Above(d: nat, k: nat, lo: nat): nat {
    Or(d * Pow2(k), lo)
  }

  /** Whether nothing is left of the data when it is shifted by the length. */
  predicate FitsField(data: nat, length: nat) {
    data % WORD < Pow2(length % 32)
  }

  /** For fields below 32 bits: whether the data is no wider than its field. */
  lemma NarrowField(data: nat, length: nat)
    requires length < 32 && data < WORD
    ensures FitsField(data, length) <==> data < Pow2(length)
    ensures data % WORD == data
  {
    hide Pow2;
    assert data % WORD == data && length % 32 == length;
  }

  /** A table code is far below 32 bits. */
  lemma CodeField(code: nat, width: nat)
    requires width <= 12 && code < Pow2(width)
    ensures FitsField(code, width) && code % WORD == code
  {
    hide Pow2;
    KnownPowers();
    Pow2Monotone(width, 12);
    NarrowField(code, width);
  }

  lemma FieldOverflow(data: nat, length: nat)
    ensures Shr(data, length) == 0 <==> data < Pow2(length)
  {
    hide Pow2;
    QuotientZero(data, Pow2(length));
  }

  /** The byte written is the pending bits and the first of the data bits. */
  lemma EmitByte(bytes: seq<Byte>, d: nat, k: nat, pending: nat, len: nat)
    requires k < 8 && pending < Pow2(k) && k + len >= 8
    ensures UnpackLow(bytes + [Above(d, k, pending) % 256]) + LowBits(Shr(d, 8 - k), len - (8 - k))
         == UnpackLow(bytes) + LowBits(pending, k) + LowBits(d, len)
  {
    hide LowBits, UnpackLow, Pow2, Or, Shr;
    assert Pow2(8) == 256 by { KnownPowers(); }
    OrDisjoint(d, k, pending);
    var b := Above(d, k, pending);
    UnpackAppend(bytes, b % 256);
    LowBitsMod(b, 8);
    LowBitsJoin(d, k, pending, 8 - k);
    LowBitsSplit(d, 8 - k, len - (8 - k));
  }

  lemma KeepPending(d: nat, k: nat, pending: nat, len: nat)
    requires pending < Pow2(k) && d < Pow2(len)
    ensures Above(d, k, pending) < Pow2(k + len)
    ensures LowBits(Above(d, k, pending), k + len) == LowBits(pending, k) + LowBits(d, len)
  {
    hide LowBits, Pow2, Or;
    OrDisjoint(d, k, pending);
    LowBitsJoin(d, k, pending, len);
    Below(d, len, k, pending);
  }

  lemma ShrinksBy(d: nat, k: nat, len: nat)
    requires k <= len && d < Pow2(len)
    ensures Shr(d, k) < Pow2(len - k)
  {
    hide Pow2;
    Pow2Add(k, len - k);
    QuotientBelow(d, Pow2(k), Pow2(len - k));
  }

  lemma Below(hi: nat, len: nat, k: nat, lo: nat)
    requires hi < Pow2(len) && lo < Pow2(k)
    ensures hi * Pow2(k) + lo < Pow2(k + len)
  {
    hide Pow2;
    Pow2Add(len, k);
    JoinBelow(hi, Pow2(len), lo, Pow2(k));
  }

  lemma FlushByte(bytes: seq<Byte>, pending: nat, k: nat)
    requires 0 < k < 8 && pending < Pow2(k)
    ensures UnpackLow(bytes + [pending % 256])
         == UnpackLow(bytes) + LowBits(pending, k) + Falses((8 - k) % 8)
  {
    hide LowBits, UnpackLow, Pow2;
    KnownPowers();
    UnpackAppend(bytes, pending % 256);
    LowBitsMod(pending, 8);
    LowBitsJoin(0, k, pending, 8 - k);
    LowBitsZero(8 - k);
    Associative(UnpackLow(bytes), LowBits(pending, k), Falses(8 - k));
  }
}
