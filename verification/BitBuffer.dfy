/** The growing bit buffer the segments are written to, most significant bit first. */
module BitBuffer {
  import opened Bits

  /** Byte i of a bit sequence; a last incomplete byte is filled up with zero bits. */
  function PackedByte(bits: seq<bool>, i: nat): Byte
    requires 8 * i < |bits|
  {
    if 8 * i + 8 <= |bits| then FullByte(bits[8 * i..8 * i + 8])
    else PartialByte(bits[8 * i..])
  }

  function FullByte(bits: seq<bool>): Byte
    requires |bits| == 8
  {
    ToFromBits(bits);
    assert Pow2(8) == 256;
    FromBits(bits)
  }

  function PartialByte(bits: seq<bool>): Byte
    requires |bits| <= 8
  {
    hide Pow2, FromBits, ToBits;
    ToFromBits(bits);
    ShiftedFits(FromBits(bits), |bits|);
    FromBits(bits) * Pow2(8 - |bits|)
  }

  lemma ShiftedFits(n: nat, k: nat)
    requires k <= 8 && n < Pow2(k)
    ensures n * Pow2(8 - k) < 256
  {
    hide Pow2;
    KnownPowers();
    Pow2Add(k, 8 - k);
    OverSum(Pow2(8 - k), n, Pow2(k) - n);
    MulAtLeast(Pow2(k) - n, Pow2(8 - k));
  }

  function Pack(bits: seq<bool>): (bytes: seq<Byte>)
    ensures |bytes| == (|bits| + 7) / 8
  {
    seq((|bits| + 7) / 8, i requires 0 <= i < (|bits| + 7) / 8 => PackedByte(bits, i))
  }

  function Unpack(bytes: seq<Byte>): (bits: seq<bool>)
    ensures |bits| == 8 * |bytes|
  {
    if |bytes| == 0 then [] else Unpack(bytes[..|bytes| - 1]) + ToBits(bytes[|bytes| - 1], 8)
  }

  /** Whole bytes come back bit for bit. */
  lemma {:induction false} UnpackPack(bits: seq<bool>)
    requires |bits| % 8 == 0
    ensures Unpack(Pack(bits)) == bits
  {
    hide Pack, FullByte, ToBits;
    if |bits| != 0 {
      var k := |bits| - 8;
      UnpackPack(bits[..k]);
      PackWhole(bits[..k], bits[k..]);
      UnpackAppend(Pack(bits[..k]), FullByte(bits[k..]));
      FullByteDigits(bits[k..]);
      assert bits == bits[..k] + bits[k..];
    }
  }

  /** Whole bytes come back byte for byte. */
  lemma {:induction false} PackUnpack(bytes: seq<Byte>)
    ensures Pack(Unpack(bytes)) == bytes
  {
    hide Pack, FullByte, ToBits;
    if |bytes| != 0 {
      var m := |bytes| - 1;
      PackUnpack(bytes[..m]);
      PackWhole(Unpack(bytes[..m]), ToBits(bytes[m], 8));
      FullByteBack(bytes[m]);
    }
  }

  lemma UnpackAppend(bytes: seq<Byte>, b: Byte)
    ensures Unpack(bytes + [b]) == Unpack(bytes) + ToBits(b, 8)
  {
    assert (bytes + [b])[..|bytes|] == bytes;
  }

  lemma FullByteDigits(bits: seq<bool>)
    requires |bits| == 8
    ensures ToBits(FullByte(bits), 8) == bits
  {
    ToFromBits(bits);
  }

  lemma FullByteBack(b: Byte)
    ensures FullByte(ToBits(b, 8)) == b
  {
    hide ToBits, FromBits, Pow2;
    KnownPowers();
    FromToBits(b, 8);
  }

  lemma PackWhole(bits: seq<bool>, tail: seq<bool>)
    requires |bits| % 8 == 0 && |tail| == 8
    ensures Pack(bits + tail) == Pack(bits) + [FullByte(tail)]
  {
    hide FullByte, PartialByte;
    var all, m := bits + tail, |bits| / 8;
    PackPrefix(all, m);
    assert all[..8 * m] == bits;
    assert all[8 * m..8 * m + 8] == tail;
    assert Pack(all)[m] == FullByte(tail);
  }

  lemma PackPrefix(bits: seq<bool>, m: nat)
    requires 8 * m <= |bits|
    ensures Pack(bits)[..m] == Pack(bits[..8 * m])
  {
    forall i | 0 <= i < m ensures Pack(bits)[i] == Pack(bits[..8 * m])[i] {
      assert bits[..8 * m][8 * i..8 * i + 8] == bits[8 * i..8 * i + 8];
    }
  }

  lemma AppendedValue(bits: seq<bool>, bit: bool)
    ensures FromBits(bits + [bit]) == 2 * FromBits(bits) + if bit then 1 else 0
  {
    assert (bits + [bit])[..|bits|] == bits;
  }

  /** Setting the next bit of an incomplete byte. */
  lemma SetNextBit(bits: seq<bool>, bit: bool)
    requires |bits| < 8
    ensures PartialByte(bits + [bit])
         == if bit then Or(PartialByte(bits), Pow2(7 - |bits|)) else PartialByte(bits)
  {
    hide FromBits, Or, Pow2, PartialByte;
    AppendedValue(bits, bit);
    PartialByteIs(bits);
    PartialByteIs(bits + [bit]);
    AppendedShift(FromBits(bits), bit, 7 - |bits|, PartialByte(bits + [bit]));
  }

  lemma PartialByteIs(bits: seq<bool>)
    requires |bits| <= 8
    ensures PartialByte(bits) == FromBits(bits) * Pow2(8 - |bits|)
  {
  }

  lemma AppendedShift(n: nat, bit: bool, k: nat, r: nat)
    requires r == (2 * n + if bit then 1 else 0) * Pow2(k)
    ensures r == if bit then Or(n * Pow2(k + 1), Pow2(k)) else n * Pow2(k + 1)
  {
    hide Or, Pow2;
    var p := Pow2(k);
    Pow2Next(k);
    Distribute(n, p);
    if bit {
      OrDisjoint(n, k + 1, p);
    }
  }

  lemma PartialIsFull(bits: seq<bool>)
    requires |bits| == 8
    ensures PartialByte(bits) == FullByte(bits)
  {
    assert Pow2(0) == 1;
  }

  lemma AppendedByte(bits: seq<bool>, bit: bool)
    ensures var k := |bits| / 8; PackedByte(bits + [bit], k) == PartialByte(bits[8 * k..] + [bit])
  {
    hide FullByte, PartialByte;
    var k := |bits| / 8;
    var tail, all := bits[8 * k..], bits + [bit];
    assert all[8 * k..] == tail + [bit];
    if |tail| == 7 {
      assert all[8 * k..8 * k + 8] == all[8 * k..];
      PartialIsFull(tail + [bit]);
    }
  }

  /** The byte that the next bit goes into. */
  lemma LastByte(bits: seq<bool>)
    ensures var k := |bits| / 8;
            (if |bits| % 8 == 0 then 0 else PackedByte(bits, k)) == PartialByte(bits[8 * k..])
  {
    hide FullByte, PartialByte;
    if |bits| % 8 == 0 {
      EmptyByte(bits[8 * (|bits| / 8)..]);
    }
  }

  /** Appending a bit touches only the last byte. */
  lemma PackAppend(bits: seq<bool>, bit: bool)
    ensures var k := |bits| / 8;
            var old' := if |bits| % 8 == 0 then Pack(bits) + [0] else Pack(bits);
            && |old'| == k + 1
            && Pack(bits + [bit]) == if bit then old'[k := Or(old'[k], Pow2(7 - |bits| % 8))] else old'
  {
    hide FromBits, Or, Pow2, FullByte, PartialByte, PackedByte;
    var k := |bits| / 8;
    var tail := bits[8 * k..];
    var all := bits + [bit];
    SetNextBit(tail, bit);
    PackPrefix(bits, k);
    PackPrefix(all, k);
    assert all[..8 * k] == bits[..8 * k];
    AppendedByte(bits, bit);
    LastByte(bits);
    var old' := if |bits| % 8 == 0 then Pack(bits) + [0] else Pack(bits);
    assert Pack(all) == Pack(all)[..k] + [Pack(all)[k]];
    assert old' == old'[..k] + [old'[k]];
    assert old'[..k] == Pack(bits)[..k];
  }

  lemma EmptyByte(bits: seq<bool>)
    requires bits == []
    ensures PartialByte(bits) == 0
  {
    assert FromBits(bits) == 0;
  }

  /** Digit i of a field, as shifting and masking extract it. */
  lemma {:induction false} DigitAt(n: nat, len: nat, i: nat)
    requires i < len
    ensures ToBits(n, len)[i] == (n / Pow2(len - 1 - i) % 2 == 1)
  {
    if i < len - 1 {
      DigitAt(n / 2, len - 1, i);
      HalfThenShift(n, Pow2(len - 2 - i));
    }
  }

  /** What a put of `len` bits appends: shift counts are taken modulo 32. */
  function FieldBits(num: nat, len: nat): (bits: seq<bool>)
    ensures |bits| == len
  {
    seq(len, i requires 0 <= i < len => num % WORD / Pow2((len - i - 1) % 32) % 2 == 1)
  }

  /** For fields of up to 32 bits that is the number's low digits. */
  lemma FieldIsDigits(num: nat, len: nat)
    requires len <= 32
    ensures FieldBits(num, len) == ToBits(num, len)
  {
    hide ToBits, Pow2;
    var n := num % WORD;
    assert ToBits(n, len) == ToBits(num, len) by {
      KnownPowers();
      ToBitsLow(num, 32, len);
    }
    forall i | 0 <= i < len ensures FieldBits(num, len)[i] == ToBits(n, len)[i] {
      DigitAt(n, len, i);
      assert (len - i - 1) % 32 == len - i - 1;
    }
  }

  class QrBitBuffer {
    var buffer: seq<Byte>
    var length: nat
    ghost var contents: seq<bool>

    ghost predicate Valid()
      reads this
    {
      length == |contents| && buffer == Pack(contents)
    }

    constructor ()
      ensures Valid() && contents == []
    {
      buffer, length, contents := [], 0, [];
    }

    method PutBit(bit: bool)
      requires Valid()
      modifies this
      ensures Valid() && contents == old(contents) + [bit]
    {
      PackAppend(contents, bit);
      var bufIndex := length / 8;
      if |buffer| <= bufIndex {
        buffer := buffer + [0];
      }
      if bit {
        assert Pack(old(contents) + [bit])[bufIndex] == Or(buffer[bufIndex], Pow2(7 - length % 8));
        buffer := buffer[bufIndex := Or(buffer[bufIndex], Pow2(7 - length % 8))];
      }
      length := length + 1;
      contents := contents + [bit];
    }

    /** The low `len` bits of num, most significant first; higher bits are lost. */
    method Put(num: nat, len: nat)
      requires Valid()
      modifies this
      ensures Valid() && contents == old(contents) + FieldBits(num, len)
      ensures len <= 32 ==> contents == old(contents) + ToBits(num, len)
    {
      hide ToBits, Pow2;
      for i := 0 to len
        invariant Valid() && contents == old(contents) + FieldBits(num, len)[..i]
      {
        PutBit(num % WORD / Pow2((len - i - 1) % 32) % 2 == 1);
      }
      if len <= 32 {
        FieldIsDigits(num, len);
      }
    }

    /** The bit at an index; false where there is none. */
    method GetAt(index: int) returns (bit: bool)
      requires Valid()
      ensures bit == (0 <= index < |contents| && contents[index])
    {
      hide Pow2;
      var bufIndex := index / 8;
      if 0 <= bufIndex < |buffer| {
        bit := buffer[bufIndex] / Pow2(7 - index % 8) % 2 == 1;
        if index < |contents| {
          BitOfPacked(contents, index);
        } else {
          BeyondPacked(contents, index);
        }
      } else {
        bit := false;
      }
    }
  }

  lemma BitOfPacked(bits: seq<bool>, index: nat)
    requires index < |bits|
    ensures (Pack(bits)[index / 8] / Pow2(7 - index % 8) % 2 == 1) == bits[index]
  {
    hide FromBits, ToBits;
    var i, k := index / 8, index % 8;
    var b := Pack(bits)[i];
    DigitAt(b, 8, k);
    if 8 * i + 8 <= |bits| {
      ToFromBits(bits[8 * i..8 * i + 8]);
    } else {
      PartialDigits(bits[8 * i..]);
    }
  }

  /** The last byte is filled up with zeros. */
  lemma BeyondPacked(bits: seq<bool>, index: nat)
    requires |bits| <= index < 8 * |Pack(bits)|
    ensures Pack(bits)[index / 8] / Pow2(7 - index % 8) % 2 == 0
  {
    hide FromBits, ToBits, Pow2;
    var i, k := index / 8, index % 8;
    DigitAt(Pack(bits)[i], 8, k);
    PartialZeros(bits[8 * i..], k);
  }

  lemma PartialZeros(bits: seq<bool>, k: nat)
    requires |bits| <= k < 8
    ensures !ToBits(PartialByte(bits), 8)[k]
  {
    ShiftedZeros(FromBits(bits), |bits|, 8 - |bits|, k);
  }

  lemma {:induction false} ShiftedZeros(n: nat, len: nat, m: nat, k: nat)
    requires len <= k < len + m
    ensures !ToBits(n * Pow2(m), len + m)[k]
  {
    hide Pow2;
    assert n * Pow2(m) + 0 == n * Pow2(m);
    ToBitsJoin(n, len, 0, m);
    ZeroBits(m, k - len);
  }

  lemma {:induction false} ZeroBits(len: nat, k: nat)
    requires k < len
    ensures !ToBits(0, len)[k]
  {
    if k < len - 1 {
      ZeroBits(len - 1, k);
    }
  }

  lemma {:induction false} PartialDigits(bits: seq<bool>)
    requires |bits| < 8
    ensures ToBits(PartialByte(bits), 8)[..|bits|] == bits
  {
    ToFromBits(bits);
    ShiftedDigits(FromBits(bits), |bits|, 8 - |bits|);
  }

  lemma {:induction false} ShiftedDigits(n: nat, len: nat, k: nat)
    ensures ToBits(n * Pow2(k), len + k)[..len] == ToBits(n, len)
  {
    if k == 0 {
      assert n * Pow2(0) == n;
    } else {
      ShiftedDigits(n, len, k - 1);
      assert n * Pow2(k) == 2 * (n * Pow2(k - 1));
    }
  }
}
