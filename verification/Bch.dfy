/** Format and version information: BCH codes (sections 7.9 and 7.10 of ISO/IEC 18004:2015). */
module Bch {
  import opened Bits
  import opened Gf2

  /** x^10 + x^8 + x^5 + x^4 + x^2 + x + 1 */
  const G15: nat := 1335

  /** x^12 + x^11 + x^10 + x^9 + x^8 + x^5 + x^2 + 1 */
  const G18: nat := 7973

  const G15_MASK: nat := 21522

  lemma GeneratorLengths()
    ensures BitLen(G15) == 11 && BitLen(G18) == 13 && BitLen(G15_MASK) == 15
  {
    hide BitLen;
    KnownPowers();
    BitLenExact(G15, 11);
    BitLenExact(G18, 13);
    BitLenExact(G15_MASK, 15);
  }

  /** `data << k` keeps the low 32 bits. */
  function Shl(data: nat, k: nat): nat {
    data * Pow2(k) % WORD
  }

  /** A check word: the shifted data joined with its remainder. */
  function Joined(data: nat, k: nat, g: nat): nat
    requires g != 0
  {
    Or(Shl(data, k), Rem(Shl(data, k), g))
  }

  function TypeInfo(data: nat): nat {
    Xor(Joined(data, 10, G15), G15_MASK)
  }

  function TypeNumber(data: nat): nat {
    Joined(data, 12, G18)
  }

  lemma ShlIsMultiple(data: nat, k: nat)
    requires k <= 32
    ensures Shl(data, k) == data % Pow2(32 - k) * Pow2(k)
  {
    hide Pow2;
    KnownPowers();
    Pow2Add(k, 32 - k);
    MulMod(data, Pow2(k), Pow2(32 - k));
  }

  /** The joined word is a multiple of the generator whose high part is the shifted data. */
  lemma JoinedDivisible(data: nat, k: nat, g: nat)
    requires g != 0 && BitLen(g) == k + 1 && k <= 32
    ensures Rem(Joined(data, k, g), g) == 0
    ensures Joined(data, k, g) == Shl(data, k) + Rem(Shl(data, k), g)
    ensures Joined(data, k, g) / Pow2(k) * Pow2(k) == Shl(data, k)
  {
    hide Xor, Or, Shl, Pow2, BitLen, Rem;
    var d := Shl(data, k);
    var r := Rem(d, g);
    ShlIsMultiple(data, k);
    var h := data % Pow2(32 - k);
    BitLenLess(r, k);
    OrDisjoint(h, k, r);
    RemXor(d, r, g);
    XorSelf(r);
    RemShort(r, g);
    DivModUnique(d + r, Pow2(k), h, r);
  }

  /** Shifted data and generator determine the check word. */
  lemma JoinedUnique(data: nat, k: nat, g: nat, w: nat)
    requires g != 0 && BitLen(g) == k + 1 && k <= 32
    requires Rem(w, g) == 0 && w / Pow2(k) * Pow2(k) == Shl(data, k)
    ensures w == Joined(data, k, g)
  {
    hide Xor, Or, Shl, Pow2, BitLen, Rem, Joined;
    var d, h, lo := Shl(data, k), w / Pow2(k), w % Pow2(k);
    JoinedDivisible(data, k, g);
    assert w == h * Pow2(k) + lo;
    BitLenLess(lo, k);
    OrDisjoint(h, k, lo);
    RemXor(d, lo, g);
    RemShort(lo, g);
    XorZeroMeansEqual(Rem(d, g), lo);
  }

  lemma RemShort(r: nat, g: nat)
    requires g != 0 && BitLen(r) < BitLen(g)
    ensures Rem(r, g) == r
  {
  }

  /** Format information: removing the mask leaves a multiple of G15 that carries the data. */
  lemma TypeInfoDivisible(data: nat)
    ensures Rem(Xor(TypeInfo(data), G15_MASK), G15) == 0
    ensures Xor(TypeInfo(data), G15_MASK) / 1024 * 1024 == Shl(data, 10)
  {
    hide Xor, Joined, Pow2, BitLen;
    KnownPowers();
    GeneratorLengths();
    JoinedDivisible(data, 10, G15);
    XorCancel(G15_MASK, Joined(data, 10, G15));
  }

  lemma TypeNumberDivisible(data: nat)
    ensures Rem(TypeNumber(data), G18) == 0
    ensures TypeNumber(data) / 4096 * 4096 == Shl(data, 12)
  {
    hide Xor, Joined, Pow2, BitLen;
    KnownPowers();
    GeneratorLengths();
    JoinedDivisible(data, 12, G18);
  }

  /** The five format bits come back from the masked word, which has fifteen bits. */
  lemma TypeInfoRoundTrip(data: nat)
    requires data < 32
    ensures TypeInfo(data) < 32768
    ensures Xor(TypeInfo(data), G15_MASK) / 1024 == data
  {
    hide Xor, Joined, BitLen, Pow2;
    KnownPowers();
    GeneratorLengths();
    assert Shl(data, 10) == data * 1024;
    TypeInfoDivisible(data);
    var j := Joined(data, 10, G15);
    JoinedDivisible(data, 10, G15);
    XorCancel(G15_MASK, j);
    BitLenLess(Rem(Shl(data, 10), G15), 10);
    assert j < 32768;
    BitLenLess(j, 15);
    XorBitLen(j, G15_MASK, 15);
    BitLenLess(TypeInfo(data), 15);
  }

  lemma TypeNumberRoundTrip(data: nat)
    requires data < 64
    ensures TypeNumber(data) < 262144
    ensures TypeNumber(data) / 4096 == data
  {
    hide Xor, Joined, BitLen, Pow2;
    KnownPowers();
    GeneratorLengths();
    assert Shl(data, 12) == data * 4096;
    TypeNumberDivisible(data);
    JoinedDivisible(data, 12, G18);
    BitLenLess(Rem(Shl(data, 12), G18), 12);
  }

  // ---- the source's loops ----

  method GetBCHDigit(data: nat) returns (digit: nat)
    ensures digit == BitLen(data)
  {
    digit := 0;
    var d := data;
    while d != 0
      invariant digit + BitLen(d) == BitLen(data)
    {
      digit := digit + 1;
      d := d / 2;
    }
  }

  method Divide(data: nat, g: nat) returns (d: nat)
    requires g != 0
    ensures d == Rem(data, g)
  {
    hide Xor, BitLen, Pow2;
    d := data;
    while true
      invariant Rem(d, g) == Rem(data, g)
      decreases BitLen(d)
    {
      var dd := GetBCHDigit(d);
      var dg := GetBCHDigit(g);
      if dd < dg {
        break;
      }
      DivisionStep(d, g);
      d := Xor(d, g * Pow2(dd - dg));
    }
  }

  method GetBCHTypeInfo(data: nat) returns (bits: nat)
    ensures bits == TypeInfo(data)
  {
    var d := Divide(Shl(data, 10), G15);
    bits := Xor(Or(Shl(data, 10), d), G15_MASK);
  }

  method GetBCHTypeNumber(data: nat) returns (bits: nat)
    ensures bits == TypeNumber(data)
  {
    var d := Divide(Shl(data, 12), G18);
    bits := Or(Shl(data, 12), d);
  }
}
