/** Format and version words digit by digit, as the standard defines them (sections 7.9 and 7.10 of
    ISO/IEC 18004:2015): the generator polynomials and the format mask are written out here, and the
    words that the source computes are proved to be these. */
module InfoWords {
  import opened Bits
  import opened Gf2
  import opened Bch
  import opened BchDistance

  /** Digit k of the product of a polynomial with q, which has up to six digits. */
  predicate ProductHas(q: nat, powers: set<int>, k: int) {
    (Digit(q, 0) && k in powers) != ((Digit(q, 1) && k - 1 in powers) != ((Digit(q, 2) && k - 2 in powers)
      != ((Digit(q, 3) && k - 3 in powers) != ((Digit(q, 4) && k - 4 in powers) != (Digit(q, 5) && k - 5 in powers)))))
  }

  /** Digit k of a format word without the mask 101010000010010. */
  predicate Unmask(w: nat, k: nat) {
    Digit(w, k) != (k in {1, 4, 10, 12, 14})
  }

  /** Unmasked, w has the digits of q times x^10 + x^8 + x^5 + x^4 + x^2 + x + 1. */
  predicate FormatDigits(w: nat, q: nat) {
    forall k :: 0 <= k < 15 ==> Unmask(w, k) == ProductHas(q, {0, 1, 2, 4, 5, 8, 10}, k)
  }

  /** w has the digits of q times x^12 + x^11 + x^10 + x^9 + x^8 + x^5 + x^2 + 1. */
  predicate VersionDigits(w: nat, q: nat) {
    forall k :: 0 <= k < 18 ==> Digit(w, k) == ProductHas(q, {0, 2, 5, 8, 9, 10, 11, 12}, k)
  }

  /** The fifteen digits of a format word: unmasked, a multiple of the polynomial whose high five digits
      are the data. */
  ghost predicate IsFormatWord(w: nat, data: nat) {
    && w < 32768 && data < 32
    && (forall k :: 0 <= k < 5 ==> Unmask(w, k + 10) == Digit(data, k))
    && exists q: nat :: q < 32 && FormatDigits(w, q)
  }

  /** The eighteen digits of a version word: a multiple of the polynomial whose high six digits are the
      version. */
  ghost predicate IsVersionWord(w: nat, version: nat) {
    && w < 262144 && version < 64
    && (forall k :: 0 <= k < 6 ==> Digit(w, k + 12) == Digit(version, k))
    && exists q: nat :: q < 64 && VersionDigits(w, q)
  }

  // ---- the words computed ----

  lemma MaskDigits()
    ensures forall k :: 0 <= k < 15 ==> Digit(G15_MASK, k) == (k in {1, 4, 10, 12, 14})
  {
    forall k | 0 <= k < 15 ensures Digit(G15_MASK, k) == (k in {1, 4, 10, 12, 14}) {
      FourMore(21522, k);
      FourMore(1345, k - 4);
      FourMore(84, k - 8);
      FourMore(5, k - 12);
    }
  }

  lemma {:induction false} HigherDigit(n: nat, p: nat, k: nat)
    ensures Digit(Shr(n, p), k) == Digit(n, k + p)
  {
    hide Pow2;
    if p > 0 {
      HigherDigit(n / 2, p - 1, k);
      Pow2Next(p - 1);
      HalfThenShift(n, Pow2(p - 1));
    } else {
      Pow2Zero();
    }
  }

  /** A word divisible by a generator is a product of it. */
  lemma WordIsProduct(w: nat, g: nat, n: nat) returns (q: nat)
    requires g != 0 && BitLen(g) <= n && w < Pow2(n) && Rem(w, g) == 0
    ensures q < Pow2(n + 1 - BitLen(g)) && Clmul(q, g) == w
  {
    hide Xor, Clmul, Rem, BitLen, Pow2;
    if w == 0 {
      q := 0;
      ClmulZeroLeft(g);
    } else {
      NothingLeft(g);
      q := DifferenceIsProduct(w, 0, g, n);
      XorZero(w);
    }
  }

  lemma NothingLeft(g: nat)
    requires g != 0
    ensures Rem(0, g) == 0
  {
    LengthZero(0);
    LengthZero(g);
    hide BitLen;
    RemShort(0, g);
  }

  /** Every format word the source computes is the one the standard defines. */
  lemma TypeInfoIsFormatWord(data: nat)
    requires data < 32
    ensures IsFormatWord(TypeInfo(data), data)
  {
    hide Xor, Clmul, Rem, BitLen, Pow2, TypeInfo, Digit, ProductHas, Sum, BchDistance.At;
    var w := TypeInfo(data);
    var x := Xor(w, G15_MASK);
    TypeInfoDivisible(data);
    TypeInfoRoundTrip(data);
    Unmasked(w);
    KnownPowers();
    GeneratorLengths();
    FactorRanges();
    var q := WordIsProduct(x, G15, 15);
    forall k | 0 <= k < 15
      ensures Unmask(w, k) == Digit(x, k) == ProductHas(q, {0, 1, 2, 4, 5, 8, 10}, k)
    {
      MaskDigits();
      DigitXor(w, G15_MASK, k);
      ProductIsSum(q, G15, k);
      FormatSum(q, k);
    }
    assert FormatDigits(w, q);
    forall k | 0 <= k < 5 ensures Unmask(w, k + 10) == Digit(data, k) {
      HigherDigit(x, 10, k);
      assert Shr(x, 10) == data;
    }
  }

  lemma FormatSum(q: nat, k: int)
    ensures Sum(q, G15, k) == ProductHas(q, {0, 1, 2, 4, 5, 8, 10}, k)
  {
    hide Digit, BchDistance.At;
    G15Digits();
  }

  lemma TypeNumberIsVersionWord(version: nat)
    requires version < 64
    ensures IsVersionWord(TypeNumber(version), version)
  {
    hide Xor, Clmul, Rem, BitLen, Pow2, TypeNumber, Digit, ProductHas, Sum, BchDistance.At;
    var w := TypeNumber(version);
    TypeNumberDivisible(version);
    TypeNumberRoundTrip(version);
    KnownPowers();
    GeneratorLengths();
    FactorRanges();
    var q := WordIsProduct(w, G18, 18);
    forall k | 0 <= k < 18 ensures Digit(w, k) == ProductHas(q, {0, 2, 5, 8, 9, 10, 11, 12}, k) {
      ProductIsSum(q, G18, k);
      VersionSum(q, k);
    }
    assert VersionDigits(w, q);
    forall k | 0 <= k < 6 ensures Digit(w, k + 12) == Digit(version, k) {
      HigherDigit(w, 12, k);
      assert Shr(w, 12) == version;
    }
  }

  lemma VersionSum(q: nat, k: int)
    ensures Sum(q, G18, k) == ProductHas(q, {0, 2, 5, 8, 9, 10, 11, 12}, k)
  {
    hide Digit, BchDistance.At;
    G18Digits();
  }

  // ---- no other words are ----

  lemma {:induction false} SameDigits(a: nat, b: nat, n: nat)
    requires a < Pow2(n) && b < Pow2(n) && forall k :: 0 <= k < n ==> Digit(a, k) == Digit(b, k)
    ensures a == b
  {
    if n > 0 {
      assert Digit(a, 0) == Digit(b, 0);
      forall k | 0 <= k < n - 1 ensures Digit(a / 2, k) == Digit(b / 2, k) {
        assert Digit(a, k + 1) == Digit(b, k + 1);
      }
      SameDigits(a / 2, b / 2, n - 1);
    }
  }

  /** A product is divisible, and no longer than its factors. */
  lemma ProductDivisible(q: nat, g: nat, n: nat)
    requires g != 0 && q < Pow2(n)
    ensures Rem(Clmul(q, g), g) == 0 && Clmul(q, g) < Pow2(n + BitLen(g) - 1)
  {
    hide Xor, Clmul, Rem, BitLen, Pow2;
    LengthZero(g);
    LengthZero(0);
    XorZero(Clmul(q, g));
    RemUnique(Clmul(q, g), g, q, 0);
    BitLenLess(q, n);
    if q == 0 {
      ClmulZeroLeft(g);
    } else {
      ClmulBitLen(q, g);
      BitLenLess(Clmul(q, g), n + BitLen(g) - 1);
    }
  }

  lemma FormatWordIs(w: nat, data: nat)
    requires IsFormatWord(w, data)
    ensures w == TypeInfo(data)
  {
    hide Xor, Clmul, Rem, BitLen, Pow2, Digit, ProductHas, Sum, BchDistance.At, Joined, Shl;
    var q: nat :| q < 32 && FormatDigits(w, q);
    var x, p := Xor(w, G15_MASK), Clmul(q, G15);
    Unmasked(w);
    GeneratorLengths();
    FactorRanges();
    ProductDivisible(q, G15, 5);
    forall k | 0 <= k < 15 ensures Unmask(w, k) == Digit(x, k) == Digit(p, k) {
      MaskDigits();
      DigitXor(w, G15_MASK, k);
      ProductIsSum(q, G15, k);
      FormatSum(q, k);
    }
    SameDigits(x, p, 15);
    forall k | 0 <= k < 5 ensures Digit(Shr(x, 10), k) == Digit(data, k) {
      HigherDigit(x, 10, k);
    }
    HighPart(x, 10, data, 5);
    JoinedUnique(data, 10, G15, x);
    XorCancel(G15_MASK, w);
    XorComm(x, G15_MASK);
    XorComm(w, G15_MASK);
  }

  lemma HighPart(x: nat, k: nat, data: nat, n: nat)
    requires x < Pow2(n + k) && data < Pow2(n) && n + k <= 32
    requires forall i :: 0 <= i < n ==> Digit(Shr(x, k), i) == Digit(data, i)
    ensures x / Pow2(k) * Pow2(k) == Shl(data, k)
  {
    hide Pow2, Digit;
    Pow2Add(k, n);
    QuotientBelow(x, Pow2(k), Pow2(n));
    SameDigits(Shr(x, k), data, n);
    ShlIsMultiple(data, k);
    Pow2Monotone(n, 32 - k);
    SmallModulo(data, Pow2(32 - k));
  }

  lemma VersionWordIs(w: nat, version: nat)
    requires IsVersionWord(w, version)
    ensures w == TypeNumber(version)
  {
    hide Xor, Clmul, Rem, BitLen, Pow2, Digit, ProductHas, Sum, BchDistance.At, Joined, Shl;
    var q: nat :| q < 64 && VersionDigits(w, q);
    var p := Clmul(q, G18);
    KnownPowers();
    GeneratorLengths();
    FactorRanges();
    ProductDivisible(q, G18, 6);
    forall k | 0 <= k < 18 ensures Digit(w, k) == Digit(p, k) {
      ProductIsSum(q, G18, k);
      VersionSum(q, k);
    }
    SameDigits(w, p, 18);
    forall k | 0 <= k < 6 ensures Digit(Shr(w, 12), k) == Digit(version, k) {
      HigherDigit(w, 12, k);
    }
    HighPart(w, 12, version, 6);
    JoinedUnique(version, 12, G18, w);
  }

  /** The 32 format words are the source's and no others. */
  lemma FormatWords(w: nat, data: nat)
    ensures IsFormatWord(w, data) <==> data < 32 && w == TypeInfo(data)
  {
    hide IsFormatWord, TypeInfo;
    if data < 32 && w == TypeInfo(data) {
      TypeInfoIsFormatWord(data);
    } else if IsFormatWord(w, data) {
      FormatRange(w, data);
      FormatWordIs(w, data);
    }
  }

  lemma FormatRange(w: nat, data: nat)
    requires IsFormatWord(w, data)
    ensures data < 32
  {
  }

  /** So are the version words. */
  lemma VersionWords(w: nat, version: nat)
    ensures IsVersionWord(w, version) <==> version < 64 && w == TypeNumber(version)
  {
    hide TypeNumber, VersionDigits, Digit;
    if version < 64 && w == TypeNumber(version) {
      TypeNumberIsVersionWord(version);
    } else if IsVersionWord(w, version) {
      VersionWordIs(w, version);
    }
  }
}
