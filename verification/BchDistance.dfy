/** How far apart format words and version words are: what makes a damaged one readable. */
module BchDistance {
  import opened Bits
  import opened Gf2
  import opened Bch

  function Digit(n: nat, k: nat): bool {
    if k == 0 then n % 2 == 1 else Digit(n / 2, k - 1)
  }

  function One(b: bool): nat {
    if b then 1 else 0
  }

  /** In how many of the n low digits two words differ. */
  function Differ(a: nat, b: nat, n: nat): nat {
    if n == 0 then 0 else Differ(a, b, n - 1) + One(Digit(a, n - 1) != Digit(b, n - 1))
  }

  function Ones(w: nat, n: nat): nat {
    if n == 0 then 0 else Ones(w, n - 1) + One(Digit(w, n - 1))
  }

  /** Digits are what the setup loops shift out. */
  lemma {:induction false} DigitIsShifted(n: nat, k: nat)
    ensures Digit(n, k) == (n / Pow2(k) % 2 == 1)
  {
    if k > 0 {
      DigitIsShifted(n / 2, k - 1);
      HalfThenShift(n, Pow2(k - 1));
    }
  }

  // ---- digits of sums and products over GF(2) ----

  lemma {:induction false} DigitXor(a: nat, b: nat, k: nat)
    ensures Digit(Xor(a, b), k) == (Digit(a, k) != Digit(b, k))
  {
    XorStep(a, b);
    var h := Xor(a / 2, b / 2);
    assert Xor(a, b) / 2 == h && (Xor(a, b) % 2 == 1) == ((a % 2 == 1) != (b % 2 == 1));
    if k > 0 {
      DigitXor(a / 2, b / 2, k - 1);
    }
  }

  lemma {:induction false} DigitZero(k: nat)
    ensures !Digit(0, k)
  {
    if k > 0 {
      DigitZero(k - 1);
    }
  }

  lemma {:induction false} DifferIsOnes(a: nat, b: nat, n: nat)
    ensures Differ(a, b, n) == Ones(Xor(a, b), n)
  {
    hide Xor, Digit;
    if n > 0 {
      DifferIsOnes(a, b, n - 1);
      DigitXor(a, b, n - 1);
    }
  }

  /** Digit k of g, none below zero. */
  function At(g: nat, k: int): bool {
    k >= 0 && Digit(g, k)
  }

  /** A product's digit: what the factor's digits select, added up without carry. */
  lemma ProductDigit(q: nat, g: nat, k: int)
    ensures At(Clmul(q, g), k) == ((q % 2 == 1 && At(g, k)) != At(Clmul(q / 2, g), k - 1))
  {
    hide Xor, Clmul;
    var h := Clmul(q / 2, g);
    ClmulStep(q, g);
    if k >= 0 {
      DigitXor(Selected(q % 2, g), 2 * h, k);
      DigitZero(k);
      if k > 0 {
        assert 2 * h / 2 == h;
      }
    }
  }

  /** The digits of a product with a factor of up to six digits. */
  function Sum(q: nat, g: nat, k: int): bool {
    (Digit(q, 0) && At(g, k)) != ((Digit(q, 1) && At(g, k - 1)) != ((Digit(q, 2) && At(g, k - 2))
      != ((Digit(q, 3) && At(g, k - 3)) != ((Digit(q, 4) && At(g, k - 4)) != (Digit(q, 5) && At(g, k - 5))))))
  }

  lemma ProductIsSum(q: nat, g: nat, k: nat)
    requires q < 64
    ensures Digit(Clmul(q, g), k) == Sum(q, g, k)
  {
    hide Clmul;
    var q1, q2, q3, q4, q5 := q / 2, q / 4, q / 8, q / 16, q / 32;
    Halves(q);
    ProductDigit(q, g, k);
    ProductDigit(q1, g, k - 1);
    ProductDigit(q2, g, k - 2);
    ProductDigit(q3, g, k - 3);
    ProductDigit(q4, g, k - 4);
    ProductDigit(q5, g, k - 5);
    ClmulZeroLeft(g);
    if k >= 6 {
      DigitZero(k - 6);
    }
  }

  lemma Halves(q: nat)
    requires q < 64
    ensures q / 2 / 2 == q / 4 && q / 4 / 2 == q / 8 && q / 8 / 2 == q / 16 && q / 16 / 2 == q / 32 && q / 32 / 2 == 0
    ensures Digit(q, 0) == (q % 2 == 1) && Digit(q, 1) == (q / 2 % 2 == 1) && Digit(q, 2) == (q / 4 % 2 == 1)
    ensures Digit(q, 3) == (q / 8 % 2 == 1) && Digit(q, 4) == (q / 16 % 2 == 1) && Digit(q, 5) == (q / 32 % 2 == 1)
    ensures q < 32 ==> !Digit(q, 5)
    ensures q != 0 ==> Digit(q, 0) || Digit(q, 1) || Digit(q, 2) || Digit(q, 3) || Digit(q, 4) || Digit(q, 5)
  {
    assert q / 2 / 2 == q / 4 && q / 4 / 2 == q / 8 && q / 8 / 2 == q / 16 && q / 16 / 2 == q / 32;
    assert Digit(q, 2) == Digit(q / 2, 1) == Digit(q / 4, 0);
    assert Digit(q, 3) == Digit(q / 2, 2) == Digit(q / 4, 1) == Digit(q / 8, 0);
    assert Digit(q, 4) == Digit(q / 2, 3) == Digit(q / 4, 2) == Digit(q / 8, 1) == Digit(q / 16, 0);
    assert Digit(q, 5) == Digit(q / 2, 4) == Digit(q / 4, 3) == Digit(q / 8, 2) == Digit(q / 16, 1) == Digit(q / 32, 0);
  }

  // ---- the two codes ----

  lemma G15Digits()
    ensures forall k: int :: At(G15, k) <==> k in {0, 1, 2, 4, 5, 8, 10}
  {
    forall k: int ensures At(G15, k) <==> k in {0, 1, 2, 4, 5, 8, 10} {
      if k >= 0 {
        FourMore(G15, k);
        FourMore(83, k - 4);
        FourMore(5, k - 8);
        DigitZero(if k >= 12 then k - 12 else 0);
      }
    }
  }

  lemma G18Digits()
    ensures forall k: int :: At(G18, k) <==> k in {0, 2, 5, 8, 9, 10, 11, 12}
  {
    forall k: int ensures At(G18, k) <==> k in {0, 2, 5, 8, 9, 10, 11, 12} {
      if k >= 0 {
        FourMore(G18, k);
        FourMore(498, k - 4);
        FourMore(31, k - 8);
        FourMore(1, k - 12);
        DigitZero(if k >= 16 then k - 16 else 0);
      }
    }
  }

  lemma FourMore(n: nat, k: int)
    ensures At(n, k) == if k < 0 then false
                        else if k == 0 then n % 2 == 1
                        else if k == 1 then n / 2 % 2 == 1
                        else if k == 2 then n / 4 % 2 == 1
                        else if k == 3 then n / 8 % 2 == 1
                        else At(n / 16, k - 4)
  {
    assert n / 2 / 2 == n / 4 && n / 4 / 2 == n / 8 && n / 8 / 2 == n / 16;
    if k >= 1 {
      assert Digit(n, k) == Digit(n / 2, k - 1);
    }
    if k >= 2 {
      assert Digit(n / 2, k - 1) == Digit(n / 4, k - 2);
    }
    if k >= 3 {
      assert Digit(n / 4, k - 2) == Digit(n / 8, k - 3);
    }
    if k >= 4 {
      assert Digit(n / 8, k - 3) == Digit(n / 16, k - 4);
    }
  }

  /** The ones among the first fifteen digits. */
  lemma FifteenOnes(w: nat)
    ensures Ones(w, 15)
      == Six(Digit(w, 0), Digit(w, 1), Digit(w, 2), Digit(w, 3), Digit(w, 4), Digit(w, 5))
       + Six(Digit(w, 6), Digit(w, 7), Digit(w, 8), Digit(w, 9), Digit(w, 10), Digit(w, 11))
       + One(Digit(w, 12)) + One(Digit(w, 13)) + One(Digit(w, 14))
  {
    hide Digit, One, Ones, Six;
    NoOnes(w);
    OnesOfSix(w, 0, Digit(w, 0), Digit(w, 1), Digit(w, 2), Digit(w, 3), Digit(w, 4), Digit(w, 5));
    OnesOfSix(w, 6, Digit(w, 6), Digit(w, 7), Digit(w, 8), Digit(w, 9), Digit(w, 10), Digit(w, 11));
    ThreeOnes(w, 12);
  }

  lemma SixOnes(w: nat, n: nat)
    ensures Ones(w, n + 6) == Ones(w, n) + One(Digit(w, n)) + One(Digit(w, n + 1)) + One(Digit(w, n + 2))
      + One(Digit(w, n + 3)) + One(Digit(w, n + 4)) + One(Digit(w, n + 5))
  {
    hide Digit, One, Ones;
    ThreeOnes(w, n);
    ThreeOnes(w, n + 3);
  }

  lemma NoOnes(w: nat)
    ensures Ones(w, 0) == 0
  {
  }

  lemma ThreeOnes(w: nat, n: nat)
    ensures Ones(w, n + 3) == Ones(w, n) + One(Digit(w, n)) + One(Digit(w, n + 1)) + One(Digit(w, n + 2))
  {
    hide Digit, One;
    assert Ones(w, n + 1) == Ones(w, n) + One(Digit(w, n));
    assert Ones(w, n + 2) == Ones(w, n + 1) + One(Digit(w, n + 1));
  }

  /** The digits of the products of G15 with a number of five digits, not all of them zero. */
  lemma SevenOfFifteen(q0: bool, q1: bool, q2: bool, q3: bool, q4: bool)
    requires q0 || q1 || q2 || q3 || q4
    ensures One(q0) + One(q0 != q1) + One(q0 != (q1 != q2)) + One(q1 != (q2 != q3))
      + One(q0 != (q2 != (q3 != q4))) + One(q0 != (q1 != (q3 != q4))) + One(q1 != (q2 != q4)) + One(q2 != q3)
      + One(q0 != (q3 != q4)) + One(q1 != q4) + One(q0 != q2) + One(q1 != q3)
      + One(q2 != q4) + One(q3) + One(q4) >= 7
  {
  }

  function Six(a: bool, b: bool, c: bool, d: bool, e: bool, f: bool): nat {
    One(a) + One(b) + One(c) + One(d) + One(e) + One(f)
  }

  lemma OnesOfSix(w: nat, n: nat, a: bool, b: bool, c: bool, d: bool, e: bool, f: bool)
    requires Digit(w, n) == a && Digit(w, n + 1) == b && Digit(w, n + 2) == c
    requires Digit(w, n + 3) == d && Digit(w, n + 4) == e && Digit(w, n + 5) == f
    ensures Ones(w, n + 6) == Ones(w, n) + Six(a, b, c, d, e, f)
  {
    hide Digit, One, Ones;
    SixOnes(w, n);
  }

  /** The ones among digits 0 to 5 of a product of G18. */
  function LowDigits(q0: bool, q1: bool, q2: bool, q3: bool, q4: bool, q5: bool): nat {
    Six(q0, q1, q0 != q2, q1 != q3, q2 != q4, q0 != (q3 != q5))
  }

  /** The ones among digits 6 to 11 of a product of G18. */
  function MiddleDigits(q0: bool, q1: bool, q2: bool, q3: bool, q4: bool, q5: bool): nat {
    Six(q1 != q4, q2 != q5, q0 != q3,
       q0 != (q1 != q4), q0 != (q1 != (q2 != q5)), q0 != (q1 != (q2 != q3)))
  }

  /** The ones among digits 12 to 17 of a product of G18. */
  function HighDigits(q0: bool, q1: bool, q2: bool, q3: bool, q4: bool, q5: bool): nat {
    Six(q0 != (q1 != (q2 != (q3 != q4))), q1 != (q2 != (q3 != (q4 != q5))), q2 != (q3 != (q4 != q5)),
       q3 != (q4 != q5), q4 != q5, q5)
  }

  lemma EightOfEighteen(q0: bool, q1: bool, q2: bool, q3: bool, q4: bool, q5: bool)
    requires q0 || q1 || q2 || q3 || q4 || q5
    ensures LowDigits(q0, q1, q2, q3, q4, q5) + MiddleDigits(q0, q1, q2, q3, q4, q5)
      + HighDigits(q0, q1, q2, q3, q4, q5) >= 8
  {
  }

  /** Every multiple of G15 of up to fifteen digits, but zero, has seven ones. */
  lemma HeavyFormat(q: nat)
    requires 0 < q < 32
    ensures Ones(Clmul(q, G15), 15) >= 7
  {
    var w := Clmul(q, G15);
    G15Digits();
    Halves(q);
    FifteenOnes(w);
    hide Clmul, Ones, Digit, At, One;
    forall k | 0 <= k < 15 ensures Digit(w, k) == Sum(q, G15, k) {
      ProductIsSum(q, G15, k);
    }
    SevenOfFifteen(Digit(q, 0), Digit(q, 1), Digit(q, 2), Digit(q, 3), Digit(q, 4));
  }

  /** Every multiple of G18 of up to eighteen digits, but zero, has eight ones. */
  lemma HeavyVersion(q: nat)
    requires 0 < q < 64
    ensures Ones(Clmul(q, G18), 18) >= 8
  {
    hide Clmul, Ones, Digit, One, LowDigits, MiddleDigits, HighDigits;
    Halves(q);
    NoOnes(Clmul(q, G18));
    LowVersionOnes(q);
    MiddleVersionOnes(q);
    HighVersionOnes(q);
    EightOfEighteen(Digit(q, 0), Digit(q, 1), Digit(q, 2), Digit(q, 3), Digit(q, 4), Digit(q, 5));
  }

  lemma LowVersionOnes(q: nat)
    requires q < 64
    ensures var w, q0, q1, q2, q3, q4, q5 :=
              Clmul(q, G18), Digit(q, 0), Digit(q, 1), Digit(q, 2), Digit(q, 3), Digit(q, 4), Digit(q, 5);
      Ones(w, 6) == Ones(w, 0) + LowDigits(q0, q1, q2, q3, q4, q5)
  {
    hide Clmul, Digit, At, Six, Ones, Sum;
    var w, q0, q1, q2, q3, q4, q5 :=
      Clmul(q, G18), Digit(q, 0), Digit(q, 1), Digit(q, 2), Digit(q, 3), Digit(q, 4), Digit(q, 5);
    LowVersionDigits(q);
    OnesOfSix(w, 0, q0, q1, q0 != q2,
              q1 != q3, q2 != q4, q0 != (q3 != q5));
  }

  lemma LowVersionDigits(q: nat)
    requires q < 64
    ensures var w, q0, q1, q2, q3, q4, q5 :=
              Clmul(q, G18), Digit(q, 0), Digit(q, 1), Digit(q, 2), Digit(q, 3), Digit(q, 4), Digit(q, 5);
            && Digit(w, 0) == q0 && Digit(w, 1) == q1 && Digit(w, 2) == (q0 != q2)
            && Digit(w, 3) == (q1 != q3) && Digit(w, 4) == (q2 != q4) && Digit(w, 5) == (q0 != (q3 != q5))
  {
    hide Clmul, Digit, At;
    G18Digits();
    ProductIsSum(q, G18, 0);
    ProductIsSum(q, G18, 1);
    ProductIsSum(q, G18, 2);
    ProductIsSum(q, G18, 3);
    ProductIsSum(q, G18, 4);
    ProductIsSum(q, G18, 5);
  }

  lemma MiddleVersionOnes(q: nat)
    requires q < 64
    ensures var w, q0, q1, q2, q3, q4, q5 :=
              Clmul(q, G18), Digit(q, 0), Digit(q, 1), Digit(q, 2), Digit(q, 3), Digit(q, 4), Digit(q, 5);
      Ones(w, 12) == Ones(w, 6) + MiddleDigits(q0, q1, q2, q3, q4, q5)
  {
    hide Clmul, Digit, At, Six, Ones, Sum;
    var w, q0, q1, q2, q3, q4, q5 :=
      Clmul(q, G18), Digit(q, 0), Digit(q, 1), Digit(q, 2), Digit(q, 3), Digit(q, 4), Digit(q, 5);
    MiddleVersionDigits(q);
    OnesOfSix(w, 6, q1 != q4, q2 != q5, q0 != q3,
              q0 != (q1 != q4), q0 != (q1 != (q2 != q5)), q0 != (q1 != (q2 != q3)));
  }

  lemma MiddleVersionDigits(q: nat)
    requires q < 64
    ensures var w, q0, q1, q2, q3, q4, q5 :=
              Clmul(q, G18), Digit(q, 0), Digit(q, 1), Digit(q, 2), Digit(q, 3), Digit(q, 4), Digit(q, 5);
            && Digit(w, 6) == (q1 != q4) && Digit(w, 7) == (q2 != q5) && Digit(w, 8) == (q0 != q3)
            && Digit(w, 9) == (q0 != (q1 != q4)) && Digit(w, 10) == (q0 != (q1 != (q2 != q5))) && Digit(w, 11) == (q0 != (q1 != (q2 != q3)))
  {
    hide Clmul, Digit, At;
    G18Digits();
    ProductIsSum(q, G18, 6);
    ProductIsSum(q, G18, 7);
    ProductIsSum(q, G18, 8);
    ProductIsSum(q, G18, 9);
    ProductIsSum(q, G18, 10);
    ProductIsSum(q, G18, 11);
  }

  lemma HighVersionOnes(q: nat)
    requires q < 64
    ensures var w, q0, q1, q2, q3, q4, q5 :=
              Clmul(q, G18), Digit(q, 0), Digit(q, 1), Digit(q, 2), Digit(q, 3), Digit(q, 4), Digit(q, 5);
      Ones(w, 18) == Ones(w, 12) + HighDigits(q0, q1, q2, q3, q4, q5)
  {
    hide Clmul, Digit, At, Six, Ones, Sum;
    var w, q0, q1, q2, q3, q4, q5 :=
      Clmul(q, G18), Digit(q, 0), Digit(q, 1), Digit(q, 2), Digit(q, 3), Digit(q, 4), Digit(q, 5);
    HighVersionDigits(q);
    OnesOfSix(w, 12, q0 != (q1 != (q2 != (q3 != q4))), q1 != (q2 != (q3 != (q4 != q5))), q2 != (q3 != (q4 != q5)),
              q3 != (q4 != q5), q4 != q5, q5);
  }

  lemma HighVersionDigits(q: nat)
    requires q < 64
    ensures var w, q0, q1, q2, q3, q4, q5 :=
              Clmul(q, G18), Digit(q, 0), Digit(q, 1), Digit(q, 2), Digit(q, 3), Digit(q, 4), Digit(q, 5);
            && Digit(w, 12) == (q0 != (q1 != (q2 != (q3 != q4)))) && Digit(w, 13) == (q1 != (q2 != (q3 != (q4 != q5)))) && Digit(w, 14) == (q2 != (q3 != (q4 != q5)))
            && Digit(w, 15) == (q3 != (q4 != q5)) && Digit(w, 16) == (q4 != q5) && Digit(w, 17) == q5
  {
    hide Clmul, Digit, At;
    G18Digits();
    ProductIsSum(q, G18, 12);
    ProductIsSum(q, G18, 13);
    ProductIsSum(q, G18, 14);
    ProductIsSum(q, G18, 15);
    ProductIsSum(q, G18, 16);
    ProductIsSum(q, G18, 17);
  }

  // ---- distance ----

  lemma FactorRanges()
    ensures Pow2(5) == 32 && Pow2(6) == 64
  {
    KnownPowers();
    assert Pow2(5) == 2 * Pow2(4) && Pow2(6) == 2 * Pow2(5);
  }

  /** Two different words divisible by g differ by a product of g. */
  lemma DifferenceIsProduct(a: nat, b: nat, g: nat, n: nat) returns (q: nat)
    requires g != 0 && BitLen(g) <= n && a < Pow2(n) && b < Pow2(n) && a != b
    requires Rem(a, g) == 0 && Rem(b, g) == 0
    ensures 0 < q < Pow2(n + 1 - BitLen(g)) && Clmul(q, g) == Xor(a, b)
  {
    hide Xor, Clmul, Rem, Quotient, BitLen, Pow2;
    var w := Xor(a, b);
    RemXor(a, b, g);
    XorSelf(0);
    q := Quotient(w, g);
    DivisionIdentity(w, g);
    XorZero(Clmul(q, g));
    if q == 0 {
      ClmulZeroLeft(g);
      XorZeroMeansEqual(a, b);
    }
    BitLenLess(a, n);
    BitLenLess(b, n);
    XorBitLen(a, b, n);
    ClmulBitLen(q, g);
    BitLenLess(q, n + 1 - BitLen(g));
  }

  /** Any two format words differ in at least seven modules, so three wrong ones can be put right. */
  lemma FormatDistance(a: nat, b: nat)
    requires a < 32 && b < 32 && a != b
    ensures Differ(TypeInfo(a), TypeInfo(b), 15) >= 7
  {
    hide Xor, Clmul, Rem, BitLen, Pow2, Differ, Ones, Joined, TypeInfo;
    var x, y := Xor(TypeInfo(a), G15_MASK), Xor(TypeInfo(b), G15_MASK);
    TypeInfoDivisible(a);
    TypeInfoDivisible(b);
    TypeInfoRoundTrip(a);
    TypeInfoRoundTrip(b);
    KnownPowers();
    GeneratorLengths();
    Unmasked(TypeInfo(a));
    Unmasked(TypeInfo(b));
    var q := DifferenceIsProduct(x, y, G15, 15);
    FactorRanges();
    XorSwap(TypeInfo(a), G15_MASK, TypeInfo(b), G15_MASK);
    XorSelf(G15_MASK);
    XorZero(Xor(TypeInfo(a), TypeInfo(b)));
    DifferIsOnes(TypeInfo(a), TypeInfo(b), 15);
    HeavyFormat(q);
  }

  lemma Unmasked(w: nat)
    requires w < 32768
    ensures Xor(w, G15_MASK) < Pow2(15)
  {
    hide Xor, BitLen, Pow2;
    KnownPowers();
    GeneratorLengths();
    BitLenLess(w, 15);
    XorBitLen(w, G15_MASK, 15);
    BitLenLess(Xor(w, G15_MASK), 15);
  }

  /** Any two version words differ in at least eight modules. */
  lemma VersionDistance(a: nat, b: nat)
    requires a < 64 && b < 64 && a != b
    ensures Differ(TypeNumber(a), TypeNumber(b), 18) >= 8
  {
    hide Xor, Clmul, Rem, BitLen, Pow2, Differ, Ones, TypeNumber;
    TypeNumberDivisible(a);
    TypeNumberDivisible(b);
    TypeNumberRoundTrip(a);
    TypeNumberRoundTrip(b);
    KnownPowers();
    GeneratorLengths();
    var q := DifferenceIsProduct(TypeNumber(a), TypeNumber(b), G18, 18);
    FactorRanges();
    DifferIsOnes(TypeNumber(a), TypeNumber(b), 18);
    HeavyVersion(q);
  }
}
