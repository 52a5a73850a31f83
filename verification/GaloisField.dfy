/** Arithmetic of GF(256): products modulo x^8 + x^4 + x^3 + x^2 + 1 (section 7.5.2 of
    ISO/IEC 18004:2015), and the exponent and logarithm tables that stand in for them. */
module GaloisField {
  import opened Bits
  import opened Gf2

  /** x^8 + x^4 + x^3 + x^2 + 1 */
  const FIELD_POLYNOMIAL: nat := 0x11D

  function Mul(a: nat, b: nat): (p: nat)
    ensures p < 256
  {
    var p := Rem(Clmul(a, b), FIELD_POLYNOMIAL);
    assert BitLen(FIELD_POLYNOMIAL) == 9;
    BitLenLess(p, 8);
    assert Pow2(8) == 256;
    p
  }

  /** Addition in the field. */
  function Add(a: Byte, b: Byte): (c: Byte)
    ensures c == Xor(a, b)
  {
    XorByte(a, b);
    Xor(a, b)
  }

  lemma IsReduced(a: Byte)
    ensures BitLen(a) < BitLen(FIELD_POLYNOMIAL)
  {
    assert Pow2(8) == 256;
    assert BitLen(FIELD_POLYNOMIAL) == 9;
    BitLenLess(a, 8);
  }

  lemma ByteIsReduced(a: Byte)
    ensures Rem(a, FIELD_POLYNOMIAL) == a
  {
    IsReduced(a);
  }

  lemma MulComm(a: nat, b: nat)
    ensures Mul(a, b) == Mul(b, a)
  {
    ClmulComm(a, b);
  }

  lemma MulAssoc(a: nat, b: nat, c: nat)
    ensures Mul(Mul(a, b), c) == Mul(a, Mul(b, c))
  {
    RemClmul(c, Clmul(a, b), FIELD_POLYNOMIAL);
    RemClmul(a, Clmul(b, c), FIELD_POLYNOMIAL);
    ClmulComm(Mul(a, b), c);
    ClmulComm(Clmul(a, b), c);
    ClmulAssoc(a, b, c);
  }

  lemma MulXor(a: nat, b: nat, c: nat)
    ensures Mul(a, Xor(b, c)) == Xor(Mul(a, b), Mul(a, c))
    ensures Mul(Xor(b, c), a) == Xor(Mul(b, a), Mul(c, a))
  {
    ClmulXorRight(a, b, c);
    RemXor(Clmul(a, b), Clmul(a, c), FIELD_POLYNOMIAL);
    MulComm(a, Xor(b, c));
    MulComm(a, b);
    MulComm(a, c);
  }

  lemma MulOne(a: Byte)
    ensures Mul(1, a) == a && Mul(a, 1) == a
  {
    ClmulOneLeft(a);
    ByteIsReduced(a);
    MulComm(1, a);
  }

  lemma MulZero(a: nat)
    ensures Mul(0, a) == 0 && Mul(a, 0) == 0
  {
    assert Clmul(0, a) == 0;
    ByteIsReduced(0);
    MulComm(0, a);
  }

  // ---- powers of the generator alpha = 2 ----

  function Alpha(n: nat): (p: nat)
    ensures p < 256
  {
    if n == 0 then 1 else Mul(2, Alpha(n - 1))
  }

  lemma {:induction false} AlphaAdd(m: nat, n: nat)
    ensures Alpha(m + n) == Mul(Alpha(m), Alpha(n))
  {
    hide Mul;
    if m == 0 {
      MulOne(Alpha(n));
    } else {
      AlphaAdd(m - 1, n);
      MulAssoc(2, Alpha(m - 1), Alpha(n));
      assert m + n - 1 == (m - 1) + n;
    }
  }

  /** Multiplication by alpha, computed: a shift, and a subtraction when a bit falls off. */
  function Shifted(a: nat): int {
    if a < 128 then 2 * a else 2 * a - 227 - 8 * (a / 2 % 8)
  }

  /** Xor with an odd number flips the low digit. */
  lemma XorOdd(n: nat, g: nat)
    ensures Xor(n, 2 * g + 1) == 2 * Xor(n / 2, g) + 1 - n % 2
  {
    hide Xor;
    XorStep(n, 2 * g + 1);
  }

  lemma EightIsPower()
    ensures Pow2(3) == 8
  {
  }

  lemma XorEight(p: nat)
    requires 8 <= p < 16
    ensures Xor(p, 8) == p - 8
  {
    assert Pow2(3) == 8 by { EightIsPower(); }
    hide Xor, Or, Pow2, BitLen;
    OrDisjoint(1, 3, p - 8);
    XorComm(p, 8);
    XorCancel(8, p - 8);
  }

  lemma ThreeLowDigits(h: nat)
    ensures h == 8 * (h / 8) + 4 * (h / 4 % 2) + 2 * (h / 2 % 2) + h % 2
    ensures h % 8 == 4 * (h / 4 % 2) + 2 * (h / 2 % 2) + h % 2
  {
    assert h / 2 / 2 == h / 4 && h / 4 / 2 == h / 8;
  }

  /** 71 clears bit 6 and flips the three lowest bits. */
  lemma FlipsLowBits(h: nat)
    requires 64 <= h < 128
    ensures Xor(h, 71) == h - 57 - 2 * (h % 8)
  {
    hide Xor;
    XorOdd(h, 35);
    XorOdd(h / 2, 17);
    XorOdd(h / 4, 8);
    XorEight(h / 8);
    ThreeLowDigits(h);
  }

  /** 0x11D clears the top bit, flips the three bits above bit 1 and sets bit 0. */
  lemma FlipsThreeBits(a: Byte)
    requires a >= 128
    ensures Xor(2 * a, 0x11D) == Shifted(a)
  {
    hide Xor;
    XorOdd(2 * a, 142);
    XorStep(a, 142);
    FlipsLowBits(a / 2);
  }

  lemma MulTwo(a: Byte)
    ensures Mul(2, a) == Shifted(a)
  {
    hide Xor, Clmul, BitLen, Pow2, Rem;
    var g := FIELD_POLYNOMIAL;
    assert Clmul(2, a) == 2 * a by {
      ClmulOneLeft(a);
      ClmulDoubleLeft(1, a);
    }
    if a < 128 {
      ByteIsReduced(2 * a);
    } else {
      FlipsThreeBits(a);
      var r := Xor(2 * a, g);
      assert Xor(Clmul(1, g), r) == 2 * a by {
        ClmulOneLeft(g);
        XorComm(2 * a, g);
        XorCancel(g, 2 * a);
      }
      IsReduced(r);
      RemUnique(2 * a, g, 1, r);
    }
  }

  // ---- the order of alpha is 255 ----

  lemma NextAlpha(n: nat, a: Byte)
    requires Alpha(n) == a
    ensures Alpha(n + 1) == Shifted(a)
  {
    hide Mul, Shifted;
    MulTwo(a);
  }

  /** Five steps from alpha^n through the given values. */
  lemma Run(n: nat, a: Byte, b: Byte, c: Byte, d: Byte, e: Byte, f: Byte)
    requires Alpha(n) == a
    requires Shifted(a) == b && Shifted(b) == c && Shifted(c) == d && Shifted(d) == e && Shifted(e) == f
    ensures Alpha(n + 5) == f
    ensures Alpha(n + 1) == b
  {
    hide Alpha;
    NextAlpha(n, a);
    NextAlpha(n + 1, b);
    NextAlpha(n + 2, c);
    NextAlpha(n + 3, d);
    NextAlpha(n + 4, e);
  }

  lemma AlphaZero()
    ensures Alpha(0) == 1
  {
  }

  // The powers of alpha that decide its order, reached five steps at a time.

  lemma AlphaTo45()
    ensures Alpha(15) == 38 && Alpha(45) == 193
  {
    hide Mul, Alpha;
    AlphaZero();
    assert Alpha(15) == 38 by {
      Run(0, 1, 2, 4, 8, 16, 32);
      Run(5, 32, 64, 128, 29, 58, 116);
      Run(10, 116, 232, 205, 135, 19, 38);
    }
    assert Alpha(30) == 96 by {
      Run(15, 38, 76, 152, 45, 90, 180);
      Run(20, 180, 117, 234, 201, 143, 3);
      Run(25, 3, 6, 12, 24, 48, 96);
    }
    assert Alpha(45) == 193 by {
      Run(30, 96, 192, 157, 39, 78, 156);
      Run(35, 156, 37, 74, 148, 53, 106);
      Run(40, 106, 212, 181, 119, 238, 193);
    }
  }

  lemma AlphaTo85()
    ensures Alpha(51) == 10 && Alpha(85) == 214
  {
    hide Mul, Alpha;
    AlphaTo45();
    assert Alpha(55) == 160 && Alpha(51) == 10 by {
      Run(45, 193, 159, 35, 70, 140, 5);
      Run(50, 5, 10, 20, 40, 80, 160);
    }
    assert Alpha(70) == 94 by {
      Run(55, 160, 93, 186, 105, 210, 185);
      Run(60, 185, 111, 222, 161, 95, 190);
      Run(65, 190, 97, 194, 153, 47, 94);
    }
    assert Alpha(85) == 214 by {
      Run(70, 94, 188, 101, 202, 137, 15);
      Run(75, 15, 30, 60, 120, 240, 253);
      Run(80, 253, 231, 211, 187, 107, 214);
    }
  }

  lemma AlphaTo130()
    ensures Alpha(130) == 46
  {
    hide Mul, Alpha;
    AlphaTo85();
    assert Alpha(100) == 17 by {
      Run(85, 214, 177, 127, 254, 225, 223);
      Run(90, 223, 163, 91, 182, 113, 226);
      Run(95, 226, 217, 175, 67, 134, 17);
    }
    assert Alpha(115) == 124 by {
      Run(100, 17, 34, 68, 136, 13, 26);
      Run(105, 26, 52, 104, 208, 189, 103);
      Run(110, 103, 206, 129, 31, 62, 124);
    }
    assert Alpha(130) == 46 by {
      Run(115, 124, 248, 237, 199, 147, 59);
      Run(120, 59, 118, 236, 197, 151, 51);
      Run(125, 51, 102, 204, 133, 23, 46);
    }
  }

  lemma AlphaTo170()
    ensures Alpha(170) == 215
  {
    hide Mul, Alpha;
    AlphaTo130();
    assert Alpha(145) == 77 by {
      Run(130, 46, 92, 184, 109, 218, 169);
      Run(135, 169, 79, 158, 33, 66, 132);
      Run(140, 132, 21, 42, 84, 168, 77);
    }
    assert Alpha(160) == 230 by {
      Run(145, 77, 154, 41, 82, 164, 85);
      Run(150, 85, 170, 73, 146, 57, 114);
      Run(155, 114, 228, 213, 183, 115, 230);
    }
    assert Alpha(170) == 215 by {
      Run(160, 230, 209, 191, 99, 198, 145);
      Run(165, 145, 63, 126, 252, 229, 215);
    }
  }

  lemma AlphaTo215()
    ensures Alpha(215) == 239
  {
    hide Mul, Alpha;
    AlphaTo170();
    assert Alpha(185) == 55 by {
      Run(170, 215, 179, 123, 246, 241, 255);
      Run(175, 255, 227, 219, 171, 75, 150);
      Run(180, 150, 49, 98, 196, 149, 55);
    }
    assert Alpha(200) == 28 by {
      Run(185, 55, 110, 220, 165, 87, 174);
      Run(190, 174, 65, 130, 25, 50, 100);
      Run(195, 100, 200, 141, 7, 14, 28);
    }
    assert Alpha(215) == 239 by {
      Run(200, 28, 56, 112, 224, 221, 167);
      Run(205, 167, 83, 166, 81, 162, 89);
      Run(210, 89, 178, 121, 242, 249, 239);
    }
  }

  lemma AlphaTo255()
    ensures Alpha(255) == 1
  {
    hide Mul, Alpha;
    AlphaTo215();
    assert Alpha(230) == 244 by {
      Run(215, 239, 195, 155, 43, 86, 172);
      Run(220, 172, 69, 138, 9, 18, 36);
      Run(225, 36, 72, 144, 61, 122, 244);
    }
    assert Alpha(245) == 233 by {
      Run(230, 244, 245, 247, 243, 251, 235);
      Run(235, 235, 203, 139, 11, 22, 44);
      Run(240, 44, 88, 176, 125, 250, 233);
    }
    assert Alpha(255) == 1 by {
      Run(245, 233, 207, 131, 27, 54, 108);
      Run(250, 108, 216, 173, 71, 142, 1);
    }
  }

  lemma {:induction false} AlphaMultiples(k: nat, m: nat)
    requires Alpha(k) == 1
    ensures Alpha(k * m) == 1
  {
    hide Mul, Alpha;
    if m == 0 {
      AlphaZero();
    } else {
      AlphaMultiples(k, m - 1);
      assert k * m == k * (m - 1) + k;
      AlphaAdd(k * (m - 1), k);
      MulOne(1);
    }
  }

  lemma AlphaCycle(n: nat, m: nat)
    ensures Alpha(n + 255 * m) == Alpha(n)
  {
    hide Mul, Alpha;
    AlphaTo255();
    AlphaMultiples(255, m);
    AlphaAdd(n, 255 * m);
    MulOne(Alpha(n));
  }

  lemma AlphaMod(n: nat)
    ensures Alpha(n) == Alpha(n % 255)
  {
    AlphaCycle(n % 255, n / 255);
  }

  /** If alpha^k is 1, so is alpha^c for every c that a multiple of k reaches modulo 255. */
  lemma Reaches(k: nat, m: nat, c: nat)
    requires Alpha(k) == 1 && (k * m) % 255 == c
    ensures Alpha(c) == 1
  {
    hide Mul, Alpha;
    AlphaMultiples(k, m);
    AlphaMod(k * m);
  }

  /** No smaller power of alpha is 1: 255 = 3 * 5 * 17, and alpha^85, alpha^51 and alpha^15 are not 1. */
  lemma AlphaOrder(k: nat)
    requires 0 < k < 255
    ensures Alpha(k) != 1
  {
    hide Mul, Alpha;
    AlphaTo45();
    AlphaTo85();
    if Alpha(k) == 1 {
      if k % 3 != 0 {
        assert (k * (85 * (k % 3))) % 255 == 85 by { ModThree(k); }
        Reaches(k, 85 * (k % 3), 85);
      } else if k % 5 != 0 {
        var m := if k % 5 == 1 then 1 else if k % 5 == 2 then 3 else if k % 5 == 3 then 2 else 4;
        assert (k * (51 * m)) % 255 == 51 by { ModFive(k, m); }
        Reaches(k, 51 * m, 51);
      } else {
        var m := InverseMod17(k / 15);
        Reaches(k, m, 15);
      }
    }
  }

  lemma ModThree(k: nat)
    requires k % 3 != 0
    ensures (k * (85 * (k % 3))) % 255 == 85
  {
    var q, s := k / 3, k % 3;
    assert k * (85 * s) == 255 * (q * s) + 85 * (s * s) by {
      assert k == 3 * q + s;
    }
    Bits.DivModUnique(k * (85 * s), 255, q * s + (s * s) / 3, 85);
  }

  lemma ModFive(k: nat, m: nat)
    requires m < 5 && (k % 5) * m % 5 == 1
    ensures (k * (51 * m)) % 255 == 51
  {
    var q, s := k / 5, k % 5;
    assert k * (51 * m) == 255 * (q * m) + 51 * (s * m) by {
      assert k == 5 * q + s;
    }
    Bits.DivModUnique(k * (51 * m), 255, q * m + (s * m) / 5, 51);
  }

  /** For k = 15 j, an m with k m = 15 modulo 255. */
  function InverseMod17(j: nat): (m: nat)
    requires 0 < j < 17
    ensures (15 * j * m) % 255 == 15
  {
    [1, 9, 6, 13, 7, 3, 5, 15, 2, 12, 14, 10, 4, 11, 8, 16][j - 1]
  }

  lemma AlphaNonZero(n: nat)
    ensures Alpha(n) != 0
  {
    hide Mul;
    AlphaMod(n);
    var i := n % 255;
    AlphaAdd(i, 255 - i);
    AlphaTo255();
    MulZero(Alpha(255 - i));
  }

  lemma AlphaInjective(i: nat, j: nat)
    requires i < 255 && j < 255 && Alpha(i) == Alpha(j)
    ensures i == j
  {
    hide Mul, Alpha;
    if i < j {
      DifferenceIsOne(i, j);
    } else if j < i {
      DifferenceIsOne(j, i);
    }
  }

  lemma DifferenceIsOne(i: nat, j: nat)
    requires i < j < 255
    ensures Alpha(i) != Alpha(j)
  {
    hide Mul, Alpha;
    AlphaAdd(255 - i, j);
    AlphaAdd(255 - i, i);
    AlphaMod(255 - i + j);
    AlphaOrder(j - i);
    AlphaTo255();
  }

  // ---- logarithms ----

  ghost predicate IsPowerBelow(n: nat, k: nat) {
    exists i :: 0 <= i < k && Alpha(i) == n
  }

  ghost function Powers(k: nat): set<nat> {
    if k == 0 then {} else Powers(k - 1) + {Alpha(k - 1)}
  }

  lemma {:induction false} PowersContents(k: nat)
    requires k <= 255
    ensures forall n | n in Powers(k) :: IsPowerBelow(n, k)
    ensures |Powers(k)| == k
  {
    hide Alpha;
    if k != 0 {
      PowersContents(k - 1);
      forall n | n in Powers(k) ensures IsPowerBelow(n, k) {
        if n in Powers(k - 1) {
          var i :| 0 <= i < k - 1 && Alpha(i) == n;
        } else {
          assert Alpha(k - 1) == n;
        }
      }
      if Alpha(k - 1) in Powers(k - 1) {
        var i :| 0 <= i < k - 1 && Alpha(i) == Alpha(k - 1);
        AlphaInjective(i, k - 1);
      }
    }
  }

  ghost function UpTo(n: nat): set<nat> {
    if n == 0 then {} else UpTo(n - 1) + {n}
  }

  lemma {:induction false} UpToContents(n: nat)
    ensures forall x :: x in UpTo(n) <==> 1 <= x <= n
    ensures |UpTo(n)| == n
  {
    if n != 0 {
      UpToContents(n - 1);
    }
  }

  lemma {:induction false} SubsetSize<T>(a: set<T>, b: set<T>)
    requires a <= b
    ensures |a| <= |b|
  {
    if a != {} {
      var x :| x in a;
      SubsetSize(a - {x}, b - {x});
    }
  }

  /** Every non-zero byte is a power of alpha. */
  lemma LogExists(n: Byte)
    requires n != 0
    ensures exists i :: 0 <= i < 255 && Alpha(i) == n
  {
    hide Alpha, Powers, UpTo;
    PowersContents(255);
    UpToContents(255);
    forall x | x in Powers(255) ensures x in UpTo(255) {
      var i :| 0 <= i < 255 && Alpha(i) == x;
      AlphaNonZero(i);
    }
    if n in Powers(255) {
      assert IsPowerBelow(n, 255);
    } else {
      SubsetSize(Powers(255), UpTo(255) - {n});
    }
  }

  ghost function Log(n: Byte): (i: nat)
    requires n != 0
    ensures i < 255 && Alpha(i) == n
  {
    LogExists(n);
    var i :| 0 <= i < 255 && Alpha(i) == n;
    i
  }

  /** alpha^n for any integer exponent, negative ones included. */
  function Exp(n: int): (p: nat)
    ensures p < 256
  {
    Alpha(n % 255)
  }

  /** Exponents add: gexp is a homomorphism from the integers. */
  lemma ExpAdd(m: int, n: int)
    ensures Exp(m + n) == Mul(Exp(m), Exp(n))
  {
    hide Mul, Alpha;
    AlphaAdd(m % 255, n % 255);
    AlphaMod(m % 255 + n % 255);
    ModSum(m, n);
  }

  lemma ModSum(m: int, n: int)
    ensures (m % 255 + n % 255) % 255 == (m + n) % 255
  {
  }

  /** Adding logarithms is multiplying in the field. */
  lemma AddingLogs(a: Byte, b: Byte)
    requires a != 0 && b != 0
    ensures Exp(Log(a) + Log(b)) == Mul(a, b)
  {
    hide Mul, Alpha;
    ExpAdd(Log(a), Log(b));
  }

  lemma ExpNonZero(n: int)
    ensures Exp(n) != 0
  {
    AlphaNonZero(n % 255);
  }

  lemma NoZeroDivisors(a: Byte, b: Byte)
    requires Mul(a, b) == 0
    ensures a == 0 || b == 0
  {
    hide Mul, Alpha;
    if a != 0 && b != 0 {
      AddingLogs(a, b);
      ExpNonZero(Log(a) + Log(b));
    }
  }

  // ---- powers ----

  function Pow(x: Byte, n: nat): Byte {
    if n == 0 then 1 else Mul(x, Pow(x, n - 1))
  }

  lemma {:induction false} PowAdd(x: Byte, m: nat, n: nat)
    ensures Pow(x, m + n) == Mul(Pow(x, m), Pow(x, n))
  {
    hide Mul;
    if m == 0 {
      MulOne(Pow(x, n));
    } else {
      PowAdd(x, m - 1, n);
      MulAssoc(x, Pow(x, m - 1), Pow(x, n));
      assert m + n - 1 == (m - 1) + n;
    }
  }

  lemma {:induction false} PowAlpha(k: nat, n: nat)
    ensures Pow(Alpha(k), n) == Alpha(k * n)
  {
    hide Mul, Alpha;
    if n == 0 {
      AlphaZero();
    } else {
      PowAlpha(k, n - 1);
      assert k * n == k + k * (n - 1);
      AlphaAdd(k, k * (n - 1));
    }
  }
}
