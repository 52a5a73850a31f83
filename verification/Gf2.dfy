/** Polynomials over GF(2), written as natural numbers (bit k is the coefficient of x^k):
    the carry-less product, and long division by repeated shifted subtraction. */
module Gf2 {
  import opened Bits

  /** The product of two polynomials over GF(2). */
  function Clmul(a: nat, b: nat): nat {
    if a == 0 then 0 else Xor(Selected(a % 2, b), 2 * Clmul(a / 2, b))
  }

  lemma {:induction false} ClmulZeroRight(a: nat)
    ensures Clmul(a, 0) == 0
  {
    if a != 0 {
      ClmulZeroRight(a / 2);
      XorZero(0);
    }
  }

  lemma ClmulZeroLeft(b: nat)
    ensures Clmul(0, b) == 0
  {
  }

  lemma ClmulOneLeft(b: nat)
    ensures Clmul(1, b) == b
  {
    XorZero(b);
    assert Clmul(0, b) == 0;
  }

  lemma {:induction false} ClmulXorRight(a: nat, b: nat, c: nat)
    ensures Clmul(a, Xor(b, c)) == Xor(Clmul(a, b), Clmul(a, c))
  {
    if a == 0 {
      XorZero(0);
    } else {
      var h := a / 2;
      ClmulXorRight(h, b, c);
      XorDouble(Clmul(h, b), Clmul(h, c));
      XorZero(0);
      XorSwap(if a % 2 == 1 then b else 0, 2 * Clmul(h, b), if a % 2 == 1 then c else 0, 2 * Clmul(h, c));
    }
  }

  lemma ClmulStep(a: nat, b: nat)
    ensures Clmul(a, b) == Xor(Selected(a % 2, b), 2 * Clmul(a / 2, b))
  {
    if a == 0 {
      XorZero(0);
    }
  }

  function Selected(bit: nat, c: nat): nat {
    if bit == 1 then c else 0
  }

  lemma SelectedXor(i: nat, j: nat, c: nat)
    requires i < 2 && j < 2
    ensures Selected(if i == j then 0 else 1, c) == Xor(Selected(i, c), Selected(j, c))
  {
    if i == 1 && j == 1 {
      XorSelf(c);
    } else {
      XorZero(c);
      XorZero(0);
    }
  }

  lemma {:induction false} ClmulXorLeft(a: nat, b: nat, c: nat)
    ensures Clmul(Xor(a, b), c) == Xor(Clmul(a, c), Clmul(b, c))
  {
    if a == 0 && b == 0 {
      XorZero(0);
    } else {
      hide Xor;
      ClmulXorLeft(a / 2, b / 2, c);
      var p, q := Clmul(a / 2, c), Clmul(b / 2, c);
      assert Clmul(Xor(a, b), c) == Xor(Selected(if a % 2 == b % 2 then 0 else 1, c), 2 * Xor(p, q)) by {
        XorStep(a, b);
        ClmulStep(Xor(a, b), c);
      }
      ClmulStep(a, c);
      ClmulStep(b, c);
      XorDouble(p, q);
      SelectedXor(a % 2, b % 2, c);
      XorSwap(Selected(a % 2, c), Selected(b % 2, c), 2 * p, 2 * q);
    }
  }

  lemma {:induction false} ClmulDoubleRight(a: nat, b: nat)
    ensures Clmul(a, 2 * b) == 2 * Clmul(a, b)
  {
    if a != 0 {
      ClmulDoubleRight(a / 2, b);
      XorDouble(if a % 2 == 1 then b else 0, 2 * Clmul(a / 2, b));
    }
  }

  lemma ClmulDoubleLeft(a: nat, b: nat)
    ensures Clmul(2 * a, b) == 2 * Clmul(a, b)
  {
    ClmulStep(2 * a, b);
    XorZero(2 * Clmul(a, b));
  }

  /** Every number is its low digit xor twice its half. */
  lemma LowDigitApart(a: nat)
    ensures a == Xor(a % 2, 2 * (a / 2))
  {
    var h, lo := a / 2, a % 2;
    assert Pow2(1) == 2;
    OrDisjoint(h, 1, lo);
    XorComm(lo, h * 2);
  }

  lemma {:induction false} ClmulComm(a: nat, b: nat)
    ensures Clmul(a, b) == Clmul(b, a)
  {
    if a == 0 {
      ClmulZeroRight(b);
    } else {
      ClmulComm(a / 2, b);
      LowDigitApart(a);
      ClmulXorRight(b, a % 2, 2 * (a / 2));
      ClmulDoubleRight(b, a / 2);
      ClmulOneRight(b);
      ClmulZeroRight(b);
    }
  }

  lemma {:induction false} ClmulOneRight(a: nat)
    ensures Clmul(a, 1) == a
  {
    if a != 0 {
      ClmulOneRight(a / 2);
      LowDigitApart(a);
    }
  }

  lemma {:induction false} ClmulAssoc(a: nat, b: nat, c: nat)
    ensures Clmul(Clmul(a, b), c) == Clmul(a, Clmul(b, c))
  {
    if a != 0 {
      ClmulAssoc(a / 2, b, c);
      var p, q := if a % 2 == 1 then b else 0, 2 * Clmul(a / 2, b);
      ClmulXorLeft(p, q, c);
      ClmulDoubleLeft(Clmul(a / 2, b), c);
    }
  }

  lemma LengthOfOne()
    ensures BitLen(1) == 1 && BitLen(0) == 0
  {
    assert BitLen(0) == 0;
  }

  lemma HalfLength(a: nat)
    requires a != 0
    ensures BitLen(a) == 1 + BitLen(a / 2) && BitLen(a) >= 1
    ensures a > 1 ==> BitLen(a) >= 2
  {
  }

  lemma LengthZero(n: nat)
    ensures BitLen(n) == 0 <==> n == 0
  {
  }

  lemma SelectedLength(bit: nat, c: nat)
    ensures BitLen(Selected(bit, c)) <= BitLen(c)
  {
    hide BitLen;
    LengthOfOne();
  }

  /** Degrees add up. */
  lemma {:induction false} ClmulBitLen(a: nat, b: nat)
    requires a != 0 && b != 0
    ensures BitLen(Clmul(a, b)) == BitLen(a) + BitLen(b) - 1
  {
    hide Xor, Clmul, BitLen;
    if a == 1 {
      ClmulOneLeft(b);
      LengthOfOne();
    } else {
      ClmulBitLen(a / 2, b);
      HalfLength(a);
      HalfLength(b);
      var h := Clmul(a / 2, b);
      assert h != 0 by { LengthZero(h); }
      BitLenDouble(h);
      ClmulStep(a, b);
      var p, q := Selected(a % 2, b), 2 * h;
      SelectedLength(a % 2, b);
      assert BitLen(p) < BitLen(q) by { LengthZero(a / 2); }
      XorComm(p, q);
      XorLonger(q, p);
    }
  }

  lemma {:induction false} ClmulPow2(k: nat, b: nat)
    ensures Clmul(Pow2(k), b) == b * Pow2(k)
  {
    hide Clmul;
    if k == 0 {
      ClmulOneLeft(b);
    } else {
      ClmulPow2(k - 1, b);
      ClmulDoubleLeft(Pow2(k - 1), b);
      DoubleProduct(b, Pow2(k - 1));
    }
  }

  // ---- long division ----

  /** One subtraction of the aligned divisor shortens the dividend. */
  lemma DivisionStep(d: nat, g: nat)
    requires g != 0 && BitLen(d) >= BitLen(g)
    ensures BitLen(Xor(d, g * Pow2(BitLen(d) - BitLen(g)))) < BitLen(d)
  {
    hide Xor, Pow2, BitLen;
    LengthZero(g);
    BitLenShift(g, BitLen(d) - BitLen(g));
    XorTopCancels(d, g * Pow2(BitLen(d) - BitLen(g)));
  }

  /** The remainder of d by g. */
  function Rem(d: nat, g: nat): (r: nat)
    requires g != 0
    ensures BitLen(r) < BitLen(g)
    decreases BitLen(d)
  {
    hide BitLen, Xor, Pow2;
    if BitLen(d) < BitLen(g) then d
    else
      DivisionStep(d, g);
      Rem(Xor(d, g * Pow2(BitLen(d) - BitLen(g))), g)
  }

  /** The quotient: what Rem subtracts, g times. */
  ghost function Quotient(d: nat, g: nat): nat
    requires g != 0
    decreases BitLen(d)
  {
    hide BitLen, Xor, Pow2;
    if BitLen(d) < BitLen(g) then 0
    else
      DivisionStep(d, g);
      var k := BitLen(d) - BitLen(g);
      Xor(Pow2(k), Quotient(Xor(d, g * Pow2(k)), g))
  }

  lemma {:induction false} DivisionIdentity(d: nat, g: nat)
    requires g != 0
    ensures Xor(Clmul(Quotient(d, g), g), Rem(d, g)) == d
    decreases BitLen(d)
  {
    hide Clmul, BitLen, Xor, Pow2;
    if BitLen(d) < BitLen(g) {
      XorZero(d);
      ClmulZeroLeft(g);
    } else {
      DivisionStep(d, g);
      var k := BitLen(d) - BitLen(g);
      var s := g * Pow2(k);
      var q := Quotient(Xor(d, s), g);
      DivisionIdentity(Xor(d, s), g);
      ClmulXorLeft(Pow2(k), q, g);
      ClmulPow2(k, g);
      XorAssoc(s, Clmul(q, g), Rem(d, g));
      XorComm(d, s);
      XorCancel(s, d);
    }
  }

  /** A short enough number that differs from d by a multiple of g is the remainder. */
  lemma RemUnique(d: nat, g: nat, q: nat, r: nat)
    requires g != 0 && BitLen(r) < BitLen(g)
    requires Xor(Clmul(q, g), r) == d
    ensures Rem(d, g) == r
  {
    var q', r' := Quotient(d, g), Rem(d, g);
    DivisionIdentity(d, g);
    var dq, dr := Xor(q, q'), Xor(r, r');
    ClmulXorLeft(q, q', g);
    XorSwap(Clmul(q, g), r, Clmul(q', g), r');
    XorSelf(d);
    assert Xor(Clmul(dq, g), dr) == 0;
    XorZeroMeansEqual(Clmul(dq, g), dr);
    XorBitLen(r, r', BitLen(g) - 1);
    if dq != 0 {
      ClmulBitLen(dq, g);
    }
    XorZeroMeansEqual(r, r');
  }

  lemma RemXor(a: nat, b: nat, g: nat)
    requires g != 0
    ensures Rem(Xor(a, b), g) == Xor(Rem(a, g), Rem(b, g))
  {
    DivisionIdentity(a, g);
    DivisionIdentity(b, g);
    var qa, qb, ra, rb := Quotient(a, g), Quotient(b, g), Rem(a, g), Rem(b, g);
    XorSwap(Clmul(qa, g), ra, Clmul(qb, g), rb);
    ClmulXorLeft(qa, qb, g);
    XorBitLen(ra, rb, BitLen(g) - 1);
    RemUnique(Xor(a, b), g, Xor(qa, qb), Xor(ra, rb));
  }

  lemma RemMultiple(q: nat, g: nat)
    requires g != 0
    ensures Rem(Clmul(q, g), g) == 0
  {
    XorZero(Clmul(q, g));
    RemUnique(Clmul(q, g), g, q, 0);
  }

  /** Reducing a factor first changes nothing. */
  lemma RemClmul(a: nat, b: nat, g: nat)
    requires g != 0
    ensures Rem(Clmul(a, Rem(b, g)), g) == Rem(Clmul(a, b), g)
  {
    DivisionIdentity(b, g);
    var q, r := Quotient(b, g), Rem(b, g);
    ClmulXorRight(a, Clmul(q, g), r);
    RemXor(Clmul(a, Clmul(q, g)), Clmul(a, r), g);
    ClmulAssoc(a, q, g);
    RemMultiple(Clmul(a, q), g);
    XorZero(Rem(Clmul(a, r), g));
  }
}
