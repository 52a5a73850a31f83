/** Bitwise operators on natural numbers, and numbers as bit sequences.
    JavaScript's `a << k`, `a >>> k` and `a & (2^k - 1)` on non-negative numbers are written
    `a * Pow2(k)`, `a / Pow2(k)` and `a % Pow2(k)`; `^` and `|` are the functions below. */
module Bits {

  type Byte = n: nat | n < 256

  /** Shifts and bitwise operators work on 32 bits. */
  const WORD: nat := 0x1_0000_0000

  function Pow2(k: nat): (p: nat)
    ensures p >= 1
  {
    if k == 0 then 1 else 2 * Pow2(k - 1)
  }

  function Xor(a: nat, b: nat): nat {
    if a == 0 && b == 0 then 0
    else (if a % 2 == b % 2 then 0 else 1) + 2 * Xor(a / 2, b / 2)
  }

  function Or(a: nat, b: nat): nat {
    if a == 0 && b == 0 then 0
    else (if a % 2 == 1 || b % 2 == 1 then 1 else 0) + 2 * Or(a / 2, b / 2)
  }

  /** The number of binary digits of n. */
  function BitLen(n: nat): nat {
    if n == 0 then 0 else 1 + BitLen(n / 2)
  }

  // ---- exclusive or ----

  lemma {:induction false} XorComm(a: nat, b: nat)
    ensures Xor(a, b) == Xor(b, a)
  {
    if a != 0 || b != 0 {
      XorComm(a / 2, b / 2);
    }
  }

  lemma {:induction false} XorZero(a: nat)
    ensures Xor(a, 0) == a && Xor(0, a) == a
  {
    if a != 0 {
      XorZero(a / 2);
    }
  }

  lemma {:induction false} XorSelf(a: nat)
    ensures Xor(a, a) == 0
  {
    if a != 0 {
      XorSelf(a / 2);
    }
  }

  /** Digitwise view of Xor, so that proofs can step to the halves. */
  lemma XorStep(a: nat, b: nat)
    ensures Xor(a, b) % 2 == if a % 2 == b % 2 then 0 else 1
    ensures Xor(a, b) / 2 == Xor(a / 2, b / 2)
  {
  }

  lemma {:induction false} XorAssoc(a: nat, b: nat, c: nat)
    ensures Xor(Xor(a, b), c) == Xor(a, Xor(b, c))
    decreases a + b + c
  {
    if a == 0 {
      XorZero(b);
      XorZero(Xor(b, c));
    } else if b == 0 {
      XorZero(a);
      XorZero(c);
    } else if c == 0 {
      XorZero(Xor(a, b));
      XorZero(b);
    } else {
      hide Xor;
      XorAssoc(a / 2, b / 2, c / 2);
      XorStep(Xor(a, b), c);
      XorStep(a, Xor(b, c));
      assert Xor(Xor(a, b), c) / 2 == Xor(a, Xor(b, c)) / 2 by {
        XorStep(a, b);
        XorStep(b, c);
      }
      assert Xor(Xor(a, b), c) % 2 == Xor(a, Xor(b, c)) % 2 by {
        XorStep(a, b);
        XorStep(b, c);
      }
    }
  }

  lemma XorSwap(a: nat, b: nat, c: nat, d: nat)
    ensures Xor(Xor(a, b), Xor(c, d)) == Xor(Xor(a, c), Xor(b, d))
  {
    XorAssoc(a, b, Xor(c, d));
    XorAssoc(b, c, d);
    XorComm(b, c);
    XorAssoc(c, b, d);
    XorAssoc(a, c, Xor(b, d));
  }

  lemma XorCancel(a: nat, b: nat)
    ensures Xor(a, Xor(a, b)) == b && Xor(Xor(b, a), a) == b
  {
    XorAssoc(a, a, b);
    XorAssoc(b, a, a);
    XorSelf(a);
    XorZero(b);
  }

  lemma XorZeroMeansEqual(a: nat, b: nat)
    requires Xor(a, b) == 0
    ensures a == b
  {
    XorCancel(a, b);
    XorZero(a);
  }

  lemma XorDouble(a: nat, b: nat)
    ensures Xor(2 * a, 2 * b) == 2 * Xor(a, b)
  {
    XorStep(2 * a, 2 * b);
  }

  // ---- lengths ----

  lemma {:induction false} BitLenLess(n: nat, k: nat)
    ensures n < Pow2(k) <==> BitLen(n) <= k
  {
    if n != 0 && k != 0 {
      BitLenLess(n / 2, k - 1);
    }
  }

  lemma {:induction false} BitLenShift(n: nat, k: nat)
    requires n != 0
    ensures n * Pow2(k) != 0 && BitLen(n * Pow2(k)) == BitLen(n) + k
  {
    hide Pow2, BitLen;
    if k != 0 {
      BitLenShift(n, k - 1);
      Pow2Next(k - 1);
      DoubleProduct(n, Pow2(k - 1));
      BitLenDouble(n * Pow2(k - 1));
    } else {
      Pow2Zero();
    }
  }

  lemma BitLenDouble(n: nat)
    requires n != 0
    ensures BitLen(2 * n) == 1 + BitLen(n)
  {
    assert 2 * n / 2 == n;
  }

  lemma Pow2Zero()
    ensures Pow2(0) == 1
  {
  }

  lemma Pow2Next(k: nat)
    ensures Pow2(k + 1) == 2 * Pow2(k)
  {
  }

  lemma {:induction false} XorBitLen(a: nat, b: nat, k: nat)
    requires BitLen(a) <= k && BitLen(b) <= k
    ensures BitLen(Xor(a, b)) <= k
  {
    XorStep(a, b);
    if a != 0 || b != 0 {
      XorBitLen(a / 2, b / 2, k - 1);
    }
  }

  /** The top digits of two numbers of one length cancel. */
  lemma {:induction false} XorTopCancels(a: nat, b: nat)
    requires BitLen(a) == BitLen(b) != 0
    ensures BitLen(Xor(a, b)) < BitLen(a)
  {
    XorStep(a, b);
    if BitLen(a) > 1 {
      XorTopCancels(a / 2, b / 2);
    } else {
      assert a / 2 == 0 && b / 2 == 0;
      XorZero(0);
    }
  }

  /** The longer operand decides the length. */
  lemma {:induction false} XorLonger(a: nat, b: nat)
    requires BitLen(a) > BitLen(b)
    ensures BitLen(Xor(a, b)) == BitLen(a)
  {
    XorStep(a, b);
    if b == 0 {
      XorZero(a);
    } else {
      XorLonger(a / 2, b / 2);
    }
  }

  lemma XorByte(a: nat, b: nat)
    requires a < 256 && b < 256
    ensures Xor(a, b) < 256
  {
    assert Pow2(8) == 256;
    BitLenLess(a, 8);
    BitLenLess(b, 8);
    XorBitLen(a, b, 8);
    BitLenLess(Xor(a, b), 8);
  }

  lemma Pow2Add(a: nat, b: nat)
    ensures Pow2(a + b) == Pow2(a) * Pow2(b)
    decreases b
  {
    if b != 0 {
      Pow2Add(a, b - 1);
    }
  }

  lemma {:induction false} Pow2Monotone(a: nat, b: nat)
    requires a <= b
    ensures Pow2(a) <= Pow2(b)
  {
    if a < b {
      Pow2Monotone(a, b - 1);
    }
  }

  // ---- disjoint bits: `|` and `^` are both `+` ----

  lemma {:induction false} OrDisjoint(hi: nat, k: nat, lo: nat)
    requires lo < Pow2(k)
    ensures Or(hi * Pow2(k), lo) == hi * Pow2(k) + lo
    ensures Or(lo, hi * Pow2(k)) == hi * Pow2(k) + lo
    ensures Xor(hi * Pow2(k), lo) == hi * Pow2(k) + lo
  {
    hide Xor, Or, Pow2;
    if k == 0 {
      Pow2Zero();
      OrZero(hi);
      XorZero(hi);
    } else {
      var p := Pow2(k - 1);
      Pow2Next(k - 1);
      OrDisjoint(hi, k - 1, lo / 2);
      var h := hi * p;
      DoubleProduct(hi, p);
      JoinStep(h, lo);
    }
  }

  lemma DoubleProduct(a: nat, b: nat)
    ensures a * (2 * b) == 2 * (a * b)
  {
  }

  lemma OverSum(w: int, a: int, b: int)
    ensures w * (a + b) == w * a + w * b
  {
  }

  lemma Distribute(n: nat, p: nat)
    ensures (2 * n) * p == n * (2 * p) && (2 * n + 1) * p == n * (2 * p) + p
  {
  }

  lemma JoinStep(h: nat, lo: nat)
    requires Or(h, lo / 2) == Or(lo / 2, h) == Xor(h, lo / 2) == h + lo / 2
    ensures Or(2 * h, lo) == Or(lo, 2 * h) == Xor(2 * h, lo) == 2 * h + lo
  {
    hide Xor, Or;
    OrStep(2 * h, lo);
    OrStep(lo, 2 * h);
    XorStep(2 * h, lo);
    HalvesMeet(Or(2 * h, lo), h, lo);
    HalvesMeet(Or(lo, 2 * h), h, lo);
    HalvesMeet(Xor(2 * h, lo), h, lo);
  }

  lemma HalvesMeet(n: nat, h: nat, lo: nat)
    requires n / 2 == h + lo / 2 && n % 2 == lo % 2
    ensures n == 2 * h + lo
  {
  }

  lemma OrStep(a: nat, b: nat)
    ensures Or(a, b) % 2 == (if a % 2 == 1 || b % 2 == 1 then 1 else 0)
    ensures Or(a, b) / 2 == Or(a / 2, b / 2)
  {
  }

  lemma {:induction false} OrZero(a: nat)
    ensures Or(a, 0) == a && Or(0, a) == a
  {
    if a != 0 {
      OrZero(a / 2);
    }
  }

  // ---- most significant bit first ----

  function Falses(n: nat): (bits: seq<bool>)
    ensures |bits| == n && forall i :: 0 <= i < n ==> !bits[i]
  {
    seq(n, _ => false)
  }

  /** The `len` low digits of n, most significant first, as `put(n, len)` writes them. */
  function ToBits(n: nat, len: nat): (bits: seq<bool>)
    ensures |bits| == len
  {
    if len == 0 then [] else ToBits(n / 2, len - 1) + [n % 2 == 1]
  }

  function FromBits(bits: seq<bool>): nat {
    if |bits| == 0 then 0
    else 2 * FromBits(bits[..|bits| - 1]) + (if bits[|bits| - 1] then 1 else 0)
  }

  /** Reading a field back gives the number modulo the field's size: exactly the number iff it fits. */
  lemma {:induction false} FromToBits(n: nat, len: nat)
    ensures FromBits(ToBits(n, len)) == n % Pow2(len)
  {
    if len != 0 {
      FromToBits(n / 2, len - 1);
      var bits := ToBits(n, len);
      assert bits[..len - 1] == ToBits(n / 2, len - 1);
      ModHalf(n, Pow2(len - 1));
    }
  }

  lemma {:induction false} ToFromBits(bits: seq<bool>)
    ensures FromBits(bits) < Pow2(|bits|)
    ensures ToBits(FromBits(bits), |bits|) == bits
  {
    if |bits| != 0 {
      ToFromBits(bits[..|bits| - 1]);
      assert bits == bits[..|bits| - 1] + [bits[|bits| - 1]];
    }
  }

  lemma ModHalf(n: nat, m: nat)
    requires m > 0
    ensures n % (2 * m) == 2 * (n / 2 % m) + n % 2
  {
    var q := n / 2 / m;
    var r := n / 2 % m;
    assert n / 2 == q * m + r;
    assert n == q * (2 * m) + (2 * r + n % 2) by {
      assert n == 2 * (n / 2) + n % 2;
      assert 2 * (q * m) == q * (2 * m);
    }
    DivModUnique(n, 2 * m, q, 2 * r + n % 2);
  }

  lemma DivModUnique(n: int, d: int, q: int, r: int)
    requires d > 0 && 0 <= r < d && n == q * d + r
    ensures n / d == q && n % d == r
  {
    var q', r' := n / d, n % d;
    assert n == q' * d + r';
    assert (q - q') * d == q * d - q' * d == r' - r;
    assert (q' - q) * d == q' * d - q * d == r - r';
    if q' < q {
      MulAtLeast(q - q', d);
    } else if q' > q {
      MulAtLeast(q' - q, d);
    }
  }

  lemma HalfThenShift(n: nat, p: nat)
    requires p > 0
    ensures n / 2 / p == n / (2 * p)
  {
    var q, r := n / 2 / p, n / 2 % p;
    assert n / 2 == q * p + r;
    assert n == q * (2 * p) + (2 * r + n % 2);
    DivModUnique(n, 2 * p, q, 2 * r + n % 2);
  }

  lemma MulAtLeast(k: int, d: int)
    requires k >= 1 && d > 0
    ensures k * d >= d
  {
    assert k * d == (k - 1) * d + d;
    assert (k - 1) * d >= 0;
  }

  lemma BitLenExact(n: nat, k: nat)
    requires k > 0 && Pow2(k - 1) <= n < Pow2(k)
    ensures BitLen(n) == k
  {
    hide BitLen, Pow2;
    BitLenLess(n, k);
    BitLenLess(n, k - 1);
  }

  lemma KnownPowers()
    ensures Pow2(4) == 16 && Pow2(8) == 256 && Pow2(10) == 1024 && Pow2(11) == 2048
    ensures Pow2(12) == 4096 && Pow2(13) == 8192 && Pow2(14) == 16384 && Pow2(15) == 32768
    ensures Pow2(16) == 65536 && Pow2(18) == 262144 && Pow2(32) == 0x1_0000_0000
  {
    assert Pow2(4) == 16;
    Pow2Add(4, 4);
    Pow2Add(8, 8);
    Pow2Add(16, 16);
    Pow2Add(8, 2);
    Pow2Add(10, 1);
    Pow2Add(10, 2);
    Pow2Add(10, 3);
    Pow2Add(10, 4);
    Pow2Add(11, 4);
    Pow2Add(16, 2);
  }

  /** A shifted number modulo a larger power keeps its low zeros. */
  lemma MulMod(n: nat, p: nat, q: nat)
    requires p > 0 && q > 0
    ensures p * q > 0 && n * p % (p * q) == n % q * p
  {
    var d, m := n / q, n % q;
    assert n == d * q + m;
    MulModProducts(d, m, p, q);
    DivModUnique(n * p, p * q, d, m * p);
  }

  lemma MulModProducts(d: nat, m: nat, p: nat, q: nat)
    requires p > 0 && m < q
    ensures (d * q + m) * p == d * (p * q) + m * p
    ensures m * p < p * q
  {
    assert (d * q + m) * p == d * q * p + m * p;
    assert d * q * p == d * (p * q);
    assert (q - m) * p > 0;
    assert (q - m) * p == q * p - m * p;
  }

  lemma SmallModulo(n: nat, m: nat)
    requires n < m
    ensures n % m == n
  {
  }

  /** `n >>> k` */
  function Shr(n: nat, k: nat): nat {
    hide Pow2;
    n / Pow2(k)
  }

  lemma ShrParts(n: nat, k: nat)
    ensures n == Shr(n, k) * Pow2(k) + n % Pow2(k)
  {
  }

  lemma QuotientBelow(d: nat, p: nat, q: nat)
    requires p > 0 && d < p * q
    ensures d / p < q
  {
    var k, r := d / p, d % p;
    assert d == k * p + r;
    assert (k - q) * p < p by {
      assert (k - q) * p == k * p - q * p;
    }
  }

  lemma QuotientZero(n: nat, p: nat)
    requires p > 0
    ensures n / p == 0 <==> n < p
  {
  }

  lemma JoinBelow(hi: nat, q: nat, lo: nat, p: nat)
    requires hi < q && lo < p
    ensures hi * p + lo < q * p
  {
    assert (q - hi) * p >= p by { MulAtLeast(q - hi, p); }
    assert (q - hi) * p == q * p - hi * p;
  }

  /** Digits of a number shifted up with another below it. */
  lemma {:induction false} ToBitsJoin(hi: nat, a: nat, lo: nat, b: nat)
    requires lo < Pow2(b)
    ensures ToBits(hi * Pow2(b) + lo, a + b) == ToBits(hi, a) + ToBits(lo, b)
  {
    if b == 0 {
      assert hi * Pow2(0) + lo == hi;
    } else {
      var p := Pow2(b - 1);
      ToBitsJoin(hi, a, lo / 2, b - 1);
      DoubleProduct(hi, p);
      EvenPlus(hi * p, lo);
      assert ToBits(hi, a) + ToBits(lo, b) == ToBits(hi, a) + ToBits(lo / 2, b - 1) + [lo % 2 == 1];
    }
  }

  lemma EvenPlus(a: nat, b: nat)
    ensures (2 * a + b) / 2 == a + b / 2 && (2 * a + b) % 2 == b % 2
  {
  }

  lemma {:induction false} ToBitsMod(n: nat, b: nat)
    ensures ToBits(n % Pow2(b), b) == ToBits(n, b)
  {
    if b != 0 {
      ToBitsMod(n / 2, b - 1);
      ModHalf(n, Pow2(b - 1));
      EvenPlus(n / 2 % Pow2(b - 1), n % 2);
    }
  }

  lemma ToBitsSplit(n: nat, a: nat, b: nat)
    ensures ToBits(n, a + b) == ToBits(Shr(n, b), a) + ToBits(n, b)
  {
    hide ToBits, Pow2, Shr;
    ShrParts(n, b);
    ToBitsJoin(Shr(n, b), a, n % Pow2(b), b);
    ToBitsMod(n, b);
  }

  /** Dropping digits above the width changes nothing below. */
  lemma ToBitsLow(n: nat, w: nat, b: nat)
    requires b <= w
    ensures ToBits(n % Pow2(w), b) == ToBits(n, b)
  {
    hide ToBits, Pow2, Shr;
    ToBitsMod(n, w);
    ToBitsSplit(n % Pow2(w), w - b, b);
    ToBitsSplit(n, w - b, b);
    assert ToBits(n % Pow2(w), w)[w - b..] == ToBits(n % Pow2(w), b);
    assert ToBits(n, w)[w - b..] == ToBits(n, b);
  }
}
