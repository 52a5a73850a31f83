/** Reed-Solomon coding: division by the generator polynomial, the minimum distance of the
    resulting code, and why no coefficient of a generator is zero. */
module ReedSolomon {
  import opened Bits
  import opened GaloisField
  import opened Polynomial

  // ---- division ----

  /** The multiple of e that cancels the leading coefficient of a. */
  ghost function Ratio(a: Poly, e: Poly): Byte
    requires |a| > 0 && |e| > 0 && a[0] != 0 && e[0] != 0
  {
    Exp(Log(a[0]) - Log(e[0]))
  }

  lemma RatioCancels(a: Poly, e: Poly)
    requires |a| > 0 && |e| > 0 && a[0] != 0 && e[0] != 0
    ensures Mul(Ratio(a, e), e[0]) == a[0]
  {
    hide Mul, Alpha;
    ExpAdd(Log(a[0]) - Log(e[0]), Log(e[0]));
  }

  lemma LeadingCancels(a: Poly, e: Poly)
    requires |a| >= |e| > 0 && a[0] != 0 && e[0] != 0
    ensures AddScaled(a, 0, Ratio(a, e), e, |e|)[0] == 0
  {
    hide Mul, Xor, Ratio;
    AddScaledOutside(a, 0, Ratio(a, e), e, |e|, 0);
    RatioCancels(a, e);
    XorSelf(a[0]);
  }

  /** One step of the division, leading zeros removed. */
  ghost function Reduced(a: Poly, e: Poly): (r: Poly)
    requires |a| >= |e| > 0 && a[0] != 0 && e[0] != 0
    ensures |r| < |a|
    ensures r == [] || r[0] != 0
  {
    hide AddScaled, Ratio, Strip;
    var num := AddScaled(a, 0, Ratio(a, e), e, |e|);
    LeadingCancels(a, e);
    StripHead(num);
    Strip(num)
  }

  /** The remainder of a by e; a must have a leading coefficient to divide by, unless it is short. */
  ghost function Remainder(a: Poly, e: Poly): (r: Poly)
    requires |e| > 0 && e[0] != 0
    requires |a| < |e| || a[0] != 0
    ensures |r| < |e|
    decreases |a|
  {
    if |a| < |e| then a else Remainder(Reduced(a, e), e)
  }

  /** A root of the divisor sees no difference between a polynomial and its remainder. */
  lemma {:induction false} RemainderAtRoot(a: Poly, e: Poly, x: Byte)
    requires |e| > 0 && e[0] != 0
    requires |a| < |e| || a[0] != 0
    requires Eval(e, x) == 0
    ensures Eval(Remainder(a, e), x) == Eval(a, x)
    decreases |a|
  {
    hide Mul, Xor;
    if |a| >= |e| {
      var q := Ratio(a, e);
      RemainderAtRoot(Reduced(a, e), e, x);
      EvalStrip(AddScaled(a, 0, q, e, |e|), x);
      EvalAddScaled(a, 0, q, e, |e|, x);
      MulZero(Pow(x, |a| - |e|));
      MulZero(q);
      XorZero(Eval(a, x));
    }
  }

  // ---- the generator polynomial ----

  /** (x - alpha^0) (x - alpha^1) ... (x - alpha^(n-1)). */
  function Generator(n: nat): (g: Poly)
    ensures |g| == n + 1 && g[0] == 1
  {
    if n == 0 then [1]
    else
      var g := Generator(n - 1);
      var f: Poly := [1, Exp(n - 1)];
      RowsLeading(g, f, |g|);
      MulOne(1);
      Product(g, f)
  }

  lemma LinearFactorRoot(c: Byte)
    ensures Eval([1, c], c) == 0
  {
    hide Mul, Xor;
    var f: Poly := [1, c];
    assert Pow(c, 0) == 1 && Pow(c, 1) == Mul(c, 1);
    MulOne(c);
    assert Partial(f, 1, c) == Add(0, Mul(1, Pow(c, 1)));
    assert Partial(f, 2, c) == Add(Partial(f, 1, c), Mul(c, 1));
    XorZero(c);
    XorSelf(c);
  }

  lemma {:induction false} GeneratorRoots(n: nat, j: nat)
    requires j < n <= 255
    ensures Eval(Generator(n), Alpha(j)) == 0
  {
    hide Mul, Xor, Alpha;
    var g := Generator(n - 1);
    var f: Poly := [1, Exp(n - 1)];
    EvalProduct(g, f, Alpha(j));
    if j == n - 1 {
      AlphaMod(n - 1);
      LinearFactorRoot(Exp(n - 1));
      MulZero(Eval(g, Alpha(j)));
    } else {
      GeneratorRoots(n - 1, j);
      MulZero(Eval(f, Alpha(j)));
    }
  }

  // ---- minimum distance ----

  function Weight(p: Poly): nat {
    if |p| == 0 then 0 else Weight(p[..|p| - 1]) + if p[|p| - 1] == 0 then 0 else 1
  }

  /** p has the roots alpha^0 .. alpha^(n-1). */
  ghost predicate IsCodeword(p: Poly, n: nat) {
    forall j :: 0 <= j < n ==> Eval(p, Alpha(j)) == 0
  }

  /** sum of c[i] * xs[i]^j over the first n indices. */
  function PowerSum(c: Poly, xs: Poly, j: nat, n: nat): Byte
    requires n <= |c| == |xs|
  {
    if n == 0 then 0 else Add(PowerSum(c, xs, j, n - 1), Mul(c[n - 1], Pow(xs[n - 1], j)))
  }

  /** Each coefficient times the distance of its point from xs[k]: coefficient k becomes zero. */
  function Eliminated(c: Poly, xs: Poly, k: nat): (d: Poly)
    requires k < |c| == |xs|
    ensures |d| == |c|
  {
    seq(|c|, i requires 0 <= i < |c| => Mul(c[i], Add(xs[i], xs[k])))
  }

  lemma {:induction false} EliminatedSum(c: Poly, xs: Poly, k: nat, j: nat, n: nat)
    requires k < |c| == |xs| && n <= |c|
    ensures PowerSum(Eliminated(c, xs, k), xs, j, n)
         == Add(PowerSum(c, xs, j + 1, n), Mul(xs[k], PowerSum(c, xs, j, n)))
  {
    hide Mul, Xor;
    if n == 0 {
      MulZero(xs[k]);
      XorZero(0);
    } else {
      EliminatedSum(c, xs, k, j, n - 1);
      var a, x, y, p := c[n - 1], xs[n - 1], xs[k], Pow(xs[n - 1], j);
      assert Mul(Mul(a, Add(x, y)), p) == Add(Mul(a, Mul(x, p)), Mul(y, Mul(a, p))) by {
        MulXor(a, x, y);
        MulXor(p, Mul(a, x), Mul(a, y));
        MulAssoc(a, x, p);
        MulComm(a, y);
        MulAssoc(y, a, p);
      }
      MulXor(y, PowerSum(c, xs, j, n - 1), Mul(a, p));
      XorSwap(PowerSum(c, xs, j + 1, n - 1), Mul(y, PowerSum(c, xs, j, n - 1)),
              Mul(a, Mul(x, p)), Mul(y, Mul(a, p)));
    }
  }

  ghost predicate Distinct(xs: Poly) {
    forall i, j :: 0 <= i < j < |xs| ==> xs[i] != xs[j]
  }

  /** Elimination keeps every other coefficient's being zero or not. */
  lemma EliminatedZeros(c: Poly, xs: Poly, k: nat, i: nat)
    requires k < |c| == |xs| && i < |c| && Distinct(xs)
    ensures Eliminated(c, xs, k)[i] == 0 <==> c[i] == 0 || i == k
  {
    hide Mul, Xor;
    XorSelf(xs[k]);
    MulZero(c[i]);
    MulZero(Add(xs[i], xs[k]));
    if Eliminated(c, xs, k)[i] == 0 && c[i] != 0 {
      NoZeroDivisors(c[i], Add(xs[i], xs[k]));
      XorZeroMeansEqual(xs[i], xs[k]);
    }
  }

  lemma {:induction false} WeightZero(c: Poly)
    requires forall i :: 0 <= i < |c| ==> c[i] == 0
    ensures Weight(c) == 0
  {
    if |c| > 0 {
      WeightZero(c[..|c| - 1]);
    }
  }

  lemma {:induction false} WeightZeroMeansZeros(c: Poly, i: nat)
    requires Weight(c) == 0 && i < |c|
    ensures c[i] == 0
  {
    if i < |c| - 1 {
      WeightZeroMeansZeros(c[..|c| - 1], i);
    }
  }

  /** Same zeros but for index k, where only c is non-zero. */
  lemma {:induction false} WeightDrops(c: Poly, d: Poly, k: nat)
    requires |c| == |d| && k < |c| && c[k] != 0
    requires forall i :: 0 <= i < |c| ==> (d[i] == 0 <==> c[i] == 0 || i == k)
    ensures Weight(d) == Weight(c) - 1
  {
    var m := |c| - 1;
    if k < m {
      WeightDrops(c[..m], d[..m], k);
    } else {
      WeightSame(c[..m], d[..m]);
    }
  }

  lemma {:induction false} WeightSame(c: Poly, d: Poly)
    requires |c| == |d|
    requires forall i :: 0 <= i < |c| ==> (d[i] == 0 <==> c[i] == 0)
    ensures Weight(d) == Weight(c)
  {
    if |c| > 0 {
      WeightSame(c[..|c| - 1], d[..|c| - 1]);
    }
  }

  lemma {:induction false} SingleTerm(c: Poly, xs: Poly, k: nat, n: nat)
    requires k < |c| == |xs| && n <= |c|
    requires forall i :: 0 <= i < |c| && i != k ==> c[i] == 0
    ensures PowerSum(c, xs, 0, n) == if k < n then c[k] else 0
  {
    hide Mul, Xor;
    if n != 0 {
      SingleTerm(c, xs, k, n - 1);
      MulOne(c[n - 1]);
      XorZero(c[n - 1]);
      XorZero(PowerSum(c, xs, 0, n - 1));
    }
  }

  /** Vandermonde: w vanishing power sums over distinct points leave no room for w or fewer
      non-zero coefficients. Each step eliminates one point. */
  lemma {:induction false} PowerSumsVanish(c: Poly, xs: Poly, w: nat)
    requires |c| == |xs| && Distinct(xs) && Weight(c) <= w
    requires forall j :: 0 <= j < w ==> PowerSum(c, xs, j, |c|) == 0
    ensures Weight(c) == 0
    decreases w
  {
    hide Mul, Xor;
    if Weight(c) != 0 {
      var k :| 0 <= k < |c| && c[k] != 0 by {
        if forall i :: 0 <= i < |c| ==> c[i] == 0 {
          WeightZero(c);
        }
      }
      var d := Eliminated(c, xs, k);
      forall i | 0 <= i < |c| ensures d[i] == 0 <==> c[i] == 0 || i == k {
        EliminatedZeros(c, xs, k, i);
      }
      WeightDrops(c, d, k);
      forall j | 0 <= j < w - 1 ensures PowerSum(d, xs, j, |d|) == 0 {
        EliminatedSum(c, xs, k, j, |c|);
        MulZero(xs[k]);
        XorZero(0);
      }
      PowerSumsVanish(d, xs, w - 1);
      forall i | 0 <= i < |c| && i != k ensures c[i] == 0 {
        WeightZeroMeansZeros(d, i);
      }
      SingleTerm(c, xs, k, |c|);
    }
  }

  /** The points alpha^(position) of a word of length at most 255. */
  function Points(len: nat): (xs: Poly)
    ensures |xs| == len
  {
    seq(len, i requires 0 <= i < len => Alpha(len - 1 - i))
  }

  lemma PointsDistinct(len: nat)
    requires len <= 255
    ensures Distinct(Points(len))
  {
    hide Alpha;
    var xs := Points(len);
    forall i, j | 0 <= i < j < len ensures xs[i] != xs[j] {
      if xs[i] == xs[j] {
        AlphaInjective(len - 1 - i, len - 1 - j);
      }
    }
  }

  lemma {:induction false} EvalIsPowerSum(p: Poly, j: nat, n: nat)
    requires n <= |p|
    ensures Partial(p, n, Alpha(j)) == PowerSum(p, Points(|p|), j, n)
  {
    hide Mul, Xor, Alpha;
    if n != 0 {
      EvalIsPowerSum(p, j, n - 1);
      PowAlpha(j, |p| - n);
      PowAlpha(|p| - n, j);
      assert j * (|p| - n) == (|p| - n) * j;
    }
  }

  /** A codeword with n roots that is not zero has more than n non-zero coefficients. */
  lemma CodewordWeight(p: Poly, n: nat)
    requires |p| <= 255 && IsCodeword(p, n)
    ensures Weight(p) == 0 || Weight(p) > n
  {
    hide Mul, Xor, Alpha, Weight;
    if Weight(p) <= n {
      PointsDistinct(|p|);
      forall j | 0 <= j < n ensures PowerSum(p, Points(|p|), j, |p|) == 0 {
        EvalIsPowerSum(p, j, |p|);
      }
      PowerSumsVanish(p, Points(|p|), n);
    }
  }

  /** The number of places where two words differ. */
  function Distance(p: Poly, q: Poly): nat
    requires |p| == |q|
  {
    if |p| == 0 then 0
    else Distance(p[..|p| - 1], q[..|q| - 1]) + if p[|p| - 1] == q[|q| - 1] then 0 else 1
  }

  function Difference(p: Poly, q: Poly): (d: Poly)
    requires |p| == |q|
    ensures |d| == |p|
  {
    seq(|p|, i requires 0 <= i < |p| => Add(p[i], q[i]))
  }

  lemma {:induction false} DistanceIsWeight(p: Poly, q: Poly)
    requires |p| == |q|
    ensures Distance(p, q) == Weight(Difference(p, q))
  {
    hide Xor;
    if |p| > 0 {
      var m := |p| - 1;
      DistanceIsWeight(p[..m], q[..m]);
      assert Difference(p, q)[..m] == Difference(p[..m], q[..m]);
      if p[m] == q[m] {
        XorSelf(p[m]);
      } else if Add(p[m], q[m]) == 0 {
        XorZeroMeansEqual(p[m], q[m]);
      }
    }
  }

  lemma {:induction false} PartialDifference(p: Poly, q: Poly, n: nat, x: Byte)
    requires |p| == |q| && n <= |p|
    ensures Partial(Difference(p, q), n, x) == Add(Partial(p, n, x), Partial(q, n, x))
  {
    hide Mul, Xor;
    if n == 0 {
      XorZero(0);
    } else {
      PartialDifference(p, q, n - 1, x);
      var u := Pow(x, |p| - n);
      MulXor(u, p[n - 1], q[n - 1]);
      XorSwap(Partial(p, n - 1, x), Partial(q, n - 1, x), Mul(p[n - 1], u), Mul(q[n - 1], u));
    }
  }

  lemma {:induction false} DistanceZero(p: Poly, q: Poly)
    requires |p| == |q| && Distance(p, q) == 0
    ensures p == q
  {
    if |p| > 0 {
      var m := |p| - 1;
      DistanceZero(p[..m], q[..m]);
      assert p == p[..m] + [p[m]] && q == q[..m] + [q[m]];
    }
  }

  /** Two different codewords with n roots differ in more than n places. */
  lemma CodeDistance(p: Poly, q: Poly, n: nat)
    requires |p| == |q| <= 255 && p != q
    requires IsCodeword(p, n) && IsCodeword(q, n)
    ensures Distance(p, q) > n
  {
    hide Mul, Xor, Alpha, Weight, Distance;
    var d := Difference(p, q);
    forall j | 0 <= j < n ensures Eval(d, Alpha(j)) == 0 {
      PartialDifference(p, q, |p|, Alpha(j));
      XorZero(0);
    }
    CodewordWeight(d, n);
    DistanceIsWeight(p, q);
    if Distance(p, q) == 0 {
      DistanceZero(p, q);
    }
  }

  lemma {:induction false} FullWeight(p: Poly)
    ensures Weight(p) <= |p|
    ensures Weight(p) == |p| ==> NonZero(p)
  {
    if |p| > 0 {
      FullWeight(p[..|p| - 1]);
      assert p == p[..|p| - 1] + [p[|p| - 1]];
    }
  }

  /** A generator of degree n has n roots, so n + 1 non-zero coefficients: all of them. */
  lemma GeneratorNonZero(n: nat)
    requires n <= 254
    ensures NonZero(Generator(n))
  {
    hide Mul, Xor, Alpha, Weight, Generator;
    var g := Generator(n);
    forall j | 0 <= j < n ensures Eval(g, Alpha(j)) == 0 {
      GeneratorRoots(n, j);
    }
    CodewordWeight(g, n);
    if Weight(g) == 0 {
      WeightZeroMeansZeros(g, 0);
    }
    FullWeight(g);
  }

  // ---- encoding a block ----

  /** The error correction bytes of a data block: the remainder, left-padded to ec bytes. */
  ghost function EcBytes(data: Poly, ec: nat): (e: Poly)
    ensures |e| == ec
  {
    var r := Remainder(Strip(data) + Zeros(ec), Generator(ec));
    Zeros(ec - |r|) + r
  }

  lemma EvalPadded(n: nat, p: Poly, x: Byte)
    ensures Eval(Zeros(n) + p, x) == Eval(p, x)
  {
    hide Mul, Xor;
    EvalConcat(Zeros(n), p, x);
    PartialZeros(Zeros(n), n, x);
    MulZero(Pow(x, |p|));
    XorZero(Eval(p, x));
  }

  lemma EncodedAtRoot(data: Poly, ec: nat, x: Byte)
    requires Eval(Generator(ec), x) == 0
    ensures Eval(data + EcBytes(data, ec), x) == 0
  {
    hide Mul, Xor, Add, Generator, Remainder, Eval, Strip, Pow;
    var raw := Strip(data) + Zeros(ec);
    var r := Remainder(raw, Generator(ec));
    RemainderAtRoot(raw, Generator(ec), x);
    EvalPadded(ec - |r|, r, x);
    EvalConcat(data, EcBytes(data, ec), x);
    EvalConcat(Strip(data), Zeros(ec), x);
    EvalStrip(data, x);
    EvalZeros(ec, x);
    XorZero(Mul(Eval(data, x), Pow(x, ec)));
    XorSelf(Eval(raw, x));
  }

  lemma EvalZeros(n: nat, x: Byte)
    ensures Eval(Zeros(n), x) == 0
  {
    PartialZeros(Zeros(n), n, x);
  }

  /** Data followed by its error correction bytes vanishes at alpha^0 .. alpha^(ec-1). */
  lemma EncodedIsCodeword(data: Poly, ec: nat)
    requires ec <= 255
    ensures IsCodeword(data + EcBytes(data, ec), ec)
  {
    hide Mul, Xor, Alpha, Generator, EcBytes, Eval;
    forall j | 0 <= j < ec ensures Eval(data + EcBytes(data, ec), Alpha(j)) == 0 {
      GeneratorRoots(ec, j);
      EncodedAtRoot(data, ec, Alpha(j));
    }
  }

  /** Blocks that carry different data of one length differ in more than ec of their bytes. */
  lemma BlockDistance(p: Poly, q: Poly, ec: nat)
    requires |p| == |q| && |p| + ec <= 255 && p != q
    ensures Distance(p + EcBytes(p, ec), q + EcBytes(q, ec)) >= ec + 1
  {
    hide EcBytes, Distance, IsCodeword;
    EncodedIsCodeword(p, ec);
    EncodedIsCodeword(q, ec);
    var a, b := p + EcBytes(p, ec), q + EcBytes(q, ec);
    assert a[..|p|] == p && b[..|p|] == q;
    CodeDistance(a, b, ec);
  }

  // ---- the bound on the degree is sharp ----

  function Cyclic(): (c: Poly)
    ensures |c| == 256
  {
    [1] + Zeros(254) + [1]
  }

  lemma CyclicRoot(j: nat)
    ensures Eval(Cyclic(), Alpha(j)) == 0
  {
    hide Mul, Xor, Alpha;
    var c, x := Cyclic(), Alpha(j);
    EvalConcat([1] + Zeros(254), [1], x);
    EvalConcat([1], Zeros(254), x);
    PartialZeros(Zeros(254), 254, x);
    assert Eval([1], x) == 1 by {
      assert Partial([1], 0, x) == 0 && Pow(x, 0) == 1;
      MulOne(1);
      XorZero(1);
    }
    assert Pow(x, 1) == x by {
      assert Pow(x, 0) == 1;
      MulOne(x);
    }
    MulOne(Pow(x, 254));
    XorZero(Pow(x, 254));
    PowAdd(x, 254, 1);
    PowAlpha(j, 255);
    AlphaTo255();
    assert Alpha(j * 255) == 1 by {
      AlphaMultiples(255, j);
      assert 255 * j == j * 255;
    }
    XorSelf(1);
  }

  /** The bound is sharp: with all 255 non-zero roots the generator is x^255 + 1, which has zeros. */
  lemma GeneratorAt255()
    ensures Generator(255) == Cyclic() && !NonZero(Generator(255))
  {
    hide Mul, Xor, Alpha, Weight, Generator, Eval;
    var g, c := Generator(255), Cyclic();
    var d := Difference(g, c);
    var t := d[1..];
    assert d[0] == 0 by { XorSelf(1); }
    forall j | 0 <= j < 255 ensures Eval(t, Alpha(j)) == 0 {
      GeneratorRoots(255, j);
      CyclicRoot(j);
      EvalDifference(g, c, Alpha(j));
      XorZero(0);
      EvalTail(d, Alpha(j));
    }
    CodewordWeight(t, 255);
    FullWeight(t);
    forall i | 0 <= i < 256 ensures g[i] == c[i] {
      if i > 0 {
        WeightZeroMeansZeros(t, i - 1);
      }
      XorZeroMeansEqual(g[i], c[i]);
    }
    assert c[1] == 0;
  }

  lemma EvalDifference(p: Poly, q: Poly, x: Byte)
    requires |p| == |q|
    ensures Eval(Difference(p, q), x) == Add(Eval(p, x), Eval(q, x))
  {
    PartialDifference(p, q, |p|, x);
  }

  lemma EvalTail(p: Poly, x: Byte)
    requires |p| > 0 && p[0] == 0
    ensures Eval(p[1..], x) == Eval(p, x)
  {
    PartialTail(p, |p| - 1, x);
  }
}
