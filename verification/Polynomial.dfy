/** Polynomials over GF(256) as sequences of coefficients, leading coefficient first. */
module Polynomial {
  import opened Bits
  import opened GaloisField

  type Poly = seq<Byte>

  function Zeros(n: nat): (p: Poly)
    ensures |p| == n && forall i :: 0 <= i < n ==> p[i] == 0
  {
    seq(n, _ => 0)
  }

  /** Without its leading zeros. */
  function Strip(num: Poly): (p: Poly)
    ensures p == [] || p[0] != 0
    ensures |p| <= |num| && p == num[|num| - |p|..]
  {
    if |num| > 0 && num[0] == 0 then Strip(num[1..]) else num
  }

  lemma StripHead(p: Poly)
    requires |p| > 0 && p[0] == 0
    ensures Strip(p) == Strip(p[1..]) && |Strip(p)| < |p|
  {
  }

  lemma AlreadyStripped(p: Poly)
    requires |p| > 0 ==> p[0] != 0
    ensures Strip(p) == p
  {
  }

  predicate NonZero(p: Poly) {
    forall i :: 0 <= i < |p| ==> p[i] != 0
  }

  /** The first n terms of p at x. */
  function Partial(p: Poly, n: nat, x: Byte): Byte
    requires n <= |p|
  {
    if n == 0 then 0 else Add(Partial(p, n - 1, x), Mul(p[n - 1], Pow(x, |p| - n)))
  }

  function Eval(p: Poly, x: Byte): Byte {
    Partial(p, |p|, x)
  }

  /** num with c * b added in place from index `at` on: the first n steps. */
  function AddScaled(num: Poly, at: nat, c: Byte, b: Poly, n: nat): (r: Poly)
    requires at + |b| <= |num| && n <= |b|
    ensures |r| == |num|
  {
    if n == 0 then num
    else
      var r := AddScaled(num, at, c, b, n - 1);
      r[at + n - 1 := Add(r[at + n - 1], Mul(c, b[n - 1]))]
  }

  /** The product of a and b from the first n rows. */
  function Rows(a: Poly, b: Poly, n: nat): (r: Poly)
    requires |a| > 0 && |b| > 0 && n <= |a|
    ensures |r| == |a| + |b| - 1
  {
    if n == 0 then Zeros(|a| + |b| - 1)
    else AddScaled(Rows(a, b, n - 1), n - 1, a[n - 1], b, |b|)
  }

  function Product(a: Poly, b: Poly): Poly
    requires |a| > 0 && |b| > 0
  {
    Rows(a, b, |a|)
  }

  // ---- evaluation ----

  lemma {:induction false} PartialZeros(p: Poly, n: nat, x: Byte)
    requires n <= |p| && forall i :: 0 <= i < n ==> p[i] == 0
    ensures Partial(p, n, x) == 0
  {
    if n != 0 {
      PartialZeros(p, n - 1, x);
      MulZero(Pow(x, |p| - n));
      XorZero(0);
    }
  }

  /** Terms may be dropped from the front when they are zero. */
  lemma {:induction false} PartialTail(p: Poly, n: nat, x: Byte)
    requires n < |p| && p[0] == 0
    ensures Partial(p, n + 1, x) == Partial(p[1..], n, x)
  {
    hide Mul, Xor;
    if n == 0 {
      MulZero(Pow(x, |p| - 1));
      XorZero(0);
    } else {
      PartialTail(p, n - 1, x);
    }
  }

  lemma {:induction false} EvalStrip(p: Poly, x: Byte)
    ensures Eval(Strip(p), x) == Eval(p, x)
  {
    if |p| > 0 && p[0] == 0 {
      EvalStrip(p[1..], x);
      PartialTail(p, |p| - 1, x);
    }
  }

  /** Changing a coefficient by v changes the value by v's term. */
  lemma {:induction false} PartialUpdate(p: Poly, k: nat, v: Byte, n: nat, x: Byte)
    requires k < |p| && n <= |p|
    ensures Partial(p[k := Add(p[k], v)], n, x)
         == if n <= k then Partial(p, n, x) else Add(Partial(p, n, x), Mul(v, Pow(x, |p| - 1 - k)))
  {
    hide Mul, Xor;
    if n != 0 {
      PartialUpdate(p, k, v, n - 1, x);
      var t := Mul(v, Pow(x, |p| - 1 - k));
      var before := Partial(p, n - 1, x);
      var term := Mul(p[n - 1], Pow(x, |p| - n));
      if n - 1 == k {
        MulXor(Pow(x, |p| - n), p[k], v);
        XorAssoc(before, term, t);
      } else if n - 1 > k {
        XorAssoc(before, t, term);
        XorComm(t, term);
        XorAssoc(before, term, t);
      }
    }
  }

  /** Adding c * b at an offset adds c * b(x) * x^(places to its right). */
  lemma {:induction false} EvalAddScaled(num: Poly, at: nat, c: Byte, b: Poly, n: nat, x: Byte)
    requires at + |b| <= |num| && n <= |b|
    ensures Eval(AddScaled(num, at, c, b, n), x)
         == Add(Eval(num, x), Mul(c, Mul(Pow(x, |num| - at - |b|), Partial(b, n, x))))
  {
    hide Mul, Xor;
    var w := |num| - at - |b|;
    var s := Pow(x, w);
    if n == 0 {
      MulZero(s);
      MulZero(c);
      XorZero(Eval(num, x));
    } else {
      EvalAddScaled(num, at, c, b, n - 1, x);
      var r := AddScaled(num, at, c, b, n - 1);
      var u := Pow(x, |b| - n);
      PartialUpdate(r, at + n - 1, Mul(c, b[n - 1]), |r|, x);
      assert Pow(x, |num| - at - n) == Mul(s, u) by {
        PowAdd(x, w, |b| - n);
        assert w + (|b| - n) == |num| - at - n;
      }
      var before := Partial(b, n - 1, x);
      var term := Mul(b[n - 1], u);
      assert Mul(Mul(c, b[n - 1]), Mul(s, u)) == Mul(c, Mul(s, term)) by {
        MulAssoc(c, b[n - 1], Mul(s, u));
        MulAssoc(b[n - 1], s, u);
        MulComm(b[n - 1], s);
        MulAssoc(s, b[n - 1], u);
      }
      MulXor(s, before, term);
      MulXor(c, Mul(s, before), Mul(s, term));
      XorAssoc(Eval(num, x), Mul(c, Mul(s, before)), Mul(c, Mul(s, term)));
    }
  }

  lemma {:induction false} EvalRows(a: Poly, b: Poly, n: nat, x: Byte)
    requires |a| > 0 && |b| > 0 && n <= |a|
    ensures Eval(Rows(a, b, n), x) == Mul(Partial(a, n, x), Eval(b, x))
  {
    hide Mul, Xor;
    if n == 0 {
      PartialZeros(Rows(a, b, 0), |a| + |b| - 1, x);
      MulZero(Eval(b, x));
    } else {
      EvalRows(a, b, n - 1, x);
      EvalAddScaled(Rows(a, b, n - 1), n - 1, a[n - 1], b, |b|, x);
      assert (|a| + |b| - 1) - (n - 1) - |b| == |a| - n;
      MulAssoc(a[n - 1], Pow(x, |a| - n), Eval(b, x));
      MulXor(Eval(b, x), Partial(a, n - 1, x), Mul(a[n - 1], Pow(x, |a| - n)));
    }
  }

  /** Evaluation turns products of polynomials into products of values. */
  lemma EvalProduct(a: Poly, b: Poly, x: Byte)
    requires |a| > 0 && |b| > 0
    ensures Eval(Product(a, b), x) == Mul(Eval(a, x), Eval(b, x))
  {
    EvalRows(a, b, |a|, x);
  }

  /** What one row leaves where it does not reach. */
  lemma {:induction false} AddScaledOutside(num: Poly, at: nat, c: Byte, b: Poly, n: nat, k: nat)
    requires at + |b| <= |num| && n <= |b| && k < |num|
    ensures AddScaled(num, at, c, b, n)[k]
         == if at <= k < at + n then Add(num[k], Mul(c, b[k - at])) else num[k]
  {
    hide Mul, Xor;
    if n != 0 {
      AddScaledOutside(num, at, c, b, n - 1, k);
    }
  }

  /** The leading coefficient of a product. */
  lemma {:induction false} RowsLeading(a: Poly, b: Poly, n: nat)
    requires |a| > 0 && |b| > 0 && 1 <= n <= |a|
    ensures Rows(a, b, n)[0] == Mul(a[0], b[0])
  {
    hide Mul, Xor;
    AddScaledOutside(Rows(a, b, n - 1), n - 1, a[n - 1], b, |b|, 0);
    if n == 1 {
      XorZero(Mul(a[0], b[0]));
    } else {
      RowsLeading(a, b, n - 1);
    }
  }

  // ---- coefficients joined end to end ----

  lemma {:induction false} PartialPrefix(p: Poly, q: Poly, n: nat, x: Byte)
    requires n <= |p|
    ensures Partial(p + q, n, x) == Mul(Partial(p, n, x), Pow(x, |q|))
  {
    hide Mul, Xor;
    if n == 0 {
      MulZero(Pow(x, |q|));
    } else {
      PartialPrefix(p, q, n - 1, x);
      PowAdd(x, |p| - n, |q|);
      MulAssoc(p[n - 1], Pow(x, |p| - n), Pow(x, |q|));
      MulXor(Pow(x, |q|), Partial(p, n - 1, x), Mul(p[n - 1], Pow(x, |p| - n)));
    }
  }

  lemma {:induction false} PartialSuffix(p: Poly, q: Poly, n: nat, x: Byte)
    requires n <= |q|
    ensures Partial(p + q, |p| + n, x) == Add(Partial(p + q, |p|, x), Partial(q, n, x))
  {
    hide Mul, Xor;
    if n == 0 {
      XorZero(Partial(p + q, |p|, x));
    } else {
      PartialSuffix(p, q, n - 1, x);
      XorAssoc(Partial(p + q, |p|, x), Partial(q, n - 1, x), Mul(q[n - 1], Pow(x, |q| - n)));
    }
  }

  /** p followed by q is p * x^|q| + q. */
  lemma EvalConcat(p: Poly, q: Poly, x: Byte)
    ensures Eval(p + q, x) == Add(Mul(Eval(p, x), Pow(x, |q|)), Eval(q, x))
  {
    hide Mul, Xor;
    PartialPrefix(p, q, |p|, x);
    PartialSuffix(p, q, |q|, x);
  }
}
