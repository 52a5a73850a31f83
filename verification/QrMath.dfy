/** The exponent and logarithm tables, as the source fills and reads them. */
module QrMath {
  import opened Bits
  import opened GaloisField
  import opened Results

  class Tables {
    const expTable: array<nat>
    const logTable: array<nat>

    ghost predicate Valid()
      reads expTable, logTable
    {
      && expTable != logTable
      && expTable.Length == logTable.Length == 256
      && (forall i :: 0 <= i < 256 ==> expTable[i] == Alpha(i))
      && (forall n: nat :: 1 <= n < 256 ==> logTable[n] == Log(n))
    }

    constructor ()
      ensures Valid() && fresh(expTable) && fresh(logTable)
    {
      expTable := new nat[256];
      logTable := new nat[256];
      new;
      FillExpTable(expTable);
      FillLogTable(expTable, logTable);
    }

    /** Throws below one. */
    method Glog(n: Byte) returns (r: Result<nat>)
      requires Valid()
      ensures r == if n == 0 then Throws(NoLogarithm) else Ok(Log(n))
    {
      if n < 1 {
        return Throws(NoLogarithm);
      }
      return Ok(logTable[n]);
    }

    /** alpha^n for every integer n, reduced by adding or subtracting 255. */
    method Gexp(n: int) returns (v: Byte)
      requires Valid()
      ensures v == Exp(n)
    {
      hide Alpha, Pow2, Mul;
      var m := n;
      while m < 0
        invariant m % 255 == n % 255
      {
        m := m + 255;
      }
      while m >= 256
        invariant m >= 0 && m % 255 == n % 255
      {
        m := m - 255;
      }
      AlphaMod(m);
      v := expTable[m];
    }
  }

  /** The recurrence alpha^i = alpha^(i-4) + alpha^(i-5) + alpha^(i-6) + alpha^(i-8). */
  method FillExpTable(exp: array<nat>)
    requires exp.Length == 256
    modifies exp
    ensures forall k :: 0 <= k < 256 ==> exp[k] == Alpha(k)
  {
    hide Alpha, Xor, Pow2;
    for i := 0 to 8
      invariant forall k :: 0 <= k < i ==> exp[k] == Alpha(k)
    {
      exp[i] := Pow2(i);
      SmallPower(i);
    }
    for i := 8 to 256
      invariant forall k :: 0 <= k < i ==> exp[k] == Alpha(k)
    {
      exp[i] := Xor(Xor(Xor(exp[i - 4], exp[i - 5]), exp[i - 6]), exp[i - 8]);
      Recurrence(i);
    }
  }

  method FillLogTable(exp: array<nat>, log: array<nat>)
    requires exp != log && exp.Length == log.Length == 256
    requires forall k :: 0 <= k < 256 ==> exp[k] == Alpha(k)
    modifies log
    ensures forall n: nat :: 1 <= n < 256 ==> log[n] == Log(n)
  {
    hide Alpha, Log;
    for i := 0 to 255
      invariant forall k :: 0 <= k < i ==> log[exp[k]] == k
    {
      InjectiveBelow(i);
      log[exp[i]] := i;
    }
    forall n: nat | 1 <= n < 256 ensures log[n] == Log(n) {
      assert log[exp[Log(n)]] == Log(n);
    }
  }

  lemma SmallPower(i: nat)
    requires i < 8
    ensures Pow2(i) == Alpha(i)
  {
    hide Mul;
    if i != 0 {
      SmallPower(i - 1);
      SmallPowerIsSmall(i - 1);
      MulTwo(Pow2(i - 1));
    }
  }

  lemma SmallPowerIsSmall(i: nat)
    requires i < 7
    ensures Pow2(i) < 128
  {
    Pow2Monotone(i, 6);
    assert Pow2(6) == 64;
  }

  /** alpha^8 = alpha^4 + alpha^3 + alpha^2 + 1, times alpha^(i-8). */
  lemma Recurrence(i: nat)
    requires i >= 8
    ensures Alpha(i) == Xor(Xor(Xor(Alpha(i - 4), Alpha(i - 5)), Alpha(i - 6)), Alpha(i - 8))
  {
    hide Mul, Alpha, Xor;
    var a := Alpha(i - 8);
    AlphaZero();
    Run(0, 1, 2, 4, 8, 16, 32);
    assert Alpha(1) == 2;
    assert Alpha(2) == 4 && Alpha(3) == 8 && Alpha(4) == 16 by { LowPowers(); }
    assert Alpha(8) == 29 by { LowPowers(); }
    AlphaAdd(4, i - 8);
    AlphaAdd(3, i - 8);
    AlphaAdd(2, i - 8);
    AlphaAdd(8, i - 8);
    MulOne(a);
    MulXor(a, 16, 8);
    MulXor(a, Xor(16, 8), 4);
    MulXor(a, Xor(Xor(16, 8), 4), 1);
    assert Xor(Xor(Xor(16, 8), 4), 1) == 29 by { TwentyNine(); }
  }

  lemma LowPowers()
    ensures Alpha(2) == 4 && Alpha(3) == 8 && Alpha(4) == 16 && Alpha(8) == 29
  {
    hide Mul;
    MulTwo(1);
    MulTwo(2);
    MulTwo(4);
    MulTwo(8);
    MulTwo(16);
    MulTwo(32);
    MulTwo(64);
    MulTwo(128);
  }

  lemma TwentyNine()
    ensures Xor(Xor(Xor(16, 8), 4), 1) == 29
  {
    assert Pow2(1) == 2 && Pow2(3) == 8 && Pow2(4) == 16;
    hide Xor;
    OrDisjoint(1, 4, 8);
    OrDisjoint(3, 3, 4);
    OrDisjoint(14, 1, 1);
  }

  /** alpha^i is a fresh index for i below 255. */
  lemma InjectiveBelow(i: nat)
    requires i < 255
    ensures forall k :: 0 <= k < i ==> Alpha(k) != Alpha(i)
  {
    hide Alpha;
    forall k | 0 <= k < i ensures Alpha(k) != Alpha(i) {
      if Alpha(k) == Alpha(i) {
        AlphaInjective(k, i);
      }
    }
  }
}
