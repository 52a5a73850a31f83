/** The polynomial object of the source: construction, multiplication and the recursive remainder,
    each computed through the exponent and logarithm tables. A coefficient is None where the array
    slot was never assigned: it has no logarithm either, but asking for it does not throw, and it
    counts as zero in an exclusive or. */
module QrPolynomial {
  import opened Bits
  import opened GaloisField
  import opened Polynomial
  import opened ReedSolomon
  import opened QrMath
  import opened Results

  type Slots = seq<Option<Byte>>

  function Unassigned(n: nat): (p: Slots)
    ensures |p| == n
  {
    seq(n, _ => None)
  }

  function Assigned(p: Poly): (s: Slots)
    ensures |s| == |p| && forall i :: 0 <= i < |p| ==> s[i] == Some(p[i])
  {
    seq(|p|, i requires 0 <= i < |p| => Some(p[i]))
  }

  function SlotValue(slot: Option<Byte>): Byte {
    if slot.Some? then slot.value else 0
  }

  function Values(s: Slots): (p: Poly)
    ensures |p| == |s| && forall i :: 0 <= i < |s| ==> p[i] == SlotValue(s[i])
  {
    seq(|s|, i requires 0 <= i < |s| => SlotValue(s[i]))
  }

  /** Without leading zeros; an unassigned slot is not equal to zero and stays. */
  function StripSlots(s: Slots): (t: Slots)
    ensures t == [] || t[0] != Some(0)
    ensures |t| <= |s|
  {
    if |s| > 0 && s[0] == Some(0) then StripSlots(s[1..]) else s
  }

  predicate NoZeros(s: Slots) {
    forall i :: 0 <= i < |s| ==> s[i] != Some(0)
  }

  // ---- slots and values ----

  lemma ValuesBehind(s: Slots)
    requires |s| > 0
    ensures Values(s)[0] == SlotValue(s[0]) && Values(s)[1..] == Values(s[1..])
  {
  }

  lemma {:induction false} StripValues(s: Slots)
    ensures Strip(Values(StripSlots(s))) == Strip(Values(s))
  {
    hide Values, Strip;
    if |s| > 0 && s[0] == Some(0) {
      StripValues(s[1..]);
      ValuesBehind(s);
      StripHead(Values(s));
    }
  }

  lemma {:induction false} StripAssigned(p: Poly)
    ensures StripSlots(Assigned(p)) == Assigned(Strip(p))
  {
    if |p| > 0 && p[0] == 0 {
      StripAssigned(p[1..]);
      assert Assigned(p)[1..] == Assigned(p[1..]);
    }
  }

  lemma AssignedBack(s: Slots)
    requires forall i :: 0 <= i < |s| ==> s[i].Some?
    ensures Assigned(Values(s)) == s
  {
  }

  lemma NoZerosAssigned(p: Poly)
    ensures NoZeros(Assigned(p)) <==> NonZero(p)
    ensures Values(Assigned(p)) == p
  {
    forall i | 0 <= i < |p| ensures Assigned(p)[i] != Some(0) <==> p[i] != 0 {
    }
    if NoZeros(Assigned(p)) {
      forall i | 0 <= i < |p| ensures p[i] != 0 {
        assert Assigned(p)[i] == Some(p[i]);
      }
    }
  }

  // ---- construction ----

  /** How many leading coefficients are zero. */
  method CountLeadingZeros(num: Slots) returns (offset: nat)
    ensures offset <= |num| && StripSlots(num) == num[offset..]
  {
    hide StripSlots;
    offset := 0;
    assert num[0..] == num;
    while offset < |num| && num[offset] == Some(0)
      invariant offset <= |num|
      invariant StripSlots(num) == StripSlots(num[offset..])
    {
      DropZero(num, offset);
      offset := offset + 1;
    }
    NothingToStrip(num[offset..]);
  }

  /** num without its leading zeros, and shift slots behind it that are never assigned. */
  method Make(num: Slots, shift: nat) returns (p: Slots)
    ensures p == StripSlots(num) + Unassigned(shift)
  {
    hide StripSlots, Filled, Unassigned;
    var offset := CountLeadingZeros(num);
    ghost var rest := StripSlots(num);
    FillEnds(rest, shift);
    p := Unassigned(|num| - offset + shift);
    for i := 0 to |num| - offset
      invariant p == Filled(rest, i, shift)
    {
      FillNext(rest, i, shift);
      p := p[i := num[i + offset]];
    }
  }

  lemma DropZero(num: Slots, offset: nat)
    requires offset < |num| && num[offset] == Some(0)
    ensures StripSlots(num[offset..]) == StripSlots(num[offset + 1..])
  {
    assert num[offset..][1..] == num[offset + 1..];
  }

  /** The array after i steps. */
  ghost function Filled(rest: Slots, i: nat, shift: nat): (p: Slots)
    requires i <= |rest|
    ensures |p| == |rest| + shift
  {
    rest[..i] + Unassigned(|rest| - i + shift)
  }

  lemma FillEnds(rest: Slots, shift: nat)
    ensures Filled(rest, 0, shift) == Unassigned(|rest| + shift)
    ensures Filled(rest, |rest|, shift) == rest + Unassigned(shift)
  {
    assert rest[..0] == [];
    assert rest[..|rest|] == rest;
  }

  lemma FillNext(rest: Slots, i: nat, shift: nat)
    requires i < |rest|
    ensures Filled(rest, i, shift)[i := rest[i]] == Filled(rest, i + 1, shift)
  {
  }

  lemma NothingToStrip(num: Slots)
    requires |num| == 0 || num[0] != Some(0)
    ensures StripSlots(num) == num
  {
  }

  // ---- logarithms of slots ----

  /** The logarithm of a slot; none, but no throw either, where nothing was assigned. */
  method GlogSlot(tables: Tables, slot: Option<Byte>) returns (r: Result<Option<nat>>)
    requires tables.Valid()
    ensures slot == None ==> r == Ok(None)
    ensures slot.Some? ==> r == if slot.value == 0 then Throws(NoLogarithm) else Ok(Some(Log(slot.value)))
  {
    match slot
    case None => return Ok(None);
    case Some(v) =>
      var n :- tables.Glog(v);
      return Ok(Some(n));
  }

  /** A sum in which something is missing is missing. */
  function AddLogs(a: Option<int>, b: Option<int>): Option<int> {
    if a.Some? && b.Some? then Some(a.value + b.value) else None
  }

  function Negated(a: Option<int>): Option<int> {
    if a.Some? then Some(-a.value) else None
  }

  method GexpSlot(tables: Tables, n: Option<int>) returns (v: Byte)
    requires tables.Valid()
    ensures v == if n.Some? then Exp(n.value) else 0
  {
    match n
    case None => return 0;
    case Some(k) => v := tables.Gexp(k);
  }

  /** Adding logarithms of slots multiplies their values. */
  lemma AddingSlotLogs(a: Option<Byte>, b: Option<Byte>)
    requires a != Some(0) && b != Some(0)
    ensures var n := AddLogs(if a.Some? then Some(Log(a.value)) else None, if b.Some? then Some(Log(b.value)) else None);
            (if n.Some? then Exp(n.value) else 0) == Mul(SlotValue(a), SlotValue(b))
  {
    hide Mul, Exp, Log;
    if a.Some? && b.Some? {
      AddingLogs(a.value, b.value);
    } else {
      MulZero(SlotValue(a));
      MulZero(SlotValue(b));
    }
  }

  // ---- multiplication ----

  /** The product; a coefficient that was assigned zero has no logarithm, and the source throws. Two
      arrays without slots have no array to hold their product. */
  method Multiply(tables: Tables, a: Slots, b: Slots) returns (r: Result<Slots>)
    requires tables.Valid()
    ensures |a| == |b| == 0 ==> r == Throws(BadLength)
    ensures (|a| == 0) != (|b| == 0) ==> r == Ok(Unassigned(|a| + |b| - 1))
    ensures |a| > 0 && |b| > 0 ==>
      r == if NoZeros(a) && NoZeros(b) then Ok(Assigned(Strip(Product(Values(a), Values(b)))))
           else Throws(NoLogarithm)
  {
    hide Mul, Xor, Alpha, Log, Exp, Values, Unassigned, Strip, StripSlots, Assigned;
    if |a| + |b| == 0 {
      return Throws(BadLength);
    }
    var num := Unassigned(|a| + |b| - 1);
    if |a| > 0 && |b| > 0 {
      UnassignedValues(|num|);
      num :- MultiplyRows(tables, a, b, num);
      AssignedBack(num);
      StripAssigned(Values(num));
    } else {
      NothingLeading(|num|);
    }
    var p := Make(num, 0);
    NoShift(StripSlots(num));
    return Ok(p);
  }

  lemma NoShift(s: Slots)
    ensures s + Unassigned(0) == s
  {
  }

  lemma NothingLeading(n: nat)
    ensures StripSlots(Unassigned(n)) == Unassigned(n)
  {
  }

  lemma UnassignedValues(n: nat)
    ensures Values(Unassigned(n)) == Zeros(n)
  {
  }

  method MultiplyRows(tables: Tables, a: Slots, b: Slots, start: Slots) returns (r: Result<Slots>)
    requires tables.Valid() && |a| > 0 && |b| > 0
    requires |start| == |a| + |b| - 1 && Values(start) == Zeros(|start|)
    ensures r.Ok? <==> NoZeros(a) && NoZeros(b)
    ensures r.Throws? ==> r.error == NoLogarithm
    ensures r.Ok? ==>
      |r.value| == |start| && Values(r.value) == Product(Values(a), Values(b))
      && forall k :: 0 <= k < |start| ==> r.value[k].Some?
  {
    hide Mul, Xor, Alpha, Log, Exp, Values;
    var num := start;
    ghost var va, vb := Values(a), Values(b);
    for i := 0 to |a|
      invariant |num| == |start| && Values(num) == Rows(va, vb, i)
      invariant forall k :: 0 <= k < i ==> a[k] != Some(0)
      invariant i > 0 ==> NoZeros(b)
      invariant forall k :: 0 <= k < |num| && i > 0 && k < i + |b| - 1 ==> num[k].Some?
    {
      num :- MultiplyRow(tables, a, b, i, num);
    }
    return Ok(num);
  }

  /** One row of the product, added in place. */
  method MultiplyRow(tables: Tables, a: Slots, b: Slots, i: nat, start: Slots) returns (r: Result<Slots>)
    requires tables.Valid() && i < |a| && |b| > 0 && |start| == |a| + |b| - 1
    ensures r.Ok? <==> a[i] != Some(0) && NoZeros(b)
    ensures r.Throws? ==> r.error == NoLogarithm
    ensures r.Ok? ==>
      && |r.value| == |start|
      && Values(r.value) == AddScaled(Values(start), i, Values(a)[i], Values(b), |b|)
      && forall k :: 0 <= k < |start| ==> r.value[k].Some? == (start[k].Some? || i <= k < i + |b|)
  {
    hide Mul, Xor, Alpha, Log, Exp, Values, SlotValue, AddLogs, Tables.Valid;
    var num := start;
    ghost var va, vb := Values(a), Values(b);
    for j := 0 to |b|
      invariant |num| == |start| && Values(num) == AddScaled(Values(start), i, va[i], vb, j)
      invariant forall k :: 0 <= k < j ==> b[k] != Some(0)
      invariant j > 0 ==> a[i] != Some(0)
      invariant forall k :: 0 <= k < |num| ==> num[k].Some? == (start[k].Some? || i <= k < i + j)
    {
      var x :- GlogSlot(tables, a[i]);
      var y :- GlogSlot(tables, b[j]);
      AddingSlotLogs(a[i], b[j]);
      var product := GexpSlot(tables, AddLogs(x, y));
      UpdatedValues(num, i + j, Add(SlotValue(num[i + j]), product));
      num := num[i + j := Some(Add(SlotValue(num[i + j]), product))];
    }
    return Ok(num);
  }

  lemma UpdatedValues(s: Slots, k: nat, v: Byte)
    requires k < |s|
    ensures Values(s[k := Some(v)]) == Values(s)[k := v]
    ensures Values(s)[k] == SlotValue(s[k])
  {
  }

  // ---- remainder ----

  /** The leading slot; asking an empty array for it yields none. */
  function First(s: Slots): Option<Byte> {
    if |s| > 0 then s[0] else None
  }

  /** The logarithm of the quotient of two leading coefficients. */
  ghost function RatioLog(a: Slots, e: Slots): Option<int>
    requires First(a) != Some(0) && First(e) != Some(0)
  {
    if First(a).Some? && First(e).Some? then Some(Log(First(a).value) - Log(First(e).value)) else None
  }

  /** What the coefficients are scaled by; nothing is added where the ratio is missing. */
  ghost function Scale(a: Slots, e: Slots): Byte
    requires First(a) != Some(0) && First(e) != Some(0)
  {
    if First(a).Some? && First(e).Some? then Ratio(Values(a), Values(e)) else 0
  }

  lemma ScaledTerm(a: Slots, e: Slots, i: nat)
    requires First(a) != Some(0) && First(e) != Some(0) && i < |e| && e[i] != Some(0)
    ensures var n := AddLogs(if e[i].Some? then Some(Log(e[i].value)) else None, RatioLog(a, e));
            (if n.Some? then Exp(n.value) else 0) == Mul(Scale(a, e), Values(e)[i])
  {
    hide Mul, Alpha, Exp, Log;
    if First(a).Some? && First(e).Some? && e[i].Some? {
      ExpAdd(Log(e[i].value), Log(a[0].value) - Log(e[0].value));
      MulComm(e[i].value, Ratio(Values(a), Values(e)));
      var x := e[i].value;
      assert Exp(Log(x)) == x by { ExpOfLog(x); }
    } else {
      MulZero(Scale(a, e));
      MulZero(Values(e)[i]);
    }
  }

  lemma ExpOfLog(x: Byte)
    requires x != 0
    ensures Exp(Log(x)) == x
  {
    hide Alpha;
  }

  /** One subtraction, in place. */
  method Subtract(tables: Tables, a: Slots, e: Slots, ratio: Option<int>) returns (r: Result<Slots>)
    requires tables.Valid() && |a| >= |e| && First(a) != Some(0) && First(e) != Some(0)
    requires ratio == RatioLog(a, e)
    ensures r.Ok? <==> NoZeros(e)
    ensures r.Throws? ==> r.error == NoLogarithm
    ensures r.Ok? ==> |r.value| == |a| && if |e| > 0 then r.value[0].Some? else r.value == a
    ensures r.Ok? ==> Values(r.value) == AddScaled(Values(a), 0, Scale(a, e), Values(e), |e|)
  {
    hide Mul, Xor, Alpha, Log, Exp, Values, Scale, RatioLog;
    var num := a;
    for i := 0 to |e|
      invariant |num| == |a| && Values(num) == AddScaled(Values(a), 0, Scale(a, e), Values(e), i)
      invariant forall k :: 0 <= k < i ==> e[k] != Some(0)
      invariant if i > 0 then num[0].Some? else num == a
    {
      var x :- GlogSlot(tables, e[i]);
      ScaledTerm(a, e, i);
      var term := GexpSlot(tables, AddLogs(x, ratio));
      UpdatedValues(num, i, Add(SlotValue(num[i]), term));
      num := num[i := Some(Add(SlotValue(num[i]), term))];
    }
    return Ok(num);
  }

  /** The ratio of the leading coefficients, and the subtraction scaled by it. */
  method SubtractScaled(tables: Tables, a: Slots, e: Slots) returns (r: Result<Slots>)
    requires tables.Valid() && |a| >= |e|
    ensures r.Ok? <==> First(a) != Some(0) && First(e) != Some(0) && NoZeros(e)
    ensures r.Throws? ==> r.error == NoLogarithm && (First(a) == Some(0) || !NoZeros(e))
    ensures r.Ok? ==> |r.value| == |a| && if |e| > 0 then r.value[0].Some? else r.value == a
    ensures r.Ok? ==> Values(r.value) == AddScaled(Values(a), 0, Scale(a, e), Values(e), |e|)
  {
    hide Alpha, Log, Exp, Values, Scale, AddScaled, NoZeros, First, Tables.Valid;
    FirstOfNoZeros(e);
    var la :- GlogSlot(tables, First(a));
    var le :- GlogSlot(tables, First(e));
    var ratio := AddLogs(la, Negated(le));
    r := Subtract(tables, a, e, ratio);
  }

  lemma FirstOfNoZeros(e: Slots)
    ensures NoZeros(e) ==> First(e) != Some(0)
  {
  }

  lemma {:induction false} NothingAdded(num: Poly, b: Poly, n: nat)
    requires |b| <= |num| && n <= |b|
    ensures AddScaled(num, 0, 0, b, n) == num
  {
    hide Mul, Xor;
    if n > 0 {
      NothingAdded(num, b, n - 1);
      MulZero(b[n - 1]);
      XorZero(num[n - 1]);
    }
  }

  /** What a subtraction leaves, in values: with a ratio, a reduced polynomial. */
  lemma Subtracted(a: Slots, e: Slots, num: Slots)
    requires |a| >= |e| && First(a) != Some(0) && First(e) != Some(0)
    requires First(a).Some? && First(e).Some?
    requires |num| == |a| && num[0].Some?
    requires Values(num) == AddScaled(Values(a), 0, Scale(a, e), Values(e), |e|)
    ensures Strip(Values(StripSlots(num))) == Strip(Reduced(Values(a), Values(e))) == Reduced(Values(a), Values(e))
    ensures |StripSlots(num)| < |a|
  {
    hide Mul, Xor, Alpha, Log, Exp, Strip, AddScaled, Values;
    StripValues(num);
    ReducedIs(Values(a), Values(e));
    StrippedTwice(AddScaled(Values(a), 0, Ratio(Values(a), Values(e)), Values(e), |e|));
    LeadingCancels(Values(a), Values(e));
    FirstValue(num);
    ShorterStripped(num);
  }

  /** Without a ratio the values stay; the array gets shorter unless its leading slot was assigned. */
  lemma Coerced(a: Slots, e: Slots, num: Slots)
    requires |a| >= |e| && First(a) != Some(0) && First(e) != Some(0)
    requires First(a) == None || First(e) == None
    requires |num| == |a| && if |e| > 0 then num[0].Some? else num == a
    requires Values(num) == AddScaled(Values(a), 0, Scale(a, e), Values(e), |e|)
    ensures Strip(Values(StripSlots(num))) == Strip(Values(a))
    ensures |StripSlots(num)| < |a| <==> |e| > 0 && First(a) == None
    ensures First(a).Some? ==> |Strip(Values(a))| == |a|
  {
    hide Mul, Xor, Alpha, Log, Exp, Strip, AddScaled, Values;
    StripValues(num);
    NothingAdded(Values(a), Values(e), |e|);
    if |a| > 0 {
      FirstValue(num);
      FirstValue(a);
      if First(a).Some? {
        AlreadyStripped(Values(a));
      }
      if num[0] == Some(0) {
        ShorterStripped(num);
      } else {
        NothingToStrip(num);
      }
    } else {
      NothingToStrip(num);
    }
  }

  lemma FirstValue(s: Slots)
    requires |s| > 0
    ensures Values(s)[0] == SlotValue(s[0])
  {
  }

  lemma ShorterStripped(s: Slots)
    requires |s| > 0 && s[0] == Some(0)
    ensures |StripSlots(s)| < |s|
  {
  }

  lemma StrippedTwice(p: Poly)
    ensures Strip(Strip(p)) == Strip(p)
  {
  }

  lemma ReducedIs(a: Poly, e: Poly)
    requires |a| >= |e| > 0 && a[0] != 0 && e[0] != 0
    ensures Reduced(a, e) == Strip(AddScaled(a, 0, Ratio(a, e), e, |e|))
  {
    hide Mul, Xor, Alpha, Log, Exp, Ratio, Strip, AddScaled;
  }

  /** The remainder of the values, without leading zeros. */
  ghost function ValueRemainder(a: Poly, e: Poly): Poly
    requires |e| > 0 && e[0] != 0
  {
    Strip(Remainder(Strip(a), e))
  }

  lemma RemainderStep(a: Slots, e: Slots, p: Slots)
    requires |a| >= |e| && First(a) != Some(0) && First(e) != Some(0)
    requires First(e).Some?
    requires Strip(Values(p)) == if First(a).Some? then Reduced(Values(a), Values(e)) else Strip(Values(a))
    ensures ValueRemainder(Values(p), Values(e)) == ValueRemainder(Values(a), Values(e))
  {
    hide Reduced, Values, Strip, Remainder;
    FirstValue(e);
    if First(a).Some? {
      FirstValue(a);
      AlreadyStripped(Values(a));
      RemainderUnfolds(Values(a), Values(e));
    }
  }

  /** What one round of the recursion does, leading zeros of its result stripped. */
  lemma StepKeeps(a: Slots, e: Slots, num: Slots)
    requires |a| >= |e| && First(a) != Some(0) && First(e) != Some(0)
    requires |num| == |a| && if |e| > 0 then num[0].Some? else num == a
    requires Values(num) == AddScaled(Values(a), 0, Scale(a, e), Values(e), |e|)
    ensures var p := StripSlots(num);
            && First(p) != Some(0)
            && (First(e).Some? ==>
                 |p| < |a| && ValueRemainder(Values(p), Values(e)) == ValueRemainder(Values(a), Values(e)))
            && (First(e) == None ==>
                 && Strip(Values(p)) == Strip(Values(a))
                 && (|p| < |a| <==> |e| > 0 && First(a) == None)
                 && (First(a).Some? ==> |Strip(Values(a))| == |a|))
  {
    hide Reduced, Strip, StripSlots, Values, Scale, AddScaled, ValueRemainder;
    if First(a).Some? && First(e).Some? {
      Subtracted(a, e, num);
    } else {
      Coerced(a, e, num);
    }
    if First(e).Some? {
      RemainderStep(a, e, StripSlots(num));
    }
  }

  lemma RemainderUnfolds(a: Poly, e: Poly)
    requires |a| >= |e| > 0 && a[0] != 0 && e[0] != 0
    ensures Remainder(a, e) == Remainder(Reduced(a, e), e)
  {
    hide Reduced;
  }

  lemma RemainderOfShort(a: Poly, e: Poly)
    requires |a| < |e| && e[0] != 0
    ensures Remainder(a, e) == a
  {
  }

  lemma ShortRemainder(p: Slots, e: Slots)
    requires |p| < |e| && First(e).Some? && First(e) != Some(0)
    ensures Strip(Values(p)) == ValueRemainder(Values(p), Values(e))
  {
    StrippedTwice(Values(p));
  }

  /** When the remainder throws: at a coefficient assigned zero, and when the recursion does not end. A
      divisor whose leading slot was never assigned is never subtracted: unassigned slots of the dividend
      are turned into zeros and stripped, and that ends only if it leaves fewer slots than the divisor has. */
  ghost function Thrown(a: Slots, e: Slots): Option<Error> {
    if |a| < |e| then None
    else if First(a) == Some(0) || !NoZeros(e) then Some(NoLogarithm)
    else if First(e) == None && |Strip(Values(a))| >= |e| then Some(EndlessRecursion)
    else None
  }

  /** What is left, leading zeros stripped. */
  ghost function Remains(a: Slots, e: Slots): Poly
    requires First(e) != Some(0)
  {
    if First(e).Some? then ValueRemainder(Values(a), Values(e)) else Strip(Values(a))
  }

  lemma RemainsShort(a: Slots, e: Slots)
    requires |a| < |e| && First(e) != Some(0)
    ensures Remains(a, e) == Strip(Values(a))
  {
    hide Strip, Values, ValueRemainder;
    if First(e).Some? {
      ShortRemainder(a, e);
    }
  }

  /** One round leaves what there was to come. */
  lemma RemainsNext(a: Slots, e: Slots, num: Slots)
    requires |a| >= |e| && First(a) != Some(0) && NoZeros(e) && First(e) != Some(0)
    requires |num| == |a| && if |e| > 0 then num[0].Some? else num == a
    requires Values(num) == AddScaled(Values(a), 0, Scale(a, e), Values(e), |e|)
    ensures var p := StripSlots(num);
            && Remains(p, e) == Remains(a, e)
            && (if |p| < |a| then Thrown(p, e) == Thrown(a, e) else Thrown(a, e) == Some(EndlessRecursion))
  {
    hide Strip, StripSlots, Values, Scale, AddScaled, ValueRemainder, NoZeros, First;
    StepKeeps(a, e, num);
  }

  /** The remainder; the leading coefficients are divided through their logarithms. */
  method Mod(tables: Tables, a: Slots, e: Slots) returns (r: Result<Slots>)
    requires tables.Valid()
    ensures r.Ok? <==> Thrown(a, e) == None
    ensures r.Throws? ==> Thrown(a, e) == Some(r.error)
    ensures |a| < |e| ==> r == Ok(a)
    ensures r.Ok? ==> |r.value| < |e|
    ensures r.Ok? && First(e) != Some(0) ==> Strip(Values(r.value)) == Remains(a, e)
    decreases |a|
  {
    hide Alpha, Log, Exp, Strip, StripSlots, Values, Scale, AddScaled, ValueRemainder, NoZeros, First, Tables.Valid;
    if |a| < |e| {
      if First(e) != Some(0) {
        RemainsShort(a, e);
      }
      return Ok(a);
    }
    var num :- SubtractScaled(tables, a, e);
    var p := Make(num, 0);
    NoShift(StripSlots(num));
    RemainsNext(a, e, num);
    if |p| >= |a| {
      return Throws(EndlessRecursion);
    }
    hide Remains, Thrown;
    r := Mod(tables, p, e);
  }

  // ---- the generator ----

  lemma StartsAtOne()
    ensures Generator(0) == [1]
  {
  }

  lemma NextGenerator(n: nat)
    ensures Generator(n + 1) == Strip(Product(Generator(n), [1, Exp(n)]))
  {
    hide Mul, Xor, Alpha, Exp, Product, Strip;
    assert Generator(n + 1)[0] == 1;
    AlreadyStripped(Generator(n + 1));
  }

  /** The generator of degree n, by n multiplications. The first zero coefficient appears at degree
      255, so up to there no step throws, and beyond it the next multiplication does. */
  method GetErrorCorrectPolynomial(tables: Tables, n: nat) returns (r: Result<Slots>)
    requires tables.Valid()
    ensures r == if n <= 255 then Ok(Assigned(Generator(n))) else Throws(NoLogarithm)
  {
    hide Mul, Xor, Alpha, Exp, Generator, Product, Strip, StripSlots, Assigned;
    StartsAtOne();
    var one: Poly := [1];
    AlreadyStripped(one);
    StripAssigned(one);
    var a := Make(Assigned(one), 0);
    NoShift(Assigned(one));
    for i := 0 to n
      invariant i <= 255 && a == Assigned(Generator(i))
    {
      if i == 255 {
        GeneratorAt255();
      } else {
        GeneratorNonZero(i);
      }
      var c := tables.Gexp(i);
      ExpNonZero(i);
      var f: Poly := [1, c];
      AlreadyStripped(f);
      StripAssigned(f);
      var factor := Make(Assigned(f), 0);
      NoShift(Assigned(f));
      NoZerosAssigned(f);
      NoZerosAssigned(Generator(i));
      a :- Multiply(tables, a, factor);
      NextGenerator(i);
    }
    return Ok(a);
  }
}
