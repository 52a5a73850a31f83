/** UTF-8 encoding of JavaScript strings (RFC 3629), which are sequences of 16-bit code units. */
module Utf8 {
  import opened Bits
  import opened Results

  type Unit = n: nat | n < 0x10000

  predicate IsSurrogate(u: nat) {
    0xd800 <= u < 0xe000
  }

  predicate IsPair(hi: nat, lo: nat) {
    0xd800 <= hi < 0xdc00 && 0xdc00 <= lo < 0xe000
  }

  /** Surrogates occur only as a high one followed by a low one. */
  predicate WellFormed(s: seq<Unit>) {
    if |s| == 0 then true
    else if !IsSurrogate(s[0]) then WellFormed(s[1..])
    else |s| >= 2 && IsPair(s[0], s[1]) && WellFormed(s[2..])
  }

  // ---- encoding ----

  function OneUnit(c: nat): seq<Byte>
    requires c < 0x10000 && !IsSurrogate(c)
  {
    if c < 0x80 then [c]
    else if c < 0x800 then [0xc0 + c / 64, 0x80 + c % 64]
    else [0xe0 + c / 4096, 0x80 + c / 64 % 64, 0x80 + c % 64]
  }

  /** The code point the source computes from a surrogate and whatever follows it. */
  function Combined(hi: nat, lo: nat): (c: nat)
    ensures 0x10000 <= c < 0x110000
  {
    0x10000 + (hi % 0x400 * 0x400 + lo % 0x400)
  }

  function FourBytes(c: nat): seq<Byte>
    requires 0x10000 <= c < 0x110000
  {
    [0xf0 + c / 0x40000, 0x80 + c / 4096 % 64, 0x80 + c / 64 % 64, 0x80 + c % 64]
  }

  /** The bytes of a string, well-formed or not: a surrogate always takes the next unit with it, and
      a missing unit counts as zero. */
  function Encoded(s: seq<Unit>): seq<Byte>
    decreases |s|
  {
    if |s| == 0 then []
    else if !IsSurrogate(s[0]) then OneUnit(s[0]) + Encoded(s[1..])
    else FourBytes(Combined(s[0], if |s| >= 2 then s[1] else 0)) + Encoded(if |s| >= 2 then s[2..] else [])
  }

  // ---- decoding ----

  predicate IsTail(b: nat) {
    0x80 <= b < 0xc0
  }

  /** The shortest well-formed prefix (section 4 of RFC 3629): its code point and its length. */
  function DecodeOne(b: seq<nat>): Option<(nat, nat)>
    requires |b| > 0
  {
    if b[0] < 0x80 then Some((b[0], 1))
    else if 0xc2 <= b[0] < 0xe0 then
      if |b| >= 2 && IsTail(b[1]) then Some(((b[0] - 0xc0) * 64 + (b[1] - 0x80), 2)) else None
    else if 0xe0 <= b[0] < 0xf0 then
      if |b| >= 3 && IsTail(b[1]) && IsTail(b[2])
         && (b[0] == 0xe0 ==> b[1] >= 0xa0) && (b[0] == 0xed ==> b[1] < 0xa0)
      then Some(((b[0] - 0xe0) * 4096 + (b[1] - 0x80) * 64 + (b[2] - 0x80), 3)) else None
    else if 0xf0 <= b[0] < 0xf5 then
      if |b| >= 4 && IsTail(b[1]) && IsTail(b[2]) && IsTail(b[3])
         && (b[0] == 0xf0 ==> b[1] >= 0x90) && (b[0] == 0xf4 ==> b[1] < 0x90)
      then Some(((b[0] - 0xf0) * 0x40000 + (b[1] - 0x80) * 4096 + (b[2] - 0x80) * 64 + (b[3] - 0x80), 4))
      else None
    else None
  }

  lemma DecodedPoint(b: seq<nat>)
    requires |b| > 0 && DecodeOne(b).Some?
    ensures var (c, k) := DecodeOne(b).value; 1 <= k <= |b| && c < 0x110000 && !IsSurrogate(c)
  {
  }

  /** A code point in UTF-16. */
  function Units(c: nat): (u: seq<Unit>)
    requires c < 0x110000 && !IsSurrogate(c)
  {
    if c < 0x10000 then [c] else [0xd800 + (c - 0x10000) / 0x400, 0xdc00 + (c - 0x10000) % 0x400]
  }

  function Decoded(b: seq<Byte>): Option<seq<Unit>> {
    if |b| == 0 then Some([])
    else
      var (c, k) :- DecodeOne(b);
      DecodedPoint(b);
      var more :- Decoded(b[k..]);
      Some(Units(c) + more)
  }

  // ---- round trip ----

  lemma OneUnitBack(c: nat, rest: seq<Byte>)
    requires c < 0x10000 && !IsSurrogate(c)
    ensures DecodeOne(OneUnit(c) + rest) == Some((c, |OneUnit(c)|))
  {
    if c < 0x80 {
    } else if c < 0x800 {
      assert c == c / 64 * 64 + c % 64;
    } else {
      assert c / 4096 == c / 64 / 64;
      assert c == c / 4096 * 4096 + c / 64 % 64 * 64 + c % 64;
    }
  }

  lemma FourBytesBack(c: nat, rest: seq<Byte>)
    requires 0x10000 <= c < 0x110000
    ensures DecodeOne(FourBytes(c) + rest) == Some((c, 4))
  {
    var d := c / 64;
    var e := d / 64;
    assert c / 4096 == e && c / 0x40000 == e / 64;
    assert c == (e / 64) * 0x40000 + (e % 64) * 4096 + (d % 64) * 64 + c % 64;
  }

  lemma PairBack(hi: nat, lo: nat)
    requires IsPair(hi, lo)
    ensures Units(Combined(hi, lo)) == [hi, lo]
  {
  }

  lemma {:induction false} RoundTrip(s: seq<Unit>)
    requires WellFormed(s)
    ensures Decoded(Encoded(s)) == Some(s)
    decreases |s|
  {
    hide DecodeOne, OneUnit, FourBytes, Combined;
    if |s| != 0 {
      var bytes := Encoded(s);
      if !IsSurrogate(s[0]) {
        var rest := Encoded(s[1..]);
        OneUnitSize(s[0]);
        OneUnitBack(s[0], rest);
        assert bytes[|OneUnit(s[0])|..] == rest;
        RoundTrip(s[1..]);
        assert [s[0]] + s[1..] == s;
      } else {
        var rest := Encoded(s[2..]);
        var c := Combined(s[0], s[1]);
        FourBytesBack(c, rest);
        FourBytesSize(c);
        assert bytes[4..] == rest;
        RoundTrip(s[2..]);
        PairBack(s[0], s[1]);
        assert [s[0], s[1]] + s[2..] == s;
      }
    }
  }

  lemma OneUnitSize(c: nat)
    requires c < 0x10000 && !IsSurrogate(c)
    ensures |OneUnit(c)| > 0
  {
  }

  lemma FourBytesSize(c: nat)
    requires 0x10000 <= c < 0x110000
    ensures |FourBytes(c)| == 4
  {
  }

  lemma {:induction false} DecodedIsWellFormed(b: seq<Byte>)
    ensures Decoded(b).Some? ==> WellFormed(Decoded(b).value)
    decreases |b|
  {
    hide DecodeOne;
    if |b| != 0 && Decoded(b).Some? {
      var (c, k) := DecodeOne(b).value;
      DecodedPoint(b);
      DecodedIsWellFormed(b[k..]);
      var u, more := Units(c), Decoded(b[k..]).value;
      if c < 0x10000 {
        assert (u + more)[1..] == more;
      } else {
        assert (u + more)[2..] == more;
      }
    }
  }

  /** The bytes decode back to the string exactly when the string is well-formed UTF-16. */
  lemma RoundTripIff(s: seq<Unit>)
    ensures Decoded(Encoded(s)) == Some(s) <==> WellFormed(s)
  {
    if WellFormed(s) {
      RoundTrip(s);
    }
    DecodedIsWellFormed(Encoded(s));
  }

  // ---- the source's loop ----

  /** `0x80 | (c & 0x3f)` and its companions add disjoint bits. */
  lemma DisjointBits(x: nat)
    ensures x < 32 ==> Or(0xc0, x) == 0xc0 + x
    ensures x < 16 ==> Or(0xe0, x) == 0xe0 + x
    ensures x < 8 ==> Or(0xf0, x) == 0xf0 + x
    ensures x < 64 ==> Or(0x80, x) == 0x80 + x
  {
    assert Pow2(5) == 32 && Pow2(4) == 16 && Pow2(3) == 8 && Pow2(6) == 64;
    hide Or, Pow2;
    if x < 32 { OrDisjoint(6, 5, x); }
    if x < 16 { OrDisjoint(14, 4, x); }
    if x < 8 { OrDisjoint(30, 3, x); }
    if x < 64 { OrDisjoint(2, 6, x); }
  }

  // ---- the bytes pushed in each branch ----

  function PushedTwo(c: nat): seq<nat> {
    [Or(0xc0, c / 64), Or(0x80, c % 64)]
  }

  function PushedThree(c: nat): seq<nat> {
    [Or(0xe0, c / 4096), Or(0x80, c / 64 % 64), Or(0x80, c % 64)]
  }

  function PushedFour(c: nat): seq<nat> {
    [Or(0xf0, c / 0x40000), Or(0x80, c / 4096 % 64), Or(0x80, c / 64 % 64), Or(0x80, c % 64)]
  }

  lemma Pushed(c: nat)
    ensures 0x80 <= c < 0x800 ==> PushedTwo(c) == OneUnit(c)
    ensures 0x800 <= c < 0x10000 && !IsSurrogate(c) ==> PushedThree(c) == OneUnit(c)
    ensures 0x10000 <= c < 0x110000 ==> PushedFour(c) == FourBytes(c)
  {
    hide Or;
    DisjointBits(c % 64);
    DisjointBits(c / 64 % 64);
    DisjointBits(c / 4096 % 64);
    DisjointBits(c / 64);
    DisjointBits(c / 4096);
    DisjointBits(c / 0x40000);
  }

  lemma SurrogateBits(hi: nat, lo: nat)
    ensures 0x10000 + Or(hi % 0x400 * 0x400, lo % 0x400) == Combined(hi, lo)
  {
    KnownPowers();
    OrDisjoint(hi % 0x400, 10, lo % 0x400);
  }

  lemma EncodedStep(s: seq<Unit>)
    requires |s| > 0
    ensures !IsSurrogate(s[0]) ==> Encoded(s) == OneUnit(s[0]) + Encoded(s[1..])
    ensures IsSurrogate(s[0]) && |s| >= 2 ==> Encoded(s) == FourBytes(Combined(s[0], s[1])) + Encoded(s[2..])
    ensures IsSurrogate(s[0]) && |s| == 1 ==> Encoded(s) == FourBytes(Combined(s[0], 0)) + Encoded([])
  {
    hide OneUnit, FourBytes, Combined;
  }

  method ToUtf8Array(str: seq<Unit>) returns (utf8: seq<nat>)
    ensures utf8 == Encoded(str)
  {
    hide Or, PushedTwo, PushedThree, PushedFour, FourBytes, Combined, Encoded;
    utf8 := [];
    var i := 0;
    while i < |str|
      invariant i <= |str|
      invariant utf8 + Encoded(str[i..]) == Encoded(str)
    {
      ghost var rest := str[i..];
      assert rest[1..] == str[i + 1..];
      EncodedStep(rest);
      var charcode: nat := str[i];
      if charcode < 0x80 {
        utf8 := utf8 + [charcode];
      } else if charcode < 0x800 {
        Pushed(charcode);
        utf8 := utf8 + PushedTwo(charcode);
      } else if charcode < 0xd800 || charcode >= 0xe000 {
        Pushed(charcode);
        utf8 := utf8 + PushedThree(charcode);
      } else {
        i := i + 1;
        var low: nat := if i < |str| then str[i] else 0;
        if i < |str| {
          assert rest[2..] == str[i + 1..];
        }
        SurrogateBits(charcode, low);
        charcode := 0x10000 + Or(charcode % 0x400 * 0x400, low % 0x400);
        Pushed(charcode);
        utf8 := utf8 + PushedFour(charcode);
      }
      i := if i < |str| then i + 1 else i;
    }
    assert str[i..] == [];
    NothingEncoded();
  }

  lemma NothingEncoded()
    ensures Encoded([]) == []
  {
  }
}
