/** The end code. The source writes it at the width of the last data code, while a decoder may have
    gone on to a wider one: for which images a decoder that reads up to the end code still works. */
module LzwEnd {
  import opened Bits
  import opened ByteStreams
  import opened Lzw
  import opened Results

  /** Reads codes, each at the decoder's own width, up to the end code; None if it does not come. */
  function DecodeToEnd(bits: seq<bool>, d: Decoder): Option<seq<nat>>
    decreases |bits|
  {
    if d.width == 0 || |bits| < d.width then None
    else
      var code := FromLow(bits[..d.width]);
      var rest := bits[d.width..];
      if code == 4 then DecodeToEnd(rest, Fresh())
      else if code == 5 then Some([])
      else
        var entry :- Entry(d, code);
        if |entry| == 0 then None
        else
          var more :- DecodeToEnd(rest, Advanced(d, entry));
          Some(entry + more)
  }

  /** The encoder's state when it emits its last data code. */
  ghost function Final(e: Encoder, rest: seq<nat>): (f: Encoder)
    requires ValidEncoder(e) && Pixels(rest)
    ensures ValidEncoder(f)
    decreases |rest|
  {
    if |rest| == 0 then e
    else if e.s + [rest[0]] in e.dict then Final(Matched(e, rest[0]), rest[1..])
    else
      EmittedValid(e, rest[0]);
      Final(Emitted(e, rest[0]), rest[1..])
  }

  /** The table has exactly as many entries as codes of the current width. */
  ghost predicate Filled(e: Encoder) {
    |e.dict| == Pow2(e.width)
  }

  // ---- what a decoder does at the end ----

  /** The decoder's width after the last data code. */
  lemma WidthAtEnd(e: Encoder, d: Decoder)
    requires ValidEncoder(e) && InStep(e, d)
    ensures Advanced(d, e.s).width == if Filled(e) then e.width + 1 else e.width
  {
    hide Pow2, ValidEncoder, InitialDict, Distinct;
    KnownPowers();
    WidthBounds(e);
  }

  lemma WidthBounds(e: Encoder)
    requires ValidEncoder(e)
    ensures 3 <= e.width <= 12 && 6 <= |e.dict| <= FULL && |e.dict| <= Pow2(e.width) && Pow2(e.width) >= 8
  {
    assert Pow2(3) == 8;
    hide Pow2, InitialDict, Distinct;
    Pow2Monotone(3, e.width);
  }

  /** One data code read back. */
  lemma ReadsCode(e: Encoder, d: Decoder, rest: seq<bool>)
    requires ValidEncoder(e) && InStep(e, d)
    ensures var bits := LowBits(IndexOf(e.dict, e.s), e.width) + rest;
            var more := DecodeToEnd(rest, Advanced(d, e.s));
            DecodeToEnd(bits, d) == if more.Some? then Some(e.s + more.value) else None
  {
    hide LowBits, FromLow, InitialDict, Pow2, Distinct, Advanced, Entry;
    var code := IndexOf(e.dict, e.s);
    CodeFits(e);
    FromLowBits(code, e.width);
    DecodesEntry(e, d);
    var bits := LowBits(code, e.width) + rest;
    assert bits[..e.width] == LowBits(code, e.width) && bits[e.width..] == rest;
  }

  /** An end code of w bits followed by zeros, read at width w or one more: only a missing bit hurts. */
  lemma ReadsEnd(w: nat, pad: nat, d: Decoder)
    requires w >= 3 && (d.width == w || d.width == w + 1)
    ensures DecodeToEnd(LowBits(END_CODE, w) + Falses(pad), d)
         == if d.width == w + 1 && pad == 0 then None else Some([])
  {
    hide LowBits, FromLow, Pow2, Entry, Advanced;
    var bits := LowBits(END_CODE, w) + Falses(pad);
    if d.width <= |bits| {
      EndCodeBits(w);
      EndCodeBits(d.width);
      WiderEnd(w);
      assert bits[..d.width] == LowBits(END_CODE, d.width) by {
        if d.width == w + 1 {
          assert bits[..d.width] == LowBits(END_CODE, w) + [false];
        } else {
          assert bits[..d.width] == LowBits(END_CODE, w);
        }
      }
    }
  }

  lemma EndCodeBits(w: nat)
    requires w >= 3
    ensures FromLow(LowBits(END_CODE, w)) == END_CODE
  {
    Pow2Monotone(3, w);
    assert Pow2(3) == 8;
    FromLowBits(END_CODE, w);
  }

  lemma WiderEnd(w: nat)
    requires w >= 3
    ensures LowBits(END_CODE, w + 1) == LowBits(END_CODE, w) + [false]
  {
    hide LowBits;
    LowBitsSplit(END_CODE, w, 1);
    Pow2Monotone(3, w);
    assert Pow2(3) == 8;
    FieldOverflow(END_CODE, w);
    assert LowBits(0, 1) == [false] by { LowBitsZero(1); }
  }

  /** From states in step: the pixels come back, unless the table is filled and no bit follows. */
  lemma {:induction false} ReadsRest(e: Encoder, d: Decoder, rest: seq<nat>, pad: nat)
    requires ValidEncoder(e) && InStep(e, d) && Pixels(rest)
    ensures DecodeToEnd(CodeBits(Codes(e, rest)) + Falses(pad), d)
         == if Filled(Final(e, rest)) && pad == 0 then None else Some(e.s + rest)
    decreases |rest|
  {
    hide LowBits, IndexOf, CodeBits, Codes, Emitted, InitialDict, Pow2, Distinct, Advanced, InStep, DecodeToEnd,
      Filled, Falses;
    if |rest| == 0 {
      LastCodesThen(e, Falses(pad));
      ReadsCode(e, d, LowBits(END_CODE, e.width) + Falses(pad));
      WidthAtEnd(e, d);
      ReadsEnd(e.width, pad, Advanced(d, e.s));
      assert e.s + [] == e.s + rest;
    } else {
      var c, rest' := rest[0], rest[1..];
      StringThen(e.s, rest);
      if e.s + [c] in e.dict {
        MatchedInStep(e, d, c);
        CodesStep(e, rest);
        ReadsRest(Matched(e, c), d, rest', pad);
      } else {
        CodesThen(e, rest, Falses(pad));
        StaysInStep(e, d, c);
        ReadsRest(Emitted(e, c), Advanced(d, e.s), rest', pad);
        StringOfEmitted(e, c);
        ReadsCode(e, d, CodeBits(Codes(Emitted(e, c), rest')) + Falses(pad));
      }
    }
  }

  lemma RasterRead(data: seq<nat>, pad: nat)
    requires |data| > 0 && Pixels(data)
    ensures DecodeToEnd(RasterBits(data) + Falses(pad), Fresh())
         == if Filled(Final(Start(data[0]), data[1..])) && pad == 0 then None else Some(data)
  {
    hide LowBits, InitialDict, Codes, CodeBits, FromLow, Filled, Final;
    var e := Start(data[0]);
    var more := CodeBits(Codes(e, data[1..])) + Falses(pad);
    assert Pow2(3) == 8;
    FromLowBits(CLEAR_CODE, 3);
    var bits := RasterBits(data) + Falses(pad);
    assert bits[..3] == LowBits(CLEAR_CODE, 3) && bits[3..] == more;
    ReadsRest(e, Fresh(), data[1..], pad);
    assert [data[0]] + data[1..] == data;
  }

  // ---- how long the raster is ----

  /** The code width while the table has the given size. */
  function WidthFor(size: nat): nat {
    if size <= 8 then 3 else if size <= 16 then 4 else if size <= 32 then 5 else if size <= 64 then 6
    else if size <= 128 then 7 else if size <= 256 then 8 else if size <= 512 then 9
    else if size <= 1024 then 10 else if size <= 2048 then 11 else 12
  }

  lemma SmallPowers()
    ensures Pow2(3) == 8 && Pow2(4) == 16 && Pow2(5) == 32 && Pow2(6) == 64 && Pow2(7) == 128
    ensures Pow2(8) == 256 && Pow2(9) == 512 && Pow2(10) == 1024 && Pow2(11) == 2048 && Pow2(12) == 4096
  {
    KnownPowers();
    assert Pow2(4) == 2 * Pow2(3);
    assert Pow2(5) == 2 * Pow2(4) && Pow2(6) == 2 * Pow2(5) && Pow2(7) == 2 * Pow2(6);
    assert Pow2(9) == 2 * Pow2(8);
  }

  /** The bits of one code at each table size from a up to but not including b. */
  function WidthSum(a: nat, b: nat): nat
    decreases b - a
  {
    if a >= b then 0 else WidthFor(a) + WidthSum(a + 1, b)
  }

  lemma {:induction false} WidthSumSplit(a: nat, b: nat, c: nat)
    requires a <= b <= c
    ensures WidthSum(a, c) == WidthSum(a, b) + WidthSum(b, c)
    decreases b - a
  {
    if a < b {
      WidthSumSplit(a + 1, b, c);
    }
  }

  lemma {:induction false} WidthSumSame(a: nat, b: nat, w: nat)
    requires a <= b && forall size :: a <= size < b ==> WidthFor(size) == w
    ensures WidthSum(a, b) == (b - a) * w
    decreases b - a
  {
    if a < b {
      WidthSumSame(a + 1, b, w);
      assert (b - a) * w == w + (b - (a + 1)) * w;
    }
  }

  /** The codes of each width from four bits on make whole bytes. */
  lemma WholeRuns()
    ensures WidthSum(6, 9) == 9
    ensures WidthSum(9, 17) == 32 && WidthSum(17, 33) == 80 && WidthSum(33, 65) == 192
    ensures WidthSum(65, 129) == 448 && WidthSum(129, 257) == 1024 && WidthSum(257, 513) == 2304
    ensures WidthSum(513, 1025) == 5120 && WidthSum(1025, 2049) == 11264
  {
    hide WidthSum;
    WidthSumSame(6, 9, 3);
    WidthSumSame(9, 17, 4);
    WidthSumSame(17, 33, 5);
    WidthSumSame(33, 65, 6);
    WidthSumSame(65, 129, 7);
    WidthSumSame(129, 257, 8);
    WidthSumSame(257, 513, 9);
    WidthSumSame(513, 1025, 10);
    WidthSumSame(1025, 2049, 11);
  }

  /** Up to a filled table of w-bit codes, the data codes take one bit more than whole bytes. */
  lemma FilledSum(w: nat, size: nat)
    requires 3 <= w <= 11 && size == Pow2(w)
    ensures WidthSum(6, size + 1) % 8 == 1
  {
    SmallPowers();
    hide WidthSum, Pow2;
    WholeRuns();
    if w > 3 { WidthSumSplit(6, 9, 17); }
    if w > 4 { WidthSumSplit(6, 17, 33); }
    if w > 5 { WidthSumSplit(6, 33, 65); }
    if w > 6 { WidthSumSplit(6, 65, 129); }
    if w > 7 { WidthSumSplit(6, 129, 257); }
    if w > 8 { WidthSumSplit(6, 257, 513); }
    if w > 9 { WidthSumSplit(6, 513, 1025); }
    if w > 10 { WidthSumSplit(6, 1025, 2049); }
  }

  /** Width follows size. */
  lemma WidthStays(e: Encoder, c: nat)
    requires ValidEncoder(e) && e.width == WidthFor(|e.dict|)
    ensures Emitted(e, c).width == WidthFor(|Emitted(e, c).dict|)
    ensures |Emitted(e, c).dict| == if |e.dict| < FULL then |e.dict| + 1 else FULL
  {
    hide InitialDict, Distinct, Pow2;
    SmallPowers();
  }

  lemma {:induction false} CodesLength(e: Encoder, rest: seq<nat>)
    requires ValidEncoder(e) && Pixels(rest) && e.width == WidthFor(|e.dict|)
    ensures var f := Final(e, rest);
            && f.width == WidthFor(|f.dict|) && |e.dict| <= |f.dict|
            && (|f.dict| < FULL ==>
                && |CodeBits(Codes(e, rest))| == WidthSum(|e.dict|, |f.dict| + 1) + f.width
                && |Codes(e, rest)| == |f.dict| - |e.dict| + 2)
    decreases |rest|
  {
    hide InitialDict, Distinct, Pow2, LowBits, WidthFor;
    if |rest| == 0 {
      LastCodes(e);
      assert WidthSum(|e.dict| + 1, |e.dict| + 1) == 0;
    } else if e.s + [rest[0]] in e.dict {
      CodesLength(Matched(e, rest[0]), rest[1..]);
    } else {
      EmittedValid(e, rest[0]);
      WidthStays(e, rest[0]);
      CodesStep(e, rest);
      CodesLength(Emitted(e, rest[0]), rest[1..]);
    }
  }

  /** The number of data codes of an image. */
  ghost function DataCodes(data: seq<nat>): int
    requires |data| > 0 && Pixels(data)
  {
    |Codes(Start(data[0]), data[1..])| - 1
  }

  /** A filled table and a raster of whole bytes go together for eleven data codes only: at a filled
      table of w-bit codes the raster's length is w + 4 modulo 8. */
  lemma FilledWithoutPadding(data: seq<nat>)
    requires |data| > 0 && Pixels(data)
    ensures Filled(Final(Start(data[0]), data[1..])) && |RasterBits(data)| % 8 == 0 <==> DataCodes(data) == 11
  {
    hide LowBits, CodeBits, Codes, WidthSum, InitialDict, Final, Distinct, Pow2;
    SmallPowers();
    var e := Start(data[0]);
    assert e.dict == InitialDict() && e.width == 3;
    CodesLength(e, data[1..]);
    AtLeastTwoCodes(e, data[1..]);
    var f := Final(e, data[1..]);
    var n := |RasterBits(data)|;
    if |f.dict| < FULL {
      assert n == 3 + WidthSum(6, |f.dict| + 1) + f.width;
      if |f.dict| == Pow2(f.width) {
        FilledSum(f.width, |f.dict|);
        assert n % 8 == (f.width + 4) % 8;
      }
    }
  }

  /** Entries come from codes: a full table means far more than eleven. */
  lemma {:induction false} AtLeastTwoCodes(e: Encoder, rest: seq<nat>)
    requires ValidEncoder(e) && Pixels(rest)
    ensures |Codes(e, rest)| >= 2
    ensures |Final(e, rest).dict| <= |e.dict| + |Codes(e, rest)| - 2
    decreases |rest|
  {
    hide InitialDict, Pow2, Distinct;
    if |rest| != 0 {
      if e.s + [rest[0]] in e.dict {
        AtLeastTwoCodes(Matched(e, rest[0]), rest[1..]);
      } else {
        EmittedValid(e, rest[0]);
        AtLeastTwoCodes(Emitted(e, rest[0]), rest[1..]);
      }
    }
  }

  // ---- the exact condition ----

  /** A decoder that reads the raster's bytes up to the end code recovers the pixels if and only if
      the image does not take exactly eleven data codes. */
  lemma EndCodeReadBack(bytes: seq<Byte>, data: seq<nat>)
    requires |data| > 0 && Pixels(data) && IsRaster(bytes, data)
    ensures DecodeToEnd(UnpackLow(bytes), Fresh()) == Some(data) <==> DataCodes(data) != 11
  {
    hide UnpackLow, RasterBits, DecodeToEnd, Final, Filled, Codes;
    var pad := 8 * |bytes| - |RasterBits(data)|;
    RasterRead(data, pad);
    FilledWithoutPadding(data);
  }

  /** No two neighbouring pixels occur in the same order twice. */
  predicate NoPairTwice(data: seq<nat>) {
    forall i, j :: 0 <= i < j < |data| - 1 ==> data[i] != data[j] || data[i + 1] != data[j + 1]
  }

  function Pairs(data: seq<nat>, k: nat): seq<Key>
    requires k < |data|
  {
    seq(k, i requires 0 <= i < k => [data[i], data[i + 1]])
  }

  lemma PairsGrow(data: seq<nat>, k: nat)
    requires k < |data|
    ensures k < |data| - 1 ==> Pairs(data, k + 1) == Pairs(data, k) + [[data[k], data[k + 1]]]
    ensures |Pairs(data, k)| == k
  {
  }

  lemma PixelsRest(data: seq<nat>, k: nat)
    requires Pixels(data) && k < |data|
    ensures Pixels(data[k + 1..]) && (k < |data| - 1 ==> data[k + 1] < 4)
  {
  }

  lemma NextPairIsNew(data: seq<nat>, k: nat)
    requires NoPairTwice(data) && k < |data| - 1
    ensures [data[k], data[k + 1]] !in InitialDict() + Pairs(data, k)
  {
    var dict, next := InitialDict() + Pairs(data, k), [data[k], data[k + 1]];
    forall i | 0 <= i < |dict| ensures dict[i] != next {
      if i >= 6 {
        assert dict[i] == [data[i - 6], data[i - 5]];
        assert next[0] == data[k] && next[1] == data[k + 1];
      }
    }
  }

  /** Then every pixel is a code of its own. */
  lemma {:induction false} CodeForEachPixel(e: Encoder, data: seq<nat>, k: nat)
    requires Pixels(data) && NoPairTwice(data) && k < |data| < 100
    requires ValidEncoder(e) && e.dict == InitialDict() + Pairs(data, k) && e.s == [data[k]]
    ensures |Codes(e, data[k + 1..])| == |data| - k + 1
    decreases |data| - k
  {
    hide InitialDict, Pow2, Distinct, NoPairTwice, Pairs, Pixels;
    var rest := data[k + 1..];
    PairsGrow(data, k);
    PixelsRest(data, k);
    if k < |data| - 1 {
      var next := [data[k], data[k + 1]];
      assert e.s + [rest[0]] == next;
      NextPairIsNew(data, k);
      EmittedValid(e, rest[0]);
      assert e.dict + [next] == InitialDict() + Pairs(data, k + 1);
      CodeForEachPixel(Emitted(e, rest[0]), data, k + 1);
      assert rest[1..] == data[k + 2..];
    }
  }

  /** Eleven pixels whose end code such a decoder misses. */
  const MISSED: seq<nat> := [0, 1, 0, 3, 3, 2, 2, 3, 1, 2, 0]

  lemma MissedCodes()
    ensures Pixels(MISSED) && DataCodes(MISSED) == 11
  {
    hide Codes, Start, InitialDict, Pow2, Distinct, LowBits, Pairs;
    assert NoPairTwice(MISSED);
    hide NoPairTwice;
    RasterStart(MISSED);
    PairsGrow(MISSED, 0);
    var e := Start(MISSED[0]);
    assert e.dict == InitialDict() + Pairs(MISSED, 0);
    CodeForEachPixel(e, MISSED, 0);
  }

  lemma EndCodeMissed(bytes: seq<Byte>)
    requires Pixels(MISSED) && IsRaster(bytes, MISSED)
    ensures DecodeToEnd(UnpackLow(bytes), Fresh()) != Some(MISSED)
  {
    hide DecodeToEnd, UnpackLow, IsRaster, DataCodes;
    MissedCodes();
    EndCodeReadBack(bytes, MISSED);
  }
}
