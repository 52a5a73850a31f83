/** The image compressor: variable-width LZW codes over a table that stops growing at 4095 entries,
    and the decoder of GIF89a, Appendix F, that recovers the pixels. */
module Lzw {
  import opened Bits
  import opened ByteStreams
  import opened Results
  import opened Sequences

  type Key = seq<nat>

  const CLEAR_CODE: nat := 4
  const END_CODE: nat := 5
  const FULL: nat := 0xfff

  /** One entry for each pixel value, and the two reserved codes. */
  function InitialDict(): (d: seq<Key>)
    ensures |d| == 6
    ensures forall i :: 0 <= i < 6 ==> d[i] == [i]
  {
    [[0], [1], [2], [3], [4], [5]]
  }

  predicate Pixels(data: seq<nat>) {
    forall i :: 0 <= i < |data| ==> data[i] < 4
  }

  // ---- the encoder ----

  /** The table in code order, the string matched so far and the current code width. */
  datatype Encoder = Encoder(dict: seq<Key>, s: Key, width: nat)

  /** dict lists distinct strings. */
  predicate Distinct(dict: seq<Key>) {
    forall i, j :: 0 <= i < j < |dict| ==> dict[i] != dict[j]
  }

  ghost function IndexOf(dict: seq<Key>, key: Key): (i: nat)
    requires key in dict
    ensures i < |dict| && dict[i] == key
  {
    var i :| 0 <= i < |dict| && dict[i] == key;
    i
  }

  ghost predicate ValidEncoder(e: Encoder) {
    && 6 <= |e.dict| <= FULL
    && InitialDict() <= e.dict
    && Distinct(e.dict)
    && |e.s| >= 1 && Pixels(e.s) && e.s in e.dict
    && 3 <= e.width <= 12 && |e.dict| <= Pow2(e.width)
  }

  /** Emitting the current string: the width grows just before the table outgrows it. */
  function Emitted(e: Encoder, c: nat): Encoder {
    if |e.dict| < FULL then
      Encoder(e.dict + [e.s + [c]], [c], if |e.dict| == Pow2(e.width) then e.width + 1 else e.width)
    else
      Encoder(e.dict, [c], e.width)
  }

  /** Each code emitted adds one string to the table, up to 4095. */
  lemma TableGrows(e: Encoder, c: nat)
    ensures |Emitted(e, c).dict| == if |e.dict| < 4095 then |e.dict| + 1 else |e.dict|
  {
  }

  function Matched(e: Encoder, c: nat): Encoder {
    e.(s := e.s + [c])
  }

  /** The codes, with their widths, that the encoder emits from state e on for the remaining pixels:
      data codes, the code of the last string, and the end code. */
  ghost function Codes(e: Encoder, rest: seq<nat>): seq<(nat, nat)>
    requires ValidEncoder(e) && Pixels(rest)
    decreases |rest|
  {
    if |rest| == 0 then [(IndexOf(e.dict, e.s), e.width), (END_CODE, e.width)]
    else if e.s + [rest[0]] in e.dict then
      Codes(Matched(e, rest[0]), rest[1..])
    else
      EmittedValid(e, rest[0]);
      [(IndexOf(e.dict, e.s), e.width)] + Codes(Emitted(e, rest[0]), rest[1..])
  }

  lemma SingleInDict(dict: seq<Key>, c: nat)
    requires InitialDict() <= dict && c < 4
    ensures [c] in dict
  {
    assert dict[c] == InitialDict()[c];
  }

  /** The width after an addition still holds every index. */
  lemma WiderFits(e: Encoder)
    requires ValidEncoder(e) && |e.dict| < FULL
    ensures var w := if |e.dict| == Pow2(e.width) then e.width + 1 else e.width;
            w <= 12 && |e.dict| + 1 <= Pow2(w)
  {
    hide InitialDict, Distinct;
    assert Pow2(12) == 4096 by { KnownPowers(); }
    assert Pow2(e.width + 1) == 2 * Pow2(e.width);
  }

  lemma StillDistinct(dict: seq<seq<nat>>, s: seq<nat>)
    requires Distinct(dict) && s !in dict
    ensures Distinct(dict + [s])
  {
  }

  lemma EmittedValid(e: Encoder, c: nat)
    requires ValidEncoder(e) && c < 4 && e.s + [c] !in e.dict
    ensures ValidEncoder(Emitted(e, c))
  {
    SingleInDict(e.dict, c);
    hide InitialDict, Pow2, Distinct;
    if |e.dict| < FULL {
      WiderFits(e);
    }
    StillDistinct(e.dict, e.s + [c]);
    StillThere(e.dict, e.s + [c], [c]);
  }

  lemma StillThere(dict: seq<Key>, key: Key, known: Key)
    requires known in dict
    ensures known in dict + [key]
  {
    var i :| 0 <= i < |dict| && dict[i] == known;
    assert (dict + [key])[i] == known;
  }

  /** Every data code fits the width it is written with, and none is a reserved code. */
  lemma CodeFits(e: Encoder)
    requires ValidEncoder(e)
    ensures IndexOf(e.dict, e.s) < Pow2(e.width)
    ensures IndexOf(e.dict, e.s) != CLEAR_CODE && IndexOf(e.dict, e.s) != END_CODE
    ensures END_CODE < Pow2(e.width) && e.width <= 12
  {
    var i := IndexOf(e.dict, e.s);
    assert e.dict[4] == InitialDict()[4] && e.dict[5] == InitialDict()[5];
    Pow2Monotone(3, e.width);
    assert Pow2(3) == 8;
    assert e.s[0] < 4;
  }

  ghost function Start(first: nat): (e: Encoder)
    requires first < 4
    ensures ValidEncoder(e)
  {
    var d := InitialDict();
    assert Pow2(3) == 8;
    SingleInDict(d, first);
    Encoder(d, [first], 3)
  }

  /** Clear code, data codes, end code. */
  ghost function RasterBits(data: seq<nat>): seq<bool>
    requires |data| > 0 && Pixels(data)
  {
    LowBits(CLEAR_CODE, 3) + CodeBits(Codes(Start(data[0]), data[1..]))
  }

  // ---- the decoder ----

  /** The decoder's table runs one entry behind the encoder's; prev is the last string decoded. */
  datatype Decoder = Decoder(dict: seq<Key>, prev: Option<Key>, width: nat)

  function Fresh(): Decoder {
    Decoder([[0], [1], [2], [3], [4], [5]], None, 3)
  }

  /** The string of a code; a code just beyond the table stands for prev and its own first pixel. */
  function Entry(d: Decoder, code: nat): Option<Key> {
    if code < |d.dict| then (if |d.dict[code]| > 0 then Some(d.dict[code]) else None)
    else if code == |d.dict| && d.prev.Some? && |d.prev.value| > 0 then
      Some(d.prev.value + [d.prev.value[0]])
    else None
  }

  /** After a string: the table takes prev extended by its first pixel, up to 4096 entries, and the
      width grows when the table fills it, up to 12. */
  function Advanced(d: Decoder, entry: Key): Decoder
    requires |entry| > 0
  {
    if d.prev.Some? && |d.dict| < 4096 then
      var dict := d.dict + [d.prev.value + [entry[0]]];
      Decoder(dict, Some(entry), if |dict| == Pow2(d.width) && d.width < 12 then d.width + 1 else d.width)
    else
      d.(prev := Some(entry))
  }

  /** Reads codes, each at the decoder's own width, until `need` pixels are there. */
  function Decode(bits: seq<bool>, d: Decoder, need: int): Option<seq<nat>>
    decreases |bits|
  {
    if need <= 0 then Some([])
    else if d.width == 0 || |bits| < d.width then None
    else
      var code := FromLow(bits[..d.width]);
      var rest := bits[d.width..];
      if code == 4 then Decode(rest, Fresh(), need)
      else if code == 5 then None
      else
        var entry :- Entry(d, code);
        if |entry| == 0 then None
        else
          var more :- Decode(rest, Advanced(d, entry), need - |entry|);
          Some(entry + more)
  }

  // ---- decoder follows encoder ----

  /** Between two codes: the decoder lacks the encoder's last entry, prev extended by the first pixel
      of the string being matched; once the encoder's table is full the decoder has all of it. */
  ghost predicate InStep(e: Encoder, d: Decoder) {
    && d.width == e.width
    && |e.s| > 0
    && match d.prev
       case None => d.dict == e.dict && |d.dict| == 6
       case Some(p) =>
         && |p| > 0
         && ( || e.dict == d.dict + [p + [e.s[0]]]
              || (|e.dict| == FULL && e.dict <= d.dict && |d.dict| <= 4096 && e.width == 12))
  }

  lemma DecodesEntry(e: Encoder, d: Decoder)
    requires ValidEncoder(e) && InStep(e, d)
    ensures Entry(d, IndexOf(e.dict, e.s)) == Some(e.s)
  {
    hide InitialDict, Pow2, Distinct;
    var i := IndexOf(e.dict, e.s);
    if i < |d.dict| {
      assert d.dict[i] == e.dict[i];
    } else {
      var p := d.prev.value;
      assert e.s == p + [e.s[0]];
      assert e.s[0] == p[0];
    }
  }

  /** Having read the emitted code, the decoder is in step with the encoder's next state; in
      particular it will read the next code at the width it is written with. */
  lemma StaysInStep(e: Encoder, d: Decoder, c: nat)
    requires ValidEncoder(e) && InStep(e, d) && c < 4 && e.s + [c] !in e.dict
    ensures InStep(Emitted(e, c), Advanced(d, e.s))
  {
    hide Emitted, Advanced, ValidEncoder;
    if d.prev.None? {
      StaysAtFirst(e, d, c);
    } else if e.dict == d.dict + [d.prev.value + [e.s[0]]] {
      StaysInGrowth(e, d, c);
    } else {
      StaysFull(e, d, c);
    }
  }

  lemma StaysAtFirst(e: Encoder, d: Decoder, c: nat)
    requires ValidEncoder(e) && InStep(e, d) && d.prev.None?
    ensures InStep(Emitted(e, c), Advanced(d, e.s))
  {
    Pow2Monotone(3, e.width);
    assert Pow2(3) == 8;
    hide InitialDict, Pow2, Distinct;
  }

  lemma StaysInGrowth(e: Encoder, d: Decoder, c: nat)
    requires ValidEncoder(e) && InStep(e, d) && d.prev.Some? && e.dict == d.dict + [d.prev.value + [e.s[0]]]
    ensures InStep(Emitted(e, c), Advanced(d, e.s))
  {
    assert Pow2(12) == 4096 by { KnownPowers(); }
    hide InitialDict, Pow2, Distinct;
    assert Advanced(d, e.s).dict == e.dict;
    if |e.dict| == FULL {
      WidthAtFull(e);
    }
  }

  lemma StaysFull(e: Encoder, d: Decoder, c: nat)
    requires ValidEncoder(e) && InStep(e, d) && d.prev.Some?
    requires |e.dict| == FULL && e.dict <= d.dict && |d.dict| <= 4096 && e.width == 12
    ensures InStep(Emitted(e, c), Advanced(d, e.s))
  {
    assert Pow2(12) == 4096 by { KnownPowers(); }
    hide InitialDict, Pow2, Distinct;
  }

  lemma WidthAtFull(e: Encoder)
    requires ValidEncoder(e) && |e.dict| == FULL
    ensures e.width == 12
  {
    if e.width < 12 {
      Pow2Monotone(e.width, 11);
      KnownPowers();
    }
  }

  /** One code read back. */
  lemma DecodeStep(e: Encoder, d: Decoder, rest: seq<bool>, need: int)
    requires ValidEncoder(e) && InStep(e, d) && need > 0
    ensures var bits := LowBits(IndexOf(e.dict, e.s), e.width) + rest;
            var more := Decode(rest, Advanced(d, e.s), need - |e.s|);
            Decode(bits, d, need) == if more.Some? then Some(e.s + more.value) else None
  {
    hide LowBits, FromLow, InitialDict, Pow2, Distinct, Advanced, Entry;
    var code := IndexOf(e.dict, e.s);
    CodeFits(e);
    FromLowBits(code, e.width);
    DecodesEntry(e, d);
    var bits := LowBits(code, e.width) + rest;
    assert bits[..e.width] == LowBits(code, e.width) && bits[e.width..] == rest;
  }

  lemma CodesStep(e: Encoder, rest: seq<nat>)
    requires ValidEncoder(e) && Pixels(rest) && |rest| > 0
    ensures e.s + [rest[0]] in e.dict ==>
      ValidEncoder(Matched(e, rest[0])) && Codes(e, rest) == Codes(Matched(e, rest[0]), rest[1..])
    ensures e.s + [rest[0]] !in e.dict ==>
      && ValidEncoder(Emitted(e, rest[0]))
      && CodeBits(Codes(e, rest))
         == LowBits(IndexOf(e.dict, e.s), e.width) + CodeBits(Codes(Emitted(e, rest[0]), rest[1..]))
  {
    hide LowBits, InitialDict, Pow2, Distinct;
    if e.s + [rest[0]] !in e.dict {
      EmittedValid(e, rest[0]);
      var codes := Codes(Emitted(e, rest[0]), rest[1..]);
      assert ([(IndexOf(e.dict, e.s), e.width)] + codes)[1..] == codes;
    }
  }

  lemma LastCodes(e: Encoder)
    requires ValidEncoder(e)
    ensures CodeBits(Codes(e, [])) == LowBits(IndexOf(e.dict, e.s), e.width) + LowBits(END_CODE, e.width)
  {
    hide LowBits, InitialDict, Pow2, Distinct;
    var a, b := (IndexOf(e.dict, e.s), e.width), (END_CODE, e.width);
    assert Codes(e, []) == [a, b];
    SingleCode(b);
    assert [a, b][1..] == [b];
  }

  lemma SingleCode(b: (nat, nat))
    ensures CodeBits([b]) == LowBits(b.0, b.1)
  {
    assert CodeBits([b][1..]) == [];
  }

  /** The bits of the codes from here on: the next code, and then those of the next state. */
  lemma CodesThen(e: Encoder, rest: seq<nat>, tail: seq<bool>)
    requires ValidEncoder(e) && Pixels(rest) && |rest| > 0 && e.s + [rest[0]] !in e.dict
    ensures ValidEncoder(Emitted(e, rest[0]))
    ensures CodeBits(Codes(e, rest)) + tail
         == LowBits(IndexOf(e.dict, e.s), e.width) + (CodeBits(Codes(Emitted(e, rest[0]), rest[1..])) + tail)
  {
    hide LowBits, CodeBits, Codes, Emitted, IndexOf, InitialDict, Pow2, Distinct;
    CodesStep(e, rest);
    Associative(LowBits(IndexOf(e.dict, e.s), e.width), CodeBits(Codes(Emitted(e, rest[0]), rest[1..])), tail);
  }

  lemma LastCodesThen(e: Encoder, tail: seq<bool>)
    requires ValidEncoder(e)
    ensures CodeBits(Codes(e, [])) + tail
         == LowBits(IndexOf(e.dict, e.s), e.width) + (LowBits(END_CODE, e.width) + tail)
  {
    hide LowBits, CodeBits, Codes, IndexOf, InitialDict, Pow2, Distinct;
    LastCodes(e);
    Associative(LowBits(IndexOf(e.dict, e.s), e.width), LowBits(END_CODE, e.width), tail);
  }

  /** The string and the pixels behind it. */
  lemma StringThen(s: Key, rest: seq<nat>)
    requires |rest| > 0
    ensures s + [rest[0]] + rest[1..] == s + rest
    ensures [rest[0]] + rest[1..] == rest
  {
  }

  /** From states in step, the decoder recovers the current string and the remaining pixels, at least
      as many as it needs. */
  lemma {:induction false} DecodesRest(e: Encoder, d: Decoder, rest: seq<nat>, tail: seq<bool>, need: int)
    requires ValidEncoder(e) && InStep(e, d) && Pixels(rest) && need <= |e.s| + |rest|
    ensures var r := Decode(CodeBits(Codes(e, rest)) + tail, d, need);
            r.Some? && need <= |r.value| && r.value <= e.s + rest
    decreases |rest|
  {
    hide LowBits, IndexOf, CodeBits, Codes, Emitted, InitialDict, Pow2, Distinct, Advanced, InStep, Decode;
    if need <= 0 {
      NothingNeeded(CodeBits(Codes(e, rest)) + tail, d, need);
    } else if |rest| == 0 {
      LastCodesThen(e, tail);
      var more := LowBits(END_CODE, e.width) + tail;
      DecodeStep(e, d, more, need);
      NothingNeeded(more, Advanced(d, e.s), need - |e.s|);
    } else {
      var c, rest' := rest[0], rest[1..];
      StringThen(e.s, rest);
      if e.s + [c] in e.dict {
        MatchedInStep(e, d, c);
        CodesStep(e, rest);
        DecodesRest(Matched(e, c), d, rest', tail, need);
      } else {
        CodesThen(e, rest, tail);
        StaysInStep(e, d, c);
        DecodesRest(Emitted(e, c), Advanced(d, e.s), rest', tail, need - |e.s|);
        StringOfEmitted(e, c);
        DecodeStep(e, d, CodeBits(Codes(Emitted(e, c), rest')) + tail, need);
      }
    }
  }

  lemma StringOfEmitted(e: Encoder, c: nat)
    ensures Emitted(e, c).s == [c]
  {
  }

  lemma NothingNeeded(bits: seq<bool>, d: Decoder, need: int)
    requires need <= 0
    ensures Decode(bits, d, need) == Some([])
  {
  }

  lemma MatchedInStep(e: Encoder, d: Decoder, c: nat)
    requires ValidEncoder(e) && InStep(e, d) && c < 4 && e.s + [c] in e.dict
    ensures ValidEncoder(Matched(e, c)) && InStep(Matched(e, c), d)
  {
    hide InitialDict, Pow2, Distinct;
  }

  /** A decoder that needs no more pixels than there are gets them from the raster's bits, whatever
      follows; one that needs them all gets exactly the data. */
  lemma RasterRoundTrip(data: seq<nat>, tail: seq<bool>, need: nat)
    requires |data| > 0 && Pixels(data) && need <= |data|
    ensures var r := Decode(RasterBits(data) + tail, Fresh(), need);
            && r.Some? && need <= |r.value| && r.value <= data
            && (need == |data| ==> r.value == data)
  {
    hide LowBits, InitialDict, Codes, CodeBits, FromLow;
    var e := Start(data[0]);
    var more := CodeBits(Codes(e, data[1..])) + tail;
    assert Pow2(3) == 8;
    FromLowBits(CLEAR_CODE, 3);
    var bits := RasterBits(data) + tail;
    assert bits[..3] == LowBits(CLEAR_CODE, 3) && bits[3..] == more;
    DecodesRest(e, Fresh(), data[1..], tail, need);
    assert [data[0]] + data[1..] == data;
  }

  // ---- the source's table and loop ----

  class LzwTable {
    var codes: map<Key, nat>
    var size: nat
    ghost var dict: seq<Key>

    ghost predicate Valid()
      reads this
    {
      && size == |dict| && Distinct(dict)
      && (forall k :: k in codes <==> k in dict)
      && (forall i :: 0 <= i < |dict| ==> dict[i] in codes && codes[dict[i]] == i)
    }

    constructor ()
      ensures Valid() && dict == []
    {
      codes, size, dict := map[], 0, [];
    }

    /** Throws on a key that is present. */
    method Add(key: Key) returns (r: Result<()>)
      requires Valid()
      modifies this
      ensures Valid()
      ensures size == |dict|
      ensures r == if key in old(dict) then Throws(DuplicateKey) else Ok(())
      ensures dict == if key in old(dict) then old(dict) else old(dict) + [key]
    {
      if key in codes {
        return Throws(DuplicateKey);
      }
      codes := codes[key := size];
      size := size + 1;
      dict := dict + [key];
      return Ok(());
    }

    method Contains(key: Key) returns (b: bool)
      requires Valid()
      ensures b <==> key in dict
    {
      b := key in codes;
    }

    /** The code of a present key. */
    method CodeOf(key: Key) returns (code: nat)
      requires Valid() && key in dict
      ensures code == IndexOf(dict, key)
    {
      code := codes[key];
    }
  }

  lemma InitialKeys(i: nat)
    requires i < 6
    ensures InitialDict()[..i + 1] == InitialDict()[..i] + [[i]]
    ensures [i] !in InitialDict()[..i]
  {
  }

  method NewTable() returns (table: LzwTable)
    ensures fresh(table) && table.Valid() && table.dict == InitialDict() && table.size == 6
  {
    hide InitialDict, LzwTable.Valid;
    table := new LzwTable();
    for i := 0 to CLEAR_CODE
      invariant table.Valid() && fresh(table) && table.dict == InitialDict()[..i]
    {
      InitialKeys(i);
      var added := table.Add([i]);
    }
    InitialKeys(CLEAR_CODE);
    var added := table.Add([CLEAR_CODE]);
    InitialKeys(END_CODE);
    added := table.Add([END_CODE]);
    assert InitialDict()[..6] == InitialDict();
  }

  /** The bytes hold the raster's bits, least significant first, and fewer than eight zeros. */
  ghost predicate IsRaster(bytes: seq<Byte>, data: seq<nat>)
    requires |data| > 0 && Pixels(data)
  {
    var n := |RasterBits(data)|;
    n <= 8 * |bytes| < n + 8 && UnpackLow(bytes) == RasterBits(data) + Falses(8 * |bytes| - n)
  }

  /** Writes the current string's code, widens the codes when the table fills their range, and adds
      the string extended by the next pixel. */
  method EmitCode(table: LzwTable, bitOut: BitOutputStream, ghost e: Encoder, s: Key, c: nat, bitLength: nat)
    returns (bitLength': nat)
    requires table.Valid() && bitOut.Valid() && table.size == |table.dict|
    requires ValidEncoder(e) && e == Encoder(table.dict, s, bitLength)
    requires c < 4 && s + [c] !in table.dict
    modifies table, bitOut, bitOut.out
    ensures table.Valid() && bitOut.Valid() && table.size == |table.dict|
    ensures ValidEncoder(Emitted(e, c)) && Emitted(e, c) == Encoder(table.dict, [c], bitLength')
    ensures bitOut.Contents() == old(bitOut.Contents()) + LowBits(IndexOf(e.dict, e.s), e.width)
  {
    hide LowBits, UnpackLow, InitialDict, Pow2, Distinct, LzwTable.Valid, BitOutputStream.Contents, IndexOf;
    CodeFits(e);
    EmittedValid(e, c);
    bitLength' := bitLength;
    var code := table.CodeOf(s);
    CodeField(code, bitLength);
    var written := bitOut.Write(code, bitLength);
    assert written.Ok?;
    if table.size < FULL {
      if table.size == Pow2(bitLength) {
        bitLength' := bitLength + 1;
      }
      var added := table.Add(s + [c]);
      assert added.Ok?;
    }
  }

  /** The last string's code and the end code, both at the current width. */
  method EmitLast(table: LzwTable, bitOut: BitOutputStream, ghost e: Encoder, s: Key, bitLength: nat)
    requires table.Valid() && bitOut.Valid()
    requires ValidEncoder(e) && e == Encoder(table.dict, s, bitLength)
    modifies bitOut, bitOut.out
    ensures bitOut.Valid() && bitOut.Contents() == old(bitOut.Contents()) + CodeBits(Codes(e, []))
  {
    hide LowBits, UnpackLow, Codes, CodeBits, InitialDict, Pow2, Distinct, LzwTable.Valid, IndexOf;
    CodeFits(e);
    LastCodes(e);
    var code := table.CodeOf(s);
    CodeField(code, bitLength);
    var written := bitOut.Write(code, bitLength);
    assert written.Ok?;
    CodeField(END_CODE, bitLength);
    written := bitOut.Write(END_CODE, bitLength);
    assert written.Ok?;
  }

  /** What is coded: without pixels, the first one read is missing and counts as 0. */
  function Coded(data: seq<nat>): (coded: seq<nat>)
    ensures |coded| > 0 && (|data| > 0 ==> coded == data)
  {
    if |data| == 0 then [0] else data
  }

  /** The compressed raster. Neither of the two throws is reachable. */
  method GetLzwRaster(data: seq<nat>) returns (bytes: seq<Byte>)
    requires Pixels(data)
    ensures Pixels(Coded(data)) && IsRaster(bytes, Coded(data))
  {
    hide LowBits, UnpackLow, Codes, CodeBits, InitialDict, Pow2, Distinct, LzwTable.Valid, IndexOf, RasterBits,
      ValidEncoder, Emitted, Start;
    var bitLength := 3;
    var table := NewTable();
    var byteOut := new ByteArrayOutputStream();
    var bitOut := new BitOutputStream(byteOut);
    ghost var coded := Coded(data);
    StartBits();
    RasterStart(coded);
    CodeField(CLEAR_CODE, bitLength);
    var written := bitOut.Write(CLEAR_CODE, bitLength);
    ghost var all := RasterBits(coded);
    var dataIndex := 0;
    var s := [if dataIndex < |data| then data[dataIndex] else 0];
    dataIndex := dataIndex + 1;
    ghost var e := Start(coded[0]);
    while dataIndex < |data|
      invariant 1 <= dataIndex <= |coded|
      invariant table.Valid() && bitOut.Valid() && bitOut.out == byteOut
      invariant fresh(table) && fresh(bitOut) && fresh(byteOut)
      invariant ValidEncoder(e) && e == Encoder(table.dict, s, bitLength) && table.size == |table.dict|
      invariant bitOut.Contents() + CodeBits(Codes(e, coded[dataIndex..])) == all
    {
      var c := data[dataIndex];
      CodesStep(e, coded[dataIndex..]);
      assert coded[dataIndex..][1..] == coded[dataIndex + 1..];
      dataIndex := dataIndex + 1;
      var present := table.Contains(s + [c]);
      if present {
        s := s + [c];
        e := Matched(e, c);
      } else {
        bitLength := EmitCode(table, bitOut, e, s, c, bitLength);
        e := Emitted(e, c);
        s := [c];
      }
    }
    assert coded[dataIndex..] == [];
    EmitLast(table, bitOut, e, s, bitLength);
    bitOut.Flush();
    bytes := byteOut.bytes;
  }

  lemma RasterStart(data: seq<nat>)
    requires |data| > 0 && Pixels(data)
    ensures ValidEncoder(Start(data[0]))
    ensures Start(data[0]) == Encoder(InitialDict(), [data[0]], 3)
    ensures RasterBits(data) == LowBits(CLEAR_CODE, 3) + CodeBits(Codes(Start(data[0]), data[1..]))
  {
    hide LowBits, Codes, CodeBits;
  }

  lemma StartBits()
    ensures UnpackLow([]) == [] && CLEAR_CODE < Pow2(3)
  {
    assert Pow2(3) == 8;
  }
}
