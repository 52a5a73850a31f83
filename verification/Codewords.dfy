/** Splitting the bit buffer into blocks, adding error correction, and interleaving (section 7.6 of
    ISO/IEC 18004:2015). */
module Codewords {
  import opened Bits
  import opened Polynomial
  import opened ReedSolomon
  import opened QrMath
  import opened QrPolynomial
  import opened Results

  datatype RsBlock = RsBlock(totalCount: nat, dataCount: nat) {
    /** What every row of the block table satisfies. */
    predicate Valid() {
      dataCount <= totalCount && totalCount - dataCount <= 254
    }

    function EcCount(): nat
      requires dataCount <= totalCount
    {
      totalCount - dataCount
    }
  }

  predicate ValidBlocks(rs: seq<RsBlock>) {
    forall r :: 0 <= r < |rs| ==> rs[r].Valid()
  }

  // ---- interleaving ----

  function Sum(lens: seq<nat>): nat {
    if |lens| == 0 then 0 else Sum(lens[..|lens| - 1]) + lens[|lens| - 1]
  }

  function Lengths(blocks: seq<Poly>): (lens: seq<nat>)
    ensures |lens| == |blocks| && forall r :: 0 <= r < |blocks| ==> lens[r] == |blocks[r]|
  {
    seq(|blocks|, r requires 0 <= r < |blocks| => |blocks[r]|)
  }

  function MaxLength(blocks: seq<Poly>): (m: nat)
    ensures forall r :: 0 <= r < |blocks| ==> |blocks[r]| <= m
  {
    if |blocks| == 0 then 0
    else
      var m := MaxLength(blocks[..|blocks| - 1]);
      var k := |blocks[|blocks| - 1]|;
      if m < k then k else m
  }

  /** The i-th bytes of the first n blocks that have one. */
  function Column(blocks: seq<Poly>, i: nat, n: nat): Poly
    requires n <= |blocks|
  {
    if n == 0 then []
    else if i < |blocks[n - 1]| then Column(blocks, i, n - 1) + [blocks[n - 1][i]]
    else Column(blocks, i, n - 1)
  }

  /** The first m columns, one after the other. */
  function Columns(blocks: seq<Poly>, m: nat): Poly {
    if m == 0 then [] else Columns(blocks, m - 1) + Column(blocks, m - 1, |blocks|)
  }

  function Interleave(blocks: seq<Poly>): Poly {
    Columns(blocks, MaxLength(blocks))
  }

  /** How many of the first n lengths exceed i: the size of a column. */
  function Rank(lens: seq<nat>, i: nat, n: nat): nat
    requires n <= |lens|
  {
    if n == 0 then 0 else Rank(lens, i, n - 1) + if i < lens[n - 1] then 1 else 0
  }

  /** The size of the first m columns. */
  function Filled(lens: seq<nat>, m: nat): nat {
    if m == 0 then 0 else Filled(lens, m - 1) + Rank(lens, m - 1, |lens|)
  }

  lemma {:induction false} ColumnSize(blocks: seq<Poly>, i: nat, n: nat)
    requires n <= |blocks|
    ensures |Column(blocks, i, n)| == Rank(Lengths(blocks), i, n)
  {
    if n != 0 {
      ColumnSize(blocks, i, n - 1);
    }
  }

  lemma {:induction false} ColumnsSize(blocks: seq<Poly>, m: nat)
    ensures |Columns(blocks, m)| == Filled(Lengths(blocks), m)
  {
    if m != 0 {
      ColumnsSize(blocks, m - 1);
      ColumnSize(blocks, m - 1, |blocks|);
    }
  }

  function SumMin(lens: seq<nat>, m: nat, n: nat): nat
    requires n <= |lens|
  {
    if n == 0 then 0 else SumMin(lens, m, n - 1) + if lens[n - 1] < m then lens[n - 1] else m
  }

  lemma {:induction false} SumMinStep(lens: seq<nat>, m: nat, n: nat)
    requires n <= |lens|
    ensures SumMin(lens, m + 1, n) == SumMin(lens, m, n) + Rank(lens, m, n)
    ensures SumMin(lens, 0, n) == 0
  {
    if n != 0 {
      SumMinStep(lens, m, n - 1);
    }
  }

  lemma {:induction false} FilledIsSumMin(lens: seq<nat>, m: nat)
    ensures Filled(lens, m) == SumMin(lens, m, |lens|)
  {
    if m == 0 {
      SumMinStep(lens, 0, |lens|);
    } else {
      FilledIsSumMin(lens, m - 1);
      SumMinStep(lens, m - 1, |lens|);
    }
  }

  lemma {:induction false} SumMinBound(lens: seq<nat>, m: nat, n: nat)
    requires n <= |lens|
    ensures SumMin(lens, m, n) <= Sum(lens[..n])
    ensures (forall r :: 0 <= r < n ==> lens[r] <= m) ==> SumMin(lens, m, n) == Sum(lens[..n])
  {
    if n != 0 {
      SumMinBound(lens, m, n - 1);
      assert lens[..n][..n - 1] == lens[..n - 1];
    }
  }

  lemma {:induction false} RankMonotone(lens: seq<nat>, i: nat, r: nat, n: nat)
    requires r <= n <= |lens|
    ensures Rank(lens, i, r) <= Rank(lens, i, n)
    decreases n
  {
    if r < n {
      RankMonotone(lens, i, r, n - 1);
    }
  }

  lemma FilledBound(lens: seq<nat>, m: nat)
    ensures Filled(lens, m) <= Sum(lens)
    ensures (forall r :: 0 <= r < |lens| ==> lens[r] <= m) ==> Filled(lens, m) == Sum(lens)
  {
    FilledIsSumMin(lens, m);
    SumMinBound(lens, m, |lens|);
    assert lens[..|lens|] == lens;
  }

  /** Interleaving neither loses nor adds bytes. */
  lemma InterleaveSize(blocks: seq<Poly>)
    ensures |Interleave(blocks)| == Sum(Lengths(blocks))
  {
    ColumnsSize(blocks, MaxLength(blocks));
    FilledBound(Lengths(blocks), MaxLength(blocks));
  }

  /** Where byte i of block r goes. */
  function Position(lens: seq<nat>, r: nat, i: nat): (p: nat)
    requires r < |lens| && i < lens[r]
    ensures p < Sum(lens)
  {
    RankMonotone(lens, i, r + 1, |lens|);
    FilledBound(lens, i + 1);
    Filled(lens, i) + Rank(lens, i, r)
  }

  function Deinterleave(lens: seq<nat>, data: Poly): (blocks: seq<Poly>)
    requires |data| == Sum(lens)
    ensures |blocks| == |lens|
    ensures forall r :: 0 <= r < |lens| ==> |blocks[r]| == lens[r]
  {
    seq(|lens|, r requires 0 <= r < |lens| =>
      seq(lens[r], i requires 0 <= i < lens[r] => data[Position(lens, r, i)]))
  }

  lemma {:induction false} ColumnElement(blocks: seq<Poly>, i: nat, r: nat, n: nat)
    requires r < n <= |blocks| && i < |blocks[r]|
    ensures Rank(Lengths(blocks), i, r) < |Column(blocks, i, n)|
    ensures Column(blocks, i, n)[Rank(Lengths(blocks), i, r)] == blocks[r][i]
  {
    ColumnSize(blocks, i, n - 1);
    if r < n - 1 {
      ColumnElement(blocks, i, r, n - 1);
    }
  }

  lemma JoinedAt<T>(a: seq<T>, b: seq<T>, k: nat)
    requires k < |a| + |b|
    ensures (a + b)[k] == if k < |a| then a[k] else b[k - |a|]
  {
  }

  lemma LastColumnElement(blocks: seq<Poly>, i: nat, r: nat)
    requires r < |blocks| && i < |blocks[r]|
    ensures var p := Filled(Lengths(blocks), i) + Rank(Lengths(blocks), i, r);
            p < |Columns(blocks, i + 1)| && Columns(blocks, i + 1)[p] == blocks[r][i]
  {
    hide Columns, Column, Filled, Rank, Lengths;
    AppendColumn(blocks, i);
    ColumnsSize(blocks, i);
    ColumnElement(blocks, i, r, |blocks|);
    JoinedAt(Columns(blocks, i), Column(blocks, i, |blocks|), |Columns(blocks, i)| + Rank(Lengths(blocks), i, r));
  }

  lemma {:induction false} ColumnsElement(blocks: seq<Poly>, i: nat, r: nat, m: nat)
    requires r < |blocks| && i < |blocks[r]| && i < m
    ensures var p := Filled(Lengths(blocks), i) + Rank(Lengths(blocks), i, r);
            p < |Columns(blocks, m)| && Columns(blocks, m)[p] == blocks[r][i]
  {
    hide Columns, Column, Filled, Rank, Lengths;
    if i == m - 1 {
      LastColumnElement(blocks, i, r);
    } else {
      ColumnsElement(blocks, i, r, m - 1);
      AppendColumn(blocks, m - 1);
      JoinedAt(Columns(blocks, m - 1), Column(blocks, m - 1, |blocks|),
        Filled(Lengths(blocks), i) + Rank(Lengths(blocks), i, r));
    }
  }

  lemma DeinterleavedAt(lens: seq<nat>, data: Poly, r: nat, i: nat)
    requires |data| == Sum(lens) && r < |lens| && i < lens[r]
    ensures |Deinterleave(lens, data)[r]| == lens[r]
    ensures Deinterleave(lens, data)[r][i] == data[Position(lens, r, i)]
  {
    hide Position;
  }

  lemma InterleavedAt(blocks: seq<Poly>, r: nat, i: nat)
    requires r < |blocks| && i < |blocks[r]|
    ensures var p := Position(Lengths(blocks), r, i);
            p < |Interleave(blocks)| && Interleave(blocks)[p] == blocks[r][i]
  {
    hide Columns, Filled, Rank;
    ColumnsElement(blocks, i, r, MaxLength(blocks));
  }

  /** Every block comes back, whatever the block lengths. */
  lemma InterleaveRoundTrip(blocks: seq<Poly>)
    ensures |Interleave(blocks)| == Sum(Lengths(blocks))
    ensures Deinterleave(Lengths(blocks), Interleave(blocks)) == blocks
  {
    InterleaveSize(blocks);
    var lens := Lengths(blocks);
    var data := Interleave(blocks);
    var back := Deinterleave(lens, data);
    forall r | 0 <= r < |blocks| ensures back[r] == blocks[r] {
      hide Deinterleave, Interleave, Position;
      forall i | 0 <= i < |blocks[r]| ensures back[r][i] == blocks[r][i] {
        DeinterleavedAt(lens, data, r, i);
        InterleavedAt(blocks, r, i);
      }
    }
  }

  // ---- blocks of the buffer ----

  function DataCounts(rs: seq<RsBlock>): (lens: seq<nat>)
    ensures |lens| == |rs| && forall r :: 0 <= r < |rs| ==> lens[r] == rs[r].dataCount
  {
    seq(|rs|, r requires 0 <= r < |rs| => rs[r].dataCount)
  }

  function EcCounts(rs: seq<RsBlock>): (lens: seq<nat>)
    requires ValidBlocks(rs)
    ensures |lens| == |rs| && forall r :: 0 <= r < |rs| ==> lens[r] == rs[r].EcCount()
  {
    seq(|rs|, r requires 0 <= r < |rs| => rs[r].EcCount())
  }

  function TotalData(rs: seq<RsBlock>): nat {
    if |rs| == 0 then 0 else TotalData(rs[..|rs| - 1]) + rs[|rs| - 1].dataCount
  }

  function TotalCodes(rs: seq<RsBlock>): nat {
    if |rs| == 0 then 0 else TotalCodes(rs[..|rs| - 1]) + rs[|rs| - 1].totalCount
  }

  /** The buffer cut into consecutive data blocks. */
  function DataBlocks(buffer: Poly, rs: seq<RsBlock>): (blocks: seq<Poly>)
    requires |buffer| == TotalData(rs)
    ensures |blocks| == |rs|
    ensures forall r :: 0 <= r < |rs| ==> |blocks[r]| == rs[r].dataCount
    decreases |rs|
  {
    if |rs| == 0 then []
    else
      var k := |buffer| - rs[|rs| - 1].dataCount;
      DataBlocks(buffer[..k], rs[..|rs| - 1]) + [buffer[k..]]
  }

  function Concat(blocks: seq<Poly>): Poly {
    if |blocks| == 0 then [] else Concat(blocks[..|blocks| - 1]) + blocks[|blocks| - 1]
  }

  /** Cutting loses nothing. */
  lemma {:induction false} ConcatDataBlocks(buffer: Poly, rs: seq<RsBlock>)
    requires |buffer| == TotalData(rs)
    ensures Concat(DataBlocks(buffer, rs)) == buffer
    decreases |rs|
  {
    if |rs| != 0 {
      var m := |rs| - 1;
      var k := |buffer| - rs[m].dataCount;
      ConcatDataBlocks(buffer[..k], rs[..m]);
      assert DataBlocks(buffer, rs)[..m] == DataBlocks(buffer[..k], rs[..m]);
    }
  }

  ghost function EcBlocks(blocks: seq<Poly>, rs: seq<RsBlock>): (ecs: seq<Poly>)
    requires ValidBlocks(rs) && |blocks| == |rs|
    ensures |ecs| == |rs|
    ensures forall r :: 0 <= r < |rs| ==> |ecs[r]| == rs[r].EcCount()
  {
    seq(|rs|, r requires 0 <= r < |rs| => EcBytes(blocks[r], rs[r].EcCount()))
  }

  lemma EcBlockAt(blocks: seq<Poly>, rs: seq<RsBlock>, r: nat)
    requires ValidBlocks(rs) && |blocks| == |rs| && r < |rs|
    ensures EcBlocks(blocks, rs)[r] == EcBytes(blocks[r], rs[r].EcCount())
  {
    hide EcBytes;
  }

  /** The final message: interleaved data codewords, then interleaved error correction. */
  ghost function Message(buffer: Poly, rs: seq<RsBlock>): Poly
    requires ValidBlocks(rs) && |buffer| == TotalData(rs)
  {
    var blocks := DataBlocks(buffer, rs);
    Interleave(blocks) + Interleave(EcBlocks(blocks, rs))
  }

  lemma {:induction false} SumCounts(rs: seq<RsBlock>)
    requires ValidBlocks(rs)
    ensures Sum(DataCounts(rs)) == TotalData(rs)
    ensures TotalData(rs) + Sum(EcCounts(rs)) == TotalCodes(rs)
  {
    if |rs| != 0 {
      var m := |rs| - 1;
      SumCounts(rs[..m]);
      assert DataCounts(rs)[..m] == DataCounts(rs[..m]);
      assert EcCounts(rs)[..m] == EcCounts(rs[..m]);
    }
  }

  /** What a reader does with a message: split it, undo the interleaving of each half. */
  function ReadBlocks(message: Poly, rs: seq<RsBlock>): (b: (seq<Poly>, seq<Poly>))
    requires ValidBlocks(rs) && |message| == TotalCodes(rs)
    ensures |b.0| == |b.1| == |rs|
  {
    SumCounts(rs);
    var k := TotalData(rs);
    (Deinterleave(DataCounts(rs), message[..k]), Deinterleave(EcCounts(rs), message[k..]))
  }

  /** The message has exactly the version's codeword count; reading it gives the buffer and, block by
      block, words of the Reed-Solomon code. */
  lemma MessageRoundTrip(buffer: Poly, rs: seq<RsBlock>)
    requires ValidBlocks(rs) && |buffer| == TotalData(rs)
    ensures |Message(buffer, rs)| == TotalCodes(rs)
    ensures var (data, ecs) := ReadBlocks(Message(buffer, rs), rs);
            && data == DataBlocks(buffer, rs)
            && Concat(data) == buffer
            && ecs == EcBlocks(data, rs)
            && forall r :: 0 <= r < |rs| ==> IsCodeword(data[r] + ecs[r], rs[r].EcCount())
  {
    hide Interleave, EcBytes, IsCodeword;
    var blocks := DataBlocks(buffer, rs);
    var ecs := EcBlocks(blocks, rs);
    SumCounts(rs);
    assert Lengths(blocks) == DataCounts(rs);
    assert Lengths(ecs) == EcCounts(rs);
    InterleaveRoundTrip(blocks);
    InterleaveRoundTrip(ecs);
    var message := Message(buffer, rs);
    assert message[..TotalData(rs)] == Interleave(blocks);
    assert message[TotalData(rs)..] == Interleave(ecs);
    ConcatDataBlocks(buffer, rs);
    forall r | 0 <= r < |rs| ensures IsCodeword(blocks[r] + ecs[r], rs[r].EcCount()) {
      EncodedIsCodeword(blocks[r], rs[r].EcCount());
    }
  }

  lemma BufferReadBack(buffer: Poly, rs: seq<RsBlock>)
    requires ValidBlocks(rs) && |buffer| == TotalData(rs)
    ensures |Message(buffer, rs)| == TotalCodes(rs)
    ensures Concat(ReadBlocks(Message(buffer, rs), rs).0) == buffer
  {
    hide Message, ReadBlocks, Concat, DataBlocks, EcBlocks, IsCodeword;
    MessageRoundTrip(buffer, rs);
  }

  // ---- the source's loops ----

  lemma {:induction false} DataBlockAt(buffer: Poly, rs: seq<RsBlock>, r: nat)
    requires |buffer| == TotalData(rs) && r < |rs|
    ensures TotalData(rs[..r]) + rs[r].dataCount <= |buffer|
    ensures DataBlocks(buffer, rs)[r] == buffer[TotalData(rs[..r])..][..rs[r].dataCount]
    decreases |rs|
  {
    var m := |rs| - 1;
    var k := |buffer| - rs[m].dataCount;
    assert rs[..m] + [rs[m]] == rs;
    if r < m {
      DataBlockAt(buffer[..k], rs[..m], r);
      assert rs[..m][..r] == rs[..r];
      var o := TotalData(rs[..r]);
      assert buffer[..k][o..][..rs[r].dataCount] == buffer[o..][..rs[r].dataCount];
    } else {
      assert buffer[k..][..rs[m].dataCount] == buffer[k..];
    }
  }

  /** A block's data bytes, masked to eight bits. */
  method CopyData(buffer: Poly, offset: nat, dcCount: nat) returns (dc: Poly)
    requires offset + dcCount <= |buffer|
    ensures dc == buffer[offset..][..dcCount]
  {
    dc := Zeros(dcCount);
    for i := 0 to |dc|
      invariant |dc| == dcCount
      invariant forall k :: 0 <= k < i ==> dc[k] == buffer[offset + k]
    {
      dc := dc[i := buffer[i + offset] % 256];
    }
  }

  /** The remainder, aligned to the right of ecCount bytes. A slot that was never assigned ends up as
      zero: the loops over modules shift it. */
  method PadLeft(modPoly: Slots, ecCount: nat) returns (ec: Poly)
    requires |modPoly| <= ecCount
    ensures ec == Zeros(ecCount - |modPoly|) + Values(modPoly)
  {
    ec := Zeros(ecCount);
    for i := 0 to |ec|
      invariant |ec| == ecCount
      invariant forall k :: 0 <= k < |ec| ==>
        ec[k] == if k < i && k + |modPoly| >= ecCount then Values(modPoly)[k + |modPoly| - ecCount] else 0
    {
      var modIndex := i + |modPoly| - |ec|;
      ec := ec[i := if modIndex >= 0 then SlotValue(modPoly[modIndex]) else 0];
    }
  }

  /** No step of the division throws: the generator has no zero coefficient. */
  method ErrorCorrection(tables: Tables, dc: Poly, ecCount: nat) returns (ec: Poly)
    requires tables.Valid() && ecCount <= 254
    ensures ec == EcBytes(dc, ecCount)
  {
    hide Generator, Strip, Reduced, StripSlots, Assigned, Values, ValueRemainder, EcBytes, Unassigned;
    var generator := GetErrorCorrectPolynomial(tables, ecCount);
    var rsPoly := generator.value;
    GeneratorNonZero(ecCount);
    NoZerosAssigned(Generator(ecCount));
    StripAssigned(dc);
    var rawPoly := Make(Assigned(dc), |rsPoly| - 1);
    RawValues(dc, ecCount);
    var remainder := Mod(tables, rawPoly, rsPoly);
    EcFromRemainder(dc, ecCount, remainder.value);
    ec := PadLeft(remainder.value, |rsPoly| - 1);
  }

  lemma RawValues(dc: Poly, ecCount: nat)
    ensures var raw := Assigned(Strip(dc)) + Unassigned(ecCount);
            && Values(raw) == Strip(dc) + Zeros(ecCount)
            && (|raw| > ecCount ==> raw[0] != Some(0))
  {
    hide Strip;
  }

  lemma EcFromRemainder(dc: Poly, ecCount: nat, r: Slots)
    requires |r| <= ecCount
    requires Strip(Values(r)) == ValueRemainder(Strip(dc) + Zeros(ecCount), Generator(ecCount))
    ensures Zeros(ecCount - |r|) + Values(r) == EcBytes(dc, ecCount)
  {
    hide Generator, Strip, Values, Zeros, Remainder, ValueRemainder;
    SameRemainder(Strip(dc), ecCount, Generator(ecCount));
    PadSame(Values(r), Remainder(Strip(dc) + Zeros(ecCount), Generator(ecCount)), ecCount);
  }

  lemma SameRemainder(data: Poly, ecCount: nat, g: Poly)
    requires |g| == ecCount + 1 && g[0] == 1
    requires data == [] || data[0] != 0
    ensures ValueRemainder(data + Zeros(ecCount), g) == Strip(Remainder(data + Zeros(ecCount), g))
  {
    hide Strip, Zeros, Remainder;
    var raw := data + Zeros(ecCount);
    if data == [] {
      assert raw == Zeros(ecCount);
      StripZeros(ecCount);
      RemainderOfShort(raw, g);
      RemainderOfShort([], g);
      NoStrip([]);
    } else {
      NoStrip(raw);
    }
  }

  lemma PadSame(p: Poly, q: Poly, n: nat)
    requires |p| <= n && |q| <= n && Strip(p) == Strip(q)
    ensures Zeros(n - |p|) + p == Zeros(n - |q|) + q
  {
    hide Strip, Zeros;
    PadStripped(p, n);
    PadStripped(q, n);
  }

  lemma {:induction false} PadStripped(p: Poly, n: nat)
    requires |p| <= n
    ensures Zeros(n - |p|) + p == Zeros(n - |Strip(p)|) + Strip(p)
  {
    hide Strip, Zeros;
    if |p| > 0 && p[0] == 0 {
      StripHead(p);
      PadStripped(p[1..], n);
      OneZeroMore(p, n);
    } else {
      AlreadyStripped(p);
    }
  }

  lemma OneZeroMore(p: Poly, n: nat)
    requires 0 < |p| <= n && p[0] == 0
    ensures Zeros(n - |p|) + p == Zeros(n - |p[1..]|) + p[1..]
  {
  }

  lemma {:induction false} StripZeros(n: nat)
    ensures Strip(Zeros(n)) == []
  {
    if n > 0 {
      StripZeros(n - 1);
      assert Zeros(n)[1..] == Zeros(n - 1);
    }
  }

  lemma NoStrip(p: Poly)
    requires p == [] || p[0] != 0
    ensures Strip(p) == p
  {
  }

  lemma NextFits(blocks: seq<Poly>, i: nat, r: nat)
    requires r < |blocks| && i < |blocks[r]|
    ensures |Columns(blocks, i)| + |Column(blocks, i, r)| < Sum(Lengths(blocks))
  {
    ColumnsSize(blocks, i);
    ColumnSize(blocks, i, r);
    var p := Position(Lengths(blocks), r, i);
  }

  lemma NoColumns(blocks: seq<Poly>)
    ensures Columns(blocks, 0) == []
  {
  }

  lemma AppendColumn(blocks: seq<Poly>, i: nat)
    ensures Column(blocks, i, 0) == []
    ensures Columns(blocks, i + 1) == Columns(blocks, i) + Column(blocks, i, |blocks|)
  {
  }

  lemma AppendToColumn(blocks: seq<Poly>, i: nat, r: nat)
    requires r < |blocks|
    ensures Column(blocks, i, r + 1)
         == Column(blocks, i, r) + if i < |blocks[r]| then [blocks[r][i]] else []
  {
  }

  /** Writes the blocks column by column from `start` on, as each of the two final loops does. */
  method PutColumns(data: array<Byte>, start: nat, blocks: seq<Poly>, maxCount: nat) returns (index: nat)
    requires maxCount == MaxLength(blocks)
    requires start + Sum(Lengths(blocks)) <= data.Length
    modifies data
    ensures index == start + Sum(Lengths(blocks))
    ensures data[..index] == old(data[..start]) + Interleave(blocks)
  {
    hide Columns, Column, Lengths, MaxLength, Sum;
    index := start;
    NoColumns(blocks);
    for i := 0 to maxCount
      invariant start <= index <= data.Length
      invariant data[..index] == old(data[..start]) + Columns(blocks, i)
    {
      AppendColumn(blocks, i);
      for r := 0 to |blocks|
        invariant start <= index <= data.Length
        invariant data[..index] == old(data[..start]) + (Columns(blocks, i) + Column(blocks, i, r))
      {
        AppendToColumn(blocks, i, r);
        if i < |blocks[r]| {
          NextFits(blocks, i, r);
          data[index] := blocks[r][i];
          index := index + 1;
        }
      }
    }
    InterleaveSize(blocks);
  }

  lemma NothingTotalled()
    ensures TotalData([]) == 0 && MaxLength([]) == 0
  {
  }

  lemma DataOfNext(rs: seq<RsBlock>, i: nat)
    requires i < |rs|
    ensures TotalData(rs[..i + 1]) == TotalData(rs[..i]) + rs[i].dataCount
  {
    assert rs[..i + 1][..i] == rs[..i];
  }

  lemma LengthOfNext(blocks: seq<Poly>, block: Poly)
    ensures MaxLength(blocks + [block]) == if MaxLength(blocks) < |block| then |block| else MaxLength(blocks)
  {
    assert (blocks + [block])[..|blocks|] == blocks;
  }

  method EncodeBlocks(tables: Tables, buffer: Poly, rs: seq<RsBlock>)
    returns (dcdata: seq<Poly>, ecdata: seq<Poly>, maxDcCount: nat, maxEcCount: nat)
    requires tables.Valid()
    requires ValidBlocks(rs) && |buffer| == TotalData(rs)
    ensures dcdata == DataBlocks(buffer, rs) && ecdata == EcBlocks(dcdata, rs)
    ensures maxDcCount == MaxLength(dcdata) && maxEcCount == MaxLength(ecdata)
  {
    hide EcBytes, EcBlocks, DataBlocks, MaxLength, TotalData;
    NothingTotalled();
    var offset := 0;
    maxDcCount, maxEcCount := 0, 0;
    dcdata, ecdata := [], [];
    ghost var blocks := DataBlocks(buffer, rs);
    ghost var ecs := EcBlocks(blocks, rs);
    for i := 0 to |rs|
      invariant dcdata == blocks[..i] && ecdata == ecs[..i]
      invariant offset == TotalData(rs[..i])
      invariant maxDcCount == MaxLength(dcdata) && maxEcCount == MaxLength(ecdata)
    {
      DataBlockAt(buffer, rs, i);
      EcBlockAt(blocks, rs, i);
      DataOfNext(rs, i);
      var dcCount := rs[i].dataCount;
      var ecCount := rs[i].totalCount - dcCount;
      maxDcCount := if maxDcCount < dcCount then dcCount else maxDcCount;
      maxEcCount := if maxEcCount < ecCount then ecCount else maxEcCount;
      var dc := CopyData(buffer, offset, dcCount);
      var ec := ErrorCorrection(tables, dc, ecCount);
      LengthOfNext(dcdata, dc);
      LengthOfNext(ecdata, ec);
      dcdata, ecdata := dcdata + [dc], ecdata + [ec];
      offset := offset + dcCount;
    }
  }

  method CountCodes(rs: seq<RsBlock>) returns (totalCodeCount: nat)
    ensures totalCodeCount == TotalCodes(rs)
  {
    totalCodeCount := 0;
    for i := 0 to |rs|
      invariant totalCodeCount == TotalCodes(rs[..i])
    {
      assert rs[..i + 1][..i] == rs[..i];
      totalCodeCount := totalCodeCount + rs[i].totalCount;
    }
    assert rs[..|rs|] == rs;
  }

  /** The two final loops fill the codeword array exactly. */
  method CreateBytes(tables: Tables, buffer: Poly, rs: seq<RsBlock>) returns (message: Poly)
    requires tables.Valid()
    requires ValidBlocks(rs) && |buffer| == TotalData(rs)
    ensures message == Message(buffer, rs)
  {
    hide EcBytes, EcBlocks, DataBlocks, Interleave, MaxLength, TotalData, TotalCodes, Sum;
    var dcdata, ecdata, maxDcCount, maxEcCount := EncodeBlocks(tables, buffer, rs);
    var totalCodeCount := CountCodes(rs);
    SumCounts(rs);
    assert Lengths(dcdata) == DataCounts(rs) && Lengths(ecdata) == EcCounts(rs);
    var data := new Byte[totalCodeCount](_ => 0);
    var index := PutColumns(data, 0, dcdata, maxDcCount);
    index := PutColumns(data, index, ecdata, maxEcCount);
    assert data[..] == data[..index];
    message := data[..];
  }
}
