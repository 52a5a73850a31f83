/** Reading a damaged symbol: what the distances are for. A reader that takes the nearest format word
    and the nearest coded blocks recovers the segments as long as few enough modules and codewords are
    wrong. */
module Damage {
  import opened Bits
  import opened BitBuffer
  import opened Segments
  import opened Polynomial
  import opened ReedSolomon
  import opened Codewords
  import opened DataStream
  import opened InfoWords
  import opened ModuleGrid
  import opened Symbol
  import opened Results

  // ---- blocks ----

  lemma {:induction false} DistanceTriangle(p: Poly, q: Poly, r: Poly)
    requires |p| == |q| == |r|
    ensures Distance(p, r) <= Distance(p, q) + Distance(q, r)
    ensures Distance(p, q) == Distance(q, p)
  {
    if |p| > 0 {
      DistanceTriangle(p[..|p| - 1], q[..|q| - 1], r[..|r| - 1]);
    }
  }

  /** At most half of the error correction bytes' number of codewords differ from data's coded block. */
  ghost predicate Near(y: Poly, data: Poly, ec: nat) {
    |y| == |data| + ec && 2 * Distance(data + EcBytes(data, ec), y) <= ec
  }

  /** No two data blocks are near the same word. */
  lemma OneNear(y: Poly, p: Poly, q: Poly, ec: nat)
    requires |p| == |q| && |p| + ec <= 255 && Near(y, p, ec) && Near(y, q, ec)
    ensures p == q
  {
    hide EcBytes, Distance;
    if p != q {
      BlockDistance(p, q, ec);
      DistanceTriangle(p + EcBytes(p, ec), y, q + EcBytes(q, ec));
      DistanceTriangle(q + EcBytes(q, ec), y, y);
    }
  }

  /** The data of the nearest coded block. */
  ghost function Corrected(y: Poly, k: nat, ec: nat): (data: Poly)
    requires |y| == k + ec
    ensures |data| == k
  {
    if exists d: Poly :: |d| == k && Near(y, d, ec) then
      var d: Poly :| |d| == k && Near(y, d, ec);
      d
    else y[..k]
  }

  lemma CorrectedIs(y: Poly, data: Poly, ec: nat)
    requires |data| + ec <= 255 && Near(y, data, ec)
    ensures Corrected(y, |data|, ec) == data
  {
    hide Near;
    assert |y| == |data| + ec by { NearSize(y, data, ec); }
    var d := Corrected(y, |data|, ec);
    assert Near(y, d, ec);
    OneNear(y, d, data, ec);
  }

  lemma NearSize(y: Poly, data: Poly, ec: nat)
    requires Near(y, data, ec)
    ensures |y| == |data| + ec
  {
  }

  // ---- the message ----

  /** Block r of a message as it was received. */
  function Received(message: Poly, rs: seq<RsBlock>, r: nat): (y: Poly)
    requires ValidBlocks(rs) && |message| == TotalCodes(rs) && r < |rs|
    ensures |y| == rs[r].dataCount + rs[r].EcCount()
  {
    SumCounts(rs);
    ReadBlocks(message, rs).0[r] + ReadBlocks(message, rs).1[r]
  }

  ghost function CorrectedBlocks(message: Poly, rs: seq<RsBlock>): seq<Poly>
    requires ValidBlocks(rs) && |message| == TotalCodes(rs)
  {
    seq(|rs|, r requires 0 <= r < |rs| => Corrected(Received(message, rs, r), rs[r].dataCount, rs[r].EcCount()))
  }

  ghost function ReadCorrected(message: Poly, version: nat, rs: seq<RsBlock>): Option<seq<Segment>>
    requires 1 <= version <= 40 && ValidBlocks(rs) && |message| == TotalCodes(rs)
  {
    ReadSegments(Unpack(Concat(CorrectedBlocks(message, rs))), version)
  }

  /** In each block at most half as many codewords are wrong as it has for error correction. */
  ghost predicate FewWrong(received: Poly, message: Poly, rs: seq<RsBlock>)
    requires ValidBlocks(rs) && |received| == |message| == TotalCodes(rs)
  {
    forall r :: 0 <= r < |rs| ==> 2 * Distance(Received(message, rs, r), Received(received, rs, r)) <= rs[r].EcCount()
  }

  predicate ShortBlocks(rs: seq<RsBlock>) {
    forall r :: 0 <= r < |rs| ==> rs[r].totalCount <= 255
  }

  lemma BlocksCorrected(buffer: Poly, rs: seq<RsBlock>, received: Poly)
    requires ValidBlocks(rs) && ShortBlocks(rs) && |buffer| == TotalData(rs) && |received| == TotalCodes(rs)
    requires |Message(buffer, rs)| == TotalCodes(rs) && FewWrong(received, Message(buffer, rs), rs)
    ensures Concat(CorrectedBlocks(received, rs)) == buffer
  {
    hide Message, ReadBlocks, DataBlocks, Concat, EcBytes, Distance, Corrected, IsCodeword, TotalCodes, TotalData;
    var message, blocks := Message(buffer, rs), DataBlocks(buffer, rs);
    MessageRoundTrip(buffer, rs);
    forall r | 0 <= r < |rs| ensures CorrectedBlocks(received, rs)[r] == blocks[r] {
      var data, ec := blocks[r], rs[r].EcCount();
      EcBlockAt(blocks, rs, r);
      assert Received(message, rs, r) == data + EcBytes(data, ec);
      assert Near(Received(received, rs, r), data, ec);
      CorrectedIs(Received(received, rs, r), data, ec);
    }
    assert CorrectedBlocks(received, rs) == blocks;
  }

  /** With few wrong codewords in each block the segments come back. */
  lemma DamagedMessageBack(segments: seq<Segment>, version: nat, rs: seq<RsBlock>, received: Poly)
    requires 1 <= version <= 40 && ValidBlocks(rs) && ShortBlocks(rs) && Fits(segments, version, rs)
    requires TotalData(rs) <= MaxDataCount(version)
    requires |received| == TotalCodes(rs) == |DataMessage(segments, version, rs)|
    requires FewWrong(received, DataMessage(segments, version, rs), rs)
    ensures ReadCorrected(received, version, rs) == Some(segments)
  {
    hide StreamBits, DataBits, Message, CorrectedBlocks, Concat, ReadSegments, Pack, Unpack, FewWrong, ShortBlocks,
      ValidBlocks, TotalCodes, TotalData;
    var bits := DataBits(StreamBits(segments, version), 8 * TotalData(rs));
    BlocksCorrected(Pack(bits), rs, received);
    UnpackPack(bits);
    DataStream.DataRoundTrip(segments, version, 8 * TotalData(rs));
  }

  // ---- format information ----

  function Dark(g: Grid, cell: Cell): bool {
    At(g, cell.0, cell.1) == Some(true)
  }

  /** In how many of the first k modules a matrix differs from a word. */
  function Apart(g: Grid, cells: seq<Cell>, w: nat, k: nat): nat
    requires k <= |cells|
  {
    if k == 0 then 0
    else Apart(g, cells, w, k - 1) + BchDistance.One(Dark(g, cells[k - 1]) != BchDistance.Digit(w, k - 1))
  }

  /** How many of the first k modules are wrong. */
  function Wrong(g: Grid, drawn: Grid, cells: seq<Cell>, k: nat): nat
    requires k <= |cells|
  {
    if k == 0 then 0
    else
      Wrong(g, drawn, cells, k - 1)
      + BchDistance.One(At(g, cells[k - 1].0, cells[k - 1].1) != At(drawn, cells[k - 1].0, cells[k - 1].1))
  }

  lemma {:induction false} ApartTriangle(g: Grid, cells: seq<Cell>, v: nat, w: nat, k: nat)
    requires k <= |cells|
    ensures BchDistance.Differ(v, w, k) <= Apart(g, cells, v, k) + Apart(g, cells, w, k)
  {
    hide BchDistance.Digit, Dark;
    if k > 0 {
      ApartTriangle(g, cells, v, w, k - 1);
    }
  }

  lemma {:induction false} ApartIsWrong(g: Grid, drawn: Grid, cells: seq<Cell>, w: nat, k: nat)
    requires k <= |cells|
    requires forall i :: 0 <= i < k ==> At(drawn, cells[i].0, cells[i].1) == Some(BchDistance.Digit(w, i))
    ensures Apart(g, cells, w, k) <= Wrong(g, drawn, cells, k)
  {
    hide BchDistance.Digit, At;
    if k > 0 {
      ApartIsWrong(g, drawn, cells, w, k - 1);
    }
  }

  ghost predicate NearFormat(g: Grid, cells: seq<Cell>, data: nat)
    requires |cells| == 15
  {
    exists w :: IsFormatWord(w, data) && Apart(g, cells, w, 15) <= 3
  }

  /** Level and mask of the nearest format word. */
  ghost function CorrectedFormat(g: Grid, cells: seq<Cell>): (data: nat)
    requires |cells| == 15
    ensures data < 32
  {
    hide Apart;
    if exists d: nat :: NearFormat(g, cells, d) then
      var d: nat :| NearFormat(g, cells, d);
      d
    else 0
  }

  lemma NearWord(g: Grid, cells: seq<Cell>, data: nat)
    requires |cells| == 15 && NearFormat(g, cells, data)
    ensures data < 32 && Apart(g, cells, Bch.TypeInfo(data), 15) <= 3
  {
    hide Apart, Bch.TypeInfo, IsFormatWord;
    var w :| IsFormatWord(w, data) && Apart(g, cells, w, 15) <= 3;
    FormatWords(w, data);
  }

  lemma CorrectedFormatIs(g: Grid, cells: seq<Cell>, data: nat)
    requires |cells| == 15 && NearFormat(g, cells, data)
    ensures CorrectedFormat(g, cells) == data
  {
    hide Apart, Bch.TypeInfo, BchDistance.Differ, IsFormatWord;
    var d := CorrectedFormat(g, cells);
    NearWord(g, cells, d);
    NearWord(g, cells, data);
    if d != data {
      BchDistance.FormatDistance(d, data);
      ApartTriangle(g, cells, Bch.TypeInfo(d), Bch.TypeInfo(data), 15);
    }
  }

  /** With at most three wrong format modules, in either place, level and mask come back. */
  lemma DamagedFormatBack(version: nat, level: nat, mask: nat, pos: seq<nat>, message: Poly, second: bool, g: Grid)
    requires 1 <= version <= 40 && level < 4 && mask < 8
    requires var cells := FormatCells(SideOf(version), second);
             Wrong(g, Drawn(version, level, mask, false, pos, message), cells, 15) <= 3
    ensures CorrectedFormat(g, FormatCells(SideOf(version), second)) == 8 * level + mask
  {
    hide Drawn, FormatCells, Apart, Wrong, Bch.TypeInfo, At, InfoBit, BchDistance.Digit;
    var cells, w := FormatCells(SideOf(version), second), Bch.TypeInfo(FormatData(level, mask));
    var drawn := Drawn(version, level, mask, false, pos, message);
    forall i | 0 <= i < 15 ensures At(drawn, cells[i].0, cells[i].1) == Some(BchDistance.Digit(w, i)) {
      FormatModule(version, level, mask, false, pos, message, second, i);
      InfoIsDigit(w, i);
    }
    ApartIsWrong(g, drawn, cells, w, 15);
    TypeInfoIsFormatWord(FormatData(level, mask));
    CorrectedFormatIs(g, cells, FormatData(level, mask));
  }

  lemma InfoIsDigit(w: nat, i: nat)
    ensures InfoBit(w, i, false) == BchDistance.Digit(w, i)
  {
    hide Pow2;
    BchDistance.DigitIsShifted(w, i);
  }

  // ---- the whole symbol ----

  /** The codewords in a matrix, right or wrong. */
  function Codes(s: Standard, g: Grid, version: nat, mask: nat, k: nat): Option<Poly>
    requires version >= 1 && mask < 8
  {
    hide Standard.ReadModules, Pack;
    var bits := s.ReadModules(g, version, mask);
    if |bits| < 8 * k then None else Some(Pack(bits[..8 * k]))
  }

  /** A reader that corrects: nearest format word, nearest coded blocks. */
  ghost function ReadDamaged(s: Standard, g: Grid): Option<seq<Segment>> {
    hide CorrectedFormat, Codes, ReadCorrected, FormatCells;
    var n := |g|;
    if n < 21 || n > 177 || n % 4 != 1 then None
    else
      var version := (n - 17) / 4;
      var format := CorrectedFormat(g, FormatCells(n, false));
      var rs := s.blocks(version, format / 8);
      if !ValidBlocks(rs) then None
      else
        var codes :- Codes(s, g, version, format % 8, TotalCodes(rs));
        if |codes| != TotalCodes(rs) then None else ReadCorrected(codes, version, rs)
  }

  /** For every symbol and every damage that leaves at most three format modules wrong, and in each block
      at most half as many codewords as it has for error correction, the reader recovers exactly the
      segments. */
  lemma DamagedReadBack(s: Standard, version: nat, level: nat, mask: nat, segments: seq<Segment>, g: Grid, codes: Poly)
    requires 1 <= version <= 40 && level < 4 && mask < 8 && s.Supports(version, level)
    requires ShortBlocks(s.blocks(version, level)) && Fits(segments, version, s.blocks(version, level))
    requires IsSquare(g, SideOf(version))
    requires var rs := s.blocks(version, level);
             var message := DataMessage(segments, version, rs);
             && |message| == TotalCodes(rs) == |codes|
             && Codes(s, g, version, mask, TotalCodes(rs)) == Some(codes) && FewWrong(codes, message, rs)
             && Wrong(g, Drawn(version, level, mask, false, s.positions(version), message),
                      FormatCells(SideOf(version), false), 15) <= 3
    ensures ReadDamaged(s, g) == Some(segments)
  {
    hide Fits, DataMessage, ReadCorrected, CorrectedFormat, FormatCells, Codes, FewWrong, Wrong, Drawn, ShortBlocks,
      Standard.FreeModules, TotalCodes, TotalData, ValidBlocks;
    var rs := s.blocks(version, level);
    var message := DataMessage(segments, version, rs);
    DamagedFormatBack(version, level, mask, s.positions(version), message, false, g);
    DamagedMessageBack(segments, version, rs, codes);
  }
}
