/** The finished symbol, and a reader that recovers the segments from its modules alone. */
module Symbol {
  import opened Bits
  import opened BitBuffer
  import opened Segments
  import opened Polynomial
  import opened Codewords
  import opened DataStream
  import opened InfoWords
  import opened ModuleGrid
  import opened Placement
  import opened Results

  /** The format data of a level and a mask. */
  function FormatData(level: nat, mask: nat): nat {
    level * 8 + mask
  }

  /** The matrix makeImpl leaves behind. */
  ghost function Drawn(version: nat, level: nat, mask: nat, test: bool, pos: seq<nat>, message: Poly): (g: Grid)
    requires version >= 1 && mask < 8
    ensures IsSquare(g, SideOf(version))
  {
    hide FunctionPatterns, Mapped, Steps;
    Mapped(FunctionPatterns(version, pos, FormatData(level, mask), test), SideOf(version), message, mask)
  }

  /** No module is left null, and the placement of data leaves every function module as it was. */
  lemma DrawnIsFull(version: nat, level: nat, mask: nat, test: bool, pos: seq<nat>, message: Poly, r: nat, c: nat)
    requires version >= 1 && mask < 8 && r < SideOf(version) && c < SideOf(version)
    ensures var before := At(FunctionPatterns(version, pos, FormatData(level, mask), test), r, c);
            var after := At(Drawn(version, level, mask, test, pos, message), r, c);
            after.Some? && (before.Some? ==> after == before)
  {
    hide FunctionPatterns, Mapped, Steps;
    var n := SideOf(version);
    var g := FunctionPatterns(version, pos, FormatData(level, mask), test);
    if c == 6 {
      ColumnSixIsFull(version, pos, FormatData(level, mask), test, r);
    }
    NothingLeftNull(g, n, message, mask, r, c);
    if At(g, r, c).Some? {
      PrefilledStays(g, n, message, mask, r, c);
    }
  }

  /** The three finder patterns of a finished symbol, borders included, are whole. */
  lemma FindersVisible(version: nat, level: nat, mask: nat, test: bool, pos: seq<nat>, message: Poly, r: nat, c: nat)
    requires version >= 1 && mask < 8 && SpacedPositions(pos, SideOf(version))
    requires r < SideOf(version) && c < SideOf(version) && InFinders(SideOf(version), r, c)
    ensures At(Drawn(version, level, mask, test, pos, message), r, c) == Some(FinderDark(SideOf(version), r, c))
  {
    hide FunctionPatterns, Mapped, Steps, FinderDark, InFinders;
    FindersStand(version, pos, FormatData(level, mask), test, r, c);
    PrefilledStays(FunctionPatterns(version, pos, FormatData(level, mask), test), SideOf(version), message, mask, r, c);
  }

  // ---- reading format and version information ----

  /** The first k dark and light modules of a list, as the low digits of a number. */
  function Word(g: Grid, cells: seq<Cell>, k: nat): nat
    requires k <= |cells|
  {
    if k == 0 then 0
    else Word(g, cells, k - 1) + if At(g, cells[k - 1].0, cells[k - 1].1) == Some(true) then Pow2(k - 1) else 0
  }

  lemma {:induction false} WordIsNumber(g: Grid, cells: seq<Cell>, bits: nat, k: nat)
    requires k <= |cells|
    requires forall i :: 0 <= i < k ==> At(g, cells[i].0, cells[i].1) == Some(InfoBit(bits, i, false))
    ensures Word(g, cells, k) == bits % Pow2(k)
  {
    hide At;
    if k != 0 {
      WordIsNumber(g, cells, bits, k - 1);
      NextDigit(bits, Pow2(k - 1));
      assert At(g, cells[k - 1].0, cells[k - 1].1) == Some(InfoBit(bits, k - 1, false));
    }
  }

  lemma NextDigit(n: nat, p: nat)
    requires p > 0
    ensures n % (2 * p) == n % p + (n / p % 2) * p
  {
    var q, r := n / p, n % p;
    assert n == q * p + r;
    var d, b := q / 2, q % 2;
    assert q == 2 * d + b;
    Distribute(d, p);
    DivModUnique(n, 2 * p, d, b * p + r);
  }

  /** Where the fifteen digits of a format word stand, the lowest first: down column 8 from the top, or
      along row 8 from the right. */
  function FormatCells(n: nat, second: bool): (cells: seq<Cell>)
    requires n >= 21
    ensures |cells| == 15
  {
    if second then
      [(8, n - 1), (8, n - 2), (8, n - 3), (8, n - 4), (8, n - 5), (8, n - 6), (8, n - 7), (8, n - 8),
       (8, 7), (8, 5), (8, 4), (8, 3), (8, 2), (8, 1), (8, 0)]
    else
      [(0, 8), (1, 8), (2, 8), (3, 8), (4, 8), (5, 8), (7, 8), (8, 8),
       (n - 7, 8), (n - 6, 8), (n - 5, 8), (n - 4, 8), (n - 3, 8), (n - 2, 8), (n - 1, 8)]
  }

  /** Where the eighteen digits of a version word stand: in three columns beside the finder at the top
      right, or in three rows above the one at the bottom left. */
  function VersionCells(n: nat, second: bool): (cells: seq<Cell>)
    requires n >= 21
    ensures |cells| == 18
  {
    var a, b, c := n - 11, n - 10, n - 9;
    if second then
      [(a, 0), (b, 0), (c, 0), (a, 1), (b, 1), (c, 1), (a, 2), (b, 2), (c, 2),
       (a, 3), (b, 3), (c, 3), (a, 4), (b, 4), (c, 4), (a, 5), (b, 5), (c, 5)]
    else
      [(0, a), (0, b), (0, c), (1, a), (1, b), (1, c), (2, a), (2, b), (2, c),
       (3, a), (3, b), (3, c), (4, a), (4, b), (4, c), (5, a), (5, b), (5, c)]
  }

  /** Level and mask, unmasked from one of the two copies of the format information. */
  function ReadFormat(g: Grid, second: bool): nat
    requires |g| >= 21
  {
    Xor(Word(g, FormatCells(|g|, second), 15), 0x5412) / 1024
  }

  function ReadVersion(g: Grid, second: bool): nat
    requires |g| >= 21
  {
    Word(g, VersionCells(|g|, second), 18) / 4096
  }

  lemma FormatCellIs(n: nat, second: bool, i: nat)
    requires n >= 21 && i < 15
    ensures FormatCells(n, second)[i] == if second then HorizontalCell(n, i) else VerticalCell(n, i)
  {
  }

  lemma VersionCellIs(n: nat, second: bool, i: nat)
    requires n >= 21 && i < 18
    ensures VersionCells(n, second)[i] == if second then (i % 3 + n - 11, i / 3) else (i / 3, i % 3 + n - 11)
  {
    assert i == 3 * (i / 3) + i % 3;
  }

  /** Each digit of the format word is in its module of the finished symbol. */
  lemma FormatModule(version: nat, level: nat, mask: nat, test: bool, pos: seq<nat>, message: Poly, second: bool, i: nat)
    requires 1 <= version <= 40 && mask < 8 && i < 15
    ensures var cell := FormatCells(SideOf(version), second)[i];
            At(Drawn(version, level, mask, test, pos, message), cell.0, cell.1)
            == Some(InfoBit(Bch.TypeInfo(FormatData(level, mask)), i, test))
  {
    var n, data := SideOf(version), FormatData(level, mask);
    hide FunctionPatterns, Mapped, InfoBit, At, VerticalCell, HorizontalCell, Bch.TypeInfo, TypeInfoCells, Steps,
      FormatCells;
    var cell := FormatCells(n, second)[i];
    FormatCellIs(n, second, i);
    var k := if second then 15 + i else i;
    TypeInfoStands(version, pos, data, test, k);
    TypeInfoCellIs(n, k);
    InfoCellsInRange(n);
    PrefilledStays(FunctionPatterns(version, pos, data, test), n, message, mask, cell.0, cell.1);
  }

  /** In a test drawing the information is left light. */
  lemma TestIsLight(version: nat, level: nat, mask: nat, pos: seq<nat>, message: Poly, second: bool, i: nat)
    requires 1 <= version <= 40 && mask < 8
    ensures i < 15 ==>
      var cell := FormatCells(SideOf(version), second)[i];
      At(Drawn(version, level, mask, true, pos, message), cell.0, cell.1) == Some(false)
    ensures i < 18 && version >= 7 ==>
      var cell := VersionCells(SideOf(version), second)[i];
      At(Drawn(version, level, mask, true, pos, message), cell.0, cell.1) == Some(false)
  {
    hide Drawn, FormatCells, VersionCells, At;
    if i < 15 {
      FormatModule(version, level, mask, true, pos, message, second, i);
    }
    if i < 18 && version >= 7 {
      VersionModule(version, level, mask, true, pos, message, second, i);
    }
  }

  /** Each digit of the version word is in its module, from version 7 on. */
  lemma VersionModule(version: nat, level: nat, mask: nat, test: bool, pos: seq<nat>, message: Poly, second: bool, i: nat)
    requires 7 <= version <= 40 && mask < 8 && i < 18
    ensures var cell := VersionCells(SideOf(version), second)[i];
            At(Drawn(version, level, mask, test, pos, message), cell.0, cell.1)
            == Some(InfoBit(Bch.TypeNumber(version), i, test))
  {
    var n, data := SideOf(version), FormatData(level, mask);
    hide FunctionPatterns, Mapped, InfoBit, At, Bch.TypeNumber, TypeNumberCells, VersionCells, Steps;
    var cell := VersionCells(n, second)[i];
    var k := if second then 18 + i else i;
    VersionCellIs(n, second, i);
    TypeNumberStands(version, pos, data, test, k);
    TypeNumberCellIs(n, k);
    InfoCellsInRange(n);
    PrefilledStays(FunctionPatterns(version, pos, data, test), n, message, mask, cell.0, cell.1);
  }

  /** A drawn symbol announces its level and mask, in both places, by the word that the standard defines. */
  lemma FormatReadBack(version: nat, level: nat, mask: nat, pos: seq<nat>, message: Poly, second: bool)
    requires 1 <= version <= 40 && level < 4 && mask < 8
    ensures ReadFormat(Drawn(version, level, mask, false, pos, message), second) == 8 * level + mask
    ensures IsFormatWord(Word(Drawn(version, level, mask, false, pos, message), FormatCells(SideOf(version), second), 15),
                         8 * level + mask)
  {
    var n, data := SideOf(version), FormatData(level, mask);
    var bits := Bch.TypeInfo(data);
    hide InfoBit, At, FormatCells, Bch.TypeInfo, Pow2, Xor, Drawn, IsFormatWord;
    var h := Drawn(version, level, mask, false, pos, message);
    var cells := FormatCells(n, second);
    forall i | 0 <= i < 15 ensures At(h, cells[i].0, cells[i].1) == Some(InfoBit(bits, i, false)) {
      FormatModule(version, level, mask, false, pos, message, second, i);
    }
    WordIsNumber(h, cells, bits, 15);
    KnownPowers();
    Bch.TypeInfoRoundTrip(data);
    TypeInfoIsFormatWord(data);
    SmallModulo(bits, 32768);
  }

  /** From version 7 on it announces its version, in both places. */
  lemma VersionReadBack(version: nat, level: nat, mask: nat, pos: seq<nat>, message: Poly, second: bool)
    requires 7 <= version <= 40 && mask < 8
    ensures ReadVersion(Drawn(version, level, mask, false, pos, message), second) == version
    ensures IsVersionWord(Word(Drawn(version, level, mask, false, pos, message), VersionCells(SideOf(version), second), 18),
                          version)
  {
    var n, bits := SideOf(version), Bch.TypeNumber(version);
    hide Drawn, InfoBit, At, Bch.TypeNumber, Pow2, VersionCells, IsVersionWord;
    var h := Drawn(version, level, mask, false, pos, message);
    var cells := VersionCells(n, second);
    forall i | 0 <= i < 18 ensures At(h, cells[i].0, cells[i].1) == Some(InfoBit(bits, i, false)) {
      VersionModule(version, level, mask, false, pos, message, second, i);
    }
    WordIsNumber(h, cells, bits, 18);
    KnownPowers();
    Bch.TypeNumberRoundTrip(version);
    TypeNumberIsVersionWord(version);
    SmallModulo(bits, 262144);
  }

  // ---- reading the data ----

  /** Everything a reader knows beforehand: the block lists and the alignment positions. */
  datatype Standard = Standard(blocks: (nat, nat) -> seq<RsBlock>, positions: nat -> seq<nat>) {
    /** What a version and level must offer: well-formed blocks, no more data than the version class
        allows, and eight free modules for every codeword. */
    predicate Supports(version: nat, level: nat)
      requires 1 <= version <= 40
    {
      && ValidBlocks(blocks(version, level))
      && TotalData(blocks(version, level)) <= MaxDataCount(version)
      && 8 * TotalCodes(blocks(version, level)) <= FreeModules(version)
    }

    function Reserved(version: nat): (g: Grid)
      requires version >= 1
      ensures IsSquare(g, SideOf(version))
    {
      FunctionPatterns(version, positions(version), 0, true)
    }

    function FreeModules(version: nat): nat
      requires version >= 1
    {
      hide FunctionPatterns, FreeCount, Steps, Standard.Reserved;
      FreeCount(Reserved(version), SideOf(version), Steps(SideOf(version)))
    }

    /** The unmasked bits of a version's free modules, in placement order. */
    function ReadModules(g: Grid, version: nat, mask: nat): seq<bool>
      requires version >= 1 && mask < 8
    {
      hide FunctionPatterns, ReadBits, Steps, Standard.Reserved;
      ReadBits(Reserved(version), g, SideOf(version), mask, Steps(SideOf(version)))
    }

    function ReadCodewords(bits: seq<bool>, version: nat, rs: seq<RsBlock>): Option<seq<Segment>>
      requires 1 <= version <= 40
    {
      if !ValidBlocks(rs) || |bits| < 8 * TotalCodes(rs) then None
      else ReadMessage(Pack(bits[..8 * TotalCodes(rs)]), version, rs)
    }

    /** The segments in a matrix of modules: version from its side, level and mask from the format
        information, then placement order, mask, blocks and bit stream. */
    function Read(g: Grid): Option<seq<Segment>> {
      hide ReadFormat;
      var n := |g|;
      if n < 21 || n > 177 || n % 4 != 1 then None
      else
        var version := (n - 17) / 4;
        var format := ReadFormat(g, false);
        ReadCodewords(ReadModules(g, version, format % 8), version, blocks(version, format / 8))
    }
  }

  /** The placed codewords come back from the modules. */
  lemma PlacementReadBack(s: Standard, version: nat, level: nat, mask: nat, message: Poly)
    requires 1 <= version <= 40 && mask < 8
    requires 8 * |message| <= s.FreeModules(version)
    ensures var g := Drawn(version, level, mask, false, s.positions(version), message);
            var bits := s.ReadModules(g, version, mask);
            8 * |message| <= |bits| && bits[..8 * |message|] == Unpack(message)
  {
    var n, pos := SideOf(version), s.positions(version);
    hide FunctionPatterns, Mapped, ReadBits, FreeCount, At, Unpack, Steps;
    var g := FunctionPatterns(version, pos, FormatData(level, mask), false);
    var h := Mapped(g, n, message, mask);
    forall r, c ensures At(s.Reserved(version), r, c).Some? <==> At(g, r, c).Some? {
      SameReservedCell(version, pos, 0, true, FormatData(level, mask), false, r, c);
    }
    SameReserved(s.Reserved(version), g, h, n, mask, Steps(n));
    CodewordsReadBack(g, n, message, mask);
  }

  lemma SameReservedCell(version: nat, pos: seq<nat>, data: nat, test: bool, data': nat, test': bool, r: int, c: int)
    requires version >= 1
    ensures At(FunctionPatterns(version, pos, data, test), r, c).Some?
       <==> At(FunctionPatterns(version, pos, data', test'), r, c).Some?
  {
    hide FunctionPatterns;
    if r >= 0 && c >= 0 {
      ReservedCellsFixed(version, pos, data, test, data', test', r, c);
    }
  }

  /** A reader of the finished symbol gets back exactly the segments it was made from, whatever the
      mask. */
  lemma SymbolReadBack(s: Standard, version: nat, level: nat, mask: nat, segments: seq<Segment>)
    requires 1 <= version <= 40 && level < 4 && mask < 8 && s.Supports(version, level)
    requires Fits(segments, version, s.blocks(version, level))
    ensures var message := DataMessage(segments, version, s.blocks(version, level));
            s.Read(Drawn(version, level, mask, false, s.positions(version), message)) == Some(segments)
  {
    hide Fits, DataMessage, ReadMessage, ReadFormat, Standard.FreeModules, Standard.ReadModules;
    hide Pack, Unpack, Drawn;
    var rs := s.blocks(version, level);
    var message := DataMessage(segments, version, rs);
    var g := Drawn(version, level, mask, false, s.positions(version), message);
    MessageReadBack(segments, version, rs);
    FormatReadBack(version, level, mask, s.positions(version), message, false);
    PlacementReadBack(s, version, level, mask, message);
    PackUnpack(message);
  }
}
