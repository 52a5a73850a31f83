/** The generator object: data in, symbol out. */
module QrCode {
  import opened Bits
  import opened Segments
  import opened Polynomial
  import opened Codewords
  import opened DataStream
  import opened ModuleGrid
  import opened ModuleMatrix
  import opened Placement
  import opened QrMath
  import opened StandardTables
  import opened Symbol
  import opened Results

  /** The score of the test drawing with a mask. */
  ghost function Score(lostPoint: Grid -> real, s: Standard, version: nat, level: nat, segments: seq<Segment>,
                       mask: nat): real
    requires 1 <= version <= 40 && mask < 8 && ValidBlocks(s.blocks(version, level))
    requires Fits(segments, version, s.blocks(version, level))
  {
    lostPoint(Drawn(version, level, mask, true, s.positions(version),
                    DataMessage(segments, version, s.blocks(version, level))))
  }

  /** Among masks below k none scores less, and no earlier one as little. */
  ghost predicate IsBestMask(lostPoint: Grid -> real, s: Standard, version: nat, level: nat,
                             segments: seq<Segment>, mask: nat, k: nat)
    requires 1 <= version <= 40 && mask < k <= 8 && ValidBlocks(s.blocks(version, level))
    requires Fits(segments, version, s.blocks(version, level))
  {
    forall i :: 0 <= i < k ==>
      var best, other := Score(lostPoint, s, version, level, segments, mask),
                         Score(lostPoint, s, version, level, segments, i);
      best <= other && (i < mask ==> best < other)
  }

  /** The segment for data in a mode. No table for Kanji is registered. */
  function NewData(data: string, mode: Option<string>, stringToBytes: string -> seq<Byte>): Result<Segment> {
    var name := if mode.Some? && mode.value != "" then mode.value else "Byte";
    if name == "Numeric" then Ok(Numeric(data))
    else if name == "Alphanumeric" then Ok(AlphaNum(data))
    else if name == "Byte" then Ok(ByteData(stringToBytes(data)))
    else if name == "Kanji" then Throws(NoKanji)
    else Throws(BadMode)
  }

  class QrCode {
    const tables: Tables
    const standard: Standard
    const errorCorrectionLevel: nat

    /** 0 chooses the version when the symbol is made */
    var typeNumber: nat
    var modules: array2<Module>
    var moduleCount: nat
    var dataCache: Option<Poly>
    var dataList: seq<Segment>

    ghost predicate Valid()
      reads this, tables.expTable, tables.logTable
    {
      && tables.Valid()
      && errorCorrectionLevel < 4
      && typeNumber <= 40
      && standard == TheStandard()
      && (forall v :: 1 <= v <= 40 ==> ValidBlocks(standard.blocks(v, errorCorrectionLevel)))
      && (dataCache.Some? ==>
        && typeNumber >= 1
        && Fits(dataList, typeNumber, Blocks(typeNumber))
        && dataCache.value == DataMessage(dataList, typeNumber, Blocks(typeNumber)))
    }

    function Blocks(version: nat): seq<RsBlock> {
      standard.blocks(version, errorCorrectionLevel)
    }

    /** The block lists of this error correction level. */
    function Table(): nat -> seq<RsBlock> {
      (v: nat) => standard.blocks(v, errorCorrectionLevel)
    }

    constructor (tables: Tables, typeNumber: nat, errorCorrectionLevel: nat)
      requires tables.Valid()
      requires typeNumber <= 40 && errorCorrectionLevel < 4
      ensures Valid() && dataList == []
      ensures this.tables == tables
      ensures this.typeNumber == typeNumber && this.errorCorrectionLevel == errorCorrectionLevel
    {
      this.tables, standard := tables, TheStandard();
      this.typeNumber, this.errorCorrectionLevel := typeNumber, errorCorrectionLevel;
      modules := new Module[0, 0];
      moduleCount, dataCache, dataList := 0, None, [];
      new;
      hide TheStandard, ValidBlocks, DataMessage, Fits;
      forall v | 1 <= v <= 40 ensures ValidBlocks(standard.blocks(v, errorCorrectionLevel)) {
        RowsAreReady(v, errorCorrectionLevel);
      }
    }

    /** Adds data in the mode of the given name, `Byte` where there is none. New data invalidates the
        cached codewords; an unknown mode changes nothing. */
    method AddData(data: string, mode: Option<string>, stringToBytes: string -> seq<Byte>) returns (r: Result<()>)
      requires Valid()
      modifies this
      ensures Valid() && typeNumber == old(typeNumber)
      ensures mode == None || mode == Some("") || mode == Some("Byte") ==>
        r == Ok(()) && dataList == old(dataList) + [ByteData(stringToBytes(data))]
      ensures mode == Some("Numeric") ==> r == Ok(()) && dataList == old(dataList) + [Numeric(data)]
      ensures mode == Some("Alphanumeric") ==> r == Ok(()) && dataList == old(dataList) + [AlphaNum(data)]
      ensures mode.Some? && mode.value !in {"", "Byte", "Numeric", "Alphanumeric"} ==>
        && r == Throws(if mode.value == "Kanji" then NoKanji else BadMode)
        && dataList == old(dataList) && dataCache == old(dataCache)
      ensures match NewData(data, mode, stringToBytes)
              case Ok(segment) => r == Ok(()) && dataList == old(dataList) + [segment]
              case Throws(error) => r == Throws(error) && dataList == old(dataList) && dataCache == old(dataCache)
    {
      hide StreamBits, DataMessage, Fits;
      var newData :- NewData(data, mode, stringToBytes);
      dataList := dataList + [newData];
      dataCache := None;
      return Ok(());
    }

    /** One drawing of the symbol; codewords are computed once and reused. */
    method MakeImpl(test: bool, maskPattern: nat) returns (r: Result<()>)
      requires Valid() && typeNumber >= 1 && maskPattern < 8
      modifies this
      ensures Valid() && dataList == old(dataList) && typeNumber == old(typeNumber)
      ensures r.Ok? <==> Fits(dataList, typeNumber, Blocks(typeNumber))
      ensures r.Throws? ==> r.error == if AllLegal(dataList) then CodeLengthOverflow else IllegalChar
      ensures r.Ok? ==>
        && fresh(modules) && modules.Length0 == modules.Length1 == moduleCount == SideOf(typeNumber)
        && GridOf(modules) == Drawn(typeNumber, errorCorrectionLevel, maskPattern, test, standard.positions(typeNumber),
                                    DataMessage(dataList, typeNumber, Blocks(typeNumber)))
    {
      hide StreamBits, DataMessage, Fits, Mapped, GridOf, FunctionPatterns, Steps, Segment.Legal, TheStandard, RowOf,
        RowBlocks, ValidPositions, ValidBlocks;
      RowsAreReady(typeNumber, errorCorrectionLevel);
      moduleCount := typeNumber * 4 + 17;
      modules := NewMatrix(moduleCount);
      var m := modules;
      SetupPatterns(m, typeNumber, standard.positions(typeNumber), errorCorrectionLevel, maskPattern, test);
      if dataCache == None {
        var rs := GetRsBlocks(typeNumber, errorCorrectionLevel);
        var data :- CreateData(tables, typeNumber, rs.value, dataList);
        dataCache := Some(data);
      }
      MapData(m, dataCache.value, maskPattern);
      return Ok(());
    }

    /** The mask whose test drawing scores least, the first one on ties. */
    method GetBestMaskPattern(lostPoint: Grid -> real) returns (r: Result<nat>)
      requires Valid() && typeNumber >= 1
      modifies this
      ensures Valid() && dataList == old(dataList) && typeNumber == old(typeNumber)
      ensures r.Ok? <==> Fits(dataList, typeNumber, Blocks(typeNumber))
      ensures r.Throws? ==> r.error == if AllLegal(dataList) then CodeLengthOverflow else IllegalChar
      ensures r.Ok? ==> r.value < 8 && IsBestMask(lostPoint, standard, typeNumber, errorCorrectionLevel, dataList, r.value, 8)
    {
      hide StreamBits, DataMessage, Fits, Drawn, GridOf, Segment.Legal, TheStandard, ValidBlocks;
      ghost var version, segments := typeNumber, dataList;
      var minLostPoint: real := 0.0;
      var pattern := 0;
      for i := 0 to 8
        invariant Valid() && dataList == segments && typeNumber == version
        invariant i > 0 ==> Fits(segments, version, Blocks(version))
        invariant pattern < 8
        invariant i > 0 ==>
          && pattern < i
          && minLostPoint == Score(lostPoint, standard, version, errorCorrectionLevel, segments, pattern)
          && IsBestMask(lostPoint, standard, version, errorCorrectionLevel, segments, pattern, i)
      {
        var _ :- MakeImpl(true, i);
        var score := lostPoint(GridOf(modules));
        assert score == Score(lostPoint, standard, version, errorCorrectionLevel, segments, i);
        if i == 0 || minLostPoint > score {
          minLostPoint := score;
          pattern := i;
        }
      }
      return Ok(pattern);
    }

    /** Makes the symbol: the least version that fits when none was given, the best mask, and a
        drawing from which a reader of the standard recovers exactly the data added. */
    method Make(lostPoint: Grid -> real) returns (r: Result<()>)
      requires Valid()
      modifies this
      ensures Valid() && dataList == old(dataList)
      ensures old(typeNumber) >= 1 ==> typeNumber == old(typeNumber)
      ensures old(typeNumber) < 1 && AllLegal(dataList) ==>
        IsLeastVersion(dataList, typeNumber, Table())
      ensures r.Ok? ==> 1 <= typeNumber && Fits(dataList, typeNumber, Blocks(typeNumber))
      ensures r.Throws? && AllLegal(dataList) ==>
        1 <= typeNumber && !Fits(dataList, typeNumber, Blocks(typeNumber)) && r.error == CodeLengthOverflow
      ensures r.Throws? && !AllLegal(dataList) ==> r.error == IllegalChar
      ensures r.Ok? ==>
        && modules.Length0 == modules.Length1 == SideOf(typeNumber)
        && standard.Read(GridOf(modules)) == Some(dataList)
    {
      hide StreamBits, DataMessage, Drawn, GridOf, Segment.Legal, Standard.Read, TheStandard, Fits;
      if typeNumber < 1 {
        var version :- ChooseVersion(Table(), dataList);
        typeNumber := version;
      }
      var mask :- GetBestMaskPattern(lostPoint);
      r := MakeImpl(false, mask);
      if r.Ok? {
        EverySymbolReads(typeNumber, errorCorrectionLevel, mask, dataList);
      }
    }

    /** Throws outside the matrix. */
    method IsDark(row: int, col: int) returns (dark: Option<Module>)
      requires modules.Length0 == modules.Length1 == moduleCount
      ensures dark.Some? <==> 0 <= row < moduleCount && 0 <= col < moduleCount
      ensures dark.Some? ==> dark.value == At(GridOf(modules), row, col)
    {
      if row < 0 || moduleCount <= row || col < 0 || moduleCount <= col {
        return None;
      }
      return Some(modules[row, col]);
    }
  }
}
