/** The tables of alignment positions and of block structures, and the list of blocks read off them.
    Every row leaves fewer than eight of its version's open modules unused. */
module StandardTables {
  import opened Capacity
  import opened Codewords
  import opened Damage
  import opened DataStream
  import opened ModuleGrid
  import opened Patterns
  import opened Polynomial
  import opened Results
  import opened Room
  import opened Segments
  import opened Symbol

  // ---- alignment positions ----

  /** The rows of PATTERN_POSITION_TABLE; none before the first version and after the last. */
  function Positions(version: nat): seq<nat> {
    if version <= 20 then LowPositions(version) else HighPositions(version)
  }

  function LowPositions(version: nat): seq<nat> {
    match version
    case 1 => []
    case 2 => [6, 18]
    case 3 => [6, 22]
    case 4 => [6, 26]
    case 5 => [6, 30]
    case 6 => [6, 34]
    case 7 => [6, 22, 38]
    case 8 => [6, 24, 42]
    case 9 => [6, 26, 46]
    case 10 => [6, 28, 50]
    case 11 => [6, 30, 54]
    case 12 => [6, 32, 58]
    case 13 => [6, 34, 62]
    case 14 => [6, 26, 46, 66]
    case 15 => [6, 26, 48, 70]
    case 16 => [6, 26, 50, 74]
    case 17 => [6, 30, 54, 78]
    case 18 => [6, 30, 56, 82]
    case 19 => [6, 30, 58, 86]
    case 20 => [6, 34, 62, 90]
    case _ => []
  }

  function HighPositions(version: nat): seq<nat> {
    match version
    case 21 => [6, 28, 50, 72, 94]
    case 22 => [6, 26, 50, 74, 98]
    case 23 => [6, 30, 54, 78, 102]
    case 24 => [6, 28, 54, 80, 106]
    case 25 => [6, 32, 58, 84, 110]
    case 26 => [6, 30, 58, 86, 114]
    case 27 => [6, 34, 62, 90, 118]
    case 28 => [6, 26, 50, 74, 98, 122]
    case 29 => [6, 30, 54, 78, 102, 126]
    case 30 => [6, 26, 52, 78, 104, 130]
    case 31 => [6, 30, 56, 82, 108, 134]
    case 32 => [6, 34, 60, 86, 112, 138]
    case 33 => [6, 30, 58, 86, 114, 142]
    case 34 => [6, 34, 62, 90, 118, 146]
    case 35 => [6, 30, 54, 78, 102, 126, 150]
    case 36 => [6, 24, 50, 76, 102, 128, 154]
    case 37 => [6, 28, 54, 80, 106, 132, 158]
    case 38 => [6, 32, 58, 84, 110, 136, 162]
    case 39 => [6, 26, 54, 82, 110, 138, 166]
    case 40 => [6, 30, 58, 86, 114, 142, 170]
    case _ => []
  }

  function PositionCount(version: nat): nat {
    if version < 2 then 0 else version / 7 + 2
  }

  /** How far apart the rows and columns of alignment patterns are, but for the first two: the least even
      distance at which they reach from the last one back to the first, except in version 32. */
  predicate IsStep(version: nat, gaps: int, step: int) {
    if version == 32 then step == 26
    else step % 2 == 0 && gaps * (step - 2) < 4 * version + 4 <= gaps * step
  }

  /** The first position is 6, and the others lie at even distances up to the line of the far finders. */
  predicate EvenlySpaced(version: nat, pos: seq<nat>) {
    && |pos| == PositionCount(version)
    && (|pos| > 0 ==> version >= 2 && pos[0] == 6 && pos[|pos| - 1] == 4 * version + 10)
    && (|pos| > 2 ==> IsStep(version, |pos| - 1, pos[2] as int - pos[1] as int))
    && forall i :: 1 < i < |pos| ==> pos[i] + pos[1] == pos[i - 1] + pos[2]
  }

  /** So the table holds what this rule gives, and no pattern gets in the way of another. */
  lemma PositionsFit(version: nat)
    requires 1 <= version <= 40
    ensures TablePositions(Positions(version), SideOf(version)) && EvenlySpaced(version, Positions(version))
  {
    hide Positions, TablePositions, EvenlySpaced;
    PositionsSpaced(version);
    if version <= 10 {
      PositionsTo10(version);
    } else if version <= 20 {
      PositionsTo20(version);
    } else if version <= 25 {
      PositionsTo25(version);
    } else if version <= 30 {
      PositionsTo30(version);
    } else if version <= 34 {
      PositionsTo34(version);
    } else if version <= 37 {
      PositionsTo37(version);
    } else {
      PositionsTo40(version);
    }
  }

  lemma PositionsSpaced(version: nat)
    requires 1 <= version <= 40
    ensures EvenlySpaced(version, Positions(version))
  {
    hide Positions, EvenlySpaced;
    if version <= 10 {
      SpacedTo10(version);
    } else if version <= 15 {
      SpacedTo15(version);
    } else if version <= 20 {
      SpacedTo20(version);
    } else if version <= 25 {
      SpacedTo25(version);
    } else if version <= 30 {
      SpacedTo30(version);
    } else if version <= 35 {
      SpacedTo35(version);
    } else {
      SpacedTo40(version);
    }
  }

  lemma SpacedTo10(version: nat)
    requires 1 <= version <= 10
    ensures EvenlySpaced(version, Positions(version))
  {
  }

  lemma SpacedTo15(version: nat)
    requires 11 <= version <= 15
    ensures EvenlySpaced(version, Positions(version))
  {
  }

  lemma SpacedTo20(version: nat)
    requires 16 <= version <= 20
    ensures EvenlySpaced(version, Positions(version))
  {
  }

  lemma SpacedTo25(version: nat)
    requires 21 <= version <= 25
    ensures EvenlySpaced(version, Positions(version))
  {
  }

  lemma SpacedTo30(version: nat)
    requires 26 <= version <= 30
    ensures EvenlySpaced(version, Positions(version))
  {
  }

  lemma SpacedTo35(version: nat)
    requires 31 <= version <= 35
    ensures EvenlySpaced(version, Positions(version))
  {
  }

  lemma SpacedTo40(version: nat)
    requires 36 <= version <= 40
    ensures EvenlySpaced(version, Positions(version))
  {
  }

  lemma PositionsTo10(version: nat)
    requires 1 <= version <= 10
    ensures TablePositions(Positions(version), SideOf(version))
  {
  }

  lemma PositionsTo20(version: nat)
    requires 11 <= version <= 20
    ensures TablePositions(Positions(version), SideOf(version))
  {
  }

  lemma PositionsTo25(version: nat)
    requires 21 <= version <= 25
    ensures TablePositions(Positions(version), SideOf(version))
  {
  }

  lemma PositionsTo30(version: nat)
    requires 26 <= version <= 30
    ensures TablePositions(Positions(version), SideOf(version))
  {
  }

  lemma PositionsTo34(version: nat)
    requires 31 <= version <= 34
    ensures TablePositions(Positions(version), SideOf(version))
  {
  }

  lemma PositionsTo37(version: nat)
    requires 35 <= version <= 37
    ensures TablePositions(Positions(version), SideOf(version))
  {
  }

  lemma PositionsTo40(version: nat)
    requires 38 <= version <= 40
    ensures TablePositions(Positions(version), SideOf(version))
  {
  }

  // ---- block structures ----

  /** The rows of RS_BLOCK_TABLE, four for each version: one group of blocks or two, each with the number
      of its blocks, their codewords and their data codewords. */
  function BlockRow(i: int): Option<seq<nat>> {
    if i < 16 then RowsTo16(i)
    else if i < 32 then RowsTo32(i)
    else if i < 48 then RowsTo48(i)
    else if i < 64 then RowsTo64(i)
    else if i < 80 then RowsTo80(i)
    else if i < 96 then RowsTo96(i)
    else if i < 112 then RowsTo112(i)
    else if i < 128 then RowsTo128(i)
    else if i < 144 then RowsTo144(i)
    else if i < 160 then RowsTo160(i)
    else None
  }

  function RowsTo16(i: int): Option<seq<nat>> {
    match i
    case 0 => Some([1, 26, 19])
    case 1 => Some([1, 26, 16])
    case 2 => Some([1, 26, 13])
    case 3 => Some([1, 26, 9])
    case 4 => Some([1, 44, 34])
    case 5 => Some([1, 44, 28])
    case 6 => Some([1, 44, 22])
    case 7 => Some([1, 44, 16])
    case 8 => Some([1, 70, 55])
    case 9 => Some([1, 70, 44])
    case 10 => Some([2, 35, 17])
    case 11 => Some([2, 35, 13])
    case 12 => Some([1, 100, 80])
    case 13 => Some([2, 50, 32])
    case 14 => Some([2, 50, 24])
    case 15 => Some([4, 25, 9])
    case _ => None
  }

  function RowsTo32(i: int): Option<seq<nat>> {
    match i
    case 16 => Some([1, 134, 108])
    case 17 => Some([2, 67, 43])
    case 18 => Some([2, 33, 15, 2, 34, 16])
    case 19 => Some([2, 33, 11, 2, 34, 12])
    case 20 => Some([2, 86, 68])
    case 21 => Some([4, 43, 27])
    case 22 => Some([4, 43, 19])
    case 23 => Some([4, 43, 15])
    case 24 => Some([2, 98, 78])
    case 25 => Some([4, 49, 31])
    case 26 => Some([2, 32, 14, 4, 33, 15])
    case 27 => Some([4, 39, 13, 1, 40, 14])
    case 28 => Some([2, 121, 97])
    case 29 => Some([2, 60, 38, 2, 61, 39])
    case 30 => Some([4, 40, 18, 2, 41, 19])
    case 31 => Some([4, 40, 14, 2, 41, 15])
    case _ => None
  }

  function RowsTo48(i: int): Option<seq<nat>> {
    match i
    case 32 => Some([2, 146, 116])
    case 33 => Some([3, 58, 36, 2, 59, 37])
    case 34 => Some([4, 36, 16, 4, 37, 17])
    case 35 => Some([4, 36, 12, 4, 37, 13])
    case 36 => Some([2, 86, 68, 2, 87, 69])
    case 37 => Some([4, 69, 43, 1, 70, 44])
    case 38 => Some([6, 43, 19, 2, 44, 20])
    case 39 => Some([6, 43, 15, 2, 44, 16])
    case 40 => Some([4, 101, 81])
    case 41 => Some([1, 80, 50, 4, 81, 51])
    case 42 => Some([4, 50, 22, 4, 51, 23])
    case 43 => Some([3, 36, 12, 8, 37, 13])
    case 44 => Some([2, 116, 92, 2, 117, 93])
    case 45 => Some([6, 58, 36, 2, 59, 37])
    case 46 => Some([4, 46, 20, 6, 47, 21])
    case 47 => Some([7, 42, 14, 4, 43, 15])
    case _ => None
  }

  function RowsTo64(i: int): Option<seq<nat>> {
    match i
    case 48 => Some([4, 133, 107])
    case 49 => Some([8, 59, 37, 1, 60, 38])
    case 50 => Some([8, 44, 20, 4, 45, 21])
    case 51 => Some([12, 33, 11, 4, 34, 12])
    case 52 => Some([3, 145, 115, 1, 146, 116])
    case 53 => Some([4, 64, 40, 5, 65, 41])
    case 54 => Some([11, 36, 16, 5, 37, 17])
    case 55 => Some([11, 36, 12, 5, 37, 13])
    case 56 => Some([5, 109, 87, 1, 110, 88])
    case 57 => Some([5, 65, 41, 5, 66, 42])
    case 58 => Some([5, 54, 24, 7, 55, 25])
    case 59 => Some([11, 36, 12, 7, 37, 13])
    case 60 => Some([5, 122, 98, 1, 123, 99])
    case 61 => Some([7, 73, 45, 3, 74, 46])
    case 62 => Some([15, 43, 19, 2, 44, 20])
    case 63 => Some([3, 45, 15, 13, 46, 16])
    case _ => None
  }

  function RowsTo80(i: int): Option<seq<nat>> {
    match i
    case 64 => Some([1, 135, 107, 5, 136, 108])
    case 65 => Some([10, 74, 46, 1, 75, 47])
    case 66 => Some([1, 50, 22, 15, 51, 23])
    case 67 => Some([2, 42, 14, 17, 43, 15])
    case 68 => Some([5, 150, 120, 1, 151, 121])
    case 69 => Some([9, 69, 43, 4, 70, 44])
    case 70 => Some([17, 50, 22, 1, 51, 23])
    case 71 => Some([2, 42, 14, 19, 43, 15])
    case 72 => Some([3, 141, 113, 4, 142, 114])
    case 73 => Some([3, 70, 44, 11, 71, 45])
    case 74 => Some([17, 47, 21, 4, 48, 22])
    case 75 => Some([9, 39, 13, 16, 40, 14])
    case 76 => Some([3, 135, 107, 5, 136, 108])
    case 77 => Some([3, 67, 41, 13, 68, 42])
    case 78 => Some([15, 54, 24, 5, 55, 25])
    case 79 => Some([15, 43, 15, 10, 44, 16])
    case _ => None
  }

  function RowsTo96(i: int): Option<seq<nat>> {
    match i
    case 80 => Some([4, 144, 116, 4, 145, 117])
    case 81 => Some([17, 68, 42])
    case 82 => Some([17, 50, 22, 6, 51, 23])
    case 83 => Some([19, 46, 16, 6, 47, 17])
    case 84 => Some([2, 139, 111, 7, 140, 112])
    case 85 => Some([17, 74, 46])
    case 86 => Some([7, 54, 24, 16, 55, 25])
    case 87 => Some([34, 37, 13])
    case 88 => Some([4, 151, 121, 5, 152, 122])
    case 89 => Some([4, 75, 47, 14, 76, 48])
    case 90 => Some([11, 54, 24, 14, 55, 25])
    case 91 => Some([16, 45, 15, 14, 46, 16])
    case 92 => Some([6, 147, 117, 4, 148, 118])
    case 93 => Some([6, 73, 45, 14, 74, 46])
    case 94 => Some([11, 54, 24, 16, 55, 25])
    case 95 => Some([30, 46, 16, 2, 47, 17])
    case _ => None
  }

  function RowsTo112(i: int): Option<seq<nat>> {
    match i
    case 96 => Some([8, 132, 106, 4, 133, 107])
    case 97 => Some([8, 75, 47, 13, 76, 48])
    case 98 => Some([7, 54, 24, 22, 55, 25])
    case 99 => Some([22, 45, 15, 13, 46, 16])
    case 100 => Some([10, 142, 114, 2, 143, 115])
    case 101 => Some([19, 74, 46, 4, 75, 47])
    case 102 => Some([28, 50, 22, 6, 51, 23])
    case 103 => Some([33, 46, 16, 4, 47, 17])
    case 104 => Some([8, 152, 122, 4, 153, 123])
    case 105 => Some([22, 73, 45, 3, 74, 46])
    case 106 => Some([8, 53, 23, 26, 54, 24])
    case 107 => Some([12, 45, 15, 28, 46, 16])
    case 108 => Some([3, 147, 117, 10, 148, 118])
    case 109 => Some([3, 73, 45, 23, 74, 46])
    case 110 => Some([4, 54, 24, 31, 55, 25])
    case 111 => Some([11, 45, 15, 31, 46, 16])
    case _ => None
  }

  function RowsTo128(i: int): Option<seq<nat>> {
    match i
    case 112 => Some([7, 146, 116, 7, 147, 117])
    case 113 => Some([21, 73, 45, 7, 74, 46])
    case 114 => Some([1, 53, 23, 37, 54, 24])
    case 115 => Some([19, 45, 15, 26, 46, 16])
    case 116 => Some([5, 145, 115, 10, 146, 116])
    case 117 => Some([19, 75, 47, 10, 76, 48])
    case 118 => Some([15, 54, 24, 25, 55, 25])
    case 119 => Some([23, 45, 15, 25, 46, 16])
    case 120 => Some([13, 145, 115, 3, 146, 116])
    case 121 => Some([2, 74, 46, 29, 75, 47])
    case 122 => Some([42, 54, 24, 1, 55, 25])
    case 123 => Some([23, 45, 15, 28, 46, 16])
    case 124 => Some([17, 145, 115])
    case 125 => Some([10, 74, 46, 23, 75, 47])
    case 126 => Some([10, 54, 24, 35, 55, 25])
    case 127 => Some([19, 45, 15, 35, 46, 16])
    case _ => None
  }

  function RowsTo144(i: int): Option<seq<nat>> {
    match i
    case 128 => Some([17, 145, 115, 1, 146, 116])
    case 129 => Some([14, 74, 46, 21, 75, 47])
    case 130 => Some([29, 54, 24, 19, 55, 25])
    case 131 => Some([11, 45, 15, 46, 46, 16])
    case 132 => Some([13, 145, 115, 6, 146, 116])
    case 133 => Some([14, 74, 46, 23, 75, 47])
    case 134 => Some([44, 54, 24, 7, 55, 25])
    case 135 => Some([59, 46, 16, 1, 47, 17])
    case 136 => Some([12, 151, 121, 7, 152, 122])
    case 137 => Some([12, 75, 47, 26, 76, 48])
    case 138 => Some([39, 54, 24, 14, 55, 25])
    case 139 => Some([22, 45, 15, 41, 46, 16])
    case 140 => Some([6, 151, 121, 14, 152, 122])
    case 141 => Some([6, 75, 47, 34, 76, 48])
    case 142 => Some([46, 54, 24, 10, 55, 25])
    case 143 => Some([2, 45, 15, 64, 46, 16])
    case _ => None
  }

  function RowsTo160(i: int): Option<seq<nat>> {
    match i
    case 144 => Some([17, 152, 122, 4, 153, 123])
    case 145 => Some([29, 74, 46, 14, 75, 47])
    case 146 => Some([49, 54, 24, 10, 55, 25])
    case 147 => Some([24, 45, 15, 46, 46, 16])
    case 148 => Some([4, 152, 122, 18, 153, 123])
    case 149 => Some([13, 74, 46, 32, 75, 47])
    case 150 => Some([48, 54, 24, 14, 55, 25])
    case 151 => Some([42, 45, 15, 32, 46, 16])
    case 152 => Some([20, 147, 117, 4, 148, 118])
    case 153 => Some([40, 75, 47, 7, 76, 48])
    case 154 => Some([43, 54, 24, 22, 55, 25])
    case 155 => Some([10, 45, 15, 67, 46, 16])
    case 156 => Some([19, 148, 118, 6, 149, 119])
    case 157 => Some([18, 75, 47, 31, 76, 48])
    case 158 => Some([34, 54, 24, 34, 55, 25])
    case 159 => Some([20, 45, 15, 61, 46, 16])
    case _ => None
  }

  /** How many codewords each version has. */
  function CodewordCount(version: nat): nat {
    match version
    case 1 => 26
    case 2 => 44
    case 3 => 70
    case 4 => 100
    case 5 => 134
    case 6 => 172
    case 7 => 196
    case 8 => 242
    case 9 => 292
    case 10 => 346
    case 11 => 404
    case 12 => 466
    case 13 => 532
    case 14 => 581
    case 15 => 655
    case 16 => 733
    case 17 => 815
    case 18 => 901
    case 19 => 991
    case 20 => 1085
    case 21 => 1156
    case 22 => 1258
    case 23 => 1364
    case 24 => 1474
    case 25 => 1588
    case 26 => 1706
    case 27 => 1828
    case 28 => 1921
    case 29 => 2051
    case 30 => 2185
    case 31 => 2323
    case 32 => 2465
    case 33 => 2611
    case 34 => 2761
    case 35 => 2876
    case 36 => 3034
    case 37 => 3196
    case 38 => 3362
    case 39 => 3532
    case 40 => 3706
    case _ => 0
  }

  lemma CodewordsTo10(version: nat)
    requires 1 <= version <= 10
    ensures 8 * CodewordCount(version) <= OpenModules(version, PositionCount(version)) < 8 * CodewordCount(version) + 8
  {
  }

  lemma CodewordsTo20(version: nat)
    requires 11 <= version <= 20
    ensures 8 * CodewordCount(version) <= OpenModules(version, PositionCount(version)) < 8 * CodewordCount(version) + 8
  {
  }

  lemma CodewordsTo30(version: nat)
    requires 21 <= version <= 30
    ensures 8 * CodewordCount(version) <= OpenModules(version, PositionCount(version)) < 8 * CodewordCount(version) + 8
  {
  }

  lemma CodewordsTo40(version: nat)
    requires 31 <= version <= 40
    ensures 8 * CodewordCount(version) <= OpenModules(version, PositionCount(version)) < 8 * CodewordCount(version) + 8
  {
  }

  /** The error correction codewords of each block, by version, for the levels L, M, Q and H. */
  function EcOf(version: nat, column: nat): nat {
    match column
    case 0 => EcOfL(version)
    case 1 => EcOfM(version)
    case 2 => EcOfQ(version)
    case _ => EcOfH(version)
  }

  function EcOfL(version: nat): nat {
    match version
    case 1 => 7
    case 2 => 10
    case 3 => 15
    case 4 => 20
    case 5 => 26
    case 6 => 18
    case 7 => 20
    case 8 => 24
    case 9 => 30
    case 10 => 18
    case 11 => 20
    case 12 => 24
    case 13 => 26
    case 14 => 30
    case 15 => 22
    case 16 => 24
    case 17 => 28
    case 18 => 30
    case 19 => 28
    case 20 => 28
    case 21 => 28
    case 22 => 28
    case 23 => 30
    case 24 => 30
    case 25 => 26
    case 26 => 28
    case 27 => 30
    case 28 => 30
    case 29 => 30
    case 30 => 30
    case 31 => 30
    case 32 => 30
    case 33 => 30
    case 34 => 30
    case 35 => 30
    case 36 => 30
    case 37 => 30
    case 38 => 30
    case 39 => 30
    case 40 => 30
    case _ => 0
  }

  function EcOfM(version: nat): nat {
    match version
    case 1 => 10
    case 2 => 16
    case 3 => 26
    case 4 => 18
    case 5 => 24
    case 6 => 16
    case 7 => 18
    case 8 => 22
    case 9 => 22
    case 10 => 26
    case 11 => 30
    case 12 => 22
    case 13 => 22
    case 14 => 24
    case 15 => 24
    case 16 => 28
    case 17 => 28
    case 18 => 26
    case 19 => 26
    case 20 => 26
    case 21 => 26
    case 22 => 28
    case 23 => 28
    case 24 => 28
    case 25 => 28
    case 26 => 28
    case 27 => 28
    case 28 => 28
    case 29 => 28
    case 30 => 28
    case 31 => 28
    case 32 => 28
    case 33 => 28
    case 34 => 28
    case 35 => 28
    case 36 => 28
    case 37 => 28
    case 38 => 28
    case 39 => 28
    case 40 => 28
    case _ => 0
  }

  function EcOfQ(version: nat): nat {
    match version
    case 1 => 13
    case 2 => 22
    case 3 => 18
    case 4 => 26
    case 5 => 18
    case 6 => 24
    case 7 => 18
    case 8 => 22
    case 9 => 20
    case 10 => 24
    case 11 => 28
    case 12 => 26
    case 13 => 24
    case 14 => 20
    case 15 => 30
    case 16 => 24
    case 17 => 28
    case 18 => 28
    case 19 => 26
    case 20 => 30
    case 21 => 28
    case 22 => 30
    case 23 => 30
    case 24 => 30
    case 25 => 30
    case 26 => 28
    case 27 => 30
    case 28 => 30
    case 29 => 30
    case 30 => 30
    case 31 => 30
    case 32 => 30
    case 33 => 30
    case 34 => 30
    case 35 => 30
    case 36 => 30
    case 37 => 30
    case 38 => 30
    case 39 => 30
    case 40 => 30
    case _ => 0
  }

  function EcOfH(version: nat): nat {
    match version
    case 1 => 17
    case 2 => 28
    case 3 => 22
    case 4 => 16
    case 5 => 22
    case 6 => 28
    case 7 => 26
    case 8 => 26
    case 9 => 24
    case 10 => 28
    case 11 => 24
    case 12 => 28
    case 13 => 22
    case 14 => 24
    case 15 => 24
    case 16 => 30
    case 17 => 28
    case 18 => 28
    case 19 => 26
    case 20 => 28
    case 21 => 30
    case 22 => 24
    case 23 => 30
    case 24 => 30
    case 25 => 30
    case 26 => 30
    case 27 => 30
    case 28 => 30
    case 29 => 30
    case 30 => 30
    case 31 => 30
    case 32 => 30
    case 33 => 30
    case 34 => 30
    case 35 => 30
    case 36 => 30
    case 37 => 30
    case 38 => 30
    case 39 => 30
    case 40 => 30
    case _ => 0
  }

  /** A row agrees with its version and level: every block has as many error correction codewords as the
      level asks for, those of a second group are one codeword longer than the first ones, all together
      make up the version, and the data stays below what the count fields can tell. */
  predicate RowFits(version: nat, column: nat, row: seq<nat>) {
    Agrees(row, EcOf(version, column), CodewordCount(version), MaxDataCount(version))
  }

  predicate Agrees(row: seq<nat>, ec: nat, codes: nat, most: nat) {
    && (|row| == 3 || |row| == 6)
    && row[1] == row[2] + ec && ec <= 30 && row[1] <= 254
    && (|row| == 6 ==> row[4] == row[1] + 1 && row[5] == row[2] + 1)
    && row[0] * row[2] + (if |row| == 6 then row[3] * row[5] else 0) <= most
    && row[0] * row[1] + (if |row| == 6 then row[3] * row[4] else 0) == codes
  }

  lemma FitTo8(i: nat)
    requires 0 <= i < 8
    ensures RowsTo16(i).Some? && RowFits(1 + i / 4, i % 4, RowsTo16(i).value)
  {
  }

  lemma FitTo16(i: nat)
    requires 8 <= i < 16
    ensures RowsTo16(i).Some? && RowFits(1 + i / 4, i % 4, RowsTo16(i).value)
  {
  }

  lemma FitTo24(i: nat)
    requires 16 <= i < 24
    ensures RowsTo32(i).Some? && RowFits(1 + i / 4, i % 4, RowsTo32(i).value)
  {
  }

  lemma FitTo32(i: nat)
    requires 24 <= i < 32
    ensures RowsTo32(i).Some? && RowFits(1 + i / 4, i % 4, RowsTo32(i).value)
  {
  }

  lemma FitTo40(i: nat)
    requires 32 <= i < 40
    ensures RowsTo48(i).Some? && RowFits(1 + i / 4, i % 4, RowsTo48(i).value)
  {
  }

  lemma FitTo48(i: nat)
    requires 40 <= i < 48
    ensures RowsTo48(i).Some? && RowFits(1 + i / 4, i % 4, RowsTo48(i).value)
  {
  }

  lemma FitTo56(i: nat)
    requires 48 <= i < 56
    ensures RowsTo64(i).Some? && RowFits(1 + i / 4, i % 4, RowsTo64(i).value)
  {
  }

  lemma FitTo64(i: nat)
    requires 56 <= i < 64
    ensures RowsTo64(i).Some? && RowFits(1 + i / 4, i % 4, RowsTo64(i).value)
  {
  }

  lemma FitTo72(i: nat)
    requires 64 <= i < 72
    ensures RowsTo80(i).Some? && RowFits(1 + i / 4, i % 4, RowsTo80(i).value)
  {
  }

  lemma FitTo80(i: nat)
    requires 72 <= i < 80
    ensures RowsTo80(i).Some? && RowFits(1 + i / 4, i % 4, RowsTo80(i).value)
  {
  }

  lemma FitTo88(i: nat)
    requires 80 <= i < 88
    ensures RowsTo96(i).Some? && RowFits(1 + i / 4, i % 4, RowsTo96(i).value)
  {
  }

  lemma FitTo96(i: nat)
    requires 88 <= i < 96
    ensures RowsTo96(i).Some? && RowFits(1 + i / 4, i % 4, RowsTo96(i).value)
  {
  }

  lemma FitTo104(i: nat)
    requires 96 <= i < 104
    ensures RowsTo112(i).Some? && RowFits(1 + i / 4, i % 4, RowsTo112(i).value)
  {
  }

  lemma FitTo112(i: nat)
    requires 104 <= i < 112
    ensures RowsTo112(i).Some? && RowFits(1 + i / 4, i % 4, RowsTo112(i).value)
  {
  }

  lemma FitTo120(i: nat)
    requires 112 <= i < 120
    ensures RowsTo128(i).Some? && RowFits(1 + i / 4, i % 4, RowsTo128(i).value)
  {
  }

  lemma FitTo128(i: nat)
    requires 120 <= i < 128
    ensures RowsTo128(i).Some? && RowFits(1 + i / 4, i % 4, RowsTo128(i).value)
  {
  }

  lemma FitTo136(i: nat)
    requires 128 <= i < 136
    ensures RowsTo144(i).Some? && RowFits(1 + i / 4, i % 4, RowsTo144(i).value)
  {
  }

  lemma FitTo144(i: nat)
    requires 136 <= i < 144
    ensures RowsTo144(i).Some? && RowFits(1 + i / 4, i % 4, RowsTo144(i).value)
  {
  }

  lemma FitTo152(i: nat)
    requires 144 <= i < 152
    ensures RowsTo160(i).Some? && RowFits(1 + i / 4, i % 4, RowsTo160(i).value)
  {
  }

  lemma FitTo160(i: nat)
    requires 152 <= i < 160
    ensures RowsTo160(i).Some? && RowFits(1 + i / 4, i % 4, RowsTo160(i).value)
  {
  }

  // ---- every row at once ----

  /** The row of a version and a level (L is 1, M is 0, Q is 3, H is 2), if there is one. */
  function RowOf(version: int, level: nat): Option<seq<nat>> {
    match level
    case 1 => BlockRow((version - 1) * 4)
    case 0 => BlockRow((version - 1) * 4 + 1)
    case 3 => BlockRow((version - 1) * 4 + 2)
    case 2 => BlockRow((version - 1) * 4 + 3)
    case _ => None
  }

  lemma RowFit(i: nat)
    requires i < 160
    ensures BlockRow(i).Some? && RowFits(1 + i / 4, i % 4, BlockRow(i).value)
  {
    hide RowsTo16, RowsTo32, RowsTo48, RowsTo64, RowsTo80, RowsTo96, RowsTo112, RowsTo128, RowsTo144, RowsTo160,
      RowFits;
    if i < 80 {
      LowRowFit(i);
    } else {
      HighRowFit(i);
    }
  }

  lemma LowRowFit(i: nat)
    requires 0 <= i < 80
    ensures BlockRow(i).Some? && RowFits(1 + i / 4, i % 4, BlockRow(i).value)
  {
    hide RowsTo16, RowsTo32, RowsTo48, RowsTo64, RowsTo80, RowsTo96, RowsTo112, RowsTo128, RowsTo144, RowsTo160,
      RowFits;
    if i < 8 {
      FitTo8(i);
    } else if i < 16 {
      FitTo16(i);
    } else if i < 24 {
      FitTo24(i);
    } else if i < 32 {
      FitTo32(i);
    } else if i < 40 {
      FitTo40(i);
    } else if i < 48 {
      FitTo48(i);
    } else if i < 56 {
      FitTo56(i);
    } else if i < 64 {
      FitTo64(i);
    } else if i < 72 {
      FitTo72(i);
    } else {
      FitTo80(i);
    }
  }

  lemma HighRowFit(i: nat)
    requires 80 <= i < 160
    ensures BlockRow(i).Some? && RowFits(1 + i / 4, i % 4, BlockRow(i).value)
  {
    hide RowsTo16, RowsTo32, RowsTo48, RowsTo64, RowsTo80, RowsTo96, RowsTo112, RowsTo128, RowsTo144, RowsTo160,
      RowFits;
    if i < 88 {
      FitTo88(i);
    } else if i < 96 {
      FitTo96(i);
    } else if i < 104 {
      FitTo104(i);
    } else if i < 112 {
      FitTo112(i);
    } else if i < 120 {
      FitTo120(i);
    } else if i < 128 {
      FitTo128(i);
    } else if i < 136 {
      FitTo136(i);
    } else if i < 144 {
      FitTo144(i);
    } else if i < 152 {
      FitTo152(i);
    } else {
      FitTo160(i);
    }
  }

  /** The levels L, M, Q and H are numbered 1, 0, 3 and 2. */
  function Column(level: nat): nat
    requires level < 4
  {
    [1, 0, 3, 2][level]
  }

  lemma RowOfFits(version: nat, level: nat)
    requires 1 <= version <= 40 && level < 4
    ensures RowOf(version, level).Some? && RowFits(version, Column(level), RowOf(version, level).value)
  {
    hide BlockRow, RowFits;
    var i := (version - 1) * 4 + Column(level);
    assert 1 + i / 4 == version && i % 4 == Column(level);
    RowFit(i);
  }

  /** The blocks of the first k groups of a row. */
  function GroupBlocks(row: seq<nat>, k: nat): seq<RsBlock>
    requires 3 * k <= |row|
  {
    if k == 0 then []
    else GroupBlocks(row, k - 1) + Repeated(row[3 * k - 3], row[3 * k - 2], row[3 * k - 1])
  }

  function RowBlocks(row: seq<nat>): seq<RsBlock> {
    GroupBlocks(row, |row| / 3)
  }

  /** The list of blocks; throws where the table has no row. */
  method GetRsBlocks(version: int, level: nat) returns (r: Result<seq<RsBlock>>)
    ensures match RowOf(version, level)
            case Some(row) => r == Ok(RowBlocks(row))
            case None => r == Throws(BadBlocks)
  {
    hide BlockRow;
    var rsBlock := RowOf(version, level);
    if rsBlock == None {
      return Throws(BadBlocks);
    }
    var row := rsBlock.value;
    var list: seq<RsBlock> := [];
    for i := 0 to |row| / 3
      invariant list == GroupBlocks(row, i)
    {
      var count, totalCount, dataCount := row[i * 3], row[i * 3 + 1], row[i * 3 + 2];
      ghost var before := list;
      for j := 0 to count
        invariant list == before + Repeated(j, totalCount, dataCount)
      {
        list := list + [RsBlock(totalCount, dataCount)];
      }
    }
    return Ok(list);
  }

  /** What every block of a version and level is like; longer ones come after shorter ones. */
  ghost predicate BlocksAgree(rs: seq<RsBlock>, version: nat, level: nat)
    requires level < 4
  {
    && ValidBlocks(rs) && ShortBlocks(rs)
    && (forall r :: 0 <= r < |rs| ==> rs[r].EcCount() == EcOf(version, Column(level)))
    && forall r, q :: 0 <= r < q < |rs| ==> rs[r].dataCount <= rs[q].dataCount <= rs[r].dataCount + 1
  }

  lemma RowTotals(version: nat, level: nat, row: seq<nat>)
    requires level < 4 && RowFits(version, Column(level), row)
    ensures var rs := RowBlocks(row);
            && BlocksAgree(rs, version, level)
            && TotalCodes(rs) == CodewordCount(version) && TotalData(rs) <= MaxDataCount(version)
  {
    hide CodewordCount, MaxDataCount, TotalCodes, TotalData, EcOf, Column, Repeated, RowBlocks, BlocksAgree;
    NoBlocks();
    RowMade(row);
    RowAgrees(version, level, row);
    var first := Repeated(row[0], row[1], row[2]);
    BlockTotals([], row[0], row[1], row[2]);
    assert [] + first == first == first + [];
    if |row| == 6 {
      BlockTotals(first, row[3], row[4], row[5]);
    }
  }

  lemma RowMade(row: seq<nat>)
    requires |row| == 3 || |row| == 6
    ensures RowBlocks(row) == Repeated(row[0], row[1], row[2]) + if |row| == 6 then Repeated(row[3], row[4], row[5]) else []
  {
    hide Repeated;
    var first := Repeated(row[0], row[1], row[2]);
    assert GroupBlocks(row, 1) == first by { assert [] + first == first; }
    if |row| == 6 {
      assert GroupBlocks(row, 2) == first + Repeated(row[3], row[4], row[5]);
    } else {
      assert first + [] == first;
    }
  }

  lemma RowAgrees(version: nat, level: nat, row: seq<nat>)
    requires level < 4 && RowFits(version, Column(level), row)
    ensures BlocksAgree(RowBlocks(row), version, level)
  {
    hide CodewordCount, MaxDataCount, EcOf, Column, RowBlocks;
    RowMade(row);
  }

  /** What the two tables say, to the generator and to a reader. */
  function TheStandard(): Standard {
    Standard((version: nat, level: nat) => (match RowOf(version, level) case Some(row) => RowBlocks(row) case None => []),
             (version: nat) => Positions(version))
  }

  /** Every version and level of the tables can be read back, and leaves fewer than eight modules unused. */
  lemma AllSupported(version: nat, level: nat)
    requires 1 <= version <= 40 && level < 4
    ensures var s := TheStandard();
            && s.Supports(version, level) && BlocksAgree(s.blocks(version, level), version, level)
            && TablePositions(s.positions(version), SideOf(version))
            && TotalCodes(s.blocks(version, level)) == CodewordCount(version)
            && 8 * CodewordCount(version) <= s.FreeModules(version) < 8 * CodewordCount(version) + 8
  {
    hide RowOf, RowFits, RowBlocks, Positions, TablePositions, CodewordCount, OpenModules, ValidBlocks, ShortBlocks,
      TotalCodes, TotalData, FunctionPatterns, Standard.Supports, Standard.FreeModules, PositionCount, EcOf, Column;
    var s := TheStandard();
    RowOfFits(version, level);
    var row := RowOf(version, level).value;
    RowTotals(version, level, row);
    PositionsFit(version);
    CodewordsFit(version);
    assert s.blocks(version, level) == RowBlocks(row) && s.positions(version) == Positions(version);
    SupportsWhen(s, version, level);
    FreeModulesAre(s, version);
  }

  lemma CodewordsFit(version: nat)
    requires 1 <= version <= 40
    ensures 8 * CodewordCount(version) <= OpenModules(version, PositionCount(version)) < 8 * CodewordCount(version) + 8
  {
    hide CodewordCount, OpenModules, PositionCount;
    if version <= 10 {
      CodewordsTo10(version);
    } else if version <= 20 {
      CodewordsTo20(version);
    } else if version <= 30 {
      CodewordsTo30(version);
    } else {
      CodewordsTo40(version);
    }
  }

  /** What the generator needs of a row. */
  lemma RowsAreReady(version: nat, level: nat)
    requires 1 <= version <= 40 && level < 4
    ensures var s := TheStandard();
            && ValidBlocks(s.blocks(version, level))
            && ValidPositions(s.positions(version), SideOf(version))
            && RowOf(version, level).Some? && s.blocks(version, level) == RowBlocks(RowOf(version, level).value)
  {
    hide RowOf, RowFits, RowBlocks, Positions, CodewordCount, ValidBlocks, ShortBlocks, TotalCodes, TotalData,
      PositionCount, EcOf, Column;
    RowOfFits(version, level);
    RowTotals(version, level, RowOf(version, level).value);
    PositionsFit(version);
    TableIsValid(Positions(version), SideOf(version));
    assert TheStandard().positions(version) == Positions(version);
  }

  lemma TableIsValid(pos: seq<nat>, n: nat)
    requires TablePositions(pos, n) && n >= 21
    ensures ValidPositions(pos, n)
  {
    forall i | 0 <= i < |pos| ensures 2 <= pos[i] && pos[i] + 2 < n {
    }
  }

  // ---- what this means for symbols ----

  /** From every symbol, of any version, level and mask, a reader recovers exactly the segments. */
  lemma EverySymbolReads(version: nat, level: nat, mask: nat, segments: seq<Segment>)
    requires 1 <= version <= 40 && level < 4 && mask < 8
    requires Fits(segments, version, TheStandard().blocks(version, level))
    ensures var s := TheStandard();
            && ValidBlocks(s.blocks(version, level))
            && s.Read(Drawn(version, level, mask, false, s.positions(version),
                            DataMessage(segments, version, s.blocks(version, level)))) == Some(segments)
  {
    hide Fits, TheStandard, Standard.Read, Drawn, DataMessage, ShortBlocks, TablePositions, CodewordCount,
      Standard.FreeModules, TotalCodes, EcOf, Column;
    AllSupported(version, level);
    SymbolReadBack(TheStandard(), version, level, mask, segments);
  }

  /** It does so from every damaged symbol with at most three format modules wrong, and in each block at
      most half as many codewords as there are for error correction. */
  lemma EveryDamagedSymbolReads(version: nat, level: nat, mask: nat, segments: seq<Segment>, g: Grid, codes: Poly)
    requires 1 <= version <= 40 && level < 4 && mask < 8 && IsSquare(g, SideOf(version))
    requires Fits(segments, version, TheStandard().blocks(version, level))
    requires var s := TheStandard();
             var rs := s.blocks(version, level);
             && ValidBlocks(rs)
             && var message := DataMessage(segments, version, rs);
                && |message| == TotalCodes(rs) == |codes|
                && Codes(s, g, version, mask, TotalCodes(rs)) == Some(codes) && FewWrong(codes, message, rs)
                && Wrong(g, Drawn(version, level, mask, false, s.positions(version), message),
                         FormatCells(SideOf(version), false), 15) <= 3
    ensures ReadDamaged(TheStandard(), g) == Some(segments)
  {
    hide Fits, TheStandard, ReadDamaged, Drawn, DataMessage, TablePositions, CodewordCount, Standard.FreeModules,
      TotalCodes, EcOf, Column, Codes, FewWrong, Wrong, FormatCells, ShortBlocks;
    AllSupported(version, level);
    DamagedReadBack(TheStandard(), version, level, mask, segments, g, codes);
  }

}
