/** The module matrix and its function patterns: finder, alignment and timing patterns, format and
    version information (section 6.3 of ISO/IEC 18004:2015). */
module ModuleGrid {
  import opened Bits
  import opened Results
  import Bch

  /** null until set, then dark or light */
  type Module = Option<bool>

  /** What the matrix holds: rows of modules. */
  type Grid = seq<seq<Module>>

  type Cell = (nat, nat)

  predicate IsSquare(g: Grid, n: nat) {
    |g| == n && forall r :: 0 <= r < n ==> |g[r]| == n
  }

  /** Row r, column c; null outside. */
  function At(g: Grid, r: int, c: int): Module {
    if 0 <= r < |g| && 0 <= c < |g[r]| then g[r][c] else None
  }

  lemma SameGrid(g: Grid, h: Grid, n: nat)
    requires IsSquare(g, n) && IsSquare(h, n)
    requires forall r, c :: 0 <= r < n && 0 <= c < n ==> At(g, r, c) == At(h, r, c)
    ensures g == h
  {
    forall r | 0 <= r < n ensures g[r] == h[r] {
      forall c | 0 <= c < n ensures g[r][c] == h[r][c] {
        assert At(g, r, c) == At(h, r, c);
      }
    }
  }

  function Set(g: Grid, r: nat, c: nat, dark: bool): (h: Grid)
    requires r < |g| && c < |g[r]|
  {
    g[r := g[r][c := Some(dark)]]
  }

  lemma SetAt(g: Grid, n: nat, r: nat, c: nat, dark: bool)
    requires IsSquare(g, n) && r < n && c < n
    ensures IsSquare(Set(g, r, c, dark), n)
    ensures forall i, j :: At(Set(g, r, c, dark), i, j) == if i == r && j == c then Some(dark) else At(g, i, j)
  {
  }

  /** Cells written one after the other. */
  function Write(g: Grid, n: nat, cells: seq<Cell>, values: seq<bool>): (h: Grid)
    requires IsSquare(g, n) && |cells| == |values|
    requires forall i :: 0 <= i < |cells| ==> cells[i].0 < n && cells[i].1 < n
    ensures IsSquare(h, n)
    decreases |cells|
  {
    if |cells| == 0 then g
    else
      var m := |cells| - 1;
      SetAt(Write(g, n, cells[..m], values[..m]), n, cells[m].0, cells[m].1, values[m]);
      Set(Write(g, n, cells[..m], values[..m]), cells[m].0, cells[m].1, values[m])
  }

  lemma {:induction false} WriteOutside(g: Grid, n: nat, cells: seq<Cell>, values: seq<bool>, r: nat, c: nat)
    requires IsSquare(g, n) && |cells| == |values|
    requires forall i :: 0 <= i < |cells| ==> cells[i].0 < n && cells[i].1 < n
    requires (r, c) !in cells
    ensures At(Write(g, n, cells, values), r, c) == At(g, r, c)
    decreases |cells|
  {
    if |cells| != 0 {
      var m := |cells| - 1;
      WriteOutside(g, n, cells[..m], values[..m], r, c);
      SetAt(Write(g, n, cells[..m], values[..m]), n, cells[m].0, cells[m].1, values[m]);
    }
  }

  /** A cell that is written once keeps its value. */
  lemma {:induction false} WriteInside(g: Grid, n: nat, cells: seq<Cell>, values: seq<bool>, k: nat)
    requires IsSquare(g, n) && |cells| == |values| && k < |cells|
    requires forall i :: 0 <= i < |cells| ==> cells[i].0 < n && cells[i].1 < n
    requires forall i :: k < i < |cells| ==> cells[i] != cells[k]
    ensures At(Write(g, n, cells, values), cells[k].0, cells[k].1) == Some(values[k])
    decreases |cells|
  {
    var m := |cells| - 1;
    SetAt(Write(g, n, cells[..m], values[..m]), n, cells[m].0, cells[m].1, values[m]);
    if k < m {
      WriteInside(g, n, cells[..m], values[..m], k);
    }
  }

  /** Which cells are filled after writing does not depend on the values. */
  lemma {:induction false} WriteFills(g: Grid, n: nat, cells: seq<Cell>, values: seq<bool>, r: nat, c: nat)
    requires IsSquare(g, n) && |cells| == |values|
    requires forall i :: 0 <= i < |cells| ==> cells[i].0 < n && cells[i].1 < n
    ensures At(Write(g, n, cells, values), r, c).Some? <==> At(g, r, c).Some? || (r, c) in cells
    decreases |cells|
  {
    if |cells| != 0 {
      var m := |cells| - 1;
      WriteFills(g, n, cells[..m], values[..m], r, c);
      SetAt(Write(g, n, cells[..m], values[..m]), n, cells[m].0, cells[m].1, values[m]);
      assert cells == cells[..m] + [cells[m]];
    }
  }

  // ---- patterns ----

  function Blank(n: nat): (g: Grid)
    ensures IsSquare(g, n)
    ensures forall r, c :: At(g, r, c) == None
  {
    seq(n, _ => seq(n, _ => None))
  }

  /** Rings of the finder pattern; r and c run from -1 to 7 with the light separator. */
  predicate ProbeDark(r: int, c: int) {
    || (0 <= r <= 6 && (c == 0 || c == 6))
    || (0 <= c <= 6 && (r == 0 || r == 6))
    || (2 <= r <= 4 && 2 <= c <= 4)
  }

  predicate InProbe(row: int, col: int, r: int, c: int) {
    -1 <= r - row <= 7 && -1 <= c - col <= 7
  }

  function Probe(g: Grid, n: nat, row: int, col: int): (h: Grid)
    requires IsSquare(g, n)
    ensures IsSquare(h, n)
    ensures forall r, c :: 0 <= r < n && 0 <= c < n ==>
      At(h, r, c) == if InProbe(row, col, r, c) then Some(ProbeDark(r - row, c - col)) else At(g, r, c)
  {
    seq(n, r requires 0 <= r < n => seq(n, c requires 0 <= c < n =>
      if InProbe(row, col, r, c) then Some(ProbeDark(r - row, c - col)) else g[r][c]))
  }

  predicate AlignmentDark(r: int, c: int) {
    r == -2 || r == 2 || c == -2 || c == 2 || (r == 0 && c == 0)
  }

  function Alignment(g: Grid, n: nat, row: int, col: int): (h: Grid)
    requires IsSquare(g, n)
    ensures IsSquare(h, n)
    ensures forall r, c :: 0 <= r < n && 0 <= c < n ==>
      At(h, r, c) == if -2 <= r - row <= 2 && -2 <= c - col <= 2 then Some(AlignmentDark(r - row, c - col))
                     else At(g, r, c)
  {
    seq(n, r requires 0 <= r < n => seq(n, c requires 0 <= c < n =>
      if -2 <= r - row <= 2 && -2 <= c - col <= 2 then Some(AlignmentDark(r - row, c - col)) else g[r][c]))
  }

  /** Alignment pattern positions keep the pattern inside the matrix. */
  predicate ValidPositions(pos: seq<nat>, n: nat) {
    forall i :: 0 <= i < |pos| ==> 2 <= pos[i] && pos[i] + 2 < n
  }

  /** The k-th pair of positions, row by row. */
  function PairAt(pos: seq<nat>, k: nat): (p: (nat, nat))
    requires k < |pos| * |pos|
    ensures p.0 in pos && p.1 in pos
  {
    PairInRange(k, |pos|);
    (pos[k / |pos|], pos[k % |pos|])
  }

  /** The first k of all pairs of positions, row by row; a pair whose centre is taken is skipped. */
  function Alignments(g: Grid, n: nat, pos: seq<nat>, k: nat): (h: Grid)
    requires IsSquare(g, n)
    requires k <= |pos| * |pos|
    ensures IsSquare(h, n)
  {
    if k == 0 then g
    else
      var h := Alignments(g, n, pos, k - 1);
      var (row, col) := PairAt(pos, k - 1);
      if At(h, row, col) != None then h else Alignment(h, n, row, col)
  }

  lemma NextPair(g: Grid, n: nat, pos: seq<nat>, k: nat)
    requires IsSquare(g, n) && k < |pos| * |pos|
    ensures var h := Alignments(g, n, pos, k);
            var (row, col) := PairAt(pos, k);
            Alignments(g, n, pos, k + 1) == if At(h, row, col) != None then h else Alignment(h, n, row, col)
  {
    hide Alignment, At, PairAt;
  }

  lemma PairInRange(k: nat, m: nat)
    requires k < m * m
    ensures m > 0 && k / m < m
  {
    var q := k / m;
    assert q * m <= k < m * m;
    Factors(q, m);
  }

  lemma Factors(q: nat, m: nat)
    requires q * m < m * m
    ensures q < m
  {
    assert q * m - m * m == (q - m) * m;
  }

  function Timing(g: Grid, n: nat): (h: Grid)
    requires IsSquare(g, n)
    ensures IsSquare(h, n)
    ensures forall r, c :: 0 <= r < n && 0 <= c < n ==>
      At(h, r, c) ==
        if At(g, r, c) == None && c == 6 && 8 <= r < n - 8 then Some(r % 2 == 0)
        else if At(g, r, c) == None && r == 6 && 8 <= c < n - 8 then Some(c % 2 == 0)
        else At(g, r, c)
  {
    seq(n, r requires 0 <= r < n => seq(n, c requires 0 <= c < n =>
      if g[r][c] == None && c == 6 && 8 <= r < n - 8 then Some(r % 2 == 0)
      else if g[r][c] == None && r == 6 && 8 <= c < n - 8 then Some(c % 2 == 0)
      else g[r][c]))
  }

  // ---- format and version information ----

  function VerticalCell(n: nat, i: nat): Cell
    requires n >= 21 && i < 15
  {
    if i < 6 then (i, 8) else if i < 8 then (i + 1, 8) else (n - 15 + i, 8)
  }

  function HorizontalCell(n: nat, i: nat): Cell
    requires n >= 21 && i < 15
  {
    if i < 8 then (8, n - i - 1) else if i < 9 then (8, 15 - i - 1 + 1) else (8, 15 - i - 1)
  }

  function InfoBit(bits: nat, i: nat, test: bool): bool {
    !test && bits / Pow2(i) % 2 == 1
  }

  /** Both copies of the format information, and the fixed module. */
  function TypeInfoCells(n: nat): (cells: seq<Cell>)
    requires n >= 21
    ensures |cells| == 31
  {
    seq(15, i requires 0 <= i < 15 => VerticalCell(n, i))
    + seq(15, i requires 0 <= i < 15 => HorizontalCell(n, i))
    + [(n - 8, 8)]
  }

  function TypeInfoValues(bits: nat, test: bool): (values: seq<bool>)
    ensures |values| == 31
  {
    seq(15, i requires 0 <= i < 15 => InfoBit(bits, i, test))
    + seq(15, i requires 0 <= i < 15 => InfoBit(bits, i, test))
    + [!test]
  }

  function TypeNumberCells(n: nat): (cells: seq<Cell>)
    requires n >= 21
    ensures |cells| == 36
  {
    seq(18, i requires 0 <= i < 18 => (i / 3, i % 3 + n - 8 - 3))
    + seq(18, i requires 0 <= i < 18 => (i % 3 + n - 8 - 3, i / 3))
  }

  function TypeNumberValues(bits: nat, test: bool): (values: seq<bool>)
    ensures |values| == 36
  {
    seq(18, i requires 0 <= i < 18 => InfoBit(bits, i, test))
    + seq(18, i requires 0 <= i < 18 => InfoBit(bits, i, test))
  }

  lemma InfoCellsInRange(n: nat)
    requires n >= 21
    ensures forall i :: 0 <= i < 31 ==> TypeInfoCells(n)[i].0 < n && TypeInfoCells(n)[i].1 < n
    ensures forall i :: 0 <= i < 36 ==> TypeNumberCells(n)[i].0 < n && TypeNumberCells(n)[i].1 < n
  {
  }

  // ---- the whole setup ----

  lemma OddSum(k: nat)
    ensures (2 * k + 1) % 2 == 1
  {
  }

  function SideOf(version: nat): (n: nat)
    ensures n % 2 == 1
    ensures version >= 1 ==> n >= 21
  {
    OddSum(2 * version + 8);
    4 * version + 17
  }

  /** The three finder patterns with their separators. */
  function Finders(n: nat): (g: Grid)
    requires n >= 7
    ensures IsSquare(g, n)
  {
    Probe(Probe(Probe(Blank(n), n, 0, 0), n, n - 7, 0), n, 0, n - 7)
  }

  /** Patterns that do not depend on error correction level or mask. */
  function FixedPatterns(version: nat, pos: seq<nat>): (g: Grid)
    requires version >= 1
    ensures IsSquare(g, SideOf(version))
  {
    var n := SideOf(version);
    Timing(Alignments(Finders(n), n, pos, |pos| * |pos|), n)
  }

  function WithTypeInfo(g: Grid, n: nat, data: nat, test: bool): (h: Grid)
    requires IsSquare(g, n) && n >= 21
    ensures IsSquare(h, n)
  {
    InfoCellsInRange(n);
    Write(g, n, TypeInfoCells(n), TypeInfoValues(Bch.TypeInfo(data), test))
  }

  function WithTypeNumber(g: Grid, n: nat, version: nat, test: bool): (h: Grid)
    requires IsSquare(g, n) && n >= 21
    ensures IsSquare(h, n)
  {
    InfoCellsInRange(n);
    if version >= 7 then Write(g, n, TypeNumberCells(n), TypeNumberValues(Bch.TypeNumber(version), test)) else g
  }

  /** The matrix before data placement. */
  function FunctionPatterns(version: nat, pos: seq<nat>, data: nat, test: bool): (g: Grid)
    requires version >= 1
    ensures IsSquare(g, SideOf(version))
  {
    var n := SideOf(version);
    WithTypeNumber(WithTypeInfo(FixedPatterns(version, pos), n, data, test), n, version, test)
  }

  // ---- properties ----

  lemma {:induction false} AlignmentsKeep(g: Grid, n: nat, pos: seq<nat>, k: nat, r: nat, c: nat)
    requires IsSquare(g, n) && k <= |pos| * |pos| && r < n && c < n
    requires At(g, r, c).Some?
    ensures At(Alignments(g, n, pos, k), r, c).Some?
  {
    if k != 0 {
      AlignmentsKeep(g, n, pos, k - 1, r, c);
    }
  }

  lemma FindersColumnSix(n: nat, r: nat)
    requires n >= 21 && r < n && (r < 8 || r >= n - 8)
    ensures At(Finders(n), r, 6).Some?
  {
    hide Probe, Blank;
    var p1 := Probe(Blank(n), n, 0, 0);
    var p2 := Probe(p1, n, n - 7, 0);
    assert At(p2, r, 6).Some?;
  }

  lemma FixedColumnSix(version: nat, pos: seq<nat>, r: nat)
    requires version >= 1 && r < SideOf(version)
    ensures At(FixedPatterns(version, pos), r, 6).Some?
  {
    var n, k := SideOf(version), |pos| * |pos|;
    hide Finders, Alignments, Timing;
    if r < 8 || r >= n - 8 {
      FindersColumnSix(n, r);
      AlignmentsKeep(Finders(n), n, pos, k, r, 6);
    }
    assert FixedPatterns(version, pos) == Timing(Alignments(Finders(n), n, pos, k), n);
  }

  /** Column 6, which the data walk skips, is filled before it. */
  lemma ColumnSixIsFull(version: nat, pos: seq<nat>, data: nat, test: bool, r: nat)
    requires version >= 1 && r < SideOf(version)
    ensures At(FunctionPatterns(version, pos, data, test), r, 6).Some?
  {
    hide FixedPatterns, WithTypeInfo, WithTypeNumber;
    FixedColumnSix(version, pos, r);
    SetupFills(FixedPatterns(version, pos), SideOf(version), version, data, test, r, 6);
  }

  lemma SetupFills(g: Grid, n: nat, version: nat, data: nat, test: bool, r: nat, c: nat)
    requires IsSquare(g, n) && n >= 21
    ensures At(WithTypeNumber(WithTypeInfo(g, n, data, test), n, version, test), r, c).Some?
      <==> At(g, r, c).Some? || (r, c) in TypeInfoCells(n) || (version >= 7 && (r, c) in TypeNumberCells(n))
  {
    hide Write;
    InfoCellsInRange(n);
    WriteFills(g, n, TypeInfoCells(n), TypeInfoValues(Bch.TypeInfo(data), test), r, c);
    var h := WithTypeInfo(g, n, data, test);
    if version >= 7 {
      WriteFills(h, n, TypeNumberCells(n), TypeNumberValues(Bch.TypeNumber(version), test), r, c);
    }
  }

  /** Where data may go does not depend on level, mask or the test flag. */
  lemma ReservedCellsFixed(version: nat, pos: seq<nat>, data: nat, test: bool, data': nat, test': bool, r: nat, c: nat)
    requires version >= 1
    ensures At(FunctionPatterns(version, pos, data, test), r, c).Some?
       <==> At(FunctionPatterns(version, pos, data', test'), r, c).Some?
  {
    hide FixedPatterns, WithTypeInfo, WithTypeNumber;
    var g, n := FixedPatterns(version, pos), SideOf(version);
    SetupFills(g, n, version, data, test, r, c);
    SetupFills(g, n, version, data', test', r, c);
  }

  /** Format information, in both places, and the fixed module: nothing written later covers them. */
  lemma TypeInfoStands(version: nat, pos: seq<nat>, data: nat, test: bool, k: nat)
    requires version >= 1 && k < 31
    ensures var n := SideOf(version);
            var (r, c) := TypeInfoCells(n)[k];
            At(FunctionPatterns(version, pos, data, test), r, c) == Some(TypeInfoValues(Bch.TypeInfo(data), test)[k])
  {
    var n := SideOf(version);
    hide Write, FixedPatterns, InfoBit;
    var g := FixedPatterns(version, pos);
    var cells, values := TypeInfoCells(n), TypeInfoValues(Bch.TypeInfo(data), test);
    InfoCellsInRange(n);
    WrittenOnce(n, k);
    hide TypeInfoCells, TypeInfoValues;
    WriteInside(g, n, cells, values, k);
    if version >= 7 {
      NotVersionCell(n, k);
      WriteOutside(Write(g, n, cells, values), n, TypeNumberCells(n),
                   TypeNumberValues(Bch.TypeNumber(version), test), cells[k].0, cells[k].1);
    }
  }

  lemma WrittenOnce(n: nat, k: nat)
    requires n >= 21 && k < 31
    ensures forall j :: k < j < 31 ==> TypeInfoCells(n)[j] != TypeInfoCells(n)[k]
  {
    forall j | k < j < 31 ensures TypeInfoCells(n)[j] != TypeInfoCells(n)[k] {
      TypeInfoCellIs(n, j);
      TypeInfoCellIs(n, k);
    }
  }

  lemma TypeInfoCellIs(n: nat, k: nat)
    requires n >= 21 && k < 31
    ensures TypeInfoCells(n)[k]
         == if k < 15 then VerticalCell(n, k) else if k < 30 then HorizontalCell(n, k - 15) else (n - 8, 8)
  {
  }

  lemma DarkModule(version: nat, pos: seq<nat>, data: nat, test: bool)
    requires version >= 1
    ensures At(FunctionPatterns(version, pos, data, test), SideOf(version) - 8, 8) == Some(!test)
  {
    hide FunctionPatterns, Bch.TypeInfo, InfoBit, TypeInfoCells;
    TypeInfoStands(version, pos, data, test, 30);
    TypeInfoCellIs(SideOf(version), 30);
  }

  lemma NotVersionCell(n: nat, k: nat)
    requires n >= 45 && k < 31
    ensures TypeInfoCells(n)[k] !in TypeNumberCells(n)
  {
    TypeInfoCellIs(n, k);
    forall j | 0 <= j < 36 ensures TypeNumberCells(n)[j] != TypeInfoCells(n)[k] {
      TypeNumberCellIs(n, j);
    }
  }

  /** Version information, from version 7 on, in both places. */
  lemma TypeNumberStands(version: nat, pos: seq<nat>, data: nat, test: bool, k: nat)
    requires version >= 7 && k < 36
    ensures var n := SideOf(version);
            var (r, c) := TypeNumberCells(n)[k];
            At(FunctionPatterns(version, pos, data, test), r, c)
            == Some(TypeNumberValues(Bch.TypeNumber(version), test)[k])
  {
    var n := SideOf(version);
    hide Write, FixedPatterns, WithTypeInfo, InfoBit;
    var g := WithTypeInfo(FixedPatterns(version, pos), n, data, test);
    var cells, values := TypeNumberCells(n), TypeNumberValues(Bch.TypeNumber(version), test);
    InfoCellsInRange(n);
    VersionWrittenOnce(n, k);
    hide TypeNumberCells, TypeNumberValues;
    WriteInside(g, n, cells, values, k);
  }

  lemma TypeNumberCellIs(n: nat, k: nat)
    requires n >= 21 && k < 36
    ensures TypeNumberCells(n)[k]
         == if k < 18 then (k / 3, k % 3 + n - 11) else ((k - 18) % 3 + n - 11, (k - 18) / 3)
  {
  }

  lemma VersionWrittenOnce(n: nat, k: nat)
    requires n >= 45 && k < 36
    ensures forall j :: k < j < 36 ==> TypeNumberCells(n)[j] != TypeNumberCells(n)[k]
  {
    forall j | k < j < 36 ensures TypeNumberCells(n)[j] != TypeNumberCells(n)[k] {
      TypeNumberCellIs(n, j);
      TypeNumberCellIs(n, k);
    }
  }

  // ---- the finder patterns stay visible ----

  /** The eight by eight corners: a finder with its border each. */
  predicate InFinders(n: nat, r: int, c: int) {
    (r <= 7 && c <= 7) || (n - 8 <= r && c <= 7) || (r <= 7 && n - 8 <= c)
  }

  /** The square ring around a centre that a module lies on. */
  function RingOf(r: int, c: int): nat {
    var a, b := if r < 0 then -r else r, if c < 0 then -c else c;
    if a < b then b else a
  }

  /** Finders are centred on rows and columns 3 and n - 4. Through the centre dark and light alternate
      1:1:3:1:1: the core and the third ring are dark, the second and the border light. */
  function FinderDark(n: nat, r: int, c: int): bool {
    RingOf(if r <= 7 then r - 3 else r - (n - 4), if c <= 7 then c - 3 else c - (n - 4)) in {0, 1, 3}
  }

  lemma ProbeIsRings(r: int, c: int)
    requires -1 <= r <= 7 && -1 <= c <= 7
    ensures ProbeDark(r, c) == (RingOf(r - 3, c - 3) in {0, 1, 3})
  {
  }

  lemma FindersAt(n: nat, r: nat, c: nat)
    requires n >= 21 && r < n && c < n
    ensures At(Finders(n), r, c) == if InFinders(n, r, c) then Some(FinderDark(n, r, c)) else None
  {
    hide Probe, Blank;
    var p1 := Probe(Blank(n), n, 0, 0);
    var p2 := Probe(p1, n, n - 7, 0);
    hide ProbeDark, RingOf;
    assert At(p2, r, c) == if InProbe(n - 7, 0, r, c) then Some(ProbeDark(r - (n - 7), c)) else At(p1, r, c);
    if InFinders(n, r, c) {
      ProbeIsRings(if r <= 7 then r else r - (n - 7), if c <= 7 then c else c - (n - 7));
    }
  }

  /** On the line of a finder's inner edge, or clear of the finders. */
  predicate Spaced(p: nat, n: nat) {
    p == 6 || 10 <= p <= n - 11 || p == n - 7
  }

  predicate SpacedPositions(pos: seq<nat>, n: nat) {
    forall i :: 0 <= i < |pos| ==> Spaced(pos[i], n)
  }

  lemma KeepsClear(n: nat, row: nat, col: nat, r: nat, c: nat)
    requires n >= 21 && Spaced(row, n) && Spaced(col, n) && row < n && col < n && r < n && c < n
    requires InFinders(n, r, c) && !InFinders(n, row, col)
    ensures !(-2 <= r - row <= 2 && -2 <= c - col <= 2)
  {
  }

  lemma {:induction false} AlignmentsMissFinders(n: nat, pos: seq<nat>, k: nat, r: nat, c: nat)
    requires n >= 21 && SpacedPositions(pos, n) && k <= |pos| * |pos|
    requires r < n && c < n && InFinders(n, r, c)
    ensures At(Alignments(Finders(n), n, pos, k), r, c) == At(Finders(n), r, c)
  {
    hide Finders, Alignment, FinderDark, InFinders, PairAt;
    if k != 0 {
      AlignmentsMissFinders(n, pos, k - 1, r, c);
      var h := Alignments(Finders(n), n, pos, k - 1);
      var (row, col) := PairAt(pos, k - 1);
      FindersAt(n, row, col);
      if InFinders(n, row, col) {
        AlignmentsKeep(Finders(n), n, pos, k - 1, row, col);
      } else {
        KeepsClear(n, row, col, r, c);
      }
    }
  }

  lemma FindersAreNoInfoCells(n: nat, r: nat, c: nat, k: nat)
    requires n >= 21 && InFinders(n, r, c)
    ensures k < 31 ==> TypeInfoCells(n)[k] != (r, c)
    ensures k < 36 && n >= 45 ==> TypeNumberCells(n)[k] != (r, c)
  {
    if k < 31 {
      TypeInfoCellIs(n, k);
    }
    if k < 36 {
      TypeNumberCellIs(n, k);
    }
  }

  /** No alignment pattern, timing pattern or information covers a finder pattern or its border. */
  lemma FindersStand(version: nat, pos: seq<nat>, data: nat, test: bool, r: nat, c: nat)
    requires version >= 1 && SpacedPositions(pos, SideOf(version))
    requires r < SideOf(version) && c < SideOf(version) && InFinders(SideOf(version), r, c)
    ensures At(FunctionPatterns(version, pos, data, test), r, c) == Some(FinderDark(SideOf(version), r, c))
  {
    var n := SideOf(version);
    hide Finders, Alignments, Timing, InFinders, FinderDark, TypeInfoCells, TypeInfoValues, TypeNumberCells,
      TypeNumberValues, Write;
    FindersAt(n, r, c);
    AlignmentsMissFinders(n, pos, |pos| * |pos|, r, c);
    InfoCellsInRange(n);
    forall k ensures 0 <= k < 31 ==> TypeInfoCells(n)[k] != (r, c) {
      if k >= 0 {
        FindersAreNoInfoCells(n, r, c, k);
      }
    }
    var g := FixedPatterns(version, pos);
    WriteOutside(g, n, TypeInfoCells(n), TypeInfoValues(Bch.TypeInfo(data), test), r, c);
    if version >= 7 {
      forall k ensures 0 <= k < 36 ==> TypeNumberCells(n)[k] != (r, c) {
        if k >= 0 {
          FindersAreNoInfoCells(n, r, c, k);
        }
      }
      WriteOutside(WithTypeInfo(g, n, data, test), n, TypeNumberCells(n),
                   TypeNumberValues(Bch.TypeNumber(version), test), r, c);
    }
  }
}
