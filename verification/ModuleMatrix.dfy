/** The matrix itself: the source's loops that fill it in place, each proved to do what its
    specification on matrix contents says. */
module ModuleMatrix {
  import opened Bits
  import opened ModuleGrid
  import opened Masks
  import opened Placement
  import opened Results

  /** The contents of a square matrix. */
  function GridOf(m: array2<Module>): (g: Grid)
    requires m.Length0 == m.Length1
    reads m
    ensures IsSquare(g, m.Length0)
    ensures forall r, c :: 0 <= r < m.Length0 && 0 <= c < m.Length0 ==> At(g, r, c) == m[r, c]
  {
    seq(m.Length0, r requires 0 <= r < m.Length0 reads m =>
      seq(m.Length1, c requires 0 <= c < m.Length1 reads m => m[r, c]))
  }

  method NewMatrix(n: nat) returns (m: array2<Module>)
    ensures fresh(m) && m.Length0 == m.Length1 == n
    ensures GridOf(m) == Blank(n)
  {
    m := new Module[n, n];
    for row := 0 to n
      invariant forall r, c :: 0 <= r < row && 0 <= c < n ==> m[r, c] == None
    {
      for col := 0 to n
        invariant forall r, c :: 0 <= r < row && 0 <= c < n ==> m[r, c] == None
        invariant forall c :: 0 <= c < col ==> m[row, c] == None
      {
        m[row, col] := None;
      }
    }
    SameGrid(GridOf(m), Blank(n), n);
  }

  method SetModule(m: array2<Module>, row: nat, col: nat, dark: bool)
    requires m.Length0 == m.Length1 && row < m.Length0 && col < m.Length0
    modifies m
    ensures GridOf(m) == Set(old(GridOf(m)), row, col, dark)
  {
    m[row, col] := Some(dark);
    SetAt(old(GridOf(m)), m.Length0, row, col, dark);
    SameGrid(GridOf(m), Set(old(GridOf(m)), row, col, dark), m.Length0);
  }

  method SetupPositionProbePattern(m: array2<Module>, row: int, col: int)
    requires m.Length0 == m.Length1
    modifies m
    ensures GridOf(m) == Probe(old(GridOf(m)), m.Length0, row, col)
  {
    hide GridOf, At;
    ghost var n := m.Length0;
    for r := -1 to 8
      invariant forall i, j :: 0 <= i < n && 0 <= j < n ==>
        m[i, j] == if i < row + r && InProbe(row, col, i, j) then Some(ProbeDark(i - row, j - col))
                   else old(m[i, j])
    {
      if row + r <= -1 || m.Length0 <= row + r {
        continue;
      }
      for c := -1 to 8
        invariant forall i, j :: 0 <= i < n && 0 <= j < n ==>
          m[i, j] == if (i < row + r || (i == row + r && j < col + c)) && InProbe(row, col, i, j)
                     then Some(ProbeDark(i - row, j - col))
                     else old(m[i, j])
      {
        if col + c <= -1 || m.Length0 <= col + c {
          continue;
        }
        if (0 <= r && r <= 6 && (c == 0 || c == 6))
           || (0 <= c && c <= 6 && (r == 0 || r == 6))
           || (2 <= r && r <= 4 && 2 <= c && c <= 4) {
          m[row + r, col + c] := Some(true);
        } else {
          m[row + r, col + c] := Some(false);
        }
      }
    }
    SameGrid(GridOf(m), Probe(old(GridOf(m)), n, row, col), n);
  }

  method SetupAlignment(m: array2<Module>, row: int, col: int)
    requires m.Length0 == m.Length1
    requires 2 <= row && row + 2 < m.Length0 && 2 <= col && col + 2 < m.Length0
    modifies m
    ensures GridOf(m) == Alignment(old(GridOf(m)), m.Length0, row, col)
  {
    hide GridOf, At;
    ghost var n := m.Length0;
    for r := -2 to 3
      invariant forall i, j :: 0 <= i < n && 0 <= j < n ==>
        m[i, j] == if -2 <= i - row < r && -2 <= j - col <= 2 then Some(AlignmentDark(i - row, j - col))
                   else old(m[i, j])
    {
      for c := -2 to 3
        invariant forall i, j :: 0 <= i < n && 0 <= j < n ==>
          m[i, j] == if -2 <= j - col <= 2 && (-2 <= i - row < r || (i - row == r && j - col < c))
                     then Some(AlignmentDark(i - row, j - col))
                     else old(m[i, j])
      {
        if r == -2 || r == 2 || c == -2 || c == 2 || (r == 0 && c == 0) {
          m[row + r, col + c] := Some(true);
        } else {
          m[row + r, col + c] := Some(false);
        }
      }
    }
    SameGrid(GridOf(m), Alignment(old(GridOf(m)), n, row, col), n);
  }

  method SetupPositionAdjustPattern(m: array2<Module>, pos: seq<nat>)
    requires m.Length0 == m.Length1 && ValidPositions(pos, m.Length0)
    modifies m
    ensures GridOf(m) == Alignments(old(GridOf(m)), m.Length0, pos, |pos| * |pos|)
  {
    hide GridOf, At, Alignment, Alignments, Before;
    ghost var g, n := GridOf(m), m.Length0;
    StretchesFit(|pos|, |pos|);
    NothingAligned(g, n, pos);
    for i := 0 to |pos|
      invariant Before(|pos|, i) <= |pos| * |pos|
      invariant GridOf(m) == Alignments(g, n, pos, Before(|pos|, i))
    {
      NextStretch(|pos|, i, |pos|);
      for j := 0 to |pos|
        invariant GridOf(m) == Alignments(g, n, pos, Before(|pos|, i) + j)
      {
        var row, col := pos[i], pos[j];
        NextAlignment(g, n, pos, i, j);
        AtOfMatrix(m, row, col);
        if m[row, col] != None {
          continue;
        }
        SetupAlignment(m, row, col);
      }
    }
  }

  /** The number of steps before the k-th stretch of w steps. */
  ghost function Before(w: nat, k: nat): nat {
    w * k
  }

  lemma StretchesFit(w: nat, m: nat)
    ensures Before(w, 0) == 0 && Before(w, m) == w * m
  {
  }

  lemma NextStretch(w: nat, k: nat, m: nat)
    requires k < m
    ensures Before(w, k) + w == Before(w, k + 1) <= w * m
  {
    OverSum(w, k, 1);
    OverSum(w, k + 1, m - k - 1);
    if m > k + 1 && w > 0 {
      MulAtLeast(m - k - 1, w);
    }
  }

  lemma NothingAligned(g: Grid, n: nat, pos: seq<nat>)
    requires IsSquare(g, n)
    ensures Alignments(g, n, pos, 0) == g
  {
  }

  lemma NextAlignment(g: Grid, n: nat, pos: seq<nat>, i: nat, j: nat)
    requires IsSquare(g, n) && i < |pos| && j < |pos|
    ensures var k := Before(|pos|, i) + j;
            && k < |pos| * |pos|
            && Alignments(g, n, pos, k + 1)
               == (var h := Alignments(g, n, pos, k);
                   if At(h, pos[i], pos[j]) != None then h else Alignment(h, n, pos[i], pos[j]))
  {
    hide Alignment, Alignments, At;
    SplitStep(|pos|, i, j, |pos|);
    NextPair(g, n, pos, Before(|pos|, i) + j);
  }

  lemma AtOfMatrix(m: array2<Module>, row: nat, col: nat)
    requires m.Length0 == m.Length1 && row < m.Length0 && col < m.Length0
    ensures m[row, col] == At(GridOf(m), row, col)
  {
  }

  method SetupTimingPattern(m: array2<Module>)
    requires m.Length0 == m.Length1
    modifies m
    ensures GridOf(m) == Timing(old(GridOf(m)), m.Length0)
  {
    hide GridOf, At;
    ghost var n := m.Length0;
    var r := 8;
    while r < m.Length0 - 8
      invariant 8 <= r
      invariant forall i, j :: 0 <= i < n && 0 <= j < n ==>
        m[i, j] == if old(m[i, j]) == None && j == 6 && 8 <= i < r && i < n - 8 then Some(i % 2 == 0)
                   else old(m[i, j])
    {
      if m[r, 6] == None {
        m[r, 6] := Some(r % 2 == 0);
      }
      r := r + 1;
    }
    var c := 8;
    while c < m.Length0 - 8
      invariant 8 <= c
      invariant forall i, j :: 0 <= i < n && 0 <= j < n ==>
        m[i, j] == if old(m[i, j]) == None && j == 6 && 8 <= i < n - 8 then Some(i % 2 == 0)
                   else if old(m[i, j]) == None && i == 6 && 8 <= j < c && j < n - 8 then Some(j % 2 == 0)
                   else old(m[i, j])
    {
      if m[6, c] == None {
        m[6, c] := Some(c % 2 == 0);
      }
      c := c + 1;
    }
    SameGrid(GridOf(m), Timing(old(GridOf(m)), n), n);
  }

  /** Writes the k-th of a list of cells. */
  method WriteNext(m: array2<Module>, ghost g: Grid, ghost cells: seq<Cell>, ghost values: seq<bool>,
                   ghost k: nat, row: nat, col: nat, dark: bool)
    requires m.Length0 == m.Length1 && IsSquare(g, m.Length0)
    requires k < |cells| == |values|
    requires forall i :: 0 <= i < |cells| ==> cells[i].0 < m.Length0 && cells[i].1 < m.Length0
    requires (row, col) == cells[k] && dark == values[k]
    requires GridOf(m) == Write(g, m.Length0, cells[..k], values[..k])
    modifies m
    ensures GridOf(m) == Write(g, m.Length0, cells[..k + 1], values[..k + 1])
  {
    hide GridOf;
    assert cells[..k + 1][..k] == cells[..k] && values[..k + 1][..k] == values[..k];
    SetModule(m, row, col, dark);
  }

  method SetupTypeNumber(m: array2<Module>, typeNumber: nat, test: bool)
    requires m.Length0 == m.Length1 >= 21 && typeNumber >= 7
    modifies m
    ensures GridOf(m) == WithTypeNumber(old(GridOf(m)), m.Length0, typeNumber, test)
  {
    hide GridOf, Write, At, TypeNumberCells, TypeNumberValues, Pow2;
    var n := m.Length0;
    ghost var g := GridOf(m);
    InfoCellsInRange(n);
    var bits := Bch.GetBCHTypeNumber(typeNumber);
    ghost var cells, values := TypeNumberCells(n), TypeNumberValues(bits, test);
    NothingWritten(g, n);
    for i := 0 to 18
      invariant GridOf(m) == Write(g, n, cells[..i], values[..i])
    {
      var mod := !test && bits / Pow2(i) % 2 == 1;
      TypeNumberEntry(n, bits, test, i);
      WriteNext(m, g, cells, values, i, i / 3, i % 3 + n - 8 - 3, mod);
    }
    for i := 0 to 18
      invariant GridOf(m) == Write(g, n, cells[..18 + i], values[..18 + i])
    {
      var mod := !test && bits / Pow2(i) % 2 == 1;
      TypeNumberEntry(n, bits, test, i);
      WriteNext(m, g, cells, values, 18 + i, i % 3 + n - 8 - 3, i / 3, mod);
    }
    assert cells[..36] == cells && values[..36] == values;
  }

  lemma TypeNumberEntry(n: nat, bits: nat, test: bool, i: nat)
    requires n >= 21 && i < 18
    ensures TypeNumberCells(n)[i] == (i / 3, i % 3 + n - 8 - 3)
    ensures TypeNumberCells(n)[18 + i] == (i % 3 + n - 8 - 3, i / 3)
    ensures TypeNumberValues(bits, test)[i] == TypeNumberValues(bits, test)[18 + i] == InfoBit(bits, i, test)
  {
    hide InfoBit;
  }

  lemma TypeInfoEntry(n: nat, bits: nat, test: bool, i: nat)
    requires n >= 21 && i < 15
    ensures TypeInfoCells(n)[i] == VerticalCell(n, i)
    ensures TypeInfoCells(n)[15 + i] == HorizontalCell(n, i)
    ensures TypeInfoValues(bits, test)[i] == TypeInfoValues(bits, test)[15 + i] == InfoBit(bits, i, test)
  {
    hide InfoBit, VerticalCell, HorizontalCell;
  }

  lemma FixedModuleEntry(n: nat, bits: nat, test: bool)
    requires n >= 21
    ensures TypeInfoCells(n)[30] == (n - 8, 8) && TypeInfoValues(bits, test)[30] == !test
  {
    hide InfoBit, VerticalCell, HorizontalCell;
  }

  lemma NothingWritten(g: Grid, n: nat)
    requires IsSquare(g, n)
    ensures Write(g, n, [], []) == g
  {
  }

  /** The copy down column 8. */
  method SetupVertical(m: array2<Module>, bits: nat, test: bool, ghost g: Grid)
    requires m.Length0 == m.Length1 >= 21 && GridOf(m) == g
    modifies m
    ensures IsSquare(g, m.Length0)
    ensures var cells, values := TypeInfoCells(m.Length0), TypeInfoValues(bits, test);
            GridOf(m) == Write(g, m.Length0, cells[..15], values[..15])
  {
    hide GridOf, Write, TypeInfoCells, TypeInfoValues, Pow2;
    var n := m.Length0;
    ghost var cells, values := TypeInfoCells(n), TypeInfoValues(bits, test);
    NothingWritten(g, n);
    InfoCellsInRange(n);
    for i := 0 to 15
      invariant GridOf(m) == Write(g, n, cells[..i], values[..i])
    {
      var mod := !test && bits / Pow2(i) % 2 == 1;
      TypeInfoEntry(n, bits, test, i);
      if i < 6 {
        WriteNext(m, g, cells, values, i, i, 8, mod);
      } else if i < 8 {
        WriteNext(m, g, cells, values, i, i + 1, 8, mod);
      } else {
        WriteNext(m, g, cells, values, i, n - 15 + i, 8, mod);
      }
    }
  }

  /** The copy along row 8. */
  method SetupHorizontal(m: array2<Module>, bits: nat, test: bool, ghost g: Grid)
    requires m.Length0 == m.Length1 >= 21 && IsSquare(g, m.Length0)
    requires var cells, values := TypeInfoCells(m.Length0), TypeInfoValues(bits, test);
             GridOf(m) == Write(g, m.Length0, cells[..15], values[..15])
    modifies m
    ensures var cells, values := TypeInfoCells(m.Length0), TypeInfoValues(bits, test);
            GridOf(m) == Write(g, m.Length0, cells[..30], values[..30])
  {
    hide GridOf, Write, TypeInfoCells, TypeInfoValues, Pow2;
    var n := m.Length0;
    ghost var cells, values := TypeInfoCells(n), TypeInfoValues(bits, test);
    InfoCellsInRange(n);
    for i := 0 to 15
      invariant GridOf(m) == Write(g, n, cells[..15 + i], values[..15 + i])
    {
      var mod := !test && bits / Pow2(i) % 2 == 1;
      TypeInfoEntry(n, bits, test, i);
      if i < 8 {
        WriteNext(m, g, cells, values, 15 + i, 8, n - i - 1, mod);
      } else if i < 9 {
        WriteNext(m, g, cells, values, 15 + i, 8, 15 - i - 1 + 1, mod);
      } else {
        WriteNext(m, g, cells, values, 15 + i, 8, 15 - i - 1, mod);
      }
    }
  }

  /** Both copies of the format information and the fixed module. */
  method SetupTypeInfo(m: array2<Module>, errorCorrectionLevel: nat, maskPattern: nat, test: bool)
    requires m.Length0 == m.Length1 >= 21 && maskPattern < 8
    modifies m
    ensures GridOf(m) == WithTypeInfo(old(GridOf(m)), m.Length0, errorCorrectionLevel * 8 + maskPattern, test)
  {
    hide GridOf, Write, At, TypeInfoCells, TypeInfoValues, Pow2, Or;
    var n := m.Length0;
    ghost var g := GridOf(m);
    InfoCellsInRange(n);
    OrMask(errorCorrectionLevel, maskPattern);
    var data := Or(errorCorrectionLevel * Pow2(3), maskPattern);
    var bits := Bch.GetBCHTypeInfo(data);
    ghost var cells, values := TypeInfoCells(n), TypeInfoValues(bits, test);
    NothingWritten(g, n);
    SetupVertical(m, bits, test, g);
    SetupHorizontal(m, bits, test, g);
    FixedModuleEntry(n, bits, test);
    WriteNext(m, g, cells, values, 30, n - 8, 8, !test);
    assert cells[..31] == cells && values[..31] == values;
  }

  /** All function patterns, in the order makeImpl draws them on a blank matrix. */
  method SetupPatterns(m: array2<Module>, typeNumber: nat, pos: seq<nat>, errorCorrectionLevel: nat,
                       maskPattern: nat, test: bool)
    requires typeNumber >= 1 && maskPattern < 8
    requires m.Length0 == m.Length1 == SideOf(typeNumber) && ValidPositions(pos, m.Length0)
    requires GridOf(m) == Blank(m.Length0)
    modifies m
    ensures GridOf(m) == FunctionPatterns(typeNumber, pos, errorCorrectionLevel * 8 + maskPattern, test)
  {
    hide GridOf, Alignments, Timing, Probe, WithTypeInfo, Write, Blank;
    var n := m.Length0;
    SetupPositionProbePattern(m, 0, 0);
    SetupPositionProbePattern(m, n - 7, 0);
    SetupPositionProbePattern(m, 0, n - 7);
    SetupPositionAdjustPattern(m, pos);
    SetupTimingPattern(m);
    assert GridOf(m) == FixedPatterns(typeNumber, pos);
    SetupTypeInfo(m, errorCorrectionLevel, maskPattern, test);
    if typeNumber >= 7 {
      SetupTypeNumber(m, typeNumber, test);
    }
  }

  lemma OrMask(level: nat, mask: nat)
    requires mask < 8
    ensures Or(level * Pow2(3), mask) == level * 8 + mask
  {
    assert Pow2(3) == 8;
    OrDisjoint(level, 3, mask);
  }

  /** One visit: a null module takes the next bit, masked. */
  method VisitModule(m: array2<Module>, data: seq<Byte>, maskPattern: nat, row: nat, col: nat,
                     byteIndex: nat, bitIndex: nat, ghost g: Grid, ghost t: nat)
    returns (byteIndex': nat, bitIndex': nat)
    requires m.Length0 == m.Length1 && Side(m.Length0) && maskPattern < 8 && bitIndex <= 7
    requires IsSquare(g, m.Length0) && t < Steps(m.Length0) && CellAt(m.Length0, t) == (row, col)
    requires Walk(g, m.Length0, data, maskPattern, t) == (GridOf(m), 8 * byteIndex + 7 - bitIndex)
    modifies m
    ensures bitIndex' <= 7
    ensures Walk(g, m.Length0, data, maskPattern, t + 1) == (GridOf(m), 8 * byteIndex' + 7 - bitIndex')
  {
    hide GridOf, MaskAt, Walk, Pow2, CellAt, Set;
    WalkNext(g, m.Length0, data, maskPattern, t);
    byteIndex', bitIndex' := byteIndex, bitIndex;
    assert m[row, col] == At(GridOf(m), row, col);
    if m[row, col] == None {
      var dark := false;
      if byteIndex < |data| {
        dark := data[byteIndex] / Pow2(bitIndex) % 2 == 1;
      }
      BitIndices(byteIndex, bitIndex);
      var mask := MaskAt(maskPattern, row, col);
      if mask {
        dark := !dark;
      }
      SetModule(m, row, col, dark);
      if bitIndex == 0 {
        byteIndex' := byteIndex' + 1;
        bitIndex' := 7;
      } else {
        bitIndex' := bitIndex' - 1;
      }
    }
  }

  lemma BitIndices(byteIndex: nat, bitIndex: nat)
    requires bitIndex <= 7
    ensures var k := 8 * byteIndex + 7 - bitIndex; k / 8 == byteIndex && 7 - k % 8 == bitIndex
  {
  }

  /** The two modules of a row. */
  method VisitRow(m: array2<Module>, data: seq<Byte>, maskPattern: nat, col: nat, row: nat,
                  byteIndex: nat, bitIndex: nat, ghost g: Grid, ghost p: nat, ghost s: nat)
    returns (byteIndex': nat, bitIndex': nat)
    requires m.Length0 == m.Length1 && Side(m.Length0) && maskPattern < 8 && bitIndex <= 7
    requires IsSquare(g, m.Length0) && p < (m.Length0 - 1) / 2 && col == RightColumn(m.Length0, p)
    requires s < m.Length0 && row == RowAt(m.Length0, p, s)
    requires Before(2 * m.Length0, p) + 2 * m.Length0 <= Steps(m.Length0)
    requires Walk(g, m.Length0, data, maskPattern, Before(2 * m.Length0, p) + 2 * s)
          == (GridOf(m), 8 * byteIndex + 7 - bitIndex)
    modifies m
    ensures bitIndex' <= 7
    ensures Walk(g, m.Length0, data, maskPattern, Before(2 * m.Length0, p) + 2 * s + 2)
         == (GridOf(m), 8 * byteIndex' + 7 - bitIndex')
  {
    hide GridOf, Walk, CellAt, RightColumn, RowAt, Steps, Before;
    ghost var n := m.Length0;
    ghost var t := Before(2 * n, p) + 2 * s;
    byteIndex', bitIndex' := byteIndex, bitIndex;
    for c := 0 to 2
      invariant bitIndex' <= 7
      invariant Walk(g, n, data, maskPattern, t + c) == (GridOf(m), 8 * byteIndex' + 7 - bitIndex')
    {
      VisitAt(n, p, s, c);
      byteIndex', bitIndex' := VisitModule(m, data, maskPattern, row, col - c, byteIndex', bitIndex', g, t + c);
    }
  }

  /** One pair of columns, upwards or downwards. */
  method WalkPair(m: array2<Module>, data: seq<Byte>, maskPattern: nat, col: nat, row: nat, inc: int,
                  byteIndex: nat, bitIndex: nat, ghost g: Grid, ghost p: nat)
    returns (row': nat, inc': int, byteIndex': nat, bitIndex': nat)
    requires m.Length0 == m.Length1 && Side(m.Length0) && maskPattern < 8 && bitIndex <= 7
    requires IsSquare(g, m.Length0) && p < (m.Length0 - 1) / 2 && col == RightColumn(m.Length0, p)
    requires Before(2 * m.Length0, p) < Steps(m.Length0)
    requires inc == (if p % 2 == 0 then -1 else 1) && row == RowAt(m.Length0, p, 0)
    requires Walk(g, m.Length0, data, maskPattern, Before(2 * m.Length0, p))
          == (GridOf(m), 8 * byteIndex + 7 - bitIndex)
    modifies m
    ensures inc' == -inc && row' == RowAt(m.Length0, p + 1, 0) && bitIndex' <= 7
    ensures Before(2 * m.Length0, p + 1) <= Steps(m.Length0)
    ensures Walk(g, m.Length0, data, maskPattern, Before(2 * m.Length0, p + 1))
         == (GridOf(m), 8 * byteIndex' + 7 - bitIndex')
  {
    hide GridOf, Walk, CellAt, RightColumn, Steps, Before;
    var n := m.Length0;
    ghost var t := Before(2 * n, p);
    NextStretch(2 * n, p, (n - 1) / 2);
    PairWithin(n, p);
    byteIndex', bitIndex' := byteIndex, bitIndex;
    var i: int, step := row, inc;
    ghost var s: nat := 0;
    while true
      invariant s < n && i == RowAt(n, p, s) && step == inc
      invariant bitIndex' <= 7
      invariant Walk(g, n, data, maskPattern, t + 2 * s) == (GridOf(m), 8 * byteIndex' + 7 - bitIndex')
      decreases n - s
    {
      byteIndex', bitIndex' := VisitRow(m, data, maskPattern, col, i, byteIndex', bitIndex', g, p, s);
      i := i + step;
      s := s + 1;
      if i < 0 || n <= i {
        i := i - step;
        step := -step;
        break;
      }
    }
    row', inc' := i, step;
  }

  /** Places the codewords: column pairs from the right, stepping over column 6. */
  method MapData(m: array2<Module>, data: seq<Byte>, maskPattern: nat)
    requires m.Length0 == m.Length1 && Side(m.Length0) && maskPattern < 8
    modifies m
    ensures GridOf(m) == Mapped(old(GridOf(m)), m.Length0, data, maskPattern)
  {
    hide GridOf, Walk, Before, RightColumn, Steps;
    var n := m.Length0;
    ghost var g := GridOf(m);
    var inc := -1;
    var row := n - 1;
    var bitIndex: nat := 7;
    var byteIndex: nat := 0;
    var col := n - 1;
    ghost var p: nat := 0;
    WalkStart(g, n, data, maskPattern);
    StretchesFit(2 * n, (n - 1) / 2);
    AllSteps(n);
    while col > 0
      invariant p <= (n - 1) / 2 && Before(2 * n, p) <= Steps(n)
      invariant col == if n - 1 - 2 * p >= 6 then n - 1 - 2 * p else n - 2 - 2 * p
      invariant inc == (if p % 2 == 0 then -1 else 1) && row == RowAt(n, p, 0)
      invariant bitIndex <= 7
      invariant Walk(g, n, data, maskPattern, Before(2 * n, p)) == (GridOf(m), 8 * byteIndex + 7 - bitIndex)
      decreases col
    {
      if col == 6 {
        col := col - 1;
      }
      PairColumn(n, p);
      PairWithin(n, p);
      row, inc, byteIndex, bitIndex :=
        WalkPair(m, data, maskPattern, col, row, inc, byteIndex, bitIndex, g, p);
      p := p + 1;
      col := col - 2;
    }
  }

  lemma WalkStart(g: Grid, n: nat, data: seq<Byte>, mask: nat)
    requires Side(n) && IsSquare(g, n) && mask < 8
    ensures Walk(g, n, data, mask, 0) == (g, 0)
  {
  }

  lemma WalkNext(g: Grid, n: nat, data: seq<Byte>, mask: nat, t: nat)
    requires Side(n) && IsSquare(g, n) && mask < 8 && t < Steps(n)
    ensures var (h, k) := Walk(g, n, data, mask, t);
            var (r, c) := CellAt(n, t);
            Walk(g, n, data, mask, t + 1)
            == if At(h, r, c) == None then (Set(h, r, c, DataBit(data, k) != MaskAt(mask, r, c)), k + 1) else (h, k)
  {
  }

  lemma VisitAt(n: nat, p: nat, s: nat, c: nat)
    requires Side(n) && p < (n - 1) / 2 && s < n && c < 2
    ensures var t := Before(2 * n, p) + 2 * s + c; t < Steps(n) && CellAt(n, t) == (RowAt(n, p, s), RightColumn(n, p) - c)
  {
    var q := 2 * s + c;
    SplitStep(2 * n, p, q, (n - 1) / 2);
    assert q / 2 == s && q % 2 == c;
  }

  lemma PairWithin(n: nat, p: nat)
    requires Side(n) && p < (n - 1) / 2
    ensures Before(2 * n, p) + 2 * n <= Steps(n)
  {
    NextStretch(2 * n, p, (n - 1) / 2);
  }

  lemma AllSteps(n: nat)
    requires Side(n)
    ensures Before(2 * n, (n - 1) / 2) == Steps(n)
  {
  }

  lemma PairColumn(n: nat, p: nat)
    requires Side(n) && p < (n - 1) / 2
    ensures RightColumn(n, p) == if n - 1 - 2 * p > 6 then n - 1 - 2 * p else n - 2 - 2 * p
  {
  }
}
