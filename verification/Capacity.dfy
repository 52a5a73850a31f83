/** How many modules a version leaves open to data, as a closed form: what is left of the square once
    every function pattern has its modules. */
module Capacity {
  import opened Bits
  import opened Results
  import opened ModuleGrid
  import opened Patterns
  import opened Placement

  // ---- sets of modules ----

  ghost function Rect(r0: nat, h: nat, c0: nat, w: nat): set<Cell> {
    set r: nat, c: nat | r0 <= r < r0 + h && c0 <= c < c0 + w :: (r, c)
  }

  lemma {:induction false} RowSize(r: nat, c0: nat, w: nat)
    ensures |Rect(r, 1, c0, w)| == w
  {
    if w == 0 {
      assert Rect(r, 1, c0, w) == {};
    } else {
      RowSize(r, c0, w - 1);
      assert Rect(r, 1, c0, w) == Rect(r, 1, c0, w - 1) + {(r, c0 + w - 1)};
    }
  }

  lemma {:induction false} RectSize(r0: nat, h: nat, c0: nat, w: nat)
    ensures |Rect(r0, h, c0, w)| == h * w
  {
    if h == 0 {
      assert Rect(r0, h, c0, w) == {};
    } else {
      RectSize(r0, h - 1, c0, w);
      RowSize(r0 + h - 1, c0, w);
      var above, last := Rect(r0, h - 1, c0, w), Rect(r0 + h - 1, 1, c0, w);
      assert Rect(r0, h, c0, w) == above + last;
      assert above * last == {};
      assert (h - 1) * w + w == h * w;
    }
  }

  ghost function CellSet(cells: seq<Cell>): set<Cell> {
    set k | 0 <= k < |cells| :: cells[k]
  }

  lemma {:induction false} CellSetSize(cells: seq<Cell>)
    requires forall i, j :: 0 <= i < j < |cells| ==> cells[i] != cells[j]
    ensures |CellSet(cells)| == |cells|
  {
    if |cells| == 0 {
      assert CellSet(cells) == {};
    } else {
      var m := |cells| - 1;
      CellSetSize(cells[..m]);
      assert CellSet(cells) == CellSet(cells[..m]) + {cells[m]};
      assert cells[m] !in CellSet(cells[..m]);
    }
  }

  lemma Disjoint<T>(a: set<T>, b: set<T>)
    requires a * b == {}
    ensures |a + b| == |a| + |b|
  {
  }

  // ---- modules that are set ----

  ghost function FilledCells(g: Grid, n: nat): set<Cell> {
    set r: nat, c: nat | r < n && c < n && At(g, r, c).Some? :: (r, c)
  }

  ghost function Null(g: Grid, n: nat): set<Cell> {
    set r: nat, c: nat | r < n && c < n && At(g, r, c) == None :: (r, c)
  }

  lemma FilledIs(g: Grid, n: nat, cells: set<Cell>)
    requires forall r: nat, c: nat | r < n && c < n :: At(g, r, c).Some? <==> (r, c) in cells
    requires forall cell :: cell in cells ==> cell.0 < n && cell.1 < n
    ensures FilledCells(g, n) == cells
  {
  }

  /** Modules set that were null before. */
  lemma FilledGrows(before: Grid, after: Grid, n: nat, cells: set<Cell>)
    requires forall r: nat, c: nat | r < n && c < n ::
      At(after, r, c).Some? <==> At(before, r, c).Some? || (r, c) in cells
    requires forall cell :: cell in cells ==> cell.0 < n && cell.1 < n && At(before, cell.0, cell.1) == None
    ensures |FilledCells(after, n)| == |FilledCells(before, n)| + |cells|
  {
    FilledIs(after, n, FilledCells(before, n) + cells);
    assert FilledCells(before, n) * cells == {};
    Disjoint(FilledCells(before, n), cells);
  }

  lemma NullSize(g: Grid, n: nat)
    ensures |Null(g, n)| + |FilledCells(g, n)| == n * n
  {
    RectSize(0, n, 0, n);
    assert Null(g, n) + FilledCells(g, n) == Rect(0, n, 0, n);
    assert Null(g, n) * FilledCells(g, n) == {};
    Disjoint(Null(g, n), FilledCells(g, n));
  }

  // ---- visits and modules ----

  /** The open modules among the first t visited. */
  ghost function Visited(reserved: Grid, n: nat, t: nat): set<Cell>
    requires Side(n) && t <= Steps(n)
  {
    if t == 0 then {}
    else
      var (r, c) := CellAt(n, t - 1);
      Visited(reserved, n, t - 1) + if At(reserved, r, c).Some? then {} else {(r, c)}
  }

  lemma {:induction false} VisitedSize(reserved: Grid, n: nat, t: nat)
    requires Side(n) && t <= Steps(n)
    ensures |Visited(reserved, n, t)| == FreeCount(reserved, n, t)
    ensures forall cell :: cell in Visited(reserved, n, t) ==>
      cell.0 < n && cell.1 < n && cell.1 != 6 && Rank(n, cell.0, cell.1) < t && At(reserved, cell.0, cell.1) == None
  {
    hide CellAt, Steps, Rank;
    if t != 0 {
      VisitedSize(reserved, n, t - 1);
      var (r, c) := CellAt(n, t - 1);
      RankOfCell(n, t - 1);
    }
  }

  lemma {:induction false} VisitedHas(reserved: Grid, n: nat, t: nat, r: nat, c: nat)
    requires Side(n) && t <= Steps(n) && r < n && c < n && c != 6
    requires At(reserved, r, c) == None && Rank(n, r, c) < t
    ensures (r, c) in Visited(reserved, n, t)
  {
    hide CellAt, Steps, Rank;
    if Rank(n, r, c) == t - 1 {
      CellOfRank(n, r, c);
    } else {
      VisitedHas(reserved, n, t - 1, r, c);
    }
  }

  /** The walk meets every null module once. */
  lemma FreeIsNull(reserved: Grid, n: nat)
    requires Side(n) && forall r :: 0 <= r < n ==> At(reserved, r, 6).Some?
    ensures FreeCount(reserved, n, Steps(n)) == |Null(reserved, n)|
  {
    hide CellAt, Steps, Rank, Visited;
    var visited := Visited(reserved, n, Steps(n));
    VisitedSize(reserved, n, Steps(n));
    forall cell | cell in Null(reserved, n) ensures cell in visited {
      CellOfRank(n, cell.0, cell.1);
      VisitedHas(reserved, n, Steps(n), cell.0, cell.1);
    }
    assert visited == Null(reserved, n);
  }

  // ---- the finders ----

  lemma FindersFill(n: nat)
    requires n >= 21
    ensures |FilledCells(Finders(n), n)| == 192
  {
    hide Finders, Rect;
    var a, b, c := Rect(0, 8, 0, 8), Rect(n - 8, 8, 0, 8), Rect(0, 8, n - 8, 8);
    RectSize(0, 8, 0, 8);
    RectSize(n - 8, 8, 0, 8);
    RectSize(0, 8, n - 8, 8);
    ThreeCorners(n);
    forall r: nat, k: nat | r < n && k < n ensures At(Finders(n), r, k).Some? <==> (r, k) in a + b + c {
      FindersAt(n, r, k);
    }
    FilledIs(Finders(n), n, a + b + c);
    Disjoint(a, b);
    Disjoint(a + b, c);
  }

  lemma ThreeCorners(n: nat)
    requires n >= 21
    ensures var a, b, c := Rect(0, 8, 0, 8), Rect(n - 8, 8, 0, 8), Rect(0, 8, n - 8, 8);
            && (forall r: nat, k: nat :: (r, k) in a + b + c <==> r < n && k < n && InFinders(n, r, k))
            && a * b == {} && (a + b) * c == {}
  {
  }

  // ---- the alignment patterns ----

  /** How many of the first k pairs have a pattern. */
  function PatternsDrawn(n: nat, pos: seq<nat>, k: nat): nat
    requires k <= |pos| * |pos|
  {
    if k == 0 then 0 else PatternsDrawn(n, pos, k - 1) + if Open(n, pos, k - 1) then 1 else 0
  }

  lemma {:induction false} AlignmentsFill(n: nat, pos: seq<nat>, k: nat)
    requires n >= 21 && n % 2 == 1 && TablePositions(pos, n) && k <= |pos| * |pos|
    ensures |FilledCells(Alignments(Finders(n), n, pos, k), n)| == 192 + 25 * PatternsDrawn(n, pos, k)
  {
    hide Finders, Alignments, Open, Covers, TablePositions, PairAt, InFinders, FilledCells;
    if k == 0 {
      FindersFill(n);
      assert Alignments(Finders(n), n, pos, 0) == Finders(n) by { NoAlignments(n, pos); }
    } else {
      AlignmentsFill(n, pos, k - 1);
      OneAlignment(n, pos, k);
    }
  }

  lemma NoAlignments(n: nat, pos: seq<nat>)
    requires n >= 21
    ensures Alignments(Finders(n), n, pos, 0) == Finders(n)
  {
  }

  lemma OneAlignment(n: nat, pos: seq<nat>, k: nat)
    requires n >= 21 && n % 2 == 1 && TablePositions(pos, n) && 0 < k <= |pos| * |pos|
    ensures |FilledCells(Alignments(Finders(n), n, pos, k), n)|
         == |FilledCells(Alignments(Finders(n), n, pos, k - 1), n)| + if Open(n, pos, k - 1) then 25 else 0
  {
    hide Finders, Alignments, Open, Covers, TablePositions, PairAt, InFinders, FilledCells;
    var before, after := Alignments(Finders(n), n, pos, k - 1), Alignments(Finders(n), n, pos, k);
    forall r: nat, c: nat | r < n && c < n
      ensures At(after, r, c).Some? <==> At(before, r, c).Some? || (Open(n, pos, k - 1) && Covers(pos, k - 1, r, c))
      ensures Open(n, pos, k - 1) && Covers(pos, k - 1, r, c) ==> At(before, r, c) == None
    {
      AlignmentsAt(n, pos, k, r, c);
      AlignmentsAt(n, pos, k - 1, r, c);
      if Open(n, pos, k - 1) && Covers(pos, k - 1, r, c) {
        PatternIsClear(n, pos, k - 1, r, c);
        forall j | 0 <= j < k - 1 ensures !Covers(pos, j, r, c) {
          PairsApart(n, pos, k - 1, j, r, c);
        }
      }
    }
    if Open(n, pos, k - 1) {
      var square := PatternSquare(n, pos, k - 1);
      FilledGrows(before, after, n, square);
    } else {
      FilledGrows(before, after, n, {});
    }
  }

  lemma PatternSquare(n: nat, pos: seq<nat>, k: nat) returns (square: set<Cell>)
    requires n >= 21 && n % 2 == 1 && TablePositions(pos, n) && k < |pos| * |pos| && Open(n, pos, k)
    ensures |square| == 25
    ensures forall r: nat, c: nat :: (r, c) in square <==> r < n && c < n && Covers(pos, k, r, c)
  {
    hide PairAt, TablePositions, Open;
    OpenPair(n, pos, k);
    var (row, col) := PairAt(pos, k);
    square := Rect(row - 2, 5, col - 2, 5);
    RectSize(row - 2, 5, col - 2, 5);
  }

  function AllPatterns(n: nat, pos: seq<nat>): nat {
    PatternsDrawn(n, pos, |pos| * |pos|)
  }

  /** All pairs but the three on finders. */
  lemma {:induction false} PatternCount(n: nat, pos: seq<nat>, k: nat)
    requires n >= 21 && TablePositions(pos, n) && |pos| >= 2 && k <= |pos| * |pos|
    ensures var a := |pos|;
            PatternsDrawn(n, pos, k) == k - (if k > 0 then 1 else 0) - (if k > a - 1 then 1 else 0)
                                     - (if k > a * (a - 1) then 1 else 0)
  {
    hide Open, TablePositions;
    if k > 0 {
      PatternCount(n, pos, k - 1);
      OpenWhen(n, pos, k - 1);
      LastRow(|pos|);
    }
  }

  lemma LastRow(a: nat)
    requires a >= 2
    ensures a - 1 < a * (a - 1) < a * a
  {
    assert a * (a - 1) - (a - 1) == (a - 1) * (a - 1);
    assert (a - 1) * (a - 1) >= a - 1 by { MulAtLeast(a - 1, a - 1); }
    assert a * a - a * (a - 1) == a;
  }

  lemma OpenWhen(n: nat, pos: seq<nat>, k: nat)
    requires n >= 21 && TablePositions(pos, n) && |pos| >= 2 && k < |pos| * |pos|
    ensures Open(n, pos, k) <==> k != 0 && k != |pos| - 1 && k != |pos| * (|pos| - 1)
  {
    var a := |pos|;
    hide PairAt;
    var i, j := PairIs(pos, k);
    FinderPair(n, pos, i, j);
    FinderIndex(a, i, j, k);
  }

  /** A pair's centre is in a finder exactly for three combinations of first and last position. */
  lemma FinderPair(n: nat, pos: seq<nat>, i: nat, j: nat)
    requires n >= 21 && TablePositions(pos, n) && |pos| >= 2 && i < |pos| && j < |pos|
    ensures var a := |pos|;
            InFinders(n, pos[i], pos[j]) <==> (i == 0 && j == 0) || (i == 0 && j == a - 1) || (i == a - 1 && j == 0)
  {
    EndOrBetween(n, pos, i);
    EndOrBetween(n, pos, j);
  }

  lemma EndOrBetween(n: nat, pos: seq<nat>, i: nat)
    requires n >= 21 && TablePositions(pos, n) && |pos| >= 2 && i < |pos|
    ensures i == 0 <==> pos[i] == 6
    ensures i == |pos| - 1 <==> pos[i] == n - 7
    ensures i != 0 && i != |pos| - 1 ==> 12 <= pos[i] <= n - 14
  {
  }

  lemma FinderIndex(a: nat, i: nat, j: nat, k: nat)
    requires a >= 2 && i < a && j < a && k == a * i + j
    ensures k == 0 <==> i == 0 && j == 0
    ensures k == a - 1 <==> i == 0 && j == a - 1
    ensures k == a * (a - 1) <==> i == a - 1 && j == 0
  {
    if i > 0 {
      assert a * i >= a by { MulAtLeast(i, a); }
    }
    if i < a - 1 {
      assert a * (a - 1) - a * i == a * (a - 1 - i);
      assert a * (a - 1 - i) >= a by { MulAtLeast(a - 1 - i, a); }
    }
  }

  // ---- the timing lines ----

  ghost function Range(a: nat, b: nat): (s: set<nat>)
    ensures forall c :: c in s <==> a <= c < b
    ensures |s| == if a <= b then b - a else 0
    decreases b
  {
    if b <= a then {} else Range(a, b - 1) + {b - 1}
  }

  ghost function Around(p: nat): set<nat> {
    Range(if p < 2 then 0 else p - 2, p + 3)
  }

  /** The modules of row 6 between the finders that patterns at the inner positions below m cover. */
  ghost function OnLine(pos: seq<nat>, m: nat): set<nat>
    requires m <= |pos|
  {
    if m <= 1 then {} else OnLine(pos, m - 1) + Around(pos[m - 1])
  }

  lemma {:induction false} OnLineHas(pos: seq<nat>, m: nat, c: nat)
    requires m <= |pos|
    ensures c in OnLine(pos, m) <==> exists i :: 0 < i < m && pos[i] - 2 <= c <= pos[i] + 2
    decreases m
  {
    hide Range;
    if m > 1 {
      OnLineHas(pos, m - 1, c);
      assert c in OnLine(pos, m) <==> c in OnLine(pos, m - 1) || pos[m - 1] - 2 <= c <= pos[m - 1] + 2;
    }
  }

  lemma {:induction false} OnLineSize(n: nat, pos: seq<nat>, m: nat)
    requires n >= 21 && TablePositions(pos, n) && 1 <= m < |pos|
    ensures |OnLine(pos, m)| == 5 * (m - 1)
    ensures OnLine(pos, m) <= Range(8, if m == 1 then 8 else pos[m - 1] + 3)
    decreases m
  {
    hide TablePositions;
    if m > 1 {
      OnLineSize(n, pos, m - 1);
      InnerGap(n, pos, m);
      var p := pos[m - 1];
      assert OnLine(pos, m - 1) * Around(p) == {};
      Disjoint(OnLine(pos, m - 1), Around(p));
    }
  }

  lemma InnerGap(n: nat, pos: seq<nat>, m: nat)
    requires n >= 21 && TablePositions(pos, n) && 1 < m < |pos|
    ensures 12 <= pos[m - 1] <= n - 14
    ensures m > 2 ==> pos[m - 2] + 5 <= pos[m - 1]
  {
  }

  /** The modules of a line that are still null when the line is drawn. */
  ghost function Gaps(n: nat, pos: seq<nat>): set<nat>
    requires n >= 21
  {
    Range(8, n - 8) - (if |pos| == 0 then {} else OnLine(pos, |pos| - 1))
  }

  /** Positions between first and last. */
  function Inner(pos: seq<nat>): nat {
    if |pos| < 2 then 0 else |pos| - 2
  }

  lemma Without(all: set<nat>, some: set<nat>)
    requires some <= all
    ensures |all - some| == |all| - |some|
  {
    assert all == (all - some) + some && (all - some) * some == {};
    Disjoint(all - some, some);
  }

  lemma GapsSize(n: nat, pos: seq<nat>)
    requires n >= 21 && TablePositions(pos, n)
    ensures |Gaps(n, pos)| == n - 16 - 5 * Inner(pos)
  {
    hide TablePositions, Range, OnLine;
    TableSize(n, pos);
    if |pos| > 0 {
      OnLineSize(n, pos, |pos| - 1);
      var on := OnLine(pos, |pos| - 1);
      if |pos| > 2 {
        InnerGap(n, pos, |pos| - 1);
      }
      Without(Range(8, n - 8), on);
    }
  }

  lemma GapMeans(n: nat, pos: seq<nat>, c: nat)
    requires n >= 21
    ensures c in Gaps(n, pos)
       <==> 8 <= c < n - 8 && !exists i :: 0 < i < |pos| - 1 && pos[i] - 2 <= c <= pos[i] + 2
  {
    hide Range, OnLine;
    if |pos| > 0 {
      OnLineHas(pos, |pos| - 1, c);
    }
  }

  lemma PairWith(n: nat, pos: seq<nat>, i: nat, j: nat) returns (k: nat)
    requires i < |pos| && j < |pos|
    ensures k < |pos| * |pos| && PairAt(pos, k) == (pos[i], pos[j])
  {
    k := |pos| * i + j;
    DivModUnique(k, |pos|, i, j);
    assert |pos| * |pos| - |pos| * i == |pos| * (|pos| - i);
    assert |pos| * (|pos| - i) >= |pos| by { MulAtLeast(|pos| - i, |pos|); }
  }

  /** On both lines exactly the gaps are null before the timing pattern is drawn. */
  lemma LineModules(n: nat, pos: seq<nat>, c: nat)
    requires n >= 21 && n % 2 == 1 && TablePositions(pos, n) && 8 <= c < n - 8
    ensures var h := Alignments(Finders(n), n, pos, |pos| * |pos|);
            && (At(h, 6, c) == None <==> c in Gaps(n, pos))
            && (At(h, c, 6) == None <==> c in Gaps(n, pos))
  {
    hide Finders, Alignments, Open, TablePositions, PairAt, Gaps, Covers;
    var k := |pos| * |pos|;
    AlignmentsAt(n, pos, k, 6, c);
    AlignmentsAt(n, pos, k, c, 6);
    GapMeans(n, pos, c);
    if c in Gaps(n, pos) {
      forall j | 0 <= j < k && Open(n, pos, j) ensures !Covers(pos, j, 6, c) && !Covers(pos, j, c, 6) {
        NotInGap(n, pos, j, c);
      }
    } else {
      var i :| 0 < i < |pos| - 1 && pos[i] - 2 <= c <= pos[i] + 2;
      InnerPairs(n, pos, i, c);
    }
  }

  lemma NotInGap(n: nat, pos: seq<nat>, j: nat, c: nat)
    requires n >= 21 && n % 2 == 1 && TablePositions(pos, n) && j < |pos| * |pos| && Open(n, pos, j)
    requires c in Gaps(n, pos)
    ensures !Covers(pos, j, 6, c) && !Covers(pos, j, c, 6)
  {
    hide TablePositions, Open, PairAt, Gaps;
    OpenPair(n, pos, j);
    var (row, col) := PairAt(pos, j);
    var i, i' := PairIs(pos, j);
    GapMeans(n, pos, c);
    InnerIs(n, pos, i);
    InnerIs(n, pos, i');
  }

  lemma InnerIs(n: nat, pos: seq<nat>, i: nat)
    requires n >= 21 && TablePositions(pos, n) && i < |pos|
    ensures 12 <= pos[i] <= n - 14 ==> 0 < i < |pos| - 1
  {
  }

  lemma InnerPairs(n: nat, pos: seq<nat>, i: nat, c: nat)
    requires n >= 21 && n % 2 == 1 && TablePositions(pos, n) && 0 < i < |pos| - 1
    requires pos[i] - 2 <= c <= pos[i] + 2
    ensures Aligned(n, pos, |pos| * |pos|, 6, c) && Aligned(n, pos, |pos| * |pos|, c, 6)
  {
    hide PairAt;
    var k := PairWith(n, pos, 0, i);
    var k' := PairWith(n, pos, i, 0);
    assert Open(n, pos, k) && Covers(pos, k, 6, c);
    assert Open(n, pos, k') && Covers(pos, k', c, 6);
  }

  ghost function InRow(s: set<nat>): set<Cell> {
    set c | c in s :: (6, c)
  }

  ghost function InColumn(s: set<nat>): set<Cell> {
    set c | c in s :: (c, 6)
  }

  lemma {:induction false} LineSize(s: set<nat>)
    ensures |InRow(s)| == |s| && |InColumn(s)| == |s|
    decreases |s|
  {
    if s == {} {
      assert InRow(s) == {} && InColumn(s) == {};
    } else {
      var x :| x in s;
      var rest := s - {x};
      LineSize(rest);
      assert s == rest + {x};
      assert InRow(s) == InRow(rest) + {(6, x)} && (6, x) !in InRow(rest);
      assert InColumn(s) == InColumn(rest) + {(x, 6)} && (x, 6) !in InColumn(rest);
    }
  }

  lemma TimingFills(version: nat, pos: seq<nat>)
    requires version >= 1 && TablePositions(pos, SideOf(version))
    ensures var n := SideOf(version);
            |FilledCells(FixedPatterns(version, pos), n)|
            == 192 + 25 * AllPatterns(n, pos) + 2 * (n - 16 - 5 * Inner(pos))
  {
    var n, k := SideOf(version), |pos| * |pos|;
    hide Finders, Alignments, TablePositions, FilledCells, Gaps, InRow, InColumn, Inner;
    var before, after := Alignments(Finders(n), n, pos, k), FixedPatterns(version, pos);
    AlignmentsFill(n, pos, k);
    GapsSize(n, pos);
    GapCells(n, pos);
    var cells := InRow(Gaps(n, pos)) + InColumn(Gaps(n, pos));
    forall c: nat | 8 <= c < n - 8
      ensures At(before, 6, c) == None <==> c in Gaps(n, pos)
      ensures At(before, c, 6) == None <==> c in Gaps(n, pos)
    {
      LineModules(n, pos, c);
    }
    FilledGrows(before, after, n, cells);
  }

  lemma GapCells(n: nat, pos: seq<nat>)
    requires n >= 21
    ensures var gaps := Gaps(n, pos);
            && (forall c :: c in gaps ==> 8 <= c < n - 8)
            && |InRow(gaps) + InColumn(gaps)| == 2 * |gaps|
            && forall r: nat, c: nat :: (r, c) in InRow(gaps) + InColumn(gaps)
                 <==> (r == 6 && c in gaps) || (c == 6 && r in gaps)
  {
    var gaps := Gaps(n, pos);
    assert forall c :: c in gaps ==> 8 <= c < n - 8;
    hide Gaps;
    LineSize(gaps);
    assert InRow(gaps) * InColumn(gaps) == {};
    Disjoint(InRow(gaps), InColumn(gaps));
  }

  // ---- format and version information ----

  /** A module outside finders, alignment patterns and lines is null until information is written. */
  lemma NullBeforeInformation(version: nat, pos: seq<nat>, r: nat, c: nat)
    requires version >= 1 && TablePositions(pos, SideOf(version)) && r < SideOf(version) && c < SideOf(version)
    requires (r, c) in TypeInfoCells(SideOf(version))
             || (version >= 7 && (r, c) in TypeNumberCells(SideOf(version)))
    ensures At(FixedPatterns(version, pos), r, c) == None
  {
    var n, k := SideOf(version), |pos| * |pos|;
    hide Finders, Alignments, TypeInfoCells, TypeNumberCells, TablePositions, PairAt, Open, Covers, InFinders;
    AlignmentsAt(n, pos, k, r, c);
    forall j | 0 <= j < k && Open(n, pos, j) ensures !Covers(pos, j, r, c) {
      if Covers(pos, j, r, c) {
        PatternIsClear(n, pos, j, r, c);
      }
    }
    if InFinders(n, r, c) {
      InformationAt(n, r, c);
    }
    if r == 6 && 8 <= c < n - 8 {
      LineIsClear(n, c);
    }
    if c == 6 && 8 <= r < n - 8 {
      LineIsClear(n, r);
    }
  }

  lemma InformationAt(n: nat, r: nat, c: nat)
    requires n >= 21 && InFinders(n, r, c)
    ensures (r, c) !in TypeInfoCells(n) && (n >= 45 ==> (r, c) !in TypeNumberCells(n))
  {
    hide TypeInfoCells, TypeNumberCells, InFinders;
    forall k | 0 <= k < 31 ensures TypeInfoCells(n)[k] != (r, c) {
      FindersAreNoInfoCells(n, r, c, k);
    }
    if n >= 45 {
      forall k | 0 <= k < 36 ensures TypeNumberCells(n)[k] != (r, c) {
        FindersAreNoInfoCells(n, r, c, k);
      }
    }
  }

  lemma InformationCells(version: nat) returns (cells: set<Cell>)
    requires version >= 1
    ensures var n := SideOf(version);
            && |cells| == 31 + (if version >= 7 then 36 else 0)
            && forall r: nat, c: nat :: (r, c) in cells
                 <==> (r, c) in TypeInfoCells(n) || (version >= 7 && (r, c) in TypeNumberCells(n))
    ensures forall cell :: cell in cells ==> cell.0 < SideOf(version) && cell.1 < SideOf(version)
  {
    var n := SideOf(version);
    hide TypeInfoCells, TypeNumberCells;
    InfoCellsInRange(n);
    forall i, j | 0 <= i < j < 31 ensures TypeInfoCells(n)[i] != TypeInfoCells(n)[j] {
      WrittenOnce(n, i);
    }
    CellSetSize(TypeInfoCells(n));
    cells := CellSet(TypeInfoCells(n));
    if version >= 7 {
      forall i, j | 0 <= i < j < 36 ensures TypeNumberCells(n)[i] != TypeNumberCells(n)[j] {
        VersionWrittenOnce(n, i);
      }
      CellSetSize(TypeNumberCells(n));
      var more := CellSet(TypeNumberCells(n));
      forall k | 0 <= k < 31 ensures TypeInfoCells(n)[k] !in more {
        NotVersionCell(n, k);
      }
      assert cells * more == {};
      Disjoint(cells, more);
      cells := cells + more;
    }
  }

  // ---- the closed form ----

  /** Modules open to data in a version with a alignment positions. */
  function OpenModules(version: nat, a: nat): int {
    var n := 4 * version + 17;
    n * n - 223 - 2 * (n - 16) - (if version >= 7 then 36 else 0) - (if a < 2 then 0 else 25 * (a * a) - 10 * a - 55)
  }

  lemma SetupCount(version: nat, pos: seq<nat>)
    requires version >= 1 && TablePositions(pos, SideOf(version))
    ensures var n := SideOf(version);
            |FilledCells(FunctionPatterns(version, pos, 0, true), n)|
            == 192 + 25 * AllPatterns(n, pos) + 2 * (n - 16 - 5 * Inner(pos))
               + 31 + (if version >= 7 then 36 else 0)
  {
    var n := SideOf(version);
    hide FixedPatterns, FunctionPatterns, TypeInfoCells, TypeNumberCells, TablePositions, FilledCells, SideOf, AllPatterns, Inner;
    TimingFills(version, pos);
    var before, after := FixedPatterns(version, pos), FunctionPatterns(version, pos, 0, true);
    var cells := InformationCells(version);
    forall r: nat, c: nat | r < n && c < n
      ensures At(after, r, c).Some? <==> At(before, r, c).Some? || (r, c) in cells
    {
      SetupIs(version, pos, r, c);
    }
    forall cell | cell in cells ensures At(before, cell.0, cell.1) == None {
      NullBeforeInformation(version, pos, cell.0, cell.1);
    }
    FilledGrows(before, after, n, cells);
  }

  lemma SetupIs(version: nat, pos: seq<nat>, r: nat, c: nat)
    requires version >= 1
    ensures var n := SideOf(version);
            At(FunctionPatterns(version, pos, 0, true), r, c).Some?
            <==> At(FixedPatterns(version, pos), r, c).Some? || (r, c) in TypeInfoCells(n)
                 || (version >= 7 && (r, c) in TypeNumberCells(n))
  {
    hide FixedPatterns, TypeInfoCells, TypeNumberCells, WithTypeInfo, WithTypeNumber;
    SetupFills(FixedPatterns(version, pos), SideOf(version), version, 0, true, r, c);
  }

  lemma PatternTotal(n: nat, pos: seq<nat>)
    requires n >= 21 && TablePositions(pos, n)
    ensures var a := |pos|;
            25 * AllPatterns(n, pos) - 10 * Inner(pos) == if a < 2 then 0 else 25 * (a * a) - 10 * a - 55
  {
    hide TablePositions, PatternsDrawn;
    var a := |pos|;
    if a >= 2 {
      PatternCount(n, pos, a * a);
      LastRow(a);
    } else {
      TableSize(n, pos);
      assert PatternsDrawn(n, pos, 0) == 0 by { NoPatterns(n, pos); }
    }
  }

  lemma TableSize(n: nat, pos: seq<nat>)
    requires TablePositions(pos, n)
    ensures |pos| != 1
  {
  }

  lemma NoPatterns(n: nat, pos: seq<nat>)
    ensures PatternsDrawn(n, pos, 0) == 0
  {
  }

  lemma Balance(version: nat, a: nat, n: nat, free: nat, filled: nat, p: nat, inner: nat)
    requires n == 4 * version + 17 && free + filled == n * n
    requires filled == 192 + 25 * p + 2 * (n - 16 - 5 * inner) + 31 + (if version >= 7 then 36 else 0)
    requires 25 * p - 10 * inner == if a < 2 then 0 else 25 * (a * a) - 10 * a - 55
    ensures free == OpenModules(version, a)
  {
  }

  lemma FreeIsRest(version: nat, pos: seq<nat>)
    requires version >= 1
    ensures var n := SideOf(version);
            var g := FunctionPatterns(version, pos, 0, true);
            FreeCount(g, n, Steps(n)) + |FilledCells(g, n)| == n * n
  {
    var n := SideOf(version);
    var g := FunctionPatterns(version, pos, 0, true);
    hide FunctionPatterns, FilledCells, Null, Steps, FreeCount;
    forall r | 0 <= r < n ensures At(g, r, 6).Some? {
      ColumnSixIsFull(version, pos, 0, true, r);
    }
    FreeIsNull(g, n);
    NullSize(g, n);
  }

  /** The walk finds exactly as many open modules. */
  lemma FreeCountIs(version: nat, pos: seq<nat>)
    requires version >= 1 && TablePositions(pos, SideOf(version))
    ensures var n := SideOf(version);
            FreeCount(FunctionPatterns(version, pos, 0, true), n, Steps(n)) == OpenModules(version, |pos|)
  {
    var n := SideOf(version);
    var g := FunctionPatterns(version, pos, 0, true);
    hide FunctionPatterns, TablePositions, FilledCells, AllPatterns, Inner, Steps, FreeCount, OpenModules;
    FreeIsRest(version, pos);
    SetupCount(version, pos);
    PatternTotal(n, pos);
    Balance(version, |pos|, n, FreeCount(g, n, Steps(n)), |FilledCells(g, n)|, AllPatterns(n, pos), Inner(pos));
  }
}
