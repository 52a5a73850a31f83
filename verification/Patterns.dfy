/** Timing and alignment patterns, for alignment positions like those of the source's table: nothing
    drawn later covers them, and no two function patterns share a module but where they agree. */
module Patterns {
  import opened Results
  import opened ModuleGrid

  /** What each row of the table satisfies: none, or from 6 to n - 7 with gaps, the ones between clear of
      everything along the edges, and all of them even. */
  predicate TablePositions(pos: seq<nat>, n: nat) {
    |pos| == 0
    || (&& |pos| >= 2 && pos[0] == 6 && pos[|pos| - 1] == n - 7
        && (forall i :: 0 < i < |pos| - 1 ==> 12 <= pos[i] <= n - 14 && pos[i] % 2 == 0)
        && (forall i, j :: 0 <= i < j < |pos| ==> pos[i] + 5 <= pos[j]))
  }

  lemma TableIsSpaced(pos: seq<nat>, n: nat)
    requires n >= 21 && TablePositions(pos, n)
    ensures SpacedPositions(pos, n) && ValidPositions(pos, n)
  {
    forall i | 0 <= i < |pos| ensures Spaced(pos[i], n) && 2 <= pos[i] && pos[i] + 2 < n {
      assert i == 0 || i == |pos| - 1 || 0 < i < |pos| - 1;
    }
  }

  // ---- pairs of positions ----

  /** The k-th pair is not the centre line of a finder: a pattern is drawn there. */
  predicate Open(n: nat, pos: seq<nat>, k: nat)
    requires k < |pos| * |pos|
  {
    var (row, col) := PairAt(pos, k);
    !InFinders(n, row, col)
  }

  predicate Covers(pos: seq<nat>, k: nat, r: int, c: int)
    requires k < |pos| * |pos|
  {
    var (row, col) := PairAt(pos, k);
    -2 <= r - row <= 2 && -2 <= c - col <= 2
  }

  /** Some pattern of the first k pairs covers the module. */
  ghost predicate Aligned(n: nat, pos: seq<nat>, k: nat, r: int, c: int)
    requires k <= |pos| * |pos|
  {
    exists j :: 0 <= j < k && Open(n, pos, j) && Covers(pos, j, r, c)
  }

  /** Different pairs are too far apart to cover the same module. */
  lemma PairsApart(n: nat, pos: seq<nat>, j: nat, k: nat, r: int, c: int)
    requires TablePositions(pos, n) && j < |pos| * |pos| && k < |pos| * |pos| && j != k
    requires Covers(pos, j, r, c)
    ensures !Covers(pos, k, r, c)
  {
    hide PairAt, TablePositions;
    PairsFar(n, pos, j, k);
  }

  predicate Far(p: nat, q: nat) {
    p + 5 <= q || q + 5 <= p
  }

  lemma PairsFar(n: nat, pos: seq<nat>, j: nat, k: nat)
    requires TablePositions(pos, n) && j < |pos| * |pos| && k < |pos| * |pos| && j != k
    ensures Far(PairAt(pos, j).0, PairAt(pos, k).0) || Far(PairAt(pos, j).1, PairAt(pos, k).1)
  {
    hide TablePositions, PairAt;
    var i, i' := PairIs(pos, j);
    var l, l' := PairIs(pos, k);
    assert i != l || i' != l';
    GapBetween(pos, n, i, l);
    GapBetween(pos, n, i', l');
  }

  lemma PairIs(pos: seq<nat>, k: nat) returns (i: nat, i': nat)
    requires k < |pos| * |pos|
    ensures i < |pos| && i' < |pos| && PairAt(pos, k) == (pos[i], pos[i']) && k == |pos| * i + i'
  {
    PairInRange(k, |pos|);
    i, i' := k / |pos|, k % |pos|;
  }

  lemma GapBetween(pos: seq<nat>, n: nat, i: nat, j: nat)
    requires TablePositions(pos, n) && i < |pos| && j < |pos|
    ensures i != j ==> Far(pos[i], pos[j])
  {
  }

  lemma CoversItself(pos: seq<nat>, k: nat)
    requires k < |pos| * |pos|
    ensures var (row, col) := PairAt(pos, k); Covers(pos, k, row, col)
  {
    hide PairAt;
  }

  lemma PositionIs(pos: seq<nat>, n: nat, p: nat)
    requires n >= 21 && n % 2 == 1 && TablePositions(pos, n) && p in pos
    ensures (p == 6 || p == n - 7 || 12 <= p <= n - 14) && p % 2 == 0
  {
    var i :| 0 <= i < |pos| && pos[i] == p;
    assert i == 0 || i == |pos| - 1 || 0 < i < |pos| - 1;
  }

  // ---- what the alignment patterns leave ----

  /** A module after the first k pairs: as the finders or the one pattern covering it have it. */
  ghost predicate AsDrawn(n: nat, pos: seq<nat>, k: nat, r: nat, c: nat, m: Module)
    requires k <= |pos| * |pos|
  {
    && (Aligned(n, pos, k, r, c) || InFinders(n, r, c) <==> m.Some?)
    && forall j :: 0 <= j < k && Open(n, pos, j) && Covers(pos, j, r, c) ==> m == Some(PatternDark(pos, j, r, c))
  }

  lemma {:induction false} AlignmentsAt(n: nat, pos: seq<nat>, k: nat, r: nat, c: nat)
    requires n >= 21 && n % 2 == 1 && TablePositions(pos, n) && k <= |pos| * |pos| && r < n && c < n
    ensures AsDrawn(n, pos, k, r, c, At(Alignments(Finders(n), n, pos, k), r, c))
    decreases k
  {
    hide Finders, Alignment, Alignments, At, FinderDark, InFinders, PairAt, TablePositions, Covers, Open, AsDrawn;
    if k == 0 {
      FindersAt(n, r, c);
      NothingAligned(n, pos, r, c);
    } else {
      NextPair(Finders(n), n, pos, k - 1);
      var h := Alignments(Finders(n), n, pos, k - 1);
      var (row, col) := PairAt(pos, k - 1);
      AlignmentsAt(n, pos, k - 1, r, c);
      if Open(n, pos, k - 1) {
        PositionIs(pos, n, row);
        PositionIs(pos, n, col);
        AlignmentsAt(n, pos, k - 1, row, col);
        CentreIsNull(n, pos, k - 1, h);
        DrawnAt(h, n, pos, k - 1, r, c);
      } else {
        FinderCentre(n, pos, k - 1);
      }
      DrawnNext(n, pos, k - 1, r, c, At(h, r, c));
    }
  }

  lemma NothingAligned(n: nat, pos: seq<nat>, r: nat, c: nat)
    requires n >= 21 && r < n && c < n
    requires InFinders(n, r, c) <==> At(Finders(n), r, c).Some?
    ensures AsDrawn(n, pos, 0, r, c, At(Alignments(Finders(n), n, pos, 0), r, c))
  {
    hide Finders, At;
  }

  lemma DrawnNext(n: nat, pos: seq<nat>, k: nat, r: nat, c: nat, m: Module)
    requires TablePositions(pos, n) && k < |pos| * |pos| && AsDrawn(n, pos, k, r, c, m)
    ensures AsDrawn(n, pos, k + 1, r, c, if Open(n, pos, k) && Covers(pos, k, r, c) then Some(PatternDark(pos, k, r, c))
                                         else m)
  {
    hide TablePositions, Covers, Open, PatternDark, InFinders;
    OnlyThisOne(n, pos, k, r, c);
    OneMorePair(n, pos, k + 1, r, c);
  }

  lemma OneMorePair(n: nat, pos: seq<nat>, k: nat, r: int, c: int)
    requires 0 < k <= |pos| * |pos|
    ensures Aligned(n, pos, k, r, c) <==>
            Aligned(n, pos, k - 1, r, c) || (Open(n, pos, k - 1) && Covers(pos, k - 1, r, c))
  {
    hide Open, Covers;
  }

  lemma OnlyThisOne(n: nat, pos: seq<nat>, k: nat, r: int, c: int)
    requires TablePositions(pos, n) && k < |pos| * |pos|
    ensures Covers(pos, k, r, c) ==> forall j :: 0 <= j < k ==> !Covers(pos, j, r, c)
  {
    hide TablePositions, Covers;
    if Covers(pos, k, r, c) {
      forall j | 0 <= j < k ensures !Covers(pos, j, r, c) {
        PairsApart(n, pos, k, j, r, c);
      }
    }
  }

  /** The centre of an open pair is null when its turn comes. */
  lemma CentreIsNull(n: nat, pos: seq<nat>, k: nat, h: Grid)
    requires n >= 21 && TablePositions(pos, n) && k < |pos| * |pos| && Open(n, pos, k)
    requires var (row, col) := PairAt(pos, k); AsDrawn(n, pos, k, row, col, At(h, row, col))
    ensures var (row, col) := PairAt(pos, k); At(h, row, col) == None
  {
    hide TablePositions, PairAt, Covers, InFinders;
    var (row, col) := PairAt(pos, k);
    CoversItself(pos, k);
    OnlyThisOne(n, pos, k, row, col);
  }

  lemma FinderCentre(n: nat, pos: seq<nat>, k: nat)
    requires n >= 21 && n % 2 == 1 && TablePositions(pos, n) && k < |pos| * |pos| && !Open(n, pos, k)
    ensures var (row, col) := PairAt(pos, k); At(Alignments(Finders(n), n, pos, k), row, col).Some?
  {
    hide TablePositions, PairAt, InFinders, Finders, Alignments, FinderDark;
    var (row, col) := PairAt(pos, k);
    PositionIs(pos, n, row);
    PositionIs(pos, n, col);
    FindersAt(n, row, col);
    AlignmentsKeep(Finders(n), n, pos, k, row, col);
  }

  /** The outer ring and the centre. */
  function PatternDark(pos: seq<nat>, k: nat, r: int, c: int): bool
    requires k < |pos| * |pos|
  {
    var (row, col) := PairAt(pos, k);
    RingOf(r - row, c - col) in {0, 2}
  }

  lemma AlignmentIsRings(r: int, c: int)
    requires -2 <= r <= 2 && -2 <= c <= 2
    ensures AlignmentDark(r, c) == (RingOf(r, c) in {0, 2})
  {
  }

  lemma DrawnAt(h: Grid, n: nat, pos: seq<nat>, k: nat, r: nat, c: nat)
    requires IsSquare(h, n) && k < |pos| * |pos| && r < n && c < n
    ensures var (row, col) := PairAt(pos, k);
            At(Alignment(h, n, row, col), r, c)
            == if Covers(pos, k, r, c) then Some(PatternDark(pos, k, r, c)) else At(h, r, c)
  {
    hide PairAt, AlignmentDark, RingOf;
    if Covers(pos, k, r, c) {
      var (row, col) := PairAt(pos, k);
      AlignmentIsRings(r - row, c - col);
    }
  }

  /** Where an open pair's pattern is: between the finders' edges, or at the corner without a finder. */
  lemma OpenPair(n: nat, pos: seq<nat>, k: nat)
    requires n >= 21 && n % 2 == 1 && TablePositions(pos, n) && k < |pos| * |pos| && Open(n, pos, k)
    ensures var (row, col) := PairAt(pos, k);
            && row % 2 == 0 && col % 2 == 0
            && ( || (12 <= row <= n - 14 && (col == 6 || col == n - 7 || 12 <= col <= n - 14))
                 || (12 <= col <= n - 14 && (row == 6 || row == n - 7))
                 || (row == n - 7 && col == n - 7))
  {
    hide PairAt, TablePositions;
    var (row, col) := PairAt(pos, k);
    PositionIs(pos, n, row);
    PositionIs(pos, n, col);
  }

  // ---- timing and alignment patterns in the finished setup ----

  /** A module that neither format nor version information is written to keeps what the fixed patterns
      gave it. */
  lemma NotInformation(version: nat, pos: seq<nat>, data: nat, test: bool, r: nat, c: nat)
    requires version >= 1 && r < SideOf(version) && c < SideOf(version)
    requires (r, c) !in TypeInfoCells(SideOf(version))
    requires version >= 7 ==> (r, c) !in TypeNumberCells(SideOf(version))
    ensures At(FunctionPatterns(version, pos, data, test), r, c) == At(FixedPatterns(version, pos), r, c)
  {
    var n := SideOf(version);
    hide FixedPatterns, TypeInfoCells, TypeInfoValues, TypeNumberCells, TypeNumberValues, Write;
    InfoCellsInRange(n);
    var g := FixedPatterns(version, pos);
    WriteOutside(g, n, TypeInfoCells(n), TypeInfoValues(Bch.TypeInfo(data), test), r, c);
    if version >= 7 {
      WriteOutside(WithTypeInfo(g, n, data, test), n, TypeNumberCells(n),
                   TypeNumberValues(Bch.TypeNumber(version), test), r, c);
    }
  }

  /** The lines between the finders are no information modules. */
  lemma LineIsClear(n: nat, c: nat)
    requires n >= 21 && 8 <= c < n - 8
    ensures (6, c) !in TypeInfoCells(n) && (c, 6) !in TypeInfoCells(n)
    ensures n >= 45 ==> (6, c) !in TypeNumberCells(n) && (c, 6) !in TypeNumberCells(n)
  {
    forall k | 0 <= k < 31 ensures TypeInfoCells(n)[k] != (6, c) && TypeInfoCells(n)[k] != (c, 6) {
      TypeInfoCellIs(n, k);
    }
    if n >= 45 {
      forall k | 0 <= k < 36 ensures TypeNumberCells(n)[k] != (6, c) && TypeNumberCells(n)[k] != (c, 6) {
        TypeNumberCellIs(n, k);
      }
    }
  }

  /** Where an alignment pattern lies on a line it continues the line's alternation. */
  lemma PatternOnLine(n: nat, pos: seq<nat>, k: nat, c: nat)
    requires n >= 21 && n % 2 == 1 && TablePositions(pos, n) && k < |pos| * |pos| && Open(n, pos, k)
    ensures Covers(pos, k, 6, c) ==> PatternDark(pos, k, 6, c) == (c % 2 == 0)
    ensures Covers(pos, k, c, 6) ==> PatternDark(pos, k, c, 6) == (c % 2 == 0)
  {
    hide PairAt, TablePositions, Open;
    OpenPair(n, pos, k);
  }

  /** Both timing lines alternate without a break from one finder to the other. */
  lemma TimingStands(version: nat, pos: seq<nat>, data: nat, test: bool, c: nat)
    requires version >= 1 && TablePositions(pos, SideOf(version)) && 8 <= c < SideOf(version) - 8
    ensures At(FunctionPatterns(version, pos, data, test), 6, c) == Some(c % 2 == 0)
    ensures At(FunctionPatterns(version, pos, data, test), c, 6) == Some(c % 2 == 0)
  {
    var n, k := SideOf(version), |pos| * |pos|;
    hide Finders, Alignments, TypeInfoCells, TypeNumberCells, FunctionPatterns, TablePositions, PairAt, Open, Covers,
      PatternDark;
    LineIsClear(n, c);
    NotInformation(version, pos, data, test, 6, c);
    NotInformation(version, pos, data, test, c, 6);
    AlignmentsAt(n, pos, k, 6, c);
    AlignmentsAt(n, pos, k, c, 6);
    forall j | 0 <= j < k && Open(n, pos, j)
      ensures Covers(pos, j, 6, c) ==> PatternDark(pos, j, 6, c) == (c % 2 == 0)
      ensures Covers(pos, j, c, 6) ==> PatternDark(pos, j, c, 6) == (c % 2 == 0)
    {
      PatternOnLine(n, pos, j, c);
    }
  }

  lemma PatternIsClear(n: nat, pos: seq<nat>, k: nat, r: nat, c: nat)
    requires n >= 21 && n % 2 == 1 && TablePositions(pos, n) && k < |pos| * |pos| && Open(n, pos, k)
    requires Covers(pos, k, r, c)
    ensures r < n && c < n && !InFinders(n, r, c)
    ensures (r, c) !in TypeInfoCells(n) && (n >= 45 ==> (r, c) !in TypeNumberCells(n))
  {
    hide PairAt, TablePositions, Open;
    OpenPair(n, pos, k);
    forall i | 0 <= i < 31 ensures TypeInfoCells(n)[i] != (r, c) {
      TypeInfoCellIs(n, i);
    }
    if n >= 45 {
      forall i | 0 <= i < 36 ensures TypeNumberCells(n)[i] != (r, c) {
        TypeNumberCellIs(n, i);
      }
    }
  }

  /** Every alignment pattern is whole. */
  lemma AlignmentStands(version: nat, pos: seq<nat>, data: nat, test: bool, k: nat, r: nat, c: nat)
    requires version >= 1 && TablePositions(pos, SideOf(version)) && k < |pos| * |pos|
    requires Open(SideOf(version), pos, k) && Covers(pos, k, r, c)
    ensures At(FunctionPatterns(version, pos, data, test), r, c) == Some(PatternDark(pos, k, r, c))
  {
    var n := SideOf(version);
    hide Finders, Alignments, TypeInfoCells, TypeNumberCells, FunctionPatterns, TablePositions, PairAt, Open, Covers,
      PatternDark, InFinders;
    PatternIsClear(n, pos, k, r, c);
    NotInformation(version, pos, data, test, r, c);
    AlignmentsAt(n, pos, |pos| * |pos|, r, c);
  }

  // ---- which modules are function modules ----

  predicate OnTimingLine(n: nat, r: nat, c: nat) {
    (r == 6 && 8 <= c < n - 8) || (c == 6 && 8 <= r < n - 8)
  }

  ghost predicate InAlignment(n: nat, pos: seq<nat>, r: nat, c: nat) {
    Aligned(n, pos, |pos| * |pos|, r, c)
  }

  /** The modules kept from data: the finders with their borders, the alignment patterns, the two timing
      lines, and format and version information. */
  ghost predicate IsFunctionModule(version: nat, pos: seq<nat>, r: nat, c: nat)
    requires version >= 1
  {
    var n := SideOf(version);
    || InFinders(n, r, c) || InAlignment(n, pos, r, c) || OnTimingLine(n, r, c)
    || (r, c) in TypeInfoCells(n) || (version >= 7 && (r, c) in TypeNumberCells(n))
  }

  lemma FixedModules(version: nat, pos: seq<nat>, r: nat, c: nat)
    requires version >= 1 && TablePositions(pos, SideOf(version)) && r < SideOf(version) && c < SideOf(version)
    ensures var n := SideOf(version);
            At(FixedPatterns(version, pos), r, c).Some?
            <==> InFinders(n, r, c) || InAlignment(n, pos, r, c) || OnTimingLine(n, r, c)
  {
    var n := SideOf(version);
    hide Finders, Alignments, TablePositions, InFinders, Aligned;
    AlignmentsAt(n, pos, |pos| * |pos|, r, c);
  }

  /** Exactly these are set before the data is placed. */
  lemma FunctionModules(version: nat, pos: seq<nat>, data: nat, test: bool, r: nat, c: nat)
    requires version >= 1 && TablePositions(pos, SideOf(version)) && r < SideOf(version) && c < SideOf(version)
    ensures At(FunctionPatterns(version, pos, data, test), r, c).Some? <==> IsFunctionModule(version, pos, r, c)
  {
    var n := SideOf(version);
    hide FixedPatterns, TypeInfoCells, TypeNumberCells, WithTypeInfo, WithTypeNumber, TablePositions, InFinders,
      InAlignment, OnTimingLine;
    FixedModules(version, pos, r, c);
    SetupFills(FixedPatterns(version, pos), n, version, data, test, r, c);
  }
}
