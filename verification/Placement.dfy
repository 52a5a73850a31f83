/** Codeword placement: the zigzag walk over the matrix in two-module columns (section 7.7.3 of
    ISO/IEC 18004:2015), masked on the way (section 7.8.2), and the walk that reads it back. */
module Placement {
  import opened Bits
  import opened BitBuffer
  import opened Masks
  import opened ModuleGrid
  import opened Results

  predicate Side(n: nat) {
    n >= 21 && n % 2 == 1
  }

  // ---- the order of the walk ----

  /** The right column of the p-th pair from the right; pairs left of column 6 are shifted by one. */
  function RightColumn(n: nat, p: nat): (c: nat)
    requires Side(n) && p < (n - 1) / 2
    ensures 1 <= c < n && c != 6 && c != 7
  {
    if n - 1 - 2 * p > 6 then n - 1 - 2 * p else n - 2 - 2 * p
  }

  /** Pairs are walked upwards and downwards in turn. */
  function RowAt(n: nat, p: nat, s: nat): (r: nat)
    requires s < n
    ensures r < n
  {
    if p % 2 == 0 then n - 1 - s else s
  }

  function Steps(n: nat): nat
    requires n > 0
  {
    (2 * n) * ((n - 1) / 2)
  }

  /** The pair of columns and the place within it of the t-th visit. */
  function VisitOf(n: nat, t: nat): (v: (nat, nat))
    requires Side(n) && t < Steps(n)
    ensures v.0 < (n - 1) / 2 && v.1 < 2 * n
    ensures t == (2 * n) * v.0 + v.1
  {
    DivisionParts(2 * n, (n - 1) / 2, t);
    (t / (2 * n), t % (2 * n))
  }

  /** The t-th module visited. */
  function CellAt(n: nat, t: nat): (cell: Cell)
    requires Side(n) && t < Steps(n)
    ensures cell.0 < n && cell.1 < n && cell.1 != 6
  {
    var (p, q) := VisitOf(n, t);
    (RowAt(n, p, q / 2), RightColumn(n, p) - q % 2)
  }

  lemma DivisionParts(w: nat, m: nat, t: nat)
    requires w > 0 && t < w * m
    ensures 0 <= t / w < m && 0 <= t % w < w
    ensures t == w * (t / w) + t % w
  {
    var p, q := t / w, t % w;
    assert t == w * p + q;
    assert w * (p - m) < 0;
  }

  /** The pair of columns a module outside column 6 belongs to, and its place in the pair's walk. */
  function PlaceOf(n: nat, r: nat, c: nat): (v: (nat, nat))
    requires Side(n) && r < n && c < n && c != 6
    ensures v.0 < (n - 1) / 2 && v.1 < 2 * n
  {
    var left := if c > 6 then n - 1 - c else n - 2 - c;
    var p := left / 2;
    (p, 2 * (if p % 2 == 0 then n - 1 - r else r) + left % 2)
  }

  /** When it is visited. */
  function Rank(n: nat, r: nat, c: nat): nat
    requires Side(n) && r < n && c < n && c != 6
  {
    var (p, q) := PlaceOf(n, r, c);
    (2 * n) * p + q
  }

  lemma SplitStep(w: nat, p: nat, q: nat, m: nat)
    requires q < w && p < m
    ensures (w * p + q) / w == p && (w * p + q) % w == q
    ensures w * p + q < w * m
  {
    DivModUnique(w * p + q, w, p, q);
    assert w * m - w * p == w * (m - p);
    assert w * (m - p) >= w by { MulAtLeast(m - p, w); }
  }

  lemma CellOfPlace(n: nat, r: nat, c: nat)
    requires Side(n) && r < n && c < n && c != 6
    ensures var (p, q) := PlaceOf(n, r, c); (RowAt(n, p, q / 2), RightColumn(n, p) - q % 2) == (r, c)
  {
  }

  lemma PlaceOfCell(n: nat, p: nat, q: nat)
    requires Side(n) && p < (n - 1) / 2 && q < 2 * n
    ensures PlaceOf(n, RowAt(n, p, q / 2), RightColumn(n, p) - q % 2) == (p, q)
  {
    var c := RightColumn(n, p) - q % 2;
    var left := if c > 6 then n - 1 - c else n - 2 - c;
    assert left == 2 * p + q % 2;
  }

  /** Every module outside column 6 is visited. */
  lemma CellOfRank(n: nat, r: nat, c: nat)
    requires Side(n) && r < n && c < n && c != 6
    ensures Rank(n, r, c) < Steps(n)
    ensures CellAt(n, Rank(n, r, c)) == (r, c)
  {
    hide RowAt, RightColumn, PlaceOf;
    var (p, q) := PlaceOf(n, r, c);
    SplitStep(2 * n, p, q, (n - 1) / 2);
    CellOfPlace(n, r, c);
  }

  /** No module is visited twice. */
  lemma RankOfCell(n: nat, t: nat)
    requires Side(n) && t < Steps(n)
    ensures var (r, c) := CellAt(n, t); Rank(n, r, c) == t
  {
    hide RowAt, RightColumn, PlaceOf, VisitOf;
    var (p, q) := VisitOf(n, t);
    PlaceOfCell(n, p, q);
  }

  // ---- writing ----

  /** Bit k of the codewords; zero past their end. */
  predicate DataBit(data: seq<Byte>, k: nat) {
    k / 8 < |data| && data[k / 8] / Pow2(7 - k % 8) % 2 == 1
  }

  /** The matrix after t visits, and the number of modules filled. */
  function Walk(g: Grid, n: nat, data: seq<Byte>, mask: nat, t: nat): (s: (Grid, nat))
    requires Side(n) && IsSquare(g, n) && mask < 8 && t <= Steps(n)
    ensures IsSquare(s.0, n)
  {
    if t == 0 then (g, 0)
    else
      var (h, k) := Walk(g, n, data, mask, t - 1);
      var (r, c) := CellAt(n, t - 1);
      if At(h, r, c) == None then
        SetAt(h, n, r, c, DataBit(data, k) != MaskAt(mask, r, c));
        (Set(h, r, c, DataBit(data, k) != MaskAt(mask, r, c)), k + 1)
      else (h, k)
  }

  function Mapped(g: Grid, n: nat, data: seq<Byte>, mask: nat): (h: Grid)
    requires Side(n) && IsSquare(g, n) && mask < 8
    ensures IsSquare(h, n)
  {
    Walk(g, n, data, mask, Steps(n)).0
  }

  /** Modules not yet visited are as they were. */
  lemma {:induction false} NotYetVisited(g: Grid, n: nat, data: seq<Byte>, mask: nat, t: nat, r: nat, c: nat)
    requires Side(n) && IsSquare(g, n) && mask < 8 && t <= Steps(n) && r < n && c < n
    requires c == 6 || Rank(n, r, c) >= t
    ensures At(Walk(g, n, data, mask, t).0, r, c) == At(g, r, c)
  {
    hide DataBit, MaskAt, CellAt, Rank, Set, At;
    if t != 0 {
      NotYetVisited(g, n, data, mask, t - 1, r, c);
      RankOfCell(n, t - 1);
      var (h, k) := Walk(g, n, data, mask, t - 1);
      var (i, j) := CellAt(n, t - 1);
      SetAt(h, n, i, j, DataBit(data, k) != MaskAt(mask, i, j));
    }
  }

  /** A filled module never changes. */
  lemma {:induction false} FilledStays(g: Grid, n: nat, data: seq<Byte>, mask: nat, u: nat, t: nat, r: nat, c: nat)
    requires Side(n) && IsSquare(g, n) && mask < 8 && u <= t <= Steps(n) && r < n && c < n
    requires At(Walk(g, n, data, mask, u).0, r, c).Some?
    ensures At(Walk(g, n, data, mask, t).0, r, c) == At(Walk(g, n, data, mask, u).0, r, c)
    decreases t
  {
    hide DataBit, MaskAt, CellAt, Set, At;
    if u < t {
      FilledStays(g, n, data, mask, u, t - 1, r, c);
      var (h, k) := Walk(g, n, data, mask, t - 1);
      var (i, j) := CellAt(n, t - 1);
      SetAt(h, n, i, j, DataBit(data, k) != MaskAt(mask, i, j));
    }
  }

  /** Prefilled modules are left alone. */
  lemma PrefilledStays(g: Grid, n: nat, data: seq<Byte>, mask: nat, r: nat, c: nat)
    requires Side(n) && IsSquare(g, n) && mask < 8 && r < n && c < n
    requires At(g, r, c).Some?
    ensures At(Mapped(g, n, data, mask), r, c) == At(g, r, c)
  {
    hide CellAt, At;
    FilledStays(g, n, data, mask, 0, Steps(n), r, c);
  }

  /** The number of modules open to data. */
  function FreeCount(reserved: Grid, n: nat, t: nat): nat
    requires Side(n) && t <= Steps(n)
  {
    if t == 0 then 0
    else
      var (r, c) := CellAt(n, t - 1);
      FreeCount(reserved, n, t - 1) + if At(reserved, r, c).Some? then 0 else 1
  }

  lemma {:induction false} FilledCount(g: Grid, n: nat, data: seq<Byte>, mask: nat, t: nat)
    requires Side(n) && IsSquare(g, n) && mask < 8 && t <= Steps(n)
    ensures Walk(g, n, data, mask, t).1 == FreeCount(g, n, t)
  {
    hide DataBit, MaskAt, CellAt, Rank, Set, At;
    if t != 0 {
      FilledCount(g, n, data, mask, t - 1);
      RankOfCell(n, t - 1);
      var (r, c) := CellAt(n, t - 1);
      NotYetVisited(g, n, data, mask, t - 1, r, c);
    }
  }

  /** What visit t leaves in its module at the end of the walk. */
  lemma VisitedValue(g: Grid, n: nat, data: seq<Byte>, mask: nat, t: nat)
    requires Side(n) && IsSquare(g, n) && mask < 8 && t < Steps(n)
    ensures var (r, c) := CellAt(n, t);
            At(Mapped(g, n, data, mask), r, c)
            == if At(g, r, c).Some? then At(g, r, c)
               else Some(DataBit(data, FreeCount(g, n, t)) != Inverted(mask, r, c))
  {
    hide DataBit, MaskAt, Inverted, CellAt, Rank, Set, At;
    var (r, c) := CellAt(n, t);
    MaskIsTile(mask, r, c);
    FilledCount(g, n, data, mask, t);
    RankOfCell(n, t);
    NotYetVisited(g, n, data, mask, t, r, c);
    var (h, k) := Walk(g, n, data, mask, t);
    SetAt(h, n, r, c, DataBit(data, k) != MaskAt(mask, r, c));
    FilledStays(g, n, data, mask, t + 1, Steps(n), r, c);
  }

  /** The walk leaves no module unset when column 6 was full. */
  lemma NothingLeftNull(g: Grid, n: nat, data: seq<Byte>, mask: nat, r: nat, c: nat)
    requires Side(n) && IsSquare(g, n) && mask < 8 && r < n && c < n
    requires c == 6 ==> At(g, r, c).Some?
    ensures At(Mapped(g, n, data, mask), r, c).Some?
  {
    hide At, CellAt, Rank, Walk, Mapped;
    if c == 6 {
      PrefilledStays(g, n, data, mask, r, c);
    } else {
      CellOfRank(n, r, c);
      VisitedValue(g, n, data, mask, Rank(n, r, c));
    }
  }

  // ---- reading ----

  /** The unmasked bits of the modules that are free in `reserved`, in the order of the walk. */
  function ReadBits(reserved: Grid, g: Grid, n: nat, mask: nat, t: nat): seq<bool>
    requires Side(n) && mask < 8 && t <= Steps(n)
  {
    if t == 0 then []
    else
      var (r, c) := CellAt(n, t - 1);
      var before := ReadBits(reserved, g, n, mask, t - 1);
      if At(reserved, r, c).Some? then before
      else before + [(At(g, r, c) == Some(true)) != Inverted(mask, r, c)]
  }

  /** Reading back gives the codeword bits in order, then zeros. */
  lemma {:induction false} ReadBack(g: Grid, n: nat, data: seq<Byte>, mask: nat, t: nat)
    requires Side(n) && IsSquare(g, n) && mask < 8 && t <= Steps(n)
    ensures var bits := ReadBits(g, Mapped(g, n, data, mask), n, mask, t);
            && |bits| == FreeCount(g, n, t)
            && forall i :: 0 <= i < |bits| ==> bits[i] == DataBit(data, i)
  {
    hide DataBit, MaskAt, Inverted, CellAt, Rank, Set, At, Walk, Mapped;
    if t != 0 {
      ReadBack(g, n, data, mask, t - 1);
      VisitedValue(g, n, data, mask, t - 1);
    }
  }

  /** Readers agree when they agree on which modules are reserved. */
  lemma {:induction false} SameReserved(reserved: Grid, other: Grid, g: Grid, n: nat, mask: nat, t: nat)
    requires Side(n) && mask < 8 && t <= Steps(n)
    requires forall r, c :: At(reserved, r, c).Some? <==> At(other, r, c).Some?
    ensures ReadBits(reserved, g, n, mask, t) == ReadBits(other, g, n, mask, t)
    ensures FreeCount(reserved, n, t) == FreeCount(other, n, t)
  {
    hide Inverted, CellAt, At;
    if t != 0 {
      SameReserved(reserved, other, g, n, mask, t - 1);
      var (r, c) := CellAt(n, t - 1);
      assert At(reserved, r, c).Some? <==> At(other, r, c).Some?;
    }
  }

  lemma {:induction false} UnpackAt(data: seq<Byte>, k: nat)
    requires k < 8 * |data|
    ensures Unpack(data)[k] == DataBit(data, k)
  {
    var m := |data| - 1;
    if k < 8 * m {
      UnpackAt(data[..m], k);
    } else {
      DigitAt(data[m], 8, k - 8 * m);
      assert k / 8 == m && k % 8 == k - 8 * m;
    }
  }

  /** With room for every codeword, the first bits read are the codewords. */
  lemma CodewordsReadBack(g: Grid, n: nat, data: seq<Byte>, mask: nat)
    requires Side(n) && IsSquare(g, n) && mask < 8
    requires 8 * |data| <= FreeCount(g, n, Steps(n))
    ensures var bits := ReadBits(g, Mapped(g, n, data, mask), n, mask, Steps(n));
            8 * |data| <= |bits| && bits[..8 * |data|] == Unpack(data)
  {
    hide DataBit, ReadBits, FreeCount, Mapped, Unpack;
    ReadBack(g, n, data, mask, Steps(n));
    var bits := ReadBits(g, Mapped(g, n, data, mask), n, mask, Steps(n));
    forall k | 0 <= k < 8 * |data| ensures bits[k] == Unpack(data)[k] {
      UnpackAt(data, k);
    }
  }
}
