/** Whether a version has room for its codewords: the hypothesis of the read-back theorem, as
    arithmetic on the tables, and met by rows of them. */
module Room {
  import opened Codewords
  import opened DataStream
  import opened ModuleGrid
  import opened Polynomial
  import opened Results
  import opened Patterns
  import opened Capacity
  import opened Symbol

  // ---- what is to be seen in a finished symbol ----

  /** Finders with their borders, alignment patterns, timing lines and the module that is always dark are
      all whole in the finished symbol. */
  lemma PatternsVisible(version: nat, level: nat, mask: nat, test: bool, pos: seq<nat>, message: Poly, r: nat, c: nat)
    requires version >= 1 && mask < 8 && TablePositions(pos, SideOf(version))
    requires r < SideOf(version) && c < SideOf(version)
    ensures var n := SideOf(version);
            var seen := At(Drawn(version, level, mask, test, pos, message), r, c);
            && (InFinders(n, r, c) ==> seen == Some(FinderDark(n, r, c)))
            && (r == 6 && 8 <= c < n - 8 ==> seen == Some(c % 2 == 0))
            && (c == 6 && 8 <= r < n - 8 ==> seen == Some(r % 2 == 0))
            && ((r, c) == (n - 8, 8) ==> seen == Some(!test))
            && forall k :: 0 <= k < |pos| * |pos| && Open(n, pos, k) && Covers(pos, k, r, c) ==>
                 seen == Some(PatternDark(pos, k, r, c))
  {
    var n, data := SideOf(version), FormatData(level, mask);
    hide FunctionPatterns, Drawn, TablePositions, InFinders, FinderDark, Open, Covers, PatternDark;
    DrawnIsFull(version, level, mask, test, pos, message, r, c);
    TableIsSpaced(pos, n);
    if InFinders(n, r, c) {
      FindersStand(version, pos, data, test, r, c);
    }
    if r == 6 && 8 <= c < n - 8 {
      TimingStands(version, pos, data, test, c);
    }
    if c == 6 && 8 <= r < n - 8 {
      TimingStands(version, pos, data, test, r);
    }
    if (r, c) == (n - 8, 8) {
      DarkModule(version, pos, data, test);
    }
    forall k | 0 <= k < |pos| * |pos| && Open(n, pos, k) && Covers(pos, k, r, c)
      ensures At(FunctionPatterns(version, pos, data, test), r, c) == Some(PatternDark(pos, k, r, c))
    {
      AlignmentStands(version, pos, data, test, k, r, c);
    }
  }

  // ---- what a version has room for ----

  /** With table positions, whether a version and level can be read back is a matter of arithmetic. */
  lemma SupportsWhen(s: Standard, version: nat, level: nat)
    requires 1 <= version <= 40 && TablePositions(s.positions(version), SideOf(version))
    ensures s.Supports(version, level)
       <==> && ValidBlocks(s.blocks(version, level))
            && TotalData(s.blocks(version, level)) <= MaxDataCount(version)
            && 8 * TotalCodes(s.blocks(version, level)) <= OpenModules(version, |s.positions(version)|)
  {
    hide TablePositions, FunctionPatterns, Placement.FreeCount, Placement.Steps, OpenModules, ValidBlocks, TotalData, TotalCodes;
    FreeCountIs(version, s.positions(version));
  }

  lemma FreeModulesAre(s: Standard, version: nat)
    requires 1 <= version <= 40 && TablePositions(s.positions(version), SideOf(version))
    ensures s.FreeModules(version) == OpenModules(version, |s.positions(version)|)
  {
    hide TablePositions, FunctionPatterns, Placement.FreeCount, Placement.Steps, OpenModules;
    FreeCountIs(version, s.positions(version));
  }

  /** Blocks of one kind. */
  function Repeated(k: nat, total: nat, data: nat): seq<RsBlock> {
    seq(k, _ => RsBlock(total, data))
  }

  lemma {:induction false} BlockTotals(rs: seq<RsBlock>, k: nat, total: nat, data: nat)
    ensures TotalCodes(rs + Repeated(k, total, data)) == TotalCodes(rs) + k * total
    ensures TotalData(rs + Repeated(k, total, data)) == TotalData(rs) + k * data
  {
    hide Repeated;
    if k == 0 {
      NoneRepeated(rs, total, data);
    } else {
      BlockTotals(rs, k - 1, total, data);
      OneBlockMore(rs, k, total, data);
      OnceMore(k, total);
      OnceMore(k, data);
    }
  }

  lemma NoneRepeated(rs: seq<RsBlock>, total: nat, data: nat)
    ensures rs + Repeated(0, total, data) == rs
  {
  }

  lemma OneBlockMore(rs: seq<RsBlock>, k: nat, total: nat, data: nat)
    requires k > 0
    ensures var all, less := rs + Repeated(k, total, data), rs + Repeated(k - 1, total, data);
            TotalCodes(all) == TotalCodes(less) + total && TotalData(all) == TotalData(less) + data
  {
    var all := rs + Repeated(k, total, data);
    assert all[..|all| - 1] == rs + Repeated(k - 1, total, data);
    assert all[|all| - 1] == RsBlock(total, data);
  }

  lemma OnceMore(k: nat, n: nat)
    requires k > 0
    ensures k * n == (k - 1) * n + n
  {
  }

  lemma NoBlocks()
    ensures TotalCodes([]) == 0 && TotalData([]) == 0
  {
  }
}
