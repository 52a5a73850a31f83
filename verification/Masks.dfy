/** The eight data masks: the conditions the source tests, and the tiles they paint (section 7.8.2 of
    ISO/IEC 18004:2015). */
module Masks {
  import opened Bits

  /** The mask condition at row i, column j. */
  predicate MaskAt(pattern: nat, i: nat, j: nat)
    requires pattern < 8
  {
    match pattern
    case 0 => (i + j) % 2 == 0
    case 1 => i % 2 == 0
    case 2 => j % 3 == 0
    case 3 => (i + j) % 3 == 0
    case 4 => (i / 2 + j / 3) % 2 == 0
    case 5 => (i * j) % 2 + (i * j) % 3 == 0
    case 6 => ((i * j) % 2 + (i * j) % 3) % 2 == 0
    case _ => ((i * j) % 3 + (i + j) % 2) % 2 == 0
  }

  /** The tile of each mask: row by row, which of six columns are inverted. Tiles repeat in both
      directions. */
  function Tile(pattern: nat): (rows: seq<set<nat>>)
    requires pattern < 8
    ensures |rows| > 0
  {
    match pattern
    case 0 => [{0, 2, 4}, {1, 3, 5}]
    case 1 => [{0, 1, 2, 3, 4, 5}, {}]
    case 2 => [{0, 3}]
    case 3 => [{0, 3}, {2, 5}, {1, 4}]
    case 4 => [{0, 1, 2}, {0, 1, 2}, {3, 4, 5}, {3, 4, 5}]
    case 5 => [{0, 1, 2, 3, 4, 5}, {0}, {0, 3}, {0, 2, 4}, {0, 3}, {0}]
    case 6 => [{0, 1, 2, 3, 4, 5}, {0, 1, 2}, {0, 1, 3, 4}, {0, 2, 4}, {0, 2, 3, 5}, {0, 4, 5}]
    case _ => [{0, 2, 4}, {3, 4, 5}, {0, 4, 5}, {1, 3, 5}, {0, 1, 2}, {1, 2, 3}]
  }

  /** What a reader inverts. */
  predicate Inverted(pattern: nat, i: nat, j: nat)
    requires pattern < 8
  {
    j % 6 in Tile(pattern)[i % |Tile(pattern)|]
  }

  /** The conditions paint the tiles, over the whole matrix. */
  lemma MaskIsTile(pattern: nat, i: nat, j: nat)
    requires pattern < 8
    ensures MaskAt(pattern, i, j) == Inverted(pattern, i, j)
  {
    if pattern == 0 {
      CheckerMask(i, j);
    } else if pattern == 1 {
      RowMask(i, j);
    } else if pattern == 2 {
      ColumnMask(i, j);
    } else if pattern == 3 {
      DiagonalMask(i, j);
    } else if pattern == 4 {
      BlockMask(i, j);
    } else {
      hide Tile;
      ProductResidue(i, j);
      ProductMask(pattern, i % 6, j % 6);
      TileHeight(pattern);
      SumParity(i, j);
    }
  }

  lemma CheckerMask(i: nat, j: nat)
    ensures MaskAt(0, i, j) == Inverted(0, i, j)
  {
    var x, y := i % 2, j % 6;
    assert (i + j) % 2 == (x + y) % 2 by {
      DivModUnique(i + j, 2, i / 2 + 3 * (j / 6) + (x + y) / 2, (x + y) % 2);
    }
  }

  lemma RowMask(i: nat, j: nat)
    ensures MaskAt(1, i, j) == Inverted(1, i, j)
  {
  }

  lemma ColumnMask(i: nat, j: nat)
    ensures MaskAt(2, i, j) == Inverted(2, i, j)
  {
    var y := j % 6;
    assert j % 3 == y % 3 by {
      DivModUnique(j, 3, 2 * (j / 6) + y / 3, y % 3);
    }
  }

  lemma DiagonalMask(i: nat, j: nat)
    ensures MaskAt(3, i, j) == Inverted(3, i, j)
  {
    var x, y := i % 3, j % 6;
    assert (i + j) % 3 == (x + y) % 3 by {
      DivModUnique(i + j, 3, i / 3 + 2 * (j / 6) + (x + y) / 3, (x + y) % 3);
    }
  }

  lemma BlockMask(i: nat, j: nat)
    ensures MaskAt(4, i, j) == Inverted(4, i, j)
  {
    assert i / 2 % 2 == (if i % 4 < 2 then 0 else 1);
    assert j / 3 % 2 == (if j % 6 < 3 then 0 else 1);
  }

  lemma TileHeight(pattern: nat)
    requires 5 <= pattern < 8
    ensures |Tile(pattern)| == 6
  {
  }

  lemma SumParity(i: nat, j: nat)
    ensures (i + j) % 2 == (i % 6 + j % 6) % 2
  {
    var x, y := i % 6, j % 6;
    DivModUnique(i + j, 2, 3 * (i / 6) + 3 * (j / 6) + (x + y) / 2, (x + y) % 2);
  }

  /** The last three masks depend on the product, and it on residues modulo 6. */
  lemma ProductResidue(i: nat, j: nat)
    ensures (i * j) % 2 == (i % 6 * (j % 6)) % 2 && (i * j) % 3 == (i % 6 * (j % 6)) % 3
  {
    ResidueOf(i, j, i / 6, i % 6, j / 6, j % 6);
  }

  lemma ResidueOf(i: nat, j: nat, a: nat, x: nat, b: nat, y: nat)
    requires i == 6 * a + x && j == 6 * b + y
    ensures (i * j) % 2 == (x * y) % 2 && (i * j) % 3 == (x * y) % 3
  {
    var k := 6 * (a * b) + a * y + b * x;
    assert i * j == 6 * k + x * y by { Expanded(a, x, b, y); }
    SixTimes(k, x * y);
  }

  lemma Expanded(a: nat, x: nat, b: nat, y: nat)
    ensures (6 * a + x) * (6 * b + y) == 6 * (6 * (a * b) + a * y + b * x) + x * y
  {
  }

  lemma SixTimes(k: nat, r: nat)
    ensures (6 * k + r) % 2 == r % 2 && (6 * k + r) % 3 == r % 3
  {
    DivModUnique(6 * k + r, 2, 3 * k + r / 2, r % 2);
    DivModUnique(6 * k + r, 3, 2 * k + r / 3, r % 3);
  }

  lemma ProductMask(pattern: nat, x: nat, y: nat)
    requires 5 <= pattern < 8 && x < 6 && y < 6
    ensures MaskAt(pattern, x, y) == (y in Tile(pattern)[x])
  {
    SmallProduct(x, y);
    if pattern == 5 {
      ProductMask5(x, y, x * y);
    } else if pattern == 6 {
      ProductMask6(x, y, x * y);
    } else {
      ProductMask7(x, y, x * y);
    }
  }

  lemma ProductMask5(x: nat, y: nat, xy: nat)
    requires x < 6 && y < 6 && xy == Times(x, y)
    ensures xy % 2 + xy % 3 == 0 <==> y in Tile(5)[x]
  {
  }

  lemma ProductMask6(x: nat, y: nat, xy: nat)
    requires x < 6 && y < 6 && xy == Times(x, y)
    ensures (xy % 2 + xy % 3) % 2 == 0 <==> y in Tile(6)[x]
  {
  }

  lemma ProductMask7(x: nat, y: nat, xy: nat)
    requires x < 6 && y < 6 && xy == Times(x, y)
    ensures (xy % 3 + (x + y) % 2) % 2 == 0 <==> y in Tile(7)[x]
  {
  }

  function Times(x: nat, y: nat): nat
    requires x < 6
  {
    if x == 0 then 0 else if x == 1 then y else if x == 2 then 2 * y else if x == 3 then 3 * y
    else if x == 4 then 4 * y else 5 * y
  }

  lemma SmallProduct(x: nat, y: nat)
    requires x < 6
    ensures x * y == Times(x, y)
  {
  }
}
