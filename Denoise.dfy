/** The pixel passes TextImage applies before splitting (Pixelize/Components/TextImage.cs):
    predicate-driven recolouring and the 3x3 median filter that RemoveLonelyArtifacts runs
    in place. */
module Denoise {
  import opened Pixels
  import opened Sorting

  // ---------------------------------------------------------------------------------------
  // Recolouring
  // ---------------------------------------------------------------------------------------

  /** The grid after every pixel that satisfies `condition` has been set to `color`. */
  function Replaced(g: Grid<Color>, condition: Color -> bool, color: Color): (r: Grid<Color>)
    ensures |r| == |g| && forall y :: 0 <= y < |g| ==> |r[y]| == |g[y]|
  {
    seq(|g|, y requires 0 <= y < |g| =>
      seq(|g[y]|, x requires 0 <= x < |g[y]| => if condition(g[y][x]) then color else g[y][x]))
  }

  /** Recolouring changes exactly the pixels that satisfy the condition, and only to the given colour. */
  lemma ReplacedCells(g: Grid<Color>, condition: Color -> bool, color: Color)
    ensures forall y, x :: 0 <= y < |g| && 0 <= x < |g[y]| ==>
              Replaced(g, condition, color)[y][x] == if condition(g[y][x]) then color else g[y][x]
  {
  }

  /** Recolouring twice with the same condition and colour is recolouring once. */
  lemma ReplacedIdempotent(g: Grid<Color>, condition: Color -> bool, color: Color)
    ensures Replaced(Replaced(g, condition, color), condition, color) == Replaced(g, condition, color)
  {
    var once := Replaced(g, condition, color);
    var twice := Replaced(once, condition, color);
    forall y | 0 <= y < |g|
      ensures twice[y] == once[y]
    {
    }
  }

  /** The condition ReplacePixelColor recolours by: the pixel equals `target`. */
  function SameColor(target: Color): Color -> bool {
    c => c == target
  }

  /** The first two steps of RemoveYellowLine, watermark to white and then white to black,
      leave no white pixel behind, so every pixel is ink afterwards. Colours here are equal
      when their RGB is, so the second step also blackens white the image already had; the
      program's comparison with the known colour White blackens only what the first step set. */
  lemma RecolouringLeavesNoWhite(g: Grid<Color>, watermark: Color -> bool)
    ensures var r := Replaced(Replaced(g, watermark, White), SameColor(White), Black);
            forall y, x :: 0 <= y < |r| && 0 <= x < |r[y]| ==> IsInk(r[y][x])
  {
  }

  // ---------------------------------------------------------------------------------------
  // The median filter
  // ---------------------------------------------------------------------------------------

  /** The red channel at (x, y), or 0 for a position outside the grid. */
  function Red(g: Grid<Color>, x: int, y: int): (v: int)
    ensures 0 <= v < 256
  {
    if 0 <= y < |g| && 0 <= x < |g[y]| then g[y][x].r else 0
  }

  /** The nine values RemoveLonelyArtifacts gathers for (x, y), in the order of its mask:
      the eight neighbours, then the pixel itself. */
  function Sample(g: Grid<Color>, x: int, y: int): (s: seq<int>)
    ensures |s| == 9 && forall i :: 0 <= i < 9 ==> 0 <= s[i] < 256
  {
    [Red(g, x - 1, y - 1), Red(g, x + 1, y - 1), Red(g, x, y - 1),
     Red(g, x + 1, y), Red(g, x - 1, y),
     Red(g, x - 1, y + 1), Red(g, x, y + 1), Red(g, x + 1, y + 1),
     Red(g, x, y)]
  }

  /** The fifth smallest of nine values: the middle entry once they are sorted. */
  function Median(s: seq<int>): (m: int)
    requires |s| == 9
    ensures m in s
  {
    SortSeqSpec(s);
    assert SortSeq(s)[4] in multiset(s);
    SortSeq(s)[4]
  }

  /** Nine values of which at least five are 0 and none is negative have median 0. */
  lemma MedianOfMostlyZero(s: seq<int>)
    requires |s| == 9 && forall i :: 0 <= i < 9 ==> 0 <= s[i]
    requires multiset(s)[0] >= 5
    ensures Median(s) == 0
  {
    var t := SortSeq(s);
    SortSeqSpec(s);
    assert t == t[..4] + t[4..];
    assert multiset(t) == multiset(t[..4]) + multiset(t[4..]);
    CountAtMostLength(t[..4], 0);
    assert 0 in multiset(t[4..]);
    var k :| 4 <= k < 9 && t[k] == 0;
    assert t[4] in multiset(s);
  }

  lemma {:induction false} CountAtMostLength(u: seq<int>, v: int)
    ensures multiset(u)[v] <= |u|
  {
    if |u| > 0 {
      CountAtMostLength(u[1..], v);
      assert u == [u[0]] + u[1..];
    }
  }

  /** The grid after the filter has written the median grey of (x, y) into (x, y). */
  function FilterCell(g: Grid<Color>, x: int, y: int): (r: Grid<Color>)
    requires Rect(g) && 0 <= y < |g| && 0 <= x < Width(g)
    ensures IsGrid(r, |g|, Width(g))
  {
    g[y := g[y][x := Gray(Median(Sample(g, x, y)))]]
  }

  /** The grid after rows 0 .. n-1 of column x have been filtered, one after another. */
  function FilterColumn(g: Grid<Color>, x: int, n: nat): (r: Grid<Color>)
    requires Rect(g) && 0 <= x < Width(g) && n <= |g|
    ensures IsGrid(r, |g|, Width(g))
  {
    if n == 0 then g else FilterCell(FilterColumn(g, x, n - 1), x, n - 1)
  }

  /** The grid after columns 0 .. k-1 have been filtered, one after another. */
  function FilterColumns(g: Grid<Color>, k: nat): (r: Grid<Color>)
    requires Rect(g) && k <= Width(g)
    ensures IsGrid(r, |g|, Width(g))
  {
    if k == 0 then g else FilterColumn(FilterColumns(g, k - 1), k - 1, |g|)
  }

  /** RemoveLonelyArtifacts: every pixel, column by column and top to bottom within a column,
      replaced in place by the median grey of its neighbourhood in the partly filtered grid. */
  function MedianPass(g: Grid<Color>): (r: Grid<Color>)
    requires Rect(g)
    ensures IsGrid(r, |g|, Width(g))
  {
    FilterColumns(g, Width(g))
  }

  /** The grid the filter reads when it reaches (x, y). */
  function Before(g: Grid<Color>, x: int, y: int): (r: Grid<Color>)
    requires Rect(g) && 0 <= x < Width(g) && 0 <= y <= |g|
    ensures IsGrid(r, |g|, Width(g))
  {
    FilterColumn(FilterColumns(g, x), x, y)
  }

  // Frame and stability facts of the column-major scan.

  /** Filtering rows 0 .. n-1 of column x leaves every other cell alone. */
  lemma {:induction false} FilterColumnFrame(g: Grid<Color>, x: int, n: nat, j: int, i: int)
    requires Rect(g) && 0 <= x < Width(g) && n <= |g|
    requires 0 <= j < |g| && 0 <= i < Width(g) && (i != x || j >= n)
    ensures FilterColumn(g, x, n)[j][i] == g[j][i]
  {
    if n > 0 {
      FilterColumnFrame(g, x, n - 1, j, i);
    }
  }

  /** Once row j of column x has been filtered, later rows of that column do not change it. */
  lemma {:induction false} FilterColumnStable(g: Grid<Color>, x: int, m: nat, n: nat, j: int)
    requires Rect(g) && 0 <= x < Width(g) && m <= n <= |g| && 0 <= j < m
    ensures FilterColumn(g, x, n)[j][x] == FilterColumn(g, x, m)[j][x]
  {
    if n > m {
      FilterColumnStable(g, x, m, n - 1, j);
    }
  }

  /** Filtering columns 0 .. k-1 leaves columns k and beyond alone. */
  lemma {:induction false} FilterColumnsFrame(g: Grid<Color>, k: nat, j: int, i: int)
    requires Rect(g) && k <= i < Width(g) && 0 <= j < |g|
    ensures FilterColumns(g, k)[j][i] == g[j][i]
  {
    if k > 0 {
      FilterColumnsFrame(g, k - 1, j, i);
      FilterColumnFrame(FilterColumns(g, k - 1), k - 1, |g|, j, i);
    }
  }

  /** Once column i has been filtered, later columns do not change it. */
  lemma {:induction false} FilterColumnsStable(g: Grid<Color>, m: nat, k: nat, j: int, i: int)
    requires Rect(g) && m <= k <= Width(g) && 0 <= i < m && 0 <= j < |g|
    ensures FilterColumns(g, k)[j][i] == FilterColumns(g, m)[j][i]
  {
    if k > m {
      FilterColumnsStable(g, m, k - 1, j, i);
      FilterColumnFrame(FilterColumns(g, k - 1), k - 1, |g|, j, i);
    }
  }

  /** The value the pass leaves at (x, y) is the median grey of the neighbourhood of (x, y)
      in the grid as it stood when the scan reached (x, y). */
  lemma MedianPassCell(g: Grid<Color>, x: int, y: int)
    requires Rect(g) && 0 <= x < Width(g) && 0 <= y < |g|
    ensures MedianPass(g)[y][x] == Gray(Median(Sample(Before(g, x, y), x, y)))
  {
    var gx := FilterColumns(g, x);
    var b := Before(g, x, y);
    FilterColumnsStable(g, x + 1, Width(g), y, x);
    assert FilterColumns(g, x + 1) == FilterColumn(gx, x, |g|);
    FilterColumnStable(gx, x, y + 1, |g|, y);
    assert FilterColumn(gx, x, y + 1) == FilterCell(b, x, y);
    FilterCellAt(b, x, y);
  }

  /** The filter writes the median grey of the neighbourhood into the cell it visits. */
  lemma FilterCellAt(g: Grid<Color>, x: int, y: int)
    requires Rect(g) && 0 <= y < |g| && 0 <= x < Width(g)
    ensures FilterCell(g, x, y)[y][x] == Gray(Median(Sample(g, x, y)))
  {
  }

  /** In place, not on a snapshot: when the scan reaches (x, y), the columns to its left and
      the cells above it in its own column already hold their filtered values, while the cells
      below it and the columns to its right still hold their original ones. */
  lemma BeforeHoldsFilteredPrefix(g: Grid<Color>, x: int, y: int, j: int, i: int)
    requires Rect(g) && 0 <= x < Width(g) && 0 <= y <= |g|
    requires 0 <= j < |g| && 0 <= i < Width(g)
    ensures Before(g, x, y)[j][i] == if i < x || (i == x && j < y) then MedianPass(g)[j][i] else g[j][i]
  {
    var gx := FilterColumns(g, x);
    var b := FilterColumn(gx, x, y);
    assert Before(g, x, y) == b;
    assert MedianPass(g) == FilterColumns(g, Width(g));
    if i < x {
      FilterColumnFrame(gx, x, y, j, i);
      FilterColumnsStable(g, x, Width(g), j, i);
      assert b[j][i] == gx[j][i] == FilterColumns(g, Width(g))[j][i];
    } else if i == x && j < y {
      FilterColumnStable(gx, x, y, |g|, j);
      FilterColumnsStable(g, x + 1, Width(g), j, i);
      assert FilterColumns(g, x + 1) == FilterColumn(gx, x, |g|);
      assert b[j][i] == FilterColumns(g, Width(g))[j][i];
    } else {
      FilterColumnFrame(gx, x, y, j, i);
      FilterColumnsFrame(g, x, j, i);
      assert b[j][i] == gx[j][i] == g[j][i];
    }
  }

  /** Whether (x, y) lies in a corner of the grid, or the grid is one pixel thin there: either
      way at least five of its nine samples fall outside the grid. */
  predicate OnCornerOrThin(g: Grid<Color>, x: int, y: int) {
    ((x == 0 || x == Width(g) - 1) && (y == 0 || y == |g| - 1))
    || (x == 0 && x == Width(g) - 1) || (y == 0 && y == |g| - 1)
  }

  lemma SampleMostlyZero(g: Grid<Color>, x: int, y: int)
    requires Rect(g) && 0 <= x < Width(g) && 0 <= y < |g| && OnCornerOrThin(g, x, y)
    ensures multiset(Sample(g, x, y))[0] >= 5
  {
    var w := Width(g);
    var s := Sample(g, x, y);
    SampleOutside(g, x, y);
    if x == 0 && x == w - 1 {
      assert s[0] == s[1] == s[3] == s[4] == s[5] == s[7] == 0;
      FiveZeros(s, 0, 1, 3, 4, 5);
    } else if y == 0 && y == |g| - 1 {
      assert s[0] == s[1] == s[2] == s[5] == s[6] == s[7] == 0;
      FiveZeros(s, 0, 1, 2, 5, 6);
    } else if x == 0 && y == 0 {
      assert s[0] == s[1] == s[2] == s[4] == s[5] == 0;
      FiveZeros(s, 0, 1, 2, 4, 5);
    } else if x == 0 {
      assert s[0] == s[4] == s[5] == s[6] == s[7] == 0;
      FiveZeros(s, 0, 4, 5, 6, 7);
    } else if y == 0 {
      assert s[0] == s[1] == s[2] == s[3] == s[7] == 0;
      FiveZeros(s, 0, 1, 2, 3, 7);
    } else {
      assert s[1] == s[3] == s[5] == s[6] == s[7] == 0;
      FiveZeros(s, 1, 3, 5, 6, 7);
    }
  }

  /** Which of the nine samples of a pixel on an edge of the grid lie outside it. */
  lemma SampleOutside(g: Grid<Color>, x: int, y: int)
    requires Rect(g) && 0 <= x < Width(g) && 0 <= y < |g|
    ensures var s := Sample(g, x, y);
            (x == 0 ==> s[0] == 0 && s[4] == 0 && s[5] == 0)
            && (x == Width(g) - 1 ==> s[1] == 0 && s[3] == 0 && s[7] == 0)
            && (y == 0 ==> s[0] == 0 && s[1] == 0 && s[2] == 0)
            && (y == |g| - 1 ==> s[5] == 0 && s[6] == 0 && s[7] == 0)
  {
    if y + 1 < |g| {
      assert |g[y + 1]| == Width(g);
    }
    if y > 0 {
      assert |g[y - 1]| == Width(g);
    }
    assert |g[y]| == Width(g);
  }

  /** Five zero entries at increasing positions give the value 0 a multiplicity of at least 5. */
  lemma FiveZeros(s: seq<int>, a: int, b: int, c: int, d: int, e: int)
    requires 0 <= a < b < c < d < e < |s|
    requires s[a] == 0 && s[b] == 0 && s[c] == 0 && s[d] == 0 && s[e] == 0
    ensures multiset(s)[0] >= 5
  {
    assert s == s[..a] + [s[a]] + s[a + 1..b] + [s[b]] + s[b + 1..c] + [s[c]]
              + s[c + 1..d] + [s[d]] + s[d + 1..e] + [s[e]] + s[e + 1..];
  }

  /** Because out-of-grid neighbours count as 0, the four corners of any image come out black. */
  lemma CornersTurnBlack(g: Grid<Color>)
    requires Rect(g) && |g| > 0 && Width(g) > 0
    ensures var r, h, w := MedianPass(g), |g|, Width(g);
            r[0][0] == Black && r[0][w - 1] == Black && r[h - 1][0] == Black && r[h - 1][w - 1] == Black
  {
    var h, w := |g|, Width(g);
    EdgeTurnsBlack(g, 0, 0);
    EdgeTurnsBlack(g, w - 1, 0);
    EdgeTurnsBlack(g, 0, h - 1);
    EdgeTurnsBlack(g, w - 1, h - 1);
  }

  lemma EdgeTurnsBlack(g: Grid<Color>, x: int, y: int)
    requires Rect(g) && 0 <= x < Width(g) && 0 <= y < |g| && OnCornerOrThin(g, x, y)
    ensures MedianPass(g)[y][x] == Black
  {
    MedianPassCell(g, x, y);
    var b := Before(g, x, y);
    SampleMostlyZero(b, x, y);
    MedianOfMostlyZero(Sample(b, x, y));
  }

  /** An image one pixel wide or one pixel high comes out entirely black. */
  lemma ThinImageTurnsBlack(g: Grid<Color>)
    requires Rect(g) && |g| > 0 && Width(g) > 0 && (|g| == 1 || Width(g) == 1)
    ensures forall y, x :: 0 <= y < |g| && 0 <= x < Width(g) ==> MedianPass(g)[y][x] == Black
  {
    forall y, x | 0 <= y < |g| && 0 <= x < Width(g)
      ensures MedianPass(g)[y][x] == Black
    {
      EdgeTurnsBlack(g, x, y);
    }
  }
}
