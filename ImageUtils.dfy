/** Grid and ink-mask primitives of the pipeline (Pixelize/Utils/ImageUtils.cs).

    Each primitive is a method with the program's loops, proved against a specification
    function defined here; the properties of those functions are proved as lemmas. */
module ImageUtils {
  import opened Pixels

  // ---------------------------------------------------------------------------------------
  // Specification functions
  // ---------------------------------------------------------------------------------------

  /** The ink mask of a colour grid: a cell is true exactly when its pixel is not white. */
  function Mask(g: Grid<Color>): (m: Grid<bool>)
    ensures |m| == |g|
    ensures forall y :: 0 <= y < |g| ==> |m[y]| == |g[y]|
    ensures forall y, x :: 0 <= y < |g| && 0 <= x < |g[y]| ==> m[y][x] == IsInk(g[y][x])
    ensures Width(m) == Width(g) && (Rect(g) ==> Rect(m))
  {
    seq(|g|, y requires 0 <= y < |g| => seq(|g[y]|, x requires 0 <= x < |g[y]| => IsInk(g[y][x])))
  }

  /** The number of true entries of `s`, counted left to right. */
  function CountTrue(s: seq<bool>): (n: nat)
    ensures n <= |s|
  {
    if |s| == 0 then 0 else CountTrue(s[..|s| - 1]) + (if s[|s| - 1] then 1 else 0)
  }

  /** The number of true cells of a mask, counted row by row. */
  function InkCount(m: Grid<bool>): nat {
    if |m| == 0 then 0 else InkCount(m[..|m| - 1]) + CountTrue(m[|m| - 1])
  }

  /** The number of true cells in column `x`. */
  function ColumnInk(m: Grid<bool>, x: int): nat
    requires HasColumn(m, x)
  {
    CountTrue(Column(m, x))
  }

  /** The sum of the column counts of columns `0 .. k-1`. */
  function ColumnSum(m: Grid<bool>, k: nat): nat
    requires forall x :: 0 <= x < k ==> HasColumn(m, x)
  {
    if k == 0 then 0 else ColumnSum(m, k - 1) + ColumnInk(m, k - 1)
  }

  /** The indices of the true entries of `s`, in ascending order. */
  function Positions(s: seq<bool>): (p: seq<int>)
    ensures forall i :: 0 <= i < |p| ==> 0 <= p[i] < |s| && s[p[i]]
    ensures forall i, j :: 0 <= i < j < |p| ==> p[i] < p[j]
    ensures |p| == 0 <==> true !in s
    ensures |p| > 0 ==> forall j :: p[|p| - 1] < j < |s| ==> !s[j]
  {
    if |s| == 0 then []
    else
      var p := Positions(s[..|s| - 1]);
      assert forall j :: 0 <= j < |s| - 1 ==> s[..|s| - 1][j] == s[j];
      if s[|s| - 1] then p + [|s| - 1] else p
  }

  /** The number of neighbouring entries of `p` that are not consecutive integers. */
  function Gaps(p: seq<int>): nat {
    if |p| < 2 then 0 else Gaps(p[..|p| - 1]) + (if p[|p| - 1] != p[|p| - 2] + 1 then 1 else 0)
  }

  /** What GetVerticalBlackLayers / GetHorizontalBlackLayers return for a line of cells:
      one more than the number of gaps between consecutive ink positions. */
  function Layers(s: seq<bool>): nat {
    1 + Gaps(Positions(s))
  }

  /** The number of maximal runs of true entries: the entries that are true and do not
      follow a true entry. */
  function Runs(s: seq<bool>): (n: nat)
    ensures n == 0 <==> true !in s
  {
    if |s| == 0 then 0
    else
      var n := Runs(s[..|s| - 1]);
      assert forall j :: 0 <= j < |s| - 1 ==> s[..|s| - 1][j] == s[j];
      n + (if s[|s| - 1] && (|s| == 1 || !s[|s| - 2]) then 1 else 0)
  }

  /** The mask that is true where two masks agree, over the cells of the first. */
  function AgreementMask(a: Grid<bool>, b: Grid<bool>): (e: Grid<bool>)
    requires |a| <= |b| && forall y :: 0 <= y < |a| ==> |a[y]| <= |b[y]|
    ensures |e| == |a|
    ensures forall y :: 0 <= y < |a| ==> |e[y]| == |a[y]|
    ensures forall y, x :: 0 <= y < |a| && 0 <= x < |a[y]| ==> e[y][x] == (a[y][x] == b[y][x])
  {
    seq(|a|, y requires 0 <= y < |a| => seq(|a[y]|, x requires 0 <= x < |a[y]| => a[y][x] == b[y][x]))
  }

  /** The cells of a grid in row-major order. */
  function Flatten<T>(g: Grid<T>): seq<T> {
    if |g| == 0 then [] else Flatten(g[..|g| - 1]) + g[|g| - 1]
  }

  /** The entries of `s` with every repetition of an earlier entry dropped. */
  function Distinct<T(==)>(s: seq<T>): seq<T> {
    if |s| == 0 then []
    else
      var d := Distinct(s[..|s| - 1]);
      if s[|s| - 1] in d then d else d + [s[|s| - 1]]
  }

  /** The index of the first occurrence of `v` in `s`. */
  function IndexOf<T(==)>(s: seq<T>, v: T): (i: nat)
    requires v in s
    ensures i < |s| && s[i] == v
    ensures forall j :: 0 <= j < i ==> s[j] != v
  {
    if s[0] == v then 0 else 1 + IndexOf(s[1..], v)
  }

  /** The black-and-white picture of a mask: ink black, the rest white. */
  function Render(m: Grid<bool>): (g: Grid<Color>)
    ensures |g| == |m|
    ensures forall y :: 0 <= y < |m| ==> |g[y]| == |m[y]|
    ensures forall y, x :: 0 <= y < |m| && 0 <= x < |m[y]| ==> g[y][x] == (if m[y][x] then Black else White)
  {
    seq(|m|, y requires 0 <= y < |m| => seq(|m[y]|, x requires 0 <= x < |m[y]| => if m[y][x] then Black else White))
  }

  /** A column of `m` holds ink. */
  predicate ColumnHasInk(m: Grid<bool>, x: int)
    requires HasColumn(m, x)
  {
    exists y :: 0 <= y < |m| && m[y][x]
  }

  /** A row of `m` holds ink. */
  predicate RowHasInk(m: Grid<bool>, y: int)
    requires 0 <= y < |m|
  {
    exists x :: 0 <= x < |m[y]| && m[y][x]
  }

  /** For each column, whether it holds ink. */
  function ColumnFlags(m: Grid<bool>): (f: seq<bool>)
    requires Rect(m)
    ensures |f| == Width(m)
    ensures forall x :: 0 <= x < Width(m) ==> f[x] == ColumnHasInk(m, x)
  {
    seq(Width(m), x requires 0 <= x < Width(m) => ColumnHasInk(m, x))
  }

  /** For each row, whether it holds ink. */
  function RowFlags(m: Grid<bool>): (f: seq<bool>)
    ensures |f| == |m|
    ensures forall y :: 0 <= y < |m| ==> f[y] == RowHasInk(m, y)
  {
    seq(|m|, y requires 0 <= y < |m| => RowHasInk(m, y))
  }

  /** The first true index of `f`, or 0 when there is none: a left-to-right scan that stops
      at its first hit. */
  function FirstTrue(f: seq<bool>): (i: nat)
    ensures true in f ==> i < |f| && f[i] && forall j :: 0 <= j < i ==> !f[j]
    ensures true !in f ==> i == 0
  {
    if |f| == 0 || f[0] then 0
    else if true in f[1..] then 1 + FirstTrue(f[1..])
    else 0
  }

  /** The index of the last true entry of `f`, or 0 when there is none: a left-to-right scan
      that overwrites its answer on every hit. */
  function LastTrue(f: seq<bool>): (i: nat)
    ensures true in f ==> i < |f| && f[i] && forall j :: i < j < |f| ==> !f[j]
    ensures true !in f ==> i == 0
  {
    if |f| == 0 then 0
    else if f[|f| - 1] then |f| - 1
    else
      assert forall j :: 0 <= j < |f| - 1 ==> f[..|f| - 1][j] == f[j];
      LastTrue(f[..|f| - 1])
  }

  function Max(a: int, b: int): int {
    if a < b then b else a
  }

  /** The image CombineBitmaps draws: `first` at x = 0 and `second` at x = Width(first) on a
      canvas of the summed width and the larger height. Canvas cells neither image covers keep
      the fresh bitmap's fill, whose RGB is that of Black. */
  function CombineBitmaps(first: Grid<Color>, second: Grid<Color>): (r: Grid<Color>)
    requires Rect(first) && Rect(second)
    ensures IsGrid(r, Max(|first|, |second|), Width(first) + Width(second))
    ensures forall y, x :: 0 <= y < |first| && 0 <= x < Width(first) ==> r[y][x] == first[y][x]
    ensures forall y, x :: 0 <= y < |second| && 0 <= x < Width(second) ==>
              r[y][Width(first) + x] == second[y][x]
    ensures forall y, x :: |first| <= y < |r| && 0 <= x < Width(first) ==> r[y][x] == Black
    ensures forall y, x :: |second| <= y < |r| && Width(first) <= x < Width(first) + Width(second) ==>
              r[y][x] == Black
  {
    var w1, w2 := Width(first), Width(second);
    seq(Max(|first|, |second|), y requires 0 <= y < Max(|first|, |second|) =>
      seq(w1 + w2, x requires 0 <= x < w1 + w2 =>
        if x < w1 then (if y < |first| then first[y][x] else Black)
        else (if y < |second| then second[y][x - w1] else Black)))
  }

  // ---------------------------------------------------------------------------------------
  // Properties of the specification functions
  // ---------------------------------------------------------------------------------------

  /** A mask of h rows of w cells has at most h * w ink cells. */
  lemma {:induction false} InkCountBound(m: Grid<bool>, h: nat, w: nat)
    requires IsGrid(m, h, w)
    ensures InkCount(m) <= h * w
  {
    if h > 0 {
      InkCountBound(m[..h - 1], h - 1, w);
      assert (h - 1) * w + w == h * w;
    }
  }

  /** A line is all true exactly when its count is its length. */
  lemma {:induction false} CountTrueFull(s: seq<bool>)
    ensures CountTrue(s) == |s| <==> forall i :: 0 <= i < |s| ==> s[i]
  {
    if |s| > 0 {
      var p := s[..|s| - 1];
      CountTrueFull(p);
      assert forall i :: 0 <= i < |p| ==> p[i] == s[i];
    }
  }

  /** A mask of h rows of w cells counts h * w exactly when every cell is true. */
  lemma {:induction false} InkCountFull(m: Grid<bool>, h: nat, w: nat)
    requires IsGrid(m, h, w)
    ensures InkCount(m) == h * w <==> forall y, x :: 0 <= y < h && 0 <= x < w ==> m[y][x]
  {
    if h > 0 {
      var p := m[..h - 1];
      InkCountFull(p, h - 1, w);
      InkCountBound(p, h - 1, w);
      CountTrueFull(m[h - 1]);
      MulStep(h, w);
      SumAtMost(InkCount(p), (h - 1) * w, CountTrue(m[h - 1]), w);
      FullSplit(m, p, m[h - 1], h, w);
    }
  }

  lemma MulStep(h: int, w: int)
    ensures (h - 1) * w + w == h * w
  {
  }

  /** Two counts under their bounds reach the sum of the bounds only when both reach theirs. */
  lemma SumAtMost(a: int, boundA: int, b: int, boundB: int)
    requires a <= boundA && b <= boundB
    ensures a + b == boundA + boundB <==> a == boundA && b == boundB
  {
  }

  /** All cells of a grid are true exactly when those of all rows but the last are and those
      of the last row are. */
  lemma FullSplit(m: Grid<bool>, p: Grid<bool>, last: seq<bool>, h: nat, w: nat)
    requires IsGrid(m, h, w) && h > 0 && p == m[..h - 1] && last == m[h - 1]
    ensures (forall y, x :: 0 <= y < h && 0 <= x < w ==> m[y][x]) <==>
            (forall y, x :: 0 <= y < h - 1 && 0 <= x < w ==> p[y][x]) &&
            (forall x :: 0 <= x < |last| ==> last[x])
  {
    assert forall y :: 0 <= y < h - 1 ==> p[y] == m[y];
  }

  /** Summing a column count over no rows gives 0. */
  lemma {:induction false} ColumnSumNoRows(m: Grid<bool>, k: nat)
    requires |m| == 0
    ensures ColumnSum(m, k) == 0
  {
    if k > 0 {
      ColumnSumNoRows(m, k - 1);
      assert Column(m, k - 1) == [];
    }
  }

  /** The column counts of the first k columns split into those of all rows but the last,
      plus the ink among the first k cells of the last row. */
  lemma {:induction false} ColumnSumLastRow(m: Grid<bool>, h: nat, w: nat, k: nat)
    requires IsGrid(m, h, w) && h > 0 && k <= w
    ensures ColumnSum(m, k) == ColumnSum(m[..h - 1], k) + CountTrue(m[h - 1][..k])
  {
    if k > 0 {
      var p := m[..h - 1];
      ColumnSumLastRow(m, h, w, k - 1);
      var c := Column(m, k - 1);
      assert c[..h - 1] == Column(p, k - 1);
      assert m[h - 1][..k][..k - 1] == m[h - 1][..k - 1];
    }
  }

  /** Counting ink column by column gives the same total as counting it row by row:
      the column counts of GetBlackPixelsInColumn add up to GetBlackPixels. */
  lemma {:induction false} ColumnsSumToTotal(m: Grid<bool>, h: nat, w: nat)
    requires IsGrid(m, h, w)
    ensures ColumnSum(m, w) == InkCount(m)
  {
    if h == 0 {
      ColumnSumNoRows(m, w);
    } else {
      ColumnsSumToTotal(m[..h - 1], h - 1, w);
      ColumnSumLastRow(m, h, w, w);
      assert m[h - 1][..w] == m[h - 1];
    }
  }

  /** The layer count is the number of maximal ink runs of the line, except that a line
      without ink still counts one layer. */
  lemma {:induction false} LayersCountRuns(s: seq<bool>)
    ensures Runs(s) == 0 ==> Layers(s) == 1
    ensures Runs(s) > 0 ==> Layers(s) == Runs(s)
  {
    if |s| > 0 {
      var p := s[..|s| - 1];
      LayersCountRuns(p);
      if !s[|s| - 1] {
        LayersBlankEnd(s);
      } else if true !in p {
        LayersFirstInk(s);
      } else {
        LayersExtendRun(s);
      }
    }
  }

  /** A blank last entry changes neither the positions nor the runs. */
  lemma LayersBlankEnd(s: seq<bool>)
    requires |s| > 0 && !s[|s| - 1]
    ensures Positions(s) == Positions(s[..|s| - 1]) && Runs(s) == Runs(s[..|s| - 1])
  {
  }

  /** The first ink, at the end, is one run and one layer. */
  lemma LayersFirstInk(s: seq<bool>)
    requires |s| > 0 && s[|s| - 1] && true !in s[..|s| - 1]
    ensures Layers(s) == 1 && Runs(s) == 1
  {
    var n := |s|;
    assert Positions(s) == [n - 1];
    if n > 1 {
      assert s[..n - 1][n - 2] == s[n - 2];
    }
  }

  /** Appending ink after earlier ink adds a layer exactly when it also starts a new run. */
  lemma LayersExtendRun(s: seq<bool>)
    requires |s| >= 2 && s[|s| - 1] && true in s[..|s| - 1]
    ensures Layers(s) == Layers(s[..|s| - 1]) + (if s[|s| - 2] then 0 else 1)
    ensures Runs(s) == Runs(s[..|s| - 1]) + (if s[|s| - 2] then 0 else 1)
  {
    var P := Positions(s[..|s| - 1]);
    LastPositionBeforeEnd(s);
    GapsAppend(P, |s| - 1);
    assert s[..|s| - 1][|s| - 2] == s[|s| - 2];
  }

  /** The last ink position before a final entry is the entry just before it exactly when
      that entry is ink. */
  lemma LastPositionBeforeEnd(s: seq<bool>)
    requires |s| >= 2 && s[|s| - 1] && true in s[..|s| - 1]
    ensures Positions(s) == Positions(s[..|s| - 1]) + [|s| - 1]
    ensures var P := Positions(s[..|s| - 1]);
            |P| > 0 && (P[|P| - 1] == |s| - 2 <==> s[|s| - 2])
  {
    var p := s[..|s| - 1];
    assert p[|s| - 2] == s[|s| - 2];
  }

  /** Appending a position adds a gap unless it follows the last one directly. */
  lemma GapsAppend(P: seq<int>, v: int)
    requires |P| > 0
    ensures Gaps(P + [v]) == Gaps(P) + (if v != P[|P| - 1] + 1 then 1 else 0)
  {
    var Q := P + [v];
    assert Q[..|Q| - 1] == P;
  }

  /** The first occurrence of an entry is not moved by appending to the sequence. */
  lemma IndexOfAppend<T>(p: seq<T>, e: T, v: T)
    requires v in p
    ensures IndexOf(p + [e], v) == IndexOf(p, v)
  {
    var j := IndexOf(p, v);
    assert (p + [e])[j] == v;
  }

  /** Distinct keeps each entry of its input exactly once, in the order of first occurrence. */
  lemma DistinctSpec<T>(s: seq<T>)
    ensures forall i, j :: 0 <= i < j < |Distinct(s)| ==> Distinct(s)[i] != Distinct(s)[j]
    ensures forall v :: v in Distinct(s) <==> v in s
    ensures forall i, j :: 0 <= i < j < |Distinct(s)| ==>
              IndexOf(s, Distinct(s)[i]) < IndexOf(s, Distinct(s)[j])
  {
    DistinctNoRepeats(s);
    DistinctMembers(s);
    DistinctOrder(s);
  }

  lemma {:induction false} DistinctNoRepeats<T>(s: seq<T>)
    ensures forall i, j :: 0 <= i < j < |Distinct(s)| ==> Distinct(s)[i] != Distinct(s)[j]
  {
    if |s| > 0 {
      DistinctNoRepeats(s[..|s| - 1]);
    }
  }

  lemma {:induction false} DistinctMembers<T>(s: seq<T>)
    ensures forall v :: v in Distinct(s) <==> v in s
  {
    if |s| > 0 {
      var p := s[..|s| - 1];
      DistinctMembers(p);
      assert s == p + [s[|s| - 1]];
    }
  }

  lemma {:induction false} DistinctOrder<T>(s: seq<T>)
    ensures forall v :: v in Distinct(s) ==> v in s
    ensures forall i, j :: 0 <= i < j < |Distinct(s)| ==>
              IndexOf(s, Distinct(s)[i]) < IndexOf(s, Distinct(s)[j])
  {
    DistinctMembers(s);
    if |s| > 0 {
      var p, e := s[..|s| - 1], s[|s| - 1];
      assert s == p + [e];
      DistinctOrder(p);
      DistinctMembers(p);
      forall v | v in p
        ensures IndexOf(s, v) == IndexOf(p, v)
      {
        IndexOfAppend(p, e, v);
      }
      if e !in Distinct(p) {
        assert IndexOf(s, e) == |p|;
      }
    }
  }

  /** Every cell of a grid is an entry of its row-major flattening. */
  lemma {:induction false} CellInFlatten<T>(g: Grid<T>, h: nat, w: nat, y: nat, x: nat)
    requires IsGrid(g, h, w) && y < h && x < w
    ensures g[y][x] in Flatten(g)
  {
    if y < h - 1 {
      var p := g[..h - 1];
      CellInFlatten(p, h - 1, w, y, x);
      assert p[y][x] == g[y][x];
    } else {
      assert g[y][x] in g[h - 1];
    }
  }

  /** Every entry of the row-major flattening of a grid is one of its cells. */
  lemma {:induction false} FlattenedCell<T>(g: Grid<T>, h: nat, w: nat, v: T) returns (y: nat, x: nat)
    requires IsGrid(g, h, w) && v in Flatten(g)
    ensures y < h && x < w && g[y][x] == v
  {
    var p := g[..h - 1];
    if v in Flatten(p) {
      y, x := FlattenedCell(p, h - 1, w, v);
      assert p[y][x] == g[y][x];
    } else {
      assert v in g[h - 1];
      var i :| 0 <= i < w && g[h - 1][i] == v;
      y, x := h - 1, i;
    }
  }

  /** The cells of a grid are exactly the entries of its row-major flattening. */
  lemma FlattenCells<T>(g: Grid<T>, h: nat, w: nat)
    requires IsGrid(g, h, w)
    ensures forall v :: v in Flatten(g) <==> exists y, x :: 0 <= y < h && 0 <= x < w && g[y][x] == v
  {
    forall v | v in Flatten(g)
      ensures exists y, x :: 0 <= y < h && 0 <= x < w && g[y][x] == v
    {
      var y, x := FlattenedCell(g, h, w, v);
    }
    forall y, x | 0 <= y < h && 0 <= x < w
      ensures g[y][x] in Flatten(g)
    {
      CellInFlatten(g, h, w, y, x);
    }
  }

  /** The ink mask of the black-and-white picture of a mask is that mask again. */
  lemma MaskOfRender(m: Grid<bool>)
    ensures Mask(Render(m)) == m
  {
    var r := Mask(Render(m));
    forall y | 0 <= y < |m|
      ensures r[y] == m[y]
    {
    }
  }

  /** Two images of the same height are combined row by row. */
  lemma CombineSameHeight(first: Grid<Color>, second: Grid<Color>)
    requires Rect(first) && Rect(second) && |first| == |second|
    ensures CombineBitmaps(first, second) == seq(|first|, y requires 0 <= y < |first| => first[y] + second[y])
  {
    var r := CombineBitmaps(first, second);
    forall y | 0 <= y < |first|
      ensures r[y] == first[y] + second[y]
    {
    }
  }

  /** Cutting an image at a column and combining the two parts side by side gives the image back. */
  lemma CombineCrops(g: Grid<Color>, c: nat)
    requires Rect(g) && c <= Width(g)
    ensures CombineBitmaps(Crop(g, 0, 0, c, |g|), Crop(g, c, 0, Width(g) - c, |g|)) == g
  {
    var left, right := Crop(g, 0, 0, c, |g|), Crop(g, c, 0, Width(g) - c, |g|);
    var r := CombineBitmaps(left, right);
    if |g| > 0 {
      assert Width(left) == c && Width(right) == Width(g) - c;
      GridExtensionality(r, g, |g|, Width(g));
    }
  }

  // ---------------------------------------------------------------------------------------
  // The program's primitives
  // ---------------------------------------------------------------------------------------

  /** ConvertToPixels: copies an image into a fresh colour array of its height and width. */
  method ConvertToPixels(image: Grid<Color>) returns (pixels: array2<Color>)
    requires Rect(image)
    ensures fresh(pixels)
    ensures pixels.Length0 == |image| && pixels.Length1 == Width(image)
    ensures ToGrid(pixels) == image
  {
    pixels := new Color[|image|, Width(image)];
    for i := 0 to pixels.Length0
      invariant forall y, x :: 0 <= y < i && 0 <= x < pixels.Length1 ==> pixels[y, x] == image[y][x]
    {
      for k := 0 to pixels.Length1
        invariant forall y, x :: 0 <= y < i && 0 <= x < pixels.Length1 ==> pixels[y, x] == image[y][x]
        invariant forall x :: 0 <= x < k ==> pixels[i, x] == image[i][x]
      {
        pixels[i, k] := image[i][k];
      }
    }
    ToGridEquals(pixels, image);
  }

  /** ConvertToBits: the ink mask of a colour array, in an array of the same shape. */
  method ConvertToBits(pixels: array2<Color>) returns (bits: array2<bool>)
    ensures fresh(bits)
    ensures bits.Length0 == pixels.Length0 && bits.Length1 == pixels.Length1
    ensures forall y, x :: 0 <= y < bits.Length0 && 0 <= x < bits.Length1 ==>
              bits[y, x] == IsInk(pixels[y, x])
    ensures ToGrid(bits) == Mask(ToGrid(pixels))
  {
    bits := new bool[pixels.Length0, pixels.Length1];
    for y := 0 to pixels.Length0
      invariant forall j, i :: 0 <= j < y && 0 <= i < pixels.Length1 ==> bits[j, i] == IsInk(pixels[j, i])
    {
      for x := 0 to pixels.Length1
        invariant forall j, i :: 0 <= j < y && 0 <= i < pixels.Length1 ==> bits[j, i] == IsInk(pixels[j, i])
        invariant forall i :: 0 <= i < x ==> bits[y, i] == IsInk(pixels[y, i])
      {
        bits[y, x] := pixels[y, x] != White;
      }
    }
    ToGridEquals(bits, Mask(ToGrid(pixels)));
  }

  /** ConvertToBits on an image: the ink mask of the image, through its colour array. */
  method ConvertImageToBits(image: Grid<Color>) returns (bits: array2<bool>)
    requires Rect(image)
    ensures fresh(bits)
    ensures bits.Length0 == |image| && bits.Length1 == Width(image)
    ensures ToGrid(bits) == Mask(image)
  {
    var pixelsInput := ConvertToPixels(image);
    bits := ConvertToBits(pixelsInput);
  }

  /** PixelBitsToBitmap: an image of the mask's width and height, black where the mask is
      true and white elsewhere. A new Bitmap must have a positive width and height. */
  method PixelBitsToBitmap(pixelBits: array2<bool>) returns (bitmap: Grid<Color>)
    requires pixelBits.Length0 > 0 && pixelBits.Length1 > 0
    ensures IsGrid(bitmap, pixelBits.Length0, pixelBits.Length1)
    ensures bitmap == Render(ToGrid(pixelBits))
  {
    ghost var m := ToGrid(pixelBits);
    bitmap := [];
    for y := 0 to pixelBits.Length0
      invariant |bitmap| == y
      invariant forall j :: 0 <= j < y ==> bitmap[j] == Render(m)[j]
    {
      var row := [];
      for x := 0 to pixelBits.Length1
        invariant row == Render(m)[y][..x]
      {
        row := row + [if pixelBits[y, x] then Black else White];
      }
      bitmap := bitmap + [row];
    }
  }

  /** PixelsToBitmap: an image of the array's width and height holding its colours.
      A new Bitmap must have a positive width and height. */
  method PixelsToBitmap(pixels: array2<Color>) returns (bitmap: Grid<Color>)
    requires pixels.Length0 > 0 && pixels.Length1 > 0
    ensures IsGrid(bitmap, pixels.Length0, pixels.Length1)
    ensures bitmap == ToGrid(pixels)
  {
    ghost var g := ToGrid(pixels);
    bitmap := [];
    for i := 0 to pixels.Length0
      invariant |bitmap| == i
      invariant forall j :: 0 <= j < i ==> bitmap[j] == g[j]
    {
      var row := [];
      for k := 0 to pixels.Length1
        invariant row == g[i][..k]
      {
        row := row + [pixels[i, k]];
      }
      bitmap := bitmap + [row];
    }
  }

  /** Distinct extends by an entry it has not kept yet, and ignores one it has. */
  lemma DistinctAppend<T>(s: seq<T>, e: T)
    ensures Distinct(s + [e]) == if e in Distinct(s) then Distinct(s) else Distinct(s) + [e]
  {
    assert (s + [e])[..|s|] == s;
  }

  /** The colours of a grid, each once, as PixelsToPixelNames lists them: no colour twice,
      and every colour of some cell. */
  lemma DistinctCells<T>(g: Grid<T>, h: nat, w: nat)
    requires IsGrid(g, h, w)
    ensures forall i, j :: 0 <= i < j < |Distinct(Flatten(g))| ==> Distinct(Flatten(g))[i] != Distinct(Flatten(g))[j]
    ensures forall v :: v in Distinct(Flatten(g)) <==> exists y, x :: 0 <= y < h && 0 <= x < w && g[y][x] == v
  {
    DistinctSpec(Flatten(g));
    FlattenCells(g, h, w);
  }

  /** PixelsToPixelNames: every colour of the array once, in the order of its first
      occurrence in a row-major scan. */
  method PixelsToPixelNames(pixels: array2<Color>) returns (names: seq<Color>)
    ensures names == Distinct(Flatten(ToGrid(pixels)))
  {
    ghost var g := ToGrid(pixels);
    names := [];
    for y := 0 to pixels.Length0
      invariant names == Distinct(Flatten(g[..y]))
    {
      ghost var done := Flatten(g[..y]);
      assert done + g[y][..0] == done;
      for x := 0 to pixels.Length1
        invariant names == Distinct(done + g[y][..x])
      {
        NamesStep(done, g[y], x, names);
        if pixels[y, x] !in names {
          names := names + [pixels[y, x]];
        }
      }
      FlattenStep(g, y);
    }
    assert g[..pixels.Length0] == g;
  }

  /** One cell of PixelsToPixelNames' scan extends the list of distinct colours. */
  lemma NamesStep<T>(done: seq<T>, row: seq<T>, x: int, names: seq<T>)
    requires 0 <= x < |row| && names == Distinct(done + row[..x])
    ensures Distinct(done + row[..x + 1]) == if row[x] in names then names else names + [row[x]]
  {
    assert done + row[..x + 1] == (done + row[..x]) + [row[x]];
    DistinctAppend(done + row[..x], row[x]);
  }

  /** The flattened first y + 1 rows are the first y rows followed by row y. */
  lemma FlattenStep<T>(g: Grid<T>, y: int)
    requires 0 <= y < |g|
    ensures Flatten(g[..y + 1]) == Flatten(g[..y]) + g[y][..|g[y]|]
  {
    assert g[..y + 1][..y] == g[..y] && g[y][..|g[y]|] == g[y];
  }

  /** ComparePixelBits, without its final percentage: the number of cells of the first mask
      on which the second agrees. The second mask must cover the first. */
  method ComparePixelBits(first: array2<bool>, second: array2<bool>) returns (counter: nat)
    requires first.Length0 <= second.Length0 && first.Length1 <= second.Length1
    ensures counter == InkCount(AgreementMask(ToGrid(first), ToGrid(second)))
    ensures counter <= first.Length0 * first.Length1
    ensures counter == first.Length0 * first.Length1 <==>
              forall y, x :: 0 <= y < first.Length0 && 0 <= x < first.Length1 ==> first[y, x] == second[y, x]
  {
    ghost var e := AgreementMask(ToGrid(first), ToGrid(second));
    counter := 0;
    for y := 0 to first.Length0
      invariant counter == InkCount(e[..y])
    {
      for x := 0 to first.Length1
        invariant counter == InkCount(e[..y]) + CountTrue(e[y][..x])
      {
        CountStep(e[y], x);
        if first[y, x] == second[y, x] {
          counter := counter + 1;
        }
      }
      InkCountStep(e, y);
    }
    assert e[..first.Length0] == e;
    AgreementCount(e, first, second);
  }

  /** Counting one more entry of a row adds it when it is true. */
  lemma CountStep(s: seq<bool>, x: int)
    requires 0 <= x < |s|
    ensures CountTrue(s[..x + 1]) == CountTrue(s[..x]) + if s[x] then 1 else 0
  {
    assert s[..x + 1][..x] == s[..x];
  }

  /** The ink of the first y + 1 rows is that of the first y rows plus that of row y. */
  lemma InkCountStep(m: Grid<bool>, y: int)
    requires 0 <= y < |m|
    ensures InkCount(m[..y + 1]) == InkCount(m[..y]) + CountTrue(m[y][..|m[y]|])
  {
    assert m[..y + 1][..y] == m[..y] && m[y][..|m[y]|] == m[y];
  }

  /** The agreement count of two arrays is at most the cell count, and reaches it exactly when
      they agree everywhere. */
  lemma AgreementCount(e: Grid<bool>, first: array2<bool>, second: array2<bool>)
    requires first.Length0 <= second.Length0 && first.Length1 <= second.Length1
    requires e == AgreementMask(ToGrid(first), ToGrid(second))
    ensures InkCount(e) <= first.Length0 * first.Length1
    ensures InkCount(e) == first.Length0 * first.Length1 <==>
              forall y, x :: 0 <= y < first.Length0 && 0 <= x < first.Length1 ==> first[y, x] == second[y, x]
  {
    InkCountBound(e, first.Length0, first.Length1);
    InkCountFull(e, first.Length0, first.Length1);
  }

  /** GetVerticalBlackLayers: one more than the number of gaps between the ink rows of column x. */
  method GetVerticalBlackLayers(pixelBits: array2<bool>, x: int) returns (counter: int)
    requires 0 <= x < pixelBits.Length1
    ensures counter == Layers(Column(ToGrid(pixelBits), x))
  {
    ghost var line := Column(ToGrid(pixelBits), x);
    var lineCoordinates: seq<int> := [];
    for y := 0 to pixelBits.Length0
      invariant lineCoordinates == Positions(line[..y])
    {
      assert line[..y + 1][..y] == line[..y];
      if pixelBits[y, x] {
        lineCoordinates := lineCoordinates + [y];
      }
    }
    assert line[..pixelBits.Length0] == line;
    counter := CountGaps(lineCoordinates);
  }

  /** GetHorizontalBlackLayers: one more than the number of gaps between the ink columns of row y. */
  method GetHorizontalBlackLayers(pixelBits: array2<bool>, y: int) returns (counter: int)
    requires 0 <= y < pixelBits.Length0
    ensures counter == Layers(ToGrid(pixelBits)[y])
  {
    ghost var line := ToGrid(pixelBits)[y];
    var lineCoordinates: seq<int> := [];
    for x := 0 to pixelBits.Length1
      invariant lineCoordinates == Positions(line[..x])
    {
      assert line[..x + 1][..x] == line[..x];
      if pixelBits[y, x] {
        lineCoordinates := lineCoordinates + [x];
      }
    }
    assert line[..pixelBits.Length1] == line;
    counter := CountGaps(lineCoordinates);
  }

  /** The second loop of the two layer counts: 1 plus the non-consecutive neighbours. */
  method CountGaps(lineCoordinates: seq<int>) returns (counter: int)
    ensures counter == 1 + Gaps(lineCoordinates)
  {
    counter := 1;
    var i := 0;
    while i < |lineCoordinates| - 1
      invariant 0 <= i <= |lineCoordinates|
      invariant i < |lineCoordinates| ==> counter == 1 + Gaps(lineCoordinates[..i + 1])
      invariant |lineCoordinates| <= i + 1
                ==> counter == 1 + Gaps(lineCoordinates[..if i < |lineCoordinates| then i + 1 else i])
    {
      var p := lineCoordinates[..i + 2];
      assert p[..|p| - 1] == lineCoordinates[..i + 1];
      if lineCoordinates[i + 1] != lineCoordinates[i] + 1 {
        counter := counter + 1;
      }
      i := i + 1;
    }
    assert lineCoordinates[..|lineCoordinates|] == lineCoordinates;
  }

  /** GetBlackPixels: the number of ink cells of a mask. */
  method GetBlackPixels(imageBits: array2<bool>) returns (output: nat)
    ensures output == InkCount(ToGrid(imageBits))
    ensures output <= imageBits.Length0 * imageBits.Length1
  {
    ghost var m := ToGrid(imageBits);
    output := 0;
    for y := 0 to imageBits.Length0
      invariant output == InkCount(m[..y])
    {
      for x := 0 to imageBits.Length1
        invariant output == InkCount(m[..y]) + CountTrue(m[y][..x])
      {
        assert m[y][..x + 1][..x] == m[y][..x];
        if imageBits[y, x] {
          output := output + 1;
        }
      }
      assert m[..y + 1][..y] == m[..y] && m[y][..imageBits.Length1] == m[y];
    }
    assert m[..imageBits.Length0] == m;
    InkCountBound(m, imageBits.Length0, imageBits.Length1);
  }

  /** GetBlackPixelsInColumn: the number of ink cells in column x. */
  method GetBlackPixelsInColumn(pixelBits: array2<bool>, x: int) returns (counter: nat)
    requires 0 <= x < pixelBits.Length1
    ensures counter == ColumnInk(ToGrid(pixelBits), x)
    ensures counter <= pixelBits.Length0
  {
    ghost var line := Column(ToGrid(pixelBits), x);
    counter := 0;
    for y := 0 to pixelBits.Length0
      invariant counter == CountTrue(line[..y])
    {
      assert line[..y + 1][..y] == line[..y];
      if pixelBits[y, x] {
        counter := counter + 1;
      }
    }
    assert line[..pixelBits.Length0] == line;
  }
}
