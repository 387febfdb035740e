/** Colours and pixel grids: the representation every stage of the pipeline reads and writes.

    A `Color[,]` or `bool[,]` of the program is an `array2` here; a `Bitmap` that the program
    only creates, clones and hands on is a value `Grid`: a sequence of rows, origin top-left,
    indexed `g[y][x]` where the program writes `Pixels[y, x]` or `bitmap.GetPixel(x, y)`. */
module Pixels {

  /** One 8-bit colour channel. */
  type Byte = x: int | 0 <= x < 256

  /** An opaque RGB colour. The alpha channel is not modelled. */
  datatype Color = Color(r: Byte, g: Byte, b: Byte)

  const White: Color := Color(255, 255, 255)
  const Black: Color := Color(0, 0, 0)

  /** A pixel is ink exactly when it is not pure white. */
  predicate IsInk(c: Color) {
    c != White
  }

  /** The equal-channel grey `Color.FromArgb(m, m, m)`. */
  function Gray(m: Byte): Color {
    Color(m, m, m)
  }

  /** A raster as a sequence of rows. */
  type Grid<T> = seq<seq<T>>

  /** `g` has `h` rows of `w` cells each. */
  predicate IsGrid<T>(g: Grid<T>, h: int, w: int) {
    |g| == h && forall y :: 0 <= y < |g| ==> |g[y]| == w
  }

  /** The number of columns: the length of the first row. */
  function Width<T>(g: Grid<T>): nat {
    if |g| == 0 then 0 else |g[0]|
  }

  /** All rows have the same length. */
  predicate Rect<T>(g: Grid<T>) {
    IsGrid(g, |g|, Width(g))
  }

  /** Every row of `g` has a cell in column `x`. */
  predicate HasColumn<T>(g: Grid<T>, x: int) {
    0 <= x && forall y :: 0 <= y < |g| ==> x < |g[y]|
  }

  /** Column `x` of `g`, top to bottom. */
  function Column<T>(g: Grid<T>, x: int): (c: seq<T>)
    requires HasColumn(g, x)
    ensures |c| == |g|
    ensures forall y :: 0 <= y < |g| ==> c[y] == g[y][x]
  {
    seq(|g|, y requires 0 <= y < |g| => g[y][x])
  }

  /** The rectangle of `w` columns and `h` rows whose top-left cell is `(x, y)`:
      what `Bitmap.Clone(new Rectangle(x, y, w, h), ...)` copies out. */
  function Crop<T>(g: Grid<T>, x: nat, y: nat, w: nat, h: nat): (r: Grid<T>)
    requires Rect(g) && x + w <= Width(g) && y + h <= |g|
    ensures IsGrid(r, h, w)
    ensures forall j, i :: 0 <= j < h && 0 <= i < w ==> r[j][i] == g[y + j][x + i]
  {
    seq(h, j requires 0 <= j < h => g[y + j][x .. x + w])
  }

  /** The contents of a two-dimensional array, row by row. */
  ghost function ToGrid<T>(a: array2<T>): (g: Grid<T>)
    reads a
    ensures IsGrid(g, a.Length0, a.Length1)
    ensures forall y, x :: 0 <= y < a.Length0 && 0 <= x < a.Length1 ==> g[y][x] == a[y, x]
  {
    seq(a.Length0, y requires 0 <= y < a.Length0 reads a =>
      seq(a.Length1, x requires 0 <= x < a.Length1 reads a => a[y, x]))
  }

  /** An array whose cells agree with a grid of its shape holds exactly that grid. */
  lemma ToGridEquals<T>(a: array2<T>, g: Grid<T>)
    requires IsGrid(g, a.Length0, a.Length1)
    requires forall y, x :: 0 <= y < a.Length0 && 0 <= x < a.Length1 ==> a[y, x] == g[y][x]
    ensures ToGrid(a) == g
  {
    var t := ToGrid(a);
    forall y | 0 <= y < a.Length0
      ensures t[y] == g[y]
    {
    }
  }

  /** Two grids of the same shape that agree cell by cell are equal. */
  lemma GridExtensionality<T>(a: Grid<T>, b: Grid<T>, h: int, w: int)
    requires IsGrid(a, h, w) && IsGrid(b, h, w)
    requires forall y, x :: 0 <= y < h && 0 <= x < w ==> a[y][x] == b[y][x]
    ensures a == b
  {
    forall y | 0 <= y < h
      ensures a[y] == b[y]
    {
    }
  }
}
