/** One character cut out of a line (Pixelize/Components/CharacterImage.cs): at construction
    the bitmap is tightened to the box spanned by its ink, then queried for width and ink
    count, or split in two at a percentage of its width. */
module CharacterImages {
  import opened Pixels
  import opened ImageUtils

  // ---------------------------------------------------------------------------------------
  // The four edge scans of Format
  // ---------------------------------------------------------------------------------------

  /** GetLeftCutXLine's answer. */
  function LeftCut(g: Grid<Color>): nat
    requires Rect(g)
  {
    FirstTrue(ColumnFlags(Mask(g)))
  }

  /** GetRightCutXLine's answer. */
  function RightCut(g: Grid<Color>): nat
    requires Rect(g)
  {
    LastTrue(ColumnFlags(Mask(g)))
  }

  /** GetUpCutYLine's answer. */
  function UpCut(g: Grid<Color>): nat
    requires Rect(g)
  {
    FirstTrue(RowFlags(Mask(g)))
  }

  /** GetDownCutYLine's answer. */
  function DownCut(g: Grid<Color>): nat
    requires Rect(g)
  {
    LastTrue(RowFlags(Mask(g)))
  }

  /** The left cut is the leftmost column with ink, or 0 when there is no ink. */
  lemma LeftCutSpec(g: Grid<Color>)
    requires Rect(g)
    ensures var l := LeftCut(g);
            && (forall x :: 0 <= x < l ==> !ColumnHasInk(Mask(g), x))
            && ((l < Width(g) && ColumnHasInk(Mask(g), l))
                || (l == 0 && forall x :: 0 <= x < Width(g) ==> !ColumnHasInk(Mask(g), x)))
  {
  }

  /** The right cut is the rightmost column with ink, found by a scan from the right edge that
      stops before column 0: so it is 0 both when there is no ink and when column 0 alone has
      it. */
  lemma RightCutSpec(g: Grid<Color>)
    requires Rect(g)
    ensures var r := RightCut(g);
            && (r == 0 || (r < Width(g) && ColumnHasInk(Mask(g), r)))
            && (forall x :: r < x < Width(g) ==> !ColumnHasInk(Mask(g), x))
  {
  }

  /** The up cut is the topmost row with ink, or 0 when there is no ink. */
  lemma UpCutSpec(g: Grid<Color>)
    requires Rect(g)
    ensures var u := UpCut(g);
            && (forall y :: 0 <= y < u ==> !RowHasInk(Mask(g), y))
            && ((u < |g| && RowHasInk(Mask(g), u))
                || (u == 0 && forall y :: 0 <= y < |g| ==> !RowHasInk(Mask(g), y)))
  {
  }

  /** The down cut is the bottom row with ink, scanning up to row 1 only, or 0. */
  lemma DownCutSpec(g: Grid<Color>)
    requires Rect(g)
    ensures var d := DownCut(g);
            && (d == 0 || (d < |g| && RowHasInk(Mask(g), d)))
            && (forall y :: d < y < |g| ==> !RowHasInk(Mask(g), y))
  {
  }

  /** Format gives up, leaving the image unassigned, when the box would be empty. */
  predicate Degenerate(g: Grid<Color>)
    requires Rect(g)
  {
    RightCut(g) - LeftCut(g) <= 0 || DownCut(g) - UpCut(g) <= 0
  }

  /** The right and bottom cuts lie inside the bitmap. */
  lemma CutBounds(g: Grid<Color>)
    requires Rect(g)
    ensures RightCut(g) <= Width(g) && DownCut(g) <= |g|
  {
    var cols, rows := ColumnFlags(Mask(g)), RowFlags(Mask(g));
    assert |cols| == Width(g) && |rows| == |g|;
  }

  /** The box of columns [l, r) and rows [u, d) of `g`. */
  function Box(g: Grid<Color>, l: nat, r: nat, u: nat, d: nat): Grid<Color>
    requires Rect(g) && l <= r <= Width(g) && u <= d <= |g|
  {
    Crop(g, l, u, r - l, d - u)
  }

  /** What Format keeps: the ink box, less its last column and last row. */
  function Formatted(g: Grid<Color>): Grid<Color>
    requires Rect(g) && !Degenerate(g)
  {
    CutBounds(g);
    Box(g, LeftCut(g), RightCut(g), UpCut(g), DownCut(g))
  }

  /** Every ink pixel lies inside the box [LeftCut, RightCut] x [UpCut, DownCut], bounds
      included; Format's crop drops exactly the ink on its right and bottom edges. */
  lemma InkInsideBox(g: Grid<Color>, y: int, x: int)
    requires Rect(g) && 0 <= y < |g| && 0 <= x < Width(g) && IsInk(g[y][x])
    ensures LeftCut(g) <= x <= RightCut(g) && UpCut(g) <= y <= DownCut(g)
  {
    var m := Mask(g);
    assert m[y][x];
    assert ColumnHasInk(m, x);
    assert RowHasInk(m, y);
    if x == 0 {
      assert LeftCut(g) == 0;
    }
    if y == 0 {
      assert UpCut(g) == 0;
    }
  }

  /** A bitmap whose ink lies in a single column, or that has no ink at all, is degenerate. */
  lemma SingleInkColumnIsDegenerate(g: Grid<Color>, c: int)
    requires Rect(g)
    requires forall y, x :: 0 <= y < |g| && 0 <= x < Width(g) && IsInk(g[y][x]) ==> x == c
    ensures Degenerate(g)
  {
    var m := Mask(g);
    var l, r := LeftCut(g), RightCut(g);
    if r > 0 {
      var y :| 0 <= y < |m| && m[y][r];
      assert r == c;
      var y' :| 0 <= y' < |m| && m[y'][l];
      assert l == c;
    }
  }

  /** A mask without a true cell counts no ink. */
  lemma {:induction false} NoInkCountsZero(m: Grid<bool>)
    requires forall y, x :: 0 <= y < |m| && 0 <= x < |m[y]| ==> !m[y][x]
    ensures InkCount(m) == 0
  {
    if |m| > 0 {
      NoInkCountsZero(m[..|m| - 1]);
      NoTrueCountsZero(m[|m| - 1]);
    }
  }

  lemma {:induction false} NoTrueCountsZero(s: seq<bool>)
    requires forall i :: 0 <= i < |s| ==> !s[i]
    ensures CountTrue(s) == 0
  {
    if |s| > 0 {
      NoTrueCountsZero(s[..|s| - 1]);
    }
  }

  /** C#'s `a / 100` on int, which truncates toward zero. */
  function TruncDiv100(a: int): (q: int)
    ensures 0 <= a ==> 100 * q <= a < 100 * q + 100
    ensures a < 0 ==> 100 * q - 100 < a <= 100 * q
  {
    if 0 <= a then a / 100 else -((-a) / 100)
  }

  // ---------------------------------------------------------------------------------------
  // The class
  // ---------------------------------------------------------------------------------------

  class CharacterImage {
    /** Null until Format finds a non-empty box, as in the program. */
    var pixels: array2?<Color>
    var pixelBits: array2?<bool>
    const place: int

    /** Either both images are unassigned, or the mask is the ink mask of a non-empty image. */
    ghost predicate Valid()
      reads this, pixels, pixelBits
    {
      && (pixels == null <==> pixelBits == null)
      && (pixels != null ==>
            && pixels.Length0 > 0 && pixels.Length1 > 0
            && pixelBits.Length0 == pixels.Length0 && pixelBits.Length1 == pixels.Length1
            && ToGrid(pixelBits) == Mask(ToGrid(pixels)))
    }

    /** The state the constructor leaves after formatting `g`. */
    ghost predicate FormattedFrom(g: Grid<Color>)
      requires Rect(g)
      reads this, pixels
    {
      if Degenerate(g) then pixels == null && pixelBits == null
      else pixels != null && ToGrid(pixels) == Formatted(g)
    }

    constructor(bitmap: Grid<Color>, place: int)
      requires Rect(bitmap)
      ensures this.place == place
      ensures Valid() && FormattedFrom(bitmap)
      ensures pixels != null ==> fresh(pixels) && fresh(pixelBits)
    {
      this.place := place;
      pixels := null;
      pixelBits := null;
      new;
      Format(bitmap);
    }

    /** Tightens the image to its ink box; leaves the object alone when the box is empty. */
    method Format(bitmap: Grid<Color>)
      requires Rect(bitmap) && pixels == null && pixelBits == null
      modifies this
      ensures Valid() && FormattedFrom(bitmap)
      ensures pixels != null ==> fresh(pixels) && fresh(pixelBits)
    {
      var leftCut := GetLeftCutXLine(bitmap);
      var rightCut := GetRightCutXLine(bitmap);
      var upCut := GetUpCutYLine(bitmap);
      var downCut := GetDownCutYLine(bitmap);

      if rightCut - leftCut <= 0 || downCut - upCut <= 0 {
        assert Degenerate(bitmap);
        return;
      }

      CutBounds(bitmap);
      assert Formatted(bitmap) == Box(bitmap, leftCut, rightCut, upCut, downCut);
      pixels, pixelBits := CropAndConvert(bitmap, leftCut, rightCut, upCut, downCut);
    }

    /** The tail of Format: clones the box out of the bitmap and builds both arrays from it. */
    static method CropAndConvert(bitmap: Grid<Color>, leftCut: int, rightCut: int, upCut: int, downCut: int)
      returns (newPixels: array2<Color>, newPixelBits: array2<bool>)
      requires Rect(bitmap) && 0 <= leftCut < rightCut <= Width(bitmap) && 0 <= upCut < downCut <= |bitmap|
      ensures fresh(newPixels) && fresh(newPixelBits)
      ensures newPixels.Length0 == downCut - upCut && newPixels.Length1 == rightCut - leftCut
      ensures newPixelBits.Length0 == newPixels.Length0 && newPixelBits.Length1 == newPixels.Length1
      ensures ToGrid(newPixels) == Box(bitmap, leftCut, rightCut, upCut, downCut)
      ensures ToGrid(newPixelBits) == Mask(ToGrid(newPixels))
    {
      var image := Crop(bitmap, leftCut, upCut, rightCut - leftCut, downCut - upCut);
      newPixels := ConvertToPixels(image);
      newPixelBits := ConvertToBits(newPixels);
    }

    static method GetLeftCutXLine(bitmap: Grid<Color>) returns (cut: int)
      requires Rect(bitmap)
      ensures cut == LeftCut(bitmap)
    {
      var x := 0;
      while x < Width(bitmap)
        invariant 0 <= x <= Width(bitmap)
        invariant forall c :: 0 <= c < x ==> !ColumnHasInk(Mask(bitmap), c)
      {
        var y := 0;
        while y < |bitmap|
          invariant 0 <= y <= |bitmap|
          invariant forall j :: 0 <= j < y ==> !IsInk(bitmap[j][x])
        {
          if IsInk(bitmap[y][x]) {
            assert Mask(bitmap)[y][x];
            assert ColumnHasInk(Mask(bitmap), x);
            return x;
          }
          y := y + 1;
        }
        x := x + 1;
      }
      return 0;
    }

    static method GetRightCutXLine(bitmap: Grid<Color>) returns (cut: int)
      requires Rect(bitmap)
      ensures cut == RightCut(bitmap)
    {
      var x := Width(bitmap) - 1;
      while x > 0
        invariant -1 <= x < Width(bitmap)
        invariant forall c :: x < c < Width(bitmap) ==> !ColumnHasInk(Mask(bitmap), c)
      {
        var y := 0;
        while y < |bitmap|
          invariant 0 <= y <= |bitmap|
          invariant forall j :: 0 <= j < y ==> !IsInk(bitmap[j][x])
        {
          if IsInk(bitmap[y][x]) {
            assert Mask(bitmap)[y][x];
            assert ColumnHasInk(Mask(bitmap), x);
            return x;
          }
          y := y + 1;
        }
        x := x - 1;
      }
      return 0;
    }

    static method GetUpCutYLine(bitmap: Grid<Color>) returns (cut: int)
      requires Rect(bitmap)
      ensures cut == UpCut(bitmap)
    {
      var y := 0;
      while y < |bitmap|
        invariant 0 <= y <= |bitmap|
        invariant forall r :: 0 <= r < y ==> !RowHasInk(Mask(bitmap), r)
      {
        var x := 0;
        while x < Width(bitmap)
          invariant 0 <= x <= Width(bitmap)
          invariant forall i :: 0 <= i < x ==> !IsInk(bitmap[y][i])
        {
          if IsInk(bitmap[y][x]) {
            assert Mask(bitmap)[y][x];
            assert RowHasInk(Mask(bitmap), y);
            return y;
          }
          x := x + 1;
        }
        y := y + 1;
      }
      return 0;
    }

    static method GetDownCutYLine(bitmap: Grid<Color>) returns (cut: int)
      requires Rect(bitmap)
      ensures cut == DownCut(bitmap)
    {
      var y := |bitmap| - 1;
      while y > 0
        invariant -1 <= y < |bitmap|
        invariant forall r :: y < r < |bitmap| ==> !RowHasInk(Mask(bitmap), r)
      {
        var x := 0;
        while x < Width(bitmap)
          invariant 0 <= x <= Width(bitmap)
          invariant forall i :: 0 <= i < x ==> !IsInk(bitmap[y][i])
        {
          if IsInk(bitmap[y][x]) {
            assert Mask(bitmap)[y][x];
            assert RowHasInk(Mask(bitmap), y);
            return y;
          }
          x := x + 1;
        }
        y := y - 1;
      }
      return 0;
    }

    /** The image as a bitmap. */
    method Export() returns (bitmap: Grid<Color>)
      requires Valid() && pixels != null
      ensures bitmap == ToGrid(pixels)
    {
      bitmap := PixelsToBitmap(pixels);
    }

    /** Wider than one character may be: the test reads the mask, and the answer is the same
        for the colour image the caller sees. */
    function HasMoreThan1CharacterInside(maximumWidthForACharacter: int): (wide: bool)
      reads this, pixels, pixelBits
      requires Valid() && pixelBits != null
      ensures wide <==> pixels.Length1 > maximumWidthForACharacter
    {
      pixelBits.Length1 > maximumWidthForACharacter
    }

    /** An image formatted from `g` is too wide for one character exactly when the ink of `g`
        spans more than the maximum width plus its excluded last column. */
    lemma WideIffInkSpanExceeds(g: Grid<Color>, maximumWidthForACharacter: int)
      requires Rect(g) && Valid() && FormattedFrom(g) && pixels != null
      ensures HasMoreThan1CharacterInside(maximumWidthForACharacter)
              <==> RightCut(g) - LeftCut(g) > maximumWidthForACharacter
    {
    }

    /** Too little ink to be a character. */
    method IsALostFragment(minimalBlackPixelsForACharacter: int) returns (lost: bool)
      requires Valid() && pixelBits != null
      ensures lost <==> InkCount(ToGrid(pixelBits)) < minimalBlackPixelsForACharacter
      ensures (&& pixels != null
               && (forall y, x :: 0 <= y < pixels.Length0 && 0 <= x < pixels.Length1 ==> !IsInk(pixels[y, x]))
               && minimalBlackPixelsForACharacter > 0)
              ==> lost
    {
      var blackPixels := GetBlackPixels(pixelBits);
      lost := blackPixels < minimalBlackPixelsForACharacter;
      if pixels != null && forall y, x :: 0 <= y < pixels.Length0 && 0 <= x < pixels.Length1 ==> !IsInk(pixels[y, x]) {
        NoInkCountsZero(ToGrid(pixelBits));
      }
    }

    /** Splits the image at `rate` percent of its width into two new characters with the given
        places; each half is formatted afresh, and the halves side by side are the image. */
    method SplitInto2Characters(rate: int, firstCharacterPlace: int, secondCharacterPlace: int)
      returns (first: CharacterImage, second: CharacterImage)
      requires Valid() && pixels != null
      requires 0 < TruncDiv100(rate * pixels.Length1) < pixels.Length1
      ensures fresh(first) && fresh(second)
      ensures first.place == firstCharacterPlace && second.place == secondCharacterPlace
      ensures var g, cut := ToGrid(pixels), TruncDiv100(rate * pixels.Length1);
              var left, right := Crop(g, 0, 0, cut, |g|), Crop(g, cut, 0, Width(g) - cut, |g|);
              && CombineBitmaps(left, right) == g
              && first.Valid() && first.FormattedFrom(left)
              && second.Valid() && second.FormattedFrom(right)
    {
      var imageToSplit := PixelsToBitmap(pixels);
      var imageWidth := Width(imageToSplit);
      var imageHeight := |imageToSplit|;
      var xToCutAt := TruncDiv100(rate * imageWidth);

      var firstImage := Crop(imageToSplit, 0, 0, xToCutAt, imageHeight);
      var secondImage := Crop(imageToSplit, xToCutAt, 0, imageWidth - xToCutAt, imageHeight);

      first := new CharacterImage(firstImage, firstCharacterPlace);
      second := new CharacterImage(secondImage, secondCharacterPlace);
      CombineCrops(imageToSplit, xToCutAt);
    }
  }
}
