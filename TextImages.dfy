/** A scanned line of text (Pixelize/Components/TextImage.cs): its colour array, cleaned in
    place by recolouring and a median filter, and cut into CharacterImages. */
module TextImages {
  import opened Pixels
  import opened Sorting
  import opened ImageUtils
  import opened Denoise
  import opened Segmentation
  import opened CharacterImages

  class TextImage {
    /** Fixed after construction; its cells are rewritten in place. */
    const pixels: array2<Color>
    /** Rebuilt after every pass over `pixels`. */
    var pixelBits: array2<bool>

    /** A non-empty image whose mask is the ink mask of its colours. */
    ghost predicate Valid()
      reads this, pixels, pixelBits
    {
      && pixels.Length0 > 0 && pixels.Length1 > 0
      && pixelBits.Length0 == pixels.Length0 && pixelBits.Length1 == pixels.Length1
      && ToGrid(pixelBits) == Mask(ToGrid(pixels))
    }

    /** A bitmap always has a positive width and height. */
    constructor(imageInput: Grid<Color>)
      requires Rect(imageInput) && |imageInput| > 0 && Width(imageInput) > 0
      ensures Valid() && ToGrid(pixels) == imageInput
      ensures fresh(pixels) && fresh(pixelBits)
    {
      var p := ConvertToPixels(imageInput);
      var b := ConvertToBits(p);
      pixels := p;
      pixelBits := b;
    }

    /** The current colours as an image. */
    method Export() returns (bitmap: Grid<Color>)
      requires Valid()
      ensures IsGrid(bitmap, pixels.Length0, pixels.Length1)
      ensures bitmap == ToGrid(pixels)
    {
      bitmap := PixelsToBitmap(pixels);
    }

    // -------------------------------------------------------------------------------------
    // Pixel manipulation
    // -------------------------------------------------------------------------------------

    /** Sets every pixel that satisfies `condition` to `color`, row by row, and rebuilds the mask. */
    method ReplacePixels(condition: Color -> bool, color: Color)
      requires Valid()
      modifies this, pixels
      ensures Valid()
      ensures ToGrid(pixels) == Replaced(old(ToGrid(pixels)), condition, color)
    {
      ghost var g0 := ToGrid(pixels);
      for y := 0 to pixels.Length0
        invariant forall j, i :: 0 <= j < y && 0 <= i < pixels.Length1 ==>
                    pixels[j, i] == if condition(g0[j][i]) then color else g0[j][i]
        invariant forall j, i :: y <= j < pixels.Length0 && 0 <= i < pixels.Length1 ==> pixels[j, i] == g0[j][i]
      {
        ReplaceInRow(condition, color, y);
      }
      ReplacedCells(g0, condition, color);
      ToGridEquals(pixels, Replaced(g0, condition, color));
      RefreshBits();
    }

    /** The inner loop of ReplacePixels: row y, left to right. */
    method ReplaceInRow(condition: Color -> bool, color: Color, y: int)
      requires 0 <= y < pixels.Length0
      modifies pixels
      ensures forall i :: 0 <= i < pixels.Length1 ==>
                pixels[y, i] == if condition(old(pixels[y, i])) then color else old(pixels[y, i])
      ensures forall j, i :: 0 <= j < pixels.Length0 && j != y && 0 <= i < pixels.Length1 ==>
                pixels[j, i] == old(pixels[j, i])
    {
      for x := 0 to pixels.Length1
        invariant forall i :: 0 <= i < x ==>
                    pixels[y, i] == if condition(old(pixels[y, i])) then color else old(pixels[y, i])
        invariant forall j, i :: 0 <= j < pixels.Length0 && 0 <= i < pixels.Length1 && (j != y || i >= x) ==>
                    pixels[j, i] == old(pixels[j, i])
      {
        if condition(pixels[y, x]) {
          pixels[y, x] := color;
        }
      }
    }

    /** Rebuilds the mask from the colours, as every pass over the colours ends. */
    method RefreshBits()
      requires pixels.Length0 > 0 && pixels.Length1 > 0
      modifies this
      ensures Valid()
    {
      pixelBits := ConvertToBits(pixels);
    }

    /** Recolours every pixel equal to `currentColor`. */
    method ReplacePixelColor(currentColor: Color, color: Color)
      requires Valid()
      modifies this, pixels
      ensures Valid()
      ensures ToGrid(pixels) == Replaced(old(ToGrid(pixels)), SameColor(currentColor), color)
    {
      ReplacePixels(SameColor(currentColor), color);
    }

    /** Whitens the watermark, blackens everything white, and runs the median filter. The
        watermark test, a property of the colour's name, is the parameter `watermark`. */
    method RemoveYellowLine(watermark: Color -> bool)
      requires Valid()
      modifies this, pixels
      ensures Valid()
      ensures ToGrid(pixels) ==
                MedianPass(Replaced(Replaced(old(ToGrid(pixels)), watermark, White), SameColor(White), Black))
    {
      ReplacePixels(watermark, White);
      ReplacePixelColor(White, Black);
      RemoveLonelyArtifacts();
    }

    /** The 3x3 median filter, then a fresh mask. */
    method RemoveLonelyArtifacts()
      requires Valid()
      modifies this, pixels
      ensures Valid()
      ensures ToGrid(pixels) == MedianPass(old(ToGrid(pixels)))
    {
      FilterInPlace();
      RefreshBits();
    }

    /** The loops of RemoveLonelyArtifacts: column by column and top to bottom, each pixel is
        replaced in place by its median grey, so that it sees the already filtered values above
        it and to its left. */
    method FilterInPlace()
      requires pixels.Length0 > 0 && pixels.Length1 > 0
      modifies pixels
      ensures ToGrid(pixels) == MedianPass(old(ToGrid(pixels)))
    {
      var width := pixels.Length1;
      ghost var g0 := ToGrid(pixels);
      assert Rect(g0) && Width(g0) == width;
      var mask := new int[9];
      for ii := 0 to width
        invariant ToGrid(pixels) == FilterColumns(g0, ii)
      {
        FilterColumnInPlace(mask, ii);
      }
    }

    /** The inner loop of RemoveLonelyArtifacts: column ii, top to bottom. */
    method FilterColumnInPlace(mask: array<int>, ii: int)
      requires mask.Length == 9 && 0 <= ii < pixels.Length1 && pixels.Length0 > 0
      modifies pixels, mask
      ensures ToGrid(pixels) == FilterColumn(old(ToGrid(pixels)), ii, pixels.Length0)
    {
      var height := pixels.Length0;
      ghost var gx := ToGrid(pixels);
      for jj := 0 to height
        invariant ToGrid(pixels) == FilterColumn(gx, ii, jj)
      {
        FilterPixel(mask, ii, jj);
      }
    }

    /** The body of the filter's inner loop: gathers the nine samples of (ii, jj), sorts them
        and writes the grey of the middle one into (ii, jj). */
    method FilterPixel(mask: array<int>, ii: int, jj: int)
      requires mask.Length == 9 && 0 <= ii < pixels.Length1 && 0 <= jj < pixels.Length0
      modifies pixels, mask
      ensures ToGrid(pixels) == FilterCell(old(ToGrid(pixels)), ii, jj)
    {
      ghost var before := ToGrid(pixels);
      GatherNeighbourhood(mask, ii, jj);
      ghost var samples := mask[..];
      SortInPlace(mask);
      var mid := mask[4];
      MiddleIsMedian(samples, mask[..]);
      WriteCell(jj, ii, Gray(mid));
    }

    /** Fills `mask` with the red channels of the eight neighbours of (ii, jj) and of the pixel
        itself, in the program's order, 0 standing in for a neighbour outside the image. */
    method GatherNeighbourhood(mask: array<int>, ii: int, jj: int)
      requires mask.Length == 9 && 0 <= ii < pixels.Length1 && 0 <= jj < pixels.Length0
      modifies mask
      ensures mask[..] == Sample(ToGrid(pixels), ii, jj)
    {
      var height := pixels.Length0;
      var width := pixels.Length1;
      if ii - 1 >= 0 && jj - 1 >= 0 {
        mask[0] := pixels[jj - 1, ii - 1].r;
      } else {
        mask[0] := 0;
      }
      if jj - 1 >= 0 && ii + 1 < width {
        mask[1] := pixels[jj - 1, ii + 1].r;
      } else {
        mask[1] := 0;
      }
      if jj - 1 >= 0 {
        mask[2] := pixels[jj - 1, ii].r;
      } else {
        mask[2] := 0;
      }
      if ii + 1 < width {
        mask[3] := pixels[jj, ii + 1].r;
      } else {
        mask[3] := 0;
      }
      if ii - 1 >= 0 {
        mask[4] := pixels[jj, ii - 1].r;
      } else {
        mask[4] := 0;
      }
      if ii - 1 >= 0 && jj + 1 < height {
        mask[5] := pixels[jj + 1, ii - 1].r;
      } else {
        mask[5] := 0;
      }
      if jj + 1 < height {
        mask[6] := pixels[jj + 1, ii].r;
      } else {
        mask[6] := 0;
      }
      if ii + 1 < width && jj + 1 < height {
        mask[7] := pixels[jj + 1, ii + 1].r;
      } else {
        mask[7] := 0;
      }
      mask[8] := pixels[jj, ii].r;
      SampleOfArray(mask, pixels, ii, jj);
    }

    /** Writes one pixel: the grid changes in that cell alone. */
    method WriteCell(y: int, x: int, c: Color)
      requires 0 <= y < pixels.Length0 && 0 <= x < pixels.Length1
      modifies pixels
      ensures ToGrid(pixels) == old(ToGrid(pixels))[y := old(ToGrid(pixels))[y][x := c]]
    {
      ghost var g := ToGrid(pixels);
      pixels[y, x] := c;
      ToGridEquals(pixels, g[y := g[y][x := c]]);
    }

    // -------------------------------------------------------------------------------------
    // Character splitting
    // -------------------------------------------------------------------------------------

    /** Cuts the line into character images: the segments of the line, each tightened to its
        ink box and numbered by its position; fails where the program throws. */
    method SplitIntoCharacterImages() returns (r: Result<array<CharacterImage?>>)
      requires Valid() && pixels.Length0 >= 48
      ensures r.Err? <==> Segments(ToGrid(pixels)).Err?
      ensures r.Err? ==> Segments(ToGrid(pixels)) == Err(r.error)
      ensures r.Ok? ==>
                var segments := Segments(ToGrid(pixels)).value;
                var output := r.value;
                && AllRect(segments) && fresh(output) && output.Length == |segments|
                && forall i :: 0 <= i < output.Length ==>
                     output[i] != null && Numbered(output[i], segments[i], i)
    {
      var characterLines := FindCharacterLines();
      var characterXCoordinates := SelectBoundaries(characterLines);
      var imageToCutFrom := PixelsToBitmap(pixels);
      var initialSeparatedCharacterImages := CutSlices(imageToCutFrom, characterXCoordinates);
      if initialSeparatedCharacterImages.Err? {
        return Err(initialSeparatedCharacterImages.error);
      }
      var temp2 := MergeSlices(initialSeparatedCharacterImages.value);
      if temp2.Err? {
        return Err(temp2.error);
      }
      var output := MakeCharacterImages(temp2.value);
      return Ok(output);
    }

    /** The column scan: each column from 5 up to width - 3 that has ink in rows 3 .. height - 4. */
    method FindCharacterLines() returns (characterLines: seq<int>)
      requires Valid()
      ensures characterLines == CharacterLines(ToGrid(pixelBits))
    {
      ghost var m := ToGrid(pixelBits);
      assert Rect(m) && Width(m) == pixelBits.Length1;
      characterLines := [];
      var x := 5;
      while x < pixelBits.Length1 - 3
        invariant 5 <= x && (x == 5 || x <= pixelBits.Length1 - 3)
        invariant x == 5 ==> characterLines == []
        invariant x > 5 ==> characterLines == InkColumnsBelow(m, x)
      {
        var hit := ScanColumn(x);
        InkColumnsStep(m, x);
        if hit {
          characterLines := characterLines + [x];
        }
        x := x + 1;
      }
    }

    /** The row scan of one column: rows 3 .. height - 4, stopping at the first ink pixel. */
    method ScanColumn(x: int) returns (hit: bool)
      requires 0 <= x < pixelBits.Length1
      ensures hit == BandInk(ToGrid(pixelBits), x)
    {
      ghost var m := ToGrid(pixelBits);
      hit := false;
      var y := 3;
      while y < pixelBits.Length0 - 3
        invariant 3 <= y && (y == 3 || y <= pixelBits.Length0 - 3)
        invariant forall j :: 3 <= j < y ==> !m[j][x]
      {
        if pixelBits[y, x] {
          hit := true;
          break;
        }
        y := y + 1;
      }
    }

    /** IsFragmentOfALetter: counts the ink of column x and the five columns left of it, and
        tells whether every count is at most 6. */
    method IsFragmentOfALetter(x: int) returns (fragment: bool)
      requires pixelBits.Length0 > 0 && 5 <= x < pixelBits.Length1
      ensures fragment == IsFragment(ToGrid(pixelBits), x)
    {
      ghost var m := ToGrid(pixelBits);
      var blackPixelsAtColumn := new int[6];
      for i := 0 to blackPixelsAtColumn.Length
        invariant forall k :: 0 <= k < i ==> blackPixelsAtColumn[k] == ColumnInk(m, x - k)
      {
        blackPixelsAtColumn[i] := GetBlackPixelsInColumn(pixelBits, x - i);
      }
      FragmentFromCounts(m, x, blackPixelsAtColumn[..]);
      fragment := forall k :: 0 <= k < 6 ==> blackPixelsAtColumn[k] <= 6;
    }

    /** The boundary selection: each character line that does not end a run of consecutive
        lines is skipped; one that does is kept unless it is a fragment of a letter. */
    method SelectBoundaries(characterLines: seq<int>) returns (characterXCoordinates: seq<int>)
      requires pixelBits.Length0 > 0 && LinesFit(characterLines, pixelBits.Length1)
      ensures characterXCoordinates == Boundaries(ToGrid(pixelBits), characterLines)
    {
      ghost var m := ToGrid(pixelBits);
      assert Rect(m) && Width(m) == pixelBits.Length1;
      characterXCoordinates := [];
      if |characterLines| == 0 {
        return;
      }
      for i := 0 to |characterLines| - 1
        invariant characterXCoordinates == BoundariesBelow(m, characterLines, i)
      {
        BoundariesStep(m, characterLines, i);
        if characterLines[i] + 1 != characterLines[i + 1] {
          var fragment := IsFragmentOfALetter(characterLines[i]);
          if !fragment {
            characterXCoordinates := characterXCoordinates + [characterLines[i]];
          }
        }
      }
    }

    /** The slicing loop: the first, middle and last slices in order; no boundary means the
        first slice reads coordinates[0] of an empty list. */
    method CutSlices(image: Grid<Color>, coordinates: seq<int>) returns (r: Result<seq<Grid<Color>>>)
      requires Rect(image) && |image| >= 48 && LinesFit(coordinates, Width(image))
      requires Width(image) == pixels.Length1
      ensures |coordinates| == 0 ==> r == Err(NoBoundaries)
      ensures |coordinates| > 0 ==> r == Pieces(image, coordinates)
    {
      if |coordinates| == 0 {
        return Err(NoBoundaries);
      }
      ghost var n := |coordinates|;
      ghost var first := TrimLeading(RawSlice(image, coordinates, 0));
      ghost var last := TrimTrailing(RawSlice(image, coordinates, n));
      var slices: seq<Grid<Color>> := [];
      for i := 0 to |coordinates| + 1
        invariant |slices| == i
        invariant i > 0 ==> slices[0] == first
        invariant forall k :: 0 < k < i && k < n ==> slices[k] == RawSlice(image, coordinates, k)
        invariant i > n ==> last == Ok(slices[n])
      {
        var character;
        if i == 0 {
          character := GetFirstCharacter(image, coordinates);
        } else if i < |coordinates| {
          character := GetMiddleCharacter(image, coordinates, i);
        } else {
          var last := GetLastCharacter(image, coordinates);
          if last.Err? {
            return Err(last.error);
          }
          character := last.value;
        }
        slices := slices + [character];
      }
      PiecesFromSlices(image, coordinates, slices);
      r := Ok(slices);
    }

    /** The first slice: columns 5 up to 3 right of the first boundary, rows 2 .. 47, with its
        leading blank columns removed. */
    method GetFirstCharacter(image: Grid<Color>, coordinates: seq<int>) returns (character: Grid<Color>)
      requires SliceFrame(image, coordinates)
      ensures character == TrimLeading(RawSlice(image, coordinates, 0))
    {
      var width := coordinates[0] - 2;
      RawSliceIsCrop(image, coordinates, 0, 5, width);
      var firstCharacter := Crop(image, 5, 2, width, 46);
      character := FixFirstCharacter(firstCharacter);
    }

    /** Slice i: from 3 right of boundary i - 1 up to 3 right of boundary i, rows 2 .. 47. */
    method GetMiddleCharacter(image: Grid<Color>, coordinates: seq<int>, i: int) returns (character: Grid<Color>)
      requires SliceFrame(image, coordinates) && 0 < i < |coordinates|
      ensures character == RawSlice(image, coordinates, i)
    {
      var start, width := coordinates[i - 1] + 3, coordinates[i] - coordinates[i - 1];
      RawSliceIsCrop(image, coordinates, i, start, width);
      character := Crop(image, start, 2, width, 46);
    }

    /** The last slice: from 3 right of the last boundary to the right edge, rows 2 .. 47, cut
        short before its rightmost ink column. */
    method GetLastCharacter(image: Grid<Color>, coordinates: seq<int>) returns (character: Result<Grid<Color>>)
      requires SliceFrame(image, coordinates) && Width(image) == pixels.Length1
      ensures character == TrimTrailing(RawSlice(image, coordinates, |coordinates|))
    {
      var last := coordinates[|coordinates| - 1];
      var start, width := last + 3, pixels.Length1 - last - 3;
      RawSliceIsCrop(image, coordinates, |coordinates|, start, width);
      var lastCharacter := Crop(image, start, 2, width, 46);
      character := FixLastCharacter(lastCharacter);
    }

    /** FixFirstCharacter: scans the columns left to right and stops at the first that has ink,
        then clones the slice from that column on. */
    static method FixFirstCharacter(firstCharacter: Grid<Color>) returns (character: Grid<Color>)
      requires Rect(firstCharacter) && Width(firstCharacter) > 0
      ensures character == TrimLeading(firstCharacter)
    {
      ghost var m := Mask(firstCharacter);
      var firstCharacterColumn := 0;
      var pixelBits := ConvertImageToBits(firstCharacter);
      var x := 0;
      while x < pixelBits.Length1
        invariant 0 <= x <= pixelBits.Length1 && firstCharacterColumn == 0
        invariant forall i :: 0 <= i < x ==> !ColumnHasInk(m, i)
      {
        var exit := false;
        var y := 0;
        while y < pixelBits.Length0
          invariant 0 <= y <= pixelBits.Length0 && !exit && firstCharacterColumn == 0
          invariant forall j :: 0 <= j < y ==> !m[j][x]
        {
          if pixelBits[y, x] {
            firstCharacterColumn := x;
            exit := true;
            break;
          }
          y := y + 1;
        }
        if exit {
          assert ColumnHasInk(m, x);
          break;
        }
        x := x + 1;
      }
      FirstInkColumnUnique(firstCharacter, firstCharacterColumn);
      character := Crop(firstCharacter, firstCharacterColumn, 0, Width(firstCharacter) - firstCharacterColumn,
                        |firstCharacter|);
    }

    /** FixLastCharacter: scans every column, remembering the last that has ink, then clones the
        columns left of it; a clone of width 0 throws. */
    static method FixLastCharacter(lastCharacter: Grid<Color>) returns (character: Result<Grid<Color>>)
      requires Rect(lastCharacter) && |lastCharacter| > 0
      ensures character == TrimTrailing(lastCharacter)
    {
      ghost var m := Mask(lastCharacter);
      var lastCharacterColumn := 0;
      var pixelBits := ConvertImageToBits(lastCharacter);
      for x := 0 to pixelBits.Length1
        invariant lastCharacterColumn < x || lastCharacterColumn == 0
        invariant lastCharacterColumn > 0 ==> ColumnHasInk(m, lastCharacterColumn)
        invariant forall i :: lastCharacterColumn < i < x ==> !ColumnHasInk(m, i)
      {
        for y := 0 to pixelBits.Length0
          invariant forall j :: 0 <= j < y ==> !m[j][x]
          invariant lastCharacterColumn < x || lastCharacterColumn == 0
        {
          if pixelBits[y, x] {
            lastCharacterColumn := x;
            break;
          }
        }
      }
      LastInkColumnUnique(lastCharacter, lastCharacterColumn);
      if lastCharacterColumn == 0 {
        return Err(EmptyLastSlice);
      }
      character := Ok(Crop(lastCharacter, 0, 0, lastCharacterColumn, |lastCharacter|));
    }

    /** The merge loop: drains the queue front first; a slice wider than 6 columns is kept, a
        thinner one is combined onto the last kept slice, or throws when there is none. */
    static method MergeSlices(slices: seq<Grid<Color>>) returns (r: Result<seq<Grid<Color>>>)
      requires AllRect(slices)
      ensures r == Merge([], slices)
    {
      var initialSeparatedCharacterImages := slices;
      var temp2: seq<Grid<Color>> := [];
      while |initialSeparatedCharacterImages| != 0
        invariant AllRect(temp2) && AllRect(initialSeparatedCharacterImages)
        invariant Merge(temp2, initialSeparatedCharacterImages) == Merge([], slices)
        decreases |initialSeparatedCharacterImages|
      {
        var tempImage := initialSeparatedCharacterImages[0];
        initialSeparatedCharacterImages := initialSeparatedCharacterImages[1..];
        if Width(tempImage) > 6 {
          temp2 := temp2 + [tempImage];
        } else {
          if |temp2| == 0 {
            return Err(ThinFirstSlice);
          }
          temp2 := temp2[|temp2| - 1 := CombineBitmaps(temp2[|temp2| - 1], tempImage)];
        }
      }
      r := Ok(temp2);
    }

    /** One CharacterImage per segment, numbered from 0, in an array of the segments' count. */
    static method MakeCharacterImages(segments: seq<Grid<Color>>) returns (output: array<CharacterImage?>)
      requires AllRect(segments)
      ensures fresh(output) && output.Length == |segments|
      ensures forall i :: 0 <= i < output.Length ==>
                output[i] != null && Numbered(output[i], segments[i], i)
    {
      var made: seq<CharacterImage> := [];
      for i := 0 to |segments|
        invariant |made| == i
        invariant forall k :: 0 <= k < i ==> Numbered(made[k], segments[k], k)
      {
        var character := new CharacterImage(segments[i], i);
        made := made + [character];
      }
      output := new CharacterImage?[|made|](k requires 0 <= k < |made| => made[k]);
    }
  }

  /** Counts of the ink of column x and the five columns left of it, in that order, decide
      whether column x is a fragment of a letter. */
  lemma FragmentFromCounts(m: Grid<bool>, x: int, counts: seq<int>)
    requires Rect(m) && 5 <= x < Width(m) && |counts| == 6
    requires forall k :: 0 <= k < 6 ==> counts[k] == ColumnInk(m, x - k)
    ensures IsFragment(m, x) <==> forall k :: 0 <= k < 6 ==> counts[k] <= 6
  {
    assert forall c :: x - 6 < c <= x ==> ColumnInk(m, c) == counts[x - c];
  }

  /** Character image number k, formatted from g. */
  ghost predicate Numbered(c: CharacterImage, g: Grid<Color>, k: int)
    requires Rect(g)
    reads c, c.pixels, c.pixelBits
  {
    c.place == k && c.Valid() && c.FormattedFrom(g)
  }

  /** The red channel of cell (x, y) of an array, or 0 outside it. */
  function RedAt(a: array2<Color>, x: int, y: int): int
    reads a
  {
    if 0 <= y < a.Length0 && 0 <= x < a.Length1 then a[y, x].r else 0
  }

  /** A mask holding, in the program's order, the red channels around (x, y) of an array holds
      the samples of (x, y) in the array's grid. */
  lemma SampleOfArray(mask: array<int>, a: array2<Color>, x: int, y: int)
    requires mask.Length == 9
    requires mask[0] == RedAt(a, x - 1, y - 1) && mask[1] == RedAt(a, x + 1, y - 1) && mask[2] == RedAt(a, x, y - 1)
    requires mask[3] == RedAt(a, x + 1, y) && mask[4] == RedAt(a, x - 1, y)
    requires mask[5] == RedAt(a, x - 1, y + 1) && mask[6] == RedAt(a, x, y + 1) && mask[7] == RedAt(a, x + 1, y + 1)
    requires mask[8] == RedAt(a, x, y)
    ensures mask[..] == Sample(ToGrid(a), x, y)
  {
  }

  /** The middle entry of the sorted samples is their median, a channel value. */
  lemma MiddleIsMedian(s: seq<int>, t: seq<int>)
    requires |s| == 9 && forall i :: 0 <= i < 9 ==> 0 <= s[i] < 256
    requires t == SortSeq(s)
    ensures |t| == 9 && t[4] == Median(s) && 0 <= t[4] < 256
  {
    SortSeqSpec(s);
  }
}
