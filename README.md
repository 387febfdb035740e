# Pixelize segmentation core in Dafny

Pixelize reads a scanned line of text and cuts it into one image per character. This project
models that pipeline and proves what each step computes:

- `TextImage` holds the line as a mutable colour grid (`Color[,]`) and its ink mask (`bool[,]`).
  It recolours pixels chosen by a predicate and runs a 3x3 median filter in place. To split the
  line, it scans the columns for ink, selects boundaries, cuts slices and trims the first and
  last, folds thin slices into their left neighbour, and numbers the results.
- `ImageUtils` supplies the mask and counting primitives: the ink mask, ink counts in total and
  per column, "black layers", mask agreement, distinct pixel names, and the geometry of
  `CombineBitmaps`.
- `CharacterImage` tightens each character to its ink box when it is built. It also answers two
  classification queries and splits itself in two at a percentage of its width.

Modules, one per file, in dependency order:

| module | contents |
|---|---|
| `Pixels` | colours, grids as sequences of rows, `Crop` (the model of `Bitmap.Clone` with a rectangle), `ToGrid` (the value of a 2-D array) |
| `Sorting` | an insertion sort in place on a 9-entry array, proved to yield the unique sorted permutation `SortSeq` (the model of `Array.Sort(int[])`) |
| `ImageUtils` | specification functions, the loop methods of `ImageUtils.cs` proved equal to them, and their properties |
| `CharacterImages` | class `CharacterImage` with the four edge scans, `Format`, the queries and the split |
| `Denoise` | the recolouring function and the median-filter pass as pure functions, with frame and stability facts about the column-major, in-place scan |
| `Segmentation` | the split as pure functions: character lines, boundaries, slices, trimming, the merge pass, and the error cases |
| `TextImages` | class `TextImage`, whose methods run the source's loops over its arrays and are proved to compute the functions of `Denoise` and `Segmentation` |

Modelling choices:

- A `Bitmap` is a value grid `seq<seq<Color>>` of rows.
- `Color[,]` and `bool[,]` are `array2`.
- `TextImage.Pixels` is a `const` array mutated in place.
- `TextImage.PixelBits` is a field that is reassigned.
- `CharacterImage.Pixels` and `PixelBits` are nullable, because `Format` may return before
  assigning them.
- Ink is "RGB differs from white".
- The program throws in three ways while splitting. Each becomes an error value of
  `Segmentation.Result`:
  - `NoBoundaries`: `coordinates[0]` read from an empty boundary list, at
    Pixelize/Components/TextImage.cs line 229;
  - `EmptyLastSlice`: a last slice with no ink past column 0 is cloned to width 0, at line 296;
  - `ThinFirstSlice`: a first slice of width at most 6 reads `temp2[-1]`, at line 201.
- A clone rectangle the bitmap cannot hold becomes a precondition (for example, a line at least
  48 rows high).
- The two `Constants` the code uses are not part of this model. `MaximumWidthForACharacter` and
  `MinimalBlackPixelsForACharacter` are parameters.

The model follows the code where it departs from the obvious intent:

- The first slice covers columns 5 to `c0 + 3`, not 5 to `c0 - 2`. Its width is `c0 - 2`
  starting at column 5.
- The median filter reads neighbours it has already rewritten.
- The filter's out-of-grid neighbours count as 0. Corners, and every pixel of an image one pixel
  thin, therefore turn black.
- `FixLastCharacter` keeps the columns before the rightmost ink column and so drops that column.
  `Format` likewise drops the last ink column and row.
- The right and bottom edge scans stop at index 1, so ink only in column (row) 0 yields a
  degenerate box and `Format` leaves the image empty.

## Model

| member | source | states |
|---|---|---|
| Pixels.Crop | Pixelize/Components/CharacterImage.cs:65-66 | the clone of a rectangle has its height and width and holds the source cell at each offset |
| Sorting.SortSeqSpec | Pixelize/Components/TextImage.cs:115 | the sorted sequence is ascending, a permutation of the input and of the same length |
| Sorting.SortedUnique | Pixelize/Components/TextImage.cs:115 | two ascending sequences with the same elements are equal, so the result of `Array.Sort` is determined |
| Sorting.SortInPlace | Pixelize/Components/TextImage.cs:115 | sorting the mask array in place leaves exactly `SortSeq` of its old contents |
| Sorting.SinkLast | Pixelize/Components/TextImage.cs:115 | inserting entry i into the sorted prefix keeps the array a permutation and makes the prefix through i sorted |
| ImageUtils.Mask | Pixelize/Utils/ImageUtils.cs:31-43 | the mask has the grid's shape and a cell is true exactly when its pixel is not white |
| ImageUtils.ConvertToPixels | Pixelize/Utils/ImageUtils.cs:9-23 | a fresh array of the image's height and width holding the image cell for cell |
| ImageUtils.ConvertToBits | Pixelize/Utils/ImageUtils.cs:31-43 | a fresh array of the same dimensions whose cell is true iff the pixel is ink, i.e. the mask of the pixels |
| ImageUtils.ConvertImageToBits | Pixelize/Utils/ImageUtils.cs:25-29 | the bits of an image are the mask of its pixels, with the image's dimensions |
| ImageUtils.Render | Pixelize/Utils/ImageUtils.cs:49-56 | true becomes Black and false White, cell by cell, keeping the shape |
| ImageUtils.PixelBitsToBitmap | Pixelize/Utils/ImageUtils.cs:45-58 | the bitmap has height `GetLength(0)` and width `GetLength(1)` and is the rendering of the bits |
| ImageUtils.MaskOfRender | Pixelize/Utils/ImageUtils.cs:45-58 | masking a rendered bit grid gives the bits back (round trip) |
| ImageUtils.PixelsToBitmap | Pixelize/Utils/ImageUtils.cs:60-73 | the bitmap has the array's dimensions and holds its pixels |
| ImageUtils.CombineBitmaps | Pixelize/Utils/ImageUtils.cs:108-121 | width is the sum, height the larger one; the first image sits at x = 0 and the second at x = width of the first |
| ImageUtils.CombineSameHeight | Pixelize/Utils/ImageUtils.cs:108-121 | for equal heights the combination is each row of the first followed by that row of the second |
| ImageUtils.CombineCrops | Pixelize/Utils/ImageUtils.cs:108-121 | combining the left and right parts of a grid cut at column c gives the grid back |
| ImageUtils.DistinctSpec | Pixelize/Utils/ImageUtils.cs:124-136 | the collected names have no repeats, are exactly the values that occur, and appear in the order of their first occurrence |
| ImageUtils.DistinctCells | Pixelize/Utils/ImageUtils.cs:124-136 | the names of a grid are distinct and are exactly the values of its cells |
| ImageUtils.DistinctAppend | Pixelize/Utils/ImageUtils.cs:131-132 | one more pixel adds its name at the end iff it was not already collected |
| ImageUtils.PixelsToPixelNames | Pixelize/Utils/ImageUtils.cs:124-136 | the row-major scan returns the distinct names of the flattened grid |
| ImageUtils.AgreementMask | Pixelize/Utils/ImageUtils.cs:142-150 | a cell is true exactly where the two masks agree, over the first mask's shape |
| ImageUtils.ComparePixelBits | Pixelize/Utils/ImageUtils.cs:138-155 | the counter is the number of agreeing cells, at most height times width, and reaches it iff the masks agree everywhere |
| ImageUtils.AgreementCount | Pixelize/Utils/ImageUtils.cs:142-150 | the agreement count is bounded by the cell count and equals it exactly when every cell agrees |
| ImageUtils.Positions | Pixelize/Utils/ImageUtils.cs:170-176 | the recorded coordinates are exactly the ink positions, ascending, none after the last |
| ImageUtils.Runs | Pixelize/Utils/ImageUtils.cs:167-185 | the number of maximal ink runs is 0 iff the line has no ink |
| ImageUtils.LayersCountRuns | Pixelize/Utils/ImageUtils.cs:167-185 | the layer count equals the number of maximal ink runs when there is ink, and is 1 for a blank line |
| ImageUtils.GetVerticalBlackLayers | Pixelize/Utils/ImageUtils.cs:167-185 | the result is `Layers` of column x |
| ImageUtils.GetHorizontalBlackLayers | Pixelize/Utils/ImageUtils.cs:187-205 | the result is `Layers` of row y |
| ImageUtils.CountGaps | Pixelize/Utils/ImageUtils.cs:179-183 | one plus the number of non-adjacent consecutive coordinates |
| ImageUtils.GetBlackPixels | Pixelize/Utils/ImageUtils.cs:222-234 | the number of true cells, at most height times width |
| ImageUtils.InkCountBound | Pixelize/Utils/ImageUtils.cs:222-234 | the ink count of an h by w mask is at most h times w |
| ImageUtils.InkCountFull | Pixelize/Utils/ImageUtils.cs:222-234 | the ink count equals h times w iff every cell is true |
| ImageUtils.CountTrueFull | Pixelize/Utils/ImageUtils.cs:227-230 | a row's count equals its length iff every entry is true |
| ImageUtils.GetBlackPixelsInColumn | Pixelize/Utils/ImageUtils.cs:237-246 | the number of true cells in column x, at most the height |
| ImageUtils.ColumnsSumToTotal | Pixelize/Utils/ImageUtils.cs:222-246 | the per-column counts over all columns sum to the total ink count |
| ImageUtils.FirstTrue | Pixelize/Components/CharacterImage.cs:72-83 | the first true flag, or 0 when there is none |
| ImageUtils.LastTrue | Pixelize/Components/CharacterImage.cs:85-96 | the last true flag, or 0 when there is none |
| CharacterImages.LeftCutSpec | Pixelize/Components/CharacterImage.cs:72-83 | the left cut is the first column with ink, with no ink before it, or 0 when the bitmap is blank |
| CharacterImages.RightCutSpec | Pixelize/Components/CharacterImage.cs:85-96 | the right cut is 0 or an ink column with no ink to its right (column 0 is never examined) |
| CharacterImages.UpCutSpec | Pixelize/Components/CharacterImage.cs:98-109 | the up cut is the first row with ink, with none above it, or 0 when blank |
| CharacterImages.DownCutSpec | Pixelize/Components/CharacterImage.cs:111-122 | the down cut is 0 or an ink row with no ink below it (row 0 is never examined) |
| CharacterImages.CharacterImage.GetLeftCutXLine | Pixelize/Components/CharacterImage.cs:72-83 | the nested scan with early return yields `LeftCut` |
| CharacterImages.CharacterImage.GetRightCutXLine | Pixelize/Components/CharacterImage.cs:85-96 | the scan from the right edge down to column 1 yields `RightCut` |
| CharacterImages.CharacterImage.GetUpCutYLine | Pixelize/Components/CharacterImage.cs:98-109 | the row scan yields `UpCut` |
| CharacterImages.CharacterImage.GetDownCutYLine | Pixelize/Components/CharacterImage.cs:111-122 | the scan from the bottom down to row 1 yields `DownCut` |
| CharacterImages.CutBounds | Pixelize/Components/CharacterImage.cs:63-66 | the right and down cuts lie inside the bitmap, so the clone rectangle fits |
| CharacterImages.InkInsideBox | Pixelize/Components/CharacterImage.cs:58-66 | every ink pixel lies in the closed box between the cuts, so the crop loses only the last ink column and row |
| CharacterImages.SingleInkColumnIsDegenerate | Pixelize/Components/CharacterImage.cs:63 | a bitmap whose ink all lies in one column (or that has none) is left unformatted |
| CharacterImages.TruncDiv100 | Pixelize/Components/CharacterImage.cs:28 | C#'s integer division by 100, truncating toward zero for either sign |
| CharacterImages.CharacterImage.constructor | Pixelize/Components/CharacterImage.cs:15-19 | the place is the argument; the image is valid and formatted from the bitmap |
| CharacterImages.CharacterImage.Format | Pixelize/Components/CharacterImage.cs:56-70 | a degenerate box leaves both arrays unassigned; otherwise fresh arrays hold the ink box and its mask |
| CharacterImages.CharacterImage.CropAndConvert | Pixelize/Components/CharacterImage.cs:65-69 | fresh arrays of the box's size holding the box and its mask |
| CharacterImages.CharacterImage.Export | Pixelize/Components/CharacterImage.cs:42-45 | the bitmap holds the formatted pixels |
| CharacterImages.CharacterImage.HasMoreThan1CharacterInside | Pixelize/Components/CharacterImage.cs:48-49 | "wider than one character" exactly when the formatted image is wider than the maximum; the mask's width stands for the colour image's |
| CharacterImages.CharacterImage.WideIffInkSpanExceeds | Pixelize/Components/CharacterImage.cs:48-49 | the image is "wider than one character" iff the span between its left and right cuts exceeds the maximum |
| CharacterImages.CharacterImage.IsALostFragment | Pixelize/Components/CharacterImage.cs:51-52 | true iff the ink count is below the minimum; an image without ink is lost whenever the minimum is positive |
| CharacterImages.NoInkCountsZero | Pixelize/Components/CharacterImage.cs:51-52 | a mask without true cells counts 0 |
| CharacterImages.CharacterImage.SplitInto2Characters | Pixelize/Components/CharacterImage.cs:22-40 | the cut is the truncated `rate * width / 100`; the halves carry the given places, are formatted from the two crops, and the crops combine back to the image |
| Denoise.ReplacedCells | Pixelize/Components/TextImage.cs:133-141 | a pixel satisfying the condition becomes the colour and every other pixel is unchanged |
| Denoise.ReplacedIdempotent | Pixelize/Components/TextImage.cs:133-141 | replacing twice with the same condition and colour equals replacing once |
| Denoise.RecolouringLeavesNoWhite | Pixelize/Components/TextImage.cs:27-30 | with colours equal when their RGB is, after watermark-to-white and white-to-black no pixel is white, so every pixel is ink before the filter |
| Denoise.Sample | Pixelize/Components/TextImage.cs:45-114 | nine red values in [0, 256), in the mask's order |
| Denoise.Median | Pixelize/Components/TextImage.cs:115-116 | the middle of the sorted nine is one of them |
| Denoise.MedianOfMostlyZero | Pixelize/Components/TextImage.cs:115-116 | nine non-negative values, at least five of them 0, have median 0 |
| Denoise.MedianPass | Pixelize/Components/TextImage.cs:34-122 | the filter keeps the grid's dimensions |
| Denoise.FilterColumnFrame | Pixelize/Components/TextImage.cs:43-118 | filtering rows 0 to n-1 of a column leaves every other cell alone |
| Denoise.FilterColumnStable | Pixelize/Components/TextImage.cs:43-118 | a filtered cell of the column does not change as the scan moves down |
| Denoise.FilterColumnsFrame | Pixelize/Components/TextImage.cs:41-119 | columns right of the scan still hold their original values |
| Denoise.FilterColumnsStable | Pixelize/Components/TextImage.cs:41-119 | a filtered column does not change as the scan moves right |
| Denoise.MedianPassCell | Pixelize/Components/TextImage.cs:41-117 | each output pixel is the grey of the median of its neighbourhood in the partly filtered grid the scan sees at that point |
| Denoise.FilterCellAt | Pixelize/Components/TextImage.cs:113-117 | the visited cell receives the median grey of its neighbourhood |
| Denoise.BeforeHoldsFilteredPrefix | Pixelize/Components/TextImage.cs:41-117 | at (x, y) the columns left of x and the rows above y in column x hold filtered values, all others original ones |
| Denoise.SampleOutside | Pixelize/Components/TextImage.cs:46-111 | neighbours outside the grid enter the sample as 0, position by position |
| Denoise.SampleMostlyZero | Pixelize/Components/TextImage.cs:46-111 | at a corner, or anywhere in a one-pixel-thin image, at least five sample values are 0 |
| Denoise.CornersTurnBlack | Pixelize/Components/TextImage.cs:41-117 | the four corners of any non-empty image become black |
| Denoise.EdgeTurnsBlack | Pixelize/Components/TextImage.cs:41-117 | a corner pixel or a pixel of a thin image becomes black |
| Denoise.ThinImageTurnsBlack | Pixelize/Components/TextImage.cs:41-117 | an image one row or one column thin becomes entirely black |
| Segmentation.InkColumnsBelow | Pixelize/Components/TextImage.cs:152-162 | the recorded columns are ascending, in [5, n), and are exactly the columns with ink in rows 3 to height-4 |
| Segmentation.InkColumnsStep | Pixelize/Components/TextImage.cs:152-162 | one more scanned column appends it iff it has ink in the band |
| Segmentation.CharacterLines | Pixelize/Components/TextImage.cs:152-162 | the character lines are strictly ascending and inside [5, width - 3) |
| Segmentation.BoundariesBelow | Pixelize/Components/TextImage.cs:164-170 | an ascending selection of the first n lines holding line i exactly when it is a cut |
| Segmentation.BoundariesStep | Pixelize/Components/TextImage.cs:164-170 | one more line appends it iff its successor is not adjacent and it is not a fragment |
| Segmentation.Boundaries | Pixelize/Components/TextImage.cs:164-170 | the boundaries are an ascending subsequence of the lines; a line below the last is kept iff it is a cut; the last line is never kept |
| Segmentation.SlicesTile | Pixelize/Components/TextImage.cs:227-248 | the slices start at column 5, end at the width, are non-empty, and each ends where the next begins |
| Segmentation.SliceContaining | Pixelize/Components/TextImage.cs:227-248 | every column from 5 to the width lies in some slice (no gap) |
| Segmentation.SlicesOrdered | Pixelize/Components/TextImage.cs:227-248 | an earlier slice ends no later than a later one starts (no overlap) |
| Segmentation.RawSlice | Pixelize/Components/TextImage.cs:227-248 | slice i is 46 rows high and as wide as its column range, never empty |
| Segmentation.RawSliceIsCrop | Pixelize/Components/TextImage.cs:229-245 | the rectangle each Get*Character method clones is exactly slice i |
| Segmentation.RawSlices | Pixelize/Components/TextImage.cs:174-188 | k boundaries give k + 1 rectangular slices of 46 rows |
| Segmentation.RawSlicesCoverLine | Pixelize/Components/TextImage.cs:174-188 | the raw slices' widths add up to width - 5 |
| Segmentation.RawPrefixWidth | Pixelize/Components/TextImage.cs:174-188 | the first n slices are together as wide as the columns from 5 to the end of slice n - 1 |
| Segmentation.TotalWidthAppend | Pixelize/Components/TextImage.cs:174-188 | widths add up over concatenation |
| Segmentation.FirstInkColumn | Pixelize/Components/TextImage.cs:256-270 | the first ink column with no ink before it, or 0 for a blank slice |
| Segmentation.FirstInkColumnUnique | Pixelize/Components/TextImage.cs:256-270 | any column with those properties is the first ink column |
| Segmentation.TrimLeading | Pixelize/Components/TextImage.cs:250-276 | exactly the leading blank columns are removed; the result starts with ink when there is any; a blank slice is unchanged |
| Segmentation.LastInkColumn | Pixelize/Components/TextImage.cs:284-294 | 0 or an ink column with no ink to its right (the overwriting scan keeps the last hit) |
| Segmentation.LastInkColumnUnique | Pixelize/Components/TextImage.cs:284-294 | any column with those properties is the last ink column |
| Segmentation.TrimTrailing | Pixelize/Components/TextImage.cs:278-299 | an error iff no column past 0 has ink; otherwise the columns before the rightmost ink column |
| Segmentation.Merge | Pixelize/Components/TextImage.cs:190-202 | a successful merge yields rectangles |
| Segmentation.MergeFails | Pixelize/Components/TextImage.cs:190-202 | the merge fails, with `ThinFirstSlice`, iff nothing is accepted yet and the next slice is at most 6 wide |
| Segmentation.MergeShape | Pixelize/Components/TextImage.cs:190-202 | every merged slice is wider than 6 and as high as before; one result per wide slice; total width preserved |
| Segmentation.Pieces | Pixelize/Components/TextImage.cs:174-188 | k + 1 rectangular slices of 46 rows when the last slice can be trimmed |
| Segmentation.PiecesFromSlices | Pixelize/Components/TextImage.cs:174-188 | the trimmed first, raw middle and trimmed last slices in order are the pieces |
| Segmentation.PiecesNarrower | Pixelize/Components/TextImage.cs:174-188 | the pieces are together at most width - 5 wide |
| Segmentation.NarrowerTotal | Pixelize/Components/TextImage.cs:174-188 | pointwise narrower sequences are narrower in total |
| Segmentation.Segments | Pixelize/Components/TextImage.cs:147-202 | the segments of a successful split are rectangles |
| Segmentation.SegmentsShape | Pixelize/Components/TextImage.cs:147-202 | a successful split gives segments wider than 6 and 46 rows high, one per wide piece, together at most width - 5 wide |
| Segmentation.SegmentsErrors | Pixelize/Components/TextImage.cs:147-202 | the split fails with `NoBoundaries` iff there is no boundary, with `EmptyLastSlice` iff the last slice has no ink past column 0, and with `ThinFirstSlice` iff the trimmed first slice is at most 6 wide |
| TextImages.TextImage.constructor | Pixelize/Components/TextImage.cs:14-18 | the pixels are the image and the bits its mask |
| TextImages.TextImage.Export | Pixelize/Components/TextImage.cs:21-24 | the bitmap has the array's shape and holds the pixels |
| TextImages.TextImage.ReplacePixels | Pixelize/Components/TextImage.cs:133-144 | the pixels become `Replaced` of the old pixels and the bits are recomputed |
| TextImages.TextImage.ReplaceInRow | Pixelize/Components/TextImage.cs:137-141 | row y is replaced cell by cell and every other row is unchanged |
| TextImages.TextImage.RefreshBits | Pixelize/Components/TextImage.cs:143 | the bits are rebuilt as the mask of the pixels |
| TextImages.TextImage.ReplacePixelColor | Pixelize/Components/TextImage.cs:127-128 | every pixel equal to the current colour becomes the new colour, others unchanged |
| TextImages.TextImage.RemoveYellowLine | Pixelize/Components/TextImage.cs:27-32 | the pixels become the median pass of the recoloured grid (watermark to white, white to black) |
| TextImages.TextImage.RemoveLonelyArtifacts | Pixelize/Components/TextImage.cs:34-122 | the pixels become `MedianPass` of the old pixels and the bits are rebuilt |
| TextImages.TextImage.FilterInPlace | Pixelize/Components/TextImage.cs:39-119 | the column loop leaves `MedianPass` of the old pixels |
| TextImages.TextImage.FilterColumnInPlace | Pixelize/Components/TextImage.cs:43-118 | the row loop of column ii leaves `FilterColumn` of the old pixels |
| TextImages.TextImage.FilterPixel | Pixelize/Components/TextImage.cs:45-117 | one loop body writes the median grey of the neighbourhood into (ii, jj) and nothing else |
| TextImages.TextImage.GatherNeighbourhood | Pixelize/Components/TextImage.cs:45-114 | the mask holds the nine red values of `Sample` |
| TextImages.SampleOfArray | Pixelize/Components/TextImage.cs:45-114 | the array reads in mask order form `Sample` of the grid |
| TextImages.MiddleIsMedian | Pixelize/Components/TextImage.cs:115-116 | entry 4 of the sorted mask is the median, a byte |
| TextImages.TextImage.WriteCell | Pixelize/Components/TextImage.cs:117 | exactly one cell changes |
| TextImages.TextImage.SplitIntoCharacterImages | Pixelize/Components/TextImage.cs:147-213 | fails exactly when `Segments` fails and with its error; otherwise a fresh array with one character image per segment, formatted from it and numbered 0 to n-1 |
| TextImages.TextImage.FindCharacterLines | Pixelize/Components/TextImage.cs:152-162 | the scan returns `CharacterLines` of the bits |
| TextImages.TextImage.ScanColumn | Pixelize/Components/TextImage.cs:154-161 | the inner loop finds ink in the band iff there is some |
| TextImages.TextImage.IsFragmentOfALetter | Pixelize/Components/TextImage.cs:215-225 | true iff columns x-5 to x each hold at most 6 ink pixels |
| TextImages.FragmentFromCounts | Pixelize/Components/TextImage.cs:217-224 | the six counts, in the array's order, decide the fragment test |
| TextImages.TextImage.SelectBoundaries | Pixelize/Components/TextImage.cs:164-170 | the loop returns `Boundaries` of the lines |
| TextImages.TextImage.CutSlices | Pixelize/Components/TextImage.cs:174-188 | no boundary fails with `NoBoundaries`; otherwise the slices are `Pieces` |
| TextImages.TextImage.GetFirstCharacter | Pixelize/Components/TextImage.cs:227-232 | the trimmed first raw slice |
| TextImages.TextImage.GetMiddleCharacter | Pixelize/Components/TextImage.cs:234-239 | raw slice i |
| TextImages.TextImage.GetLastCharacter | Pixelize/Components/TextImage.cs:241-248 | the trailing trim of the last raw slice, or its error |
| TextImages.TextImage.FixFirstCharacter | Pixelize/Components/TextImage.cs:250-276 | the scan with its exit flag computes `TrimLeading` |
| TextImages.TextImage.FixLastCharacter | Pixelize/Components/TextImage.cs:278-299 | the overwriting scan computes `TrimTrailing` |
| TextImages.TextImage.MergeSlices | Pixelize/Components/TextImage.cs:190-202 | draining the queue computes `Merge` |
| TextImages.TextImage.MakeCharacterImages | Pixelize/Components/TextImage.cs:205-210 | a fresh array whose entry i is a character image numbered i and formatted from segment i |

## Left out

- Pixelize/Program.cs (file loading, PNG saving, the command-line driver) is not part of this model.
- `ReplacePixelsWithLetterInPosition` and Pixelize/Utils/ColorUtils.cs: these test a hex digit of `Color.Name`. `RemoveYellowLine` takes that test as an abstract colour predicate `watermark`.
- `ReplacePixelsAboveBrightnessLimit`: `Color.GetBrightness` is floating point. It is `ReplacePixels` with an abstract condition.
- `ResizeImage`, `Compare`, `CompareImageAndPixelBits`: GDI+ resampling and double arithmetic.
- ImageUtils.ComparePixelBits: the double percentage is not modelled. Only the integer agreement counter is, and the result is that counter.
- The `Image` overloads of `ConvertToBits` and `GetBlackPixels` go through `ConvertToPixels`. Only `ConvertToBits` has a model, as `ConvertImageToBits`, on a value grid.
- Colours are RGB triples:
  - alpha is not modelled;
  - .NET's `Color ==` also compares known-colour identity; that is not modelled;
  - the `"ff000000"` renaming in `ConvertToPixels` is not modelled;
  - the edge scans' `Name != "ffffffff"` test is modelled as the ink test;
  - the pixel names of `PixelsToPixelNames` are the colours themselves.
- ImageUtils.CombineBitmaps: canvas cells neither image covers (only when the heights differ) are Black, the RGB of a fresh bitmap's transparent fill. The alpha of that fill is not modelled. The merge only combines slices of equal height.
- CharacterImages.CharacterImage.SplitInto2Characters: `rate * width` is unbounded here. The source computes it in 32-bit `int`, which would wrap for huge rates.
- CharacterImages.CharacterImage.Export, CharacterImages.CharacterImage.HasMoreThan1CharacterInside, CharacterImages.CharacterImage.IsALostFragment and CharacterImages.CharacterImage.SplitInto2Characters: on an image whose formatting left no pixels, the source throws `NullReferenceException` (or, in `Export`, an exception from `PixelsToBitmap`). The model requires the pixel arrays to be present instead.
- ImageUtils.ComparePixelBits: the source reads `second[y, x]` over the first mask's extent and throws `IndexOutOfRangeException` when the second mask is smaller. The model requires the second mask to cover the first.
- ImageUtils.GetVerticalBlackLayers, ImageUtils.GetHorizontalBlackLayers and ImageUtils.GetBlackPixelsInColumn: an out-of-range column or row index throws `IndexOutOfRangeException` in the source. The model requires the index to be in range. The two layer counters have no caller in the core, and `IsFragmentOfALetter` passes columns x - 5 to x of a line the column scan found at x >= 5 (TextImage.cs:151, :218-222).
- TextImages.TextImage.RemoveYellowLine: colours compare by RGB, so the white-to-black step blackens every white pixel, including the white background the image already had. The source compares with the known colour `Color.White` (TextImage.cs:30, :127-128). .NET's `==` does not equate that with a pixel read from the bitmap, so it blackens only the pixels the watermark step set, and the original white background survives. The model's recoloured grid is therefore all ink, where the source's keeps the background white.
- The constructors model `Bitmap.Clone` bounds and zero-size bitmaps as preconditions instead of exceptions. The line must be at least 48 rows high, the image non-empty, and a split cut strictly inside the width.
- Sorting.SortInPlace: `Array.Sort` is introspective. It is modelled as an insertion sort, proved to yield the one sorted permutation, so the result agrees.
- TextImages.TextImage.MakeCharacterImages: the character images are created one by one in the source's order, collected in a sequence, and the array is built from that sequence in one step. The source allocates the array first and assigns each entry as it goes. The result is the same.
- TextImages.TextImage.MakeCharacterImages: the postcondition states the array's freshness but not that of each element.
- The inner loops of `ReplacePixels`, `RemoveLonelyArtifacts` and `SplitIntoCharacterImages` are separate methods: `ReplaceInRow`, `FilterColumnInPlace`, `FilterPixel`, `GatherNeighbourhood`, `ScanColumn`, `CutSlices`, `MergeSlices` and `MakeCharacterImages`. Likewise `Format`'s tail is `CropAndConvert`. The statements and their order are the source's.
- TextImages.TextImage.SplitIntoCharacterImages: the `ArgumentOutOfRangeException` arm of the switch is unreachable and not modelled.
