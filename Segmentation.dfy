/** How TextImage.SplitIntoCharacterImages (Pixelize/Components/TextImage.cs) cuts a line of
    text into character bitmaps. This module holds the stages as functions; the TextImage
    class runs them as the program's loops and proves that it computes them.

    1. character lines: the columns from 5 up to (not including) width - 3 that have ink in
       rows 3 .. height - 4;
    2. boundaries: the character lines that end a run of consecutive lines and are not
       fragments of a letter; the last character line is never examined;
    3. raw slices: 46 rows from row 2, the first starting at column 5, each later one 3
       columns right of the previous boundary, the last ending at the right edge;
    4. the first slice loses its leading blank columns, the last slice everything from its
       rightmost ink column on;
    5. merge: left to right, a slice at most 6 columns wide is glued onto the previous one. */
module Segmentation {
  import opened Pixels
  import opened ImageUtils

  /** Why splitting a line throws. */
  datatype SplitError =
    | NoBoundaries    // no boundary was found, and the first slice indexes coordinates[0]
    | EmptyLastSlice  // the last slice has no ink right of its column 0: a zero-width clone
    | ThinFirstSlice  // the first slice is at most 6 columns wide and has no slice to join

  datatype Result<T> = Ok(value: T) | Err(error: SplitError)

  // ---------------------------------------------------------------------------------------
  // Character lines
  // ---------------------------------------------------------------------------------------

  /** Column x has ink somewhere in rows 3 .. |m| - 4, the band the column scan examines. */
  predicate BandInk(m: Grid<bool>, x: int)
    requires HasColumn(m, x)
  {
    exists y :: 3 <= y < |m| - 3 && m[y][x]
  }

  /** The columns from 5 up to (not including) n with ink in the band, left to right. */
  function InkColumnsBelow(m: Grid<bool>, n: int): (lines: seq<int>)
    requires Rect(m) && n <= Width(m)
    ensures forall i :: 0 <= i < |lines| ==> 5 <= lines[i] < n
    ensures forall i, j :: 0 <= i < j < |lines| ==> lines[i] < lines[j]
    ensures forall x :: 5 <= x < n ==> (x in lines <==> BandInk(m, x))
    decreases n
  {
    if n <= 5 then [] else InkColumnsBelow(m, n - 1) + if BandInk(m, n - 1) then [n - 1] else []
  }

  /** One more column of the scan. */
  lemma InkColumnsStep(m: Grid<bool>, x: int)
    requires Rect(m) && 5 <= x < Width(m)
    ensures InkColumnsBelow(m, x + 1) == InkColumnsBelow(m, x) + if BandInk(m, x) then [x] else []
  {
  }

  /** `characterLines`: every ink-bearing column of the scanned range [5, width - 3). */
  function CharacterLines(m: Grid<bool>): (lines: seq<int>)
    requires Rect(m)
    ensures LinesFit(lines, Width(m))
  {
    InkColumnsBelow(m, Width(m) - 3)
  }

  /** Strictly ascending columns, each inside [5, w - 3). */
  predicate LinesFit(lines: seq<int>, w: int) {
    && (forall i :: 0 <= i < |lines| ==> 5 <= lines[i] < w - 3)
    && (forall i, j :: 0 <= i < j < |lines| ==> lines[i] < lines[j])
  }

  // ---------------------------------------------------------------------------------------
  // Boundaries
  // ---------------------------------------------------------------------------------------

  /** IsFragmentOfALetter: column x and the five columns left of it each hold at most 6 ink
      pixels over the whole height. */
  predicate IsFragment(m: Grid<bool>, x: int)
    requires Rect(m) && 5 <= x < Width(m)
  {
    forall c :: x - 6 < c <= x ==> ColumnInk(m, c) <= 6
  }

  /** Character line i is kept as a boundary: the next line is not its right neighbour, and it
      is not a fragment of a letter. */
  predicate IsCut(m: Grid<bool>, lines: seq<int>, i: int)
    requires Rect(m) && LinesFit(lines, Width(m)) && 0 <= i < |lines| - 1
  {
    lines[i] + 1 != lines[i + 1] && !IsFragment(m, lines[i])
  }

  /** The boundaries among the first n character lines. */
  function BoundariesBelow(m: Grid<bool>, lines: seq<int>, n: nat): (cuts: seq<int>)
    requires Rect(m) && LinesFit(lines, Width(m)) && n < |lines|
    ensures forall c :: c in cuts ==> c in lines[..n]
    ensures forall i :: 0 <= i < n ==> (lines[i] in cuts <==> IsCut(m, lines, i))
    ensures forall i, j :: 0 <= i < j < |cuts| ==> cuts[i] < cuts[j]
  {
    if n == 0 then []
    else
      var prev := BoundariesBelow(m, lines, n - 1);
      assert forall i :: 0 <= i < |prev| ==> prev[i] < lines[n - 1] by {
        forall i | 0 <= i < |prev|
          ensures prev[i] < lines[n - 1]
        {
          assert prev[i] in lines[..n - 1];
        }
      }
      prev + if IsCut(m, lines, n - 1) then [lines[n - 1]] else []
  }

  /** One more character line of the selection. */
  lemma BoundariesStep(m: Grid<bool>, lines: seq<int>, n: nat)
    requires Rect(m) && LinesFit(lines, Width(m)) && n + 1 < |lines|
    ensures BoundariesBelow(m, lines, n + 1)
            == BoundariesBelow(m, lines, n) + if IsCut(m, lines, n) then [lines[n]] else []
  {
  }

  /** `characterXCoordinates`: an ascending selection of the character lines, holding line i
      (i below the last index) exactly when it is a cut, and never the last line. */
  function Boundaries(m: Grid<bool>, lines: seq<int>): (cuts: seq<int>)
    requires Rect(m) && LinesFit(lines, Width(m))
    ensures LinesFit(cuts, Width(m))
    ensures forall c :: c in cuts ==> c in lines
    ensures forall i :: 0 <= i < |lines| - 1 ==> (lines[i] in cuts <==> IsCut(m, lines, i))
    ensures |lines| > 0 ==> lines[|lines| - 1] !in cuts
  {
    if |lines| == 0 then []
    else
      var cuts := BoundariesBelow(m, lines, |lines| - 1);
      assert forall i :: 0 <= i < |cuts| ==> 5 <= cuts[i] < lines[|lines| - 1] by {
        forall i | 0 <= i < |cuts|
          ensures 5 <= cuts[i] < lines[|lines| - 1]
        {
          assert cuts[i] in lines[..|lines| - 1];
        }
      }
      cuts
  }

  // ---------------------------------------------------------------------------------------
  // Raw slices
  // ---------------------------------------------------------------------------------------

  /** The first column of slice i: 5 for the first, 3 right of the previous boundary after. */
  function SliceStart(cuts: seq<int>, i: int): int
    requires 0 <= i <= |cuts|
  {
    if i == 0 then 5 else cuts[i - 1] + 3
  }

  /** One past the last column of slice i: 3 right of its boundary, the width for the last. */
  function SliceEnd(cuts: seq<int>, i: int, w: int): int
    requires 0 <= i <= |cuts|
  {
    if i == |cuts| then w else cuts[i] + 3
  }

  /** With at least one boundary, the |cuts| + 1 slices are non-empty, start at column 5, end
      at the right edge and follow each other without gap or overlap. */
  lemma SlicesTile(cuts: seq<int>, w: int)
    requires LinesFit(cuts, w) && |cuts| > 0
    ensures SliceStart(cuts, 0) == 5 && SliceEnd(cuts, |cuts|, w) == w
    ensures forall i :: 0 <= i <= |cuts| ==> SliceStart(cuts, i) < SliceEnd(cuts, i, w)
    ensures forall i :: 0 <= i < |cuts| ==> SliceEnd(cuts, i, w) == SliceStart(cuts, i + 1)
  {
    forall i | 0 <= i <= |cuts|
      ensures SliceStart(cuts, i) < SliceEnd(cuts, i, w)
    {
      if 0 < i < |cuts| {
        assert cuts[i - 1] < cuts[i];
      }
    }
  }

  /** Every column of [5, w) lies in some slice. */
  lemma SliceContaining(cuts: seq<int>, w: int, x: int) returns (i: int)
    requires LinesFit(cuts, w) && 5 <= x < w
    ensures 0 <= i <= |cuts| && SliceStart(cuts, i) <= x < SliceEnd(cuts, i, w)
  {
    i := 0;
    while SliceEnd(cuts, i, w) <= x
      invariant 0 <= i <= |cuts| && SliceStart(cuts, i) <= x
      decreases |cuts| - i
    {
      i := i + 1;
    }
  }

  /** Slices come in order: each ends no later than any later one starts, so no column lies
      in two slices. */
  lemma SlicesOrdered(cuts: seq<int>, w: int)
    requires LinesFit(cuts, w)
    ensures forall i, j :: 0 <= i < j <= |cuts| ==> SliceEnd(cuts, i, w) <= SliceStart(cuts, j)
  {
    forall i, j | 0 <= i < j <= |cuts|
      ensures SliceEnd(cuts, i, w) <= SliceStart(cuts, j)
    {
      if i < j - 1 {
        assert cuts[i] < cuts[j - 1];
      }
    }
  }

  /** The shape every slicing step assumes: a line image at least 48 rows high and boundaries
      inside its scanned range. */
  predicate SliceFrame(image: Grid<Color>, cuts: seq<int>) {
    Rect(image) && |image| >= 48 && |cuts| > 0 && LinesFit(cuts, Width(image))
  }

  /** Slice i before trimming: rows 2 .. 47 of its columns. */
  function RawSlice(image: Grid<Color>, cuts: seq<int>, i: int): (r: Grid<Color>)
    requires SliceFrame(image, cuts) && 0 <= i <= |cuts|
    ensures IsGrid(r, 46, SliceEnd(cuts, i, Width(image)) - SliceStart(cuts, i))
    ensures Width(r) > 0
  {
    SlicesTile(cuts, Width(image));
    var start := SliceStart(cuts, i);
    Crop(image, start, 2, SliceEnd(cuts, i, Width(image)) - start, 46)
  }

  /** Raw slice i is the crop of the given start and width, once those are its bounds. */
  lemma RawSliceIsCrop(image: Grid<Color>, cuts: seq<int>, i: int, start: nat, width: nat)
    requires SliceFrame(image, cuts) && 0 <= i <= |cuts|
    requires start == SliceStart(cuts, i) && width == SliceEnd(cuts, i, Width(image)) - start
    requires start + width <= Width(image)
    ensures RawSlice(image, cuts, i) == Crop(image, start, 2, width, 46)
  {
  }

  /** All raw slices, left to right. */
  function RawSlices(image: Grid<Color>, cuts: seq<int>): (s: seq<Grid<Color>>)
    requires SliceFrame(image, cuts)
    ensures |s| == |cuts| + 1
    ensures AllRect(s) && AllHigh(s, 46)
  {
    seq(|cuts| + 1, i requires 0 <= i <= |cuts| => RawSlice(image, cuts, i))
  }

  /** The sum of the widths of a sequence of bitmaps. */
  function TotalWidth(s: seq<Grid<Color>>): nat {
    if |s| == 0 then 0 else Width(s[0]) + TotalWidth(s[1..])
  }

  lemma {:induction false} TotalWidthAppend(a: seq<Grid<Color>>, b: seq<Grid<Color>>)
    ensures TotalWidth(a + b) == TotalWidth(a) + TotalWidth(b)
  {
    if |a| > 0 {
      assert (a + b)[0] == a[0];
      assert (a + b)[1..] == a[1..] + b;
      TotalWidthAppend(a[1..], b);
    } else {
      assert a + b == b;
    }
  }

  /** The widths of the raw slices add up to the scanned width: columns 5 .. width - 1. */
  lemma RawSlicesCoverLine(image: Grid<Color>, cuts: seq<int>)
    requires SliceFrame(image, cuts)
    ensures TotalWidth(RawSlices(image, cuts)) == Width(image) - 5
  {
    var s := RawSlices(image, cuts);
    RawPrefixWidth(image, cuts, |s|);
    assert s[..|s|] == s;
  }

  lemma {:induction false} RawPrefixWidth(image: Grid<Color>, cuts: seq<int>, n: nat)
    requires SliceFrame(image, cuts) && 1 <= n <= |cuts| + 1
    ensures TotalWidth(RawSlices(image, cuts)[..n]) == SliceEnd(cuts, n - 1, Width(image)) - 5
  {
    var s := RawSlices(image, cuts);
    SlicesTile(cuts, Width(image));
    if n == 1 {
      assert s[..1] == [s[0]];
      assert TotalWidth(s[..1]) == Width(s[0]) + TotalWidth([]);
    } else {
      RawPrefixWidth(image, cuts, n - 1);
      assert s[..n] == s[..n - 1] + [s[n - 1]];
      TotalWidthAppend(s[..n - 1], [s[n - 1]]);
      assert TotalWidth([s[n - 1]]) == Width(s[n - 1]) + TotalWidth([]);
    }
  }

  // ---------------------------------------------------------------------------------------
  // Trimming the first and last slice
  // ---------------------------------------------------------------------------------------

  /** Some pixel of g is ink. */
  predicate HasInk(g: Grid<Color>) {
    exists y, x :: 0 <= y < |g| && 0 <= x < |g[y]| && IsInk(g[y][x])
  }

  /** A grid has ink exactly when some column of its mask has. */
  lemma HasInkColumn(g: Grid<Color>)
    requires Rect(g)
    ensures HasInk(g) <==> true in ColumnFlags(Mask(g))
  {
    var m := Mask(g);
    if HasInk(g) {
      var y, x :| 0 <= y < |g| && 0 <= x < |g[y]| && IsInk(g[y][x]);
      assert m[y][x];
      assert ColumnFlags(m)[x];
    }
    if true in ColumnFlags(m) {
      var x :| 0 <= x < Width(g) && ColumnFlags(m)[x];
      var y :| 0 <= y < |m| && m[y][x];
      assert IsInk(g[y][x]);
    }
  }

  /** The column FixFirstCharacter starts from: the leftmost column with ink, or 0. */
  function FirstInkColumn(g: Grid<Color>): (f: nat)
    requires Rect(g) && Width(g) > 0
    ensures f < Width(g)
    ensures forall x :: 0 <= x < f ==> !ColumnHasInk(Mask(g), x)
    ensures HasInk(g) ==> ColumnHasInk(Mask(g), f)
    ensures !HasInk(g) ==> f == 0
  {
    HasInkColumn(g);
    FirstTrue(ColumnFlags(Mask(g)))
  }

  /** FixFirstCharacter: the slice from its first ink column on; the whole slice if it has no
      ink at all. Only blank columns are dropped, and then all of the leading ones. */
  function TrimLeading(g: Grid<Color>): (r: Grid<Color>)
    requires Rect(g) && Width(g) > 0
    ensures IsGrid(r, |g|, Width(r)) && 0 < Width(r) <= Width(g)
    ensures r == Crop(g, Width(g) - Width(r), 0, Width(r), |g|)
    ensures forall x :: 0 <= x < Width(g) - Width(r) ==> !ColumnHasInk(Mask(g), x)
    ensures HasInk(g) ==> ColumnHasInk(Mask(r), 0)
    ensures !HasInk(g) ==> r == g
  {
    var f := FirstInkColumn(g);
    var r := Crop(g, f, 0, Width(g) - f, |g|);
    assert Width(r) == Width(g) - f;
    CropKeepsInk(g, f, r);
    if f == 0 then
      GridExtensionality(r, g, |g|, Width(g));
      r
    else
      r
  }

  lemma CropKeepsInk(g: Grid<Color>, f: nat, r: Grid<Color>)
    requires Rect(g) && f < Width(g) && r == Crop(g, f, 0, Width(g) - f, |g|)
    ensures ColumnHasInk(Mask(g), f) ==> ColumnHasInk(Mask(r), 0)
  {
    if ColumnHasInk(Mask(g), f) {
      var y :| 0 <= y < |g| && Mask(g)[y][f];
      assert Mask(r)[y][0];
    }
  }

  /** The leftmost ink column is the only column with ink and no ink to its left; with no
      ink anywhere it is 0. */
  lemma FirstInkColumnUnique(g: Grid<Color>, f: nat)
    requires Rect(g) && f < Width(g)
    requires forall x :: 0 <= x < f ==> !ColumnHasInk(Mask(g), x)
    requires ColumnHasInk(Mask(g), f) || (f == 0 && forall x :: 0 <= x < Width(g) ==> !ColumnHasInk(Mask(g), x))
    ensures f == FirstInkColumn(g)
  {
    var m := Mask(g);
    if ColumnHasInk(m, f) {
      var y :| 0 <= y < |m| && m[y][f];
      assert IsInk(g[y][f]);
    } else if HasInk(g) {
      var y, x :| 0 <= y < |g| && 0 <= x < |g[y]| && IsInk(g[y][x]);
      assert m[y][x];
    }
  }

  /** The column FixLastCharacter keeps up to: the rightmost column with ink, or 0. */
  function LastInkColumn(g: Grid<Color>): (l: nat)
    requires Rect(g)
    ensures l < Width(g) || l == 0
    ensures l > 0 ==> ColumnHasInk(Mask(g), l)
    ensures forall x :: l < x < Width(g) ==> !ColumnHasInk(Mask(g), x)
  {
    LastTrue(ColumnFlags(Mask(g)))
  }

  /** FixLastCharacter: the columns left of the rightmost ink column. That column and all
      after it are dropped, and a slice with no ink right of column 0 would be cut to width
      0, which the program's clone rejects. */
  function TrimTrailing(g: Grid<Color>): (r: Result<Grid<Color>>)
    requires Rect(g) && |g| > 0
    ensures r.Err? <==> forall x :: 1 <= x < Width(g) ==> !ColumnHasInk(Mask(g), x)
    ensures r.Err? ==> r.error == EmptyLastSlice
    ensures r.Ok? ==> var v := r.value;
              && IsGrid(v, |g|, Width(v)) && 0 < Width(v) < Width(g)
              && v == Crop(g, 0, 0, Width(v), |g|)
              && ColumnHasInk(Mask(g), Width(v))
              && forall x :: Width(v) < x < Width(g) ==> !ColumnHasInk(Mask(g), x)
  {
    var l := LastInkColumn(g);
    if l == 0 then Err(EmptyLastSlice) else Ok(Crop(g, 0, 0, l, |g|))
  }

  /** The rightmost ink column is the only column that has ink (or is 0) with no ink to its
      right. */
  lemma LastInkColumnUnique(g: Grid<Color>, l: nat)
    requires Rect(g) && (l < Width(g) || l == 0)
    requires l > 0 ==> ColumnHasInk(Mask(g), l)
    requires forall x :: l < x < Width(g) ==> !ColumnHasInk(Mask(g), x)
    ensures l == LastInkColumn(g)
  {
  }

  // ---------------------------------------------------------------------------------------
  // Merging thin slices
  // ---------------------------------------------------------------------------------------

  predicate AllRect(s: seq<Grid<Color>>) {
    forall i :: 0 <= i < |s| ==> Rect(s[i])
  }

  /** Every bitmap is wider than the 6 columns the merge pass tolerates. */
  predicate AllWide(s: seq<Grid<Color>>) {
    forall i :: 0 <= i < |s| ==> Width(s[i]) > 6
  }

  /** Every bitmap has h rows. */
  predicate AllHigh(s: seq<Grid<Color>>, h: int) {
    forall i :: 0 <= i < |s| ==> |s[i]| == h
  }

  /** The number of bitmaps wider than 6 columns. */
  function WideCount(s: seq<Grid<Color>>): nat {
    if |s| == 0 then 0 else (if Width(s[0]) > 6 then 1 else 0) + WideCount(s[1..])
  }

  /** The merge pass: the queue drained front first into `accepted`; a slice wider than 6
      columns is appended, a thinner one is combined onto the last accepted slice, and a thin
      slice with nothing accepted before it indexes an empty list. */
  function Merge(accepted: seq<Grid<Color>>, queue: seq<Grid<Color>>): (r: Result<seq<Grid<Color>>>)
    requires AllRect(accepted) && AllRect(queue)
    ensures r.Ok? ==> AllRect(r.value)
    decreases |queue|
  {
    if |queue| == 0 then Ok(accepted)
    else if Width(queue[0]) > 6 then Merge(accepted + [queue[0]], queue[1..])
    else if |accepted| == 0 then Err(ThinFirstSlice)
    else
      var last := |accepted| - 1;
      Merge(accepted[last := CombineBitmaps(accepted[last], queue[0])], queue[1..])
  }

  /** The merge fails exactly when nothing has been accepted and the next slice is thin. */
  lemma {:induction false} MergeFails(accepted: seq<Grid<Color>>, queue: seq<Grid<Color>>)
    requires AllRect(accepted) && AllRect(queue)
    ensures Merge(accepted, queue).Err? <==> |accepted| == 0 && |queue| > 0 && Width(queue[0]) <= 6
    ensures Merge(accepted, queue).Err? ==> Merge(accepted, queue).error == ThinFirstSlice
    decreases |queue|
  {
    if |queue| > 0 {
      if Width(queue[0]) > 6 {
        MergeFails(accepted + [queue[0]], queue[1..]);
      } else if |accepted| > 0 {
        var last := |accepted| - 1;
        MergeFails(accepted[last := CombineBitmaps(accepted[last], queue[0])], queue[1..]);
      }
    }
  }

  /** A successful merge of wide accepted slices yields wide slices of the common height, one
      per wide slice of the queue beyond those accepted, with the total width preserved. */
  lemma {:induction false} MergeShape(accepted: seq<Grid<Color>>, queue: seq<Grid<Color>>, h: int)
    requires AllRect(accepted) && AllRect(queue)
    requires AllWide(accepted) && AllHigh(accepted, h) && AllHigh(queue, h)
    requires Merge(accepted, queue).Ok?
    ensures var out := Merge(accepted, queue).value;
            && AllWide(out) && AllHigh(out, h)
            && |out| == |accepted| + WideCount(queue)
            && TotalWidth(out) == TotalWidth(accepted) + TotalWidth(queue)
    decreases |queue|
  {
    if |queue| > 0 {
      var q := queue[0];
      assert queue == [q] + queue[1..];
      TotalWidthAppend([q], queue[1..]);
      assert TotalWidth([q]) == Width(q) + TotalWidth([]);
      if Width(q) > 6 {
        var next := accepted + [q];
        TotalWidthAppend(accepted, [q]);
        MergeShape(next, queue[1..], h);
      } else {
        var last := |accepted| - 1;
        var c := CombineBitmaps(accepted[last], q);
        var next := accepted[last := c];
        assert Width(accepted[last]) > 6 && |accepted[last]| == h;
        assert Width(c) == Width(accepted[last]) + Width(q);
        assert accepted == accepted[..last] + [accepted[last]];
        assert next == accepted[..last] + [c];
        TotalWidthAppend(accepted[..last], [accepted[last]]);
        TotalWidthAppend(accepted[..last], [c]);
        assert TotalWidth([accepted[last]]) == Width(accepted[last]) + TotalWidth([]);
        assert TotalWidth([c]) == Width(c) + TotalWidth([]);
        MergeShape(next, queue[1..], h);
      }
    }
  }

  // ---------------------------------------------------------------------------------------
  // The whole split
  // ---------------------------------------------------------------------------------------

  /** The slices handed to the merge: the first trimmed at the front, the middle ones raw, the
      last trimmed at the back. */
  function Pieces(image: Grid<Color>, cuts: seq<int>): (r: Result<seq<Grid<Color>>>)
    requires SliceFrame(image, cuts)
    ensures r.Ok? ==> |r.value| == |cuts| + 1 && AllRect(r.value) && AllHigh(r.value, 46)
  {
    var raw := RawSlices(image, cuts);
    match TrimTrailing(RawSlice(image, cuts, |cuts|))
    case Err(e) => Err(e)
    case Ok(last) =>
      var first := TrimLeading(RawSlice(image, cuts, 0));
      EndsAroundMiddle(first, raw, last, 46);
      Ok([first] + raw[1..|cuts|] + [last])
  }

  /** The inner bitmaps of a sequence of rectangles h rows high, between two further such
      rectangles, are rectangles h rows high. */
  lemma EndsAroundMiddle(a: Grid<Color>, s: seq<Grid<Color>>, b: Grid<Color>, h: int)
    requires Rect(a) && |a| == h && Rect(b) && |b| == h
    requires |s| >= 2 && AllRect(s) && AllHigh(s, h)
    ensures AllRect([a] + s[1..|s| - 1] + [b]) && AllHigh([a] + s[1..|s| - 1] + [b], h)
  {
    var t := [a] + s[1..|s| - 1] + [b];
    forall i | 0 <= i < |t|
      ensures Rect(t[i]) && |t[i]| == h
    {
      if 0 < i < |t| - 1 {
        assert t[i] == s[i];
      }
    }
  }

  /** Slices that are, in order, the trimmed first raw slice, the middle raw slices and the
      trimmed last raw slice are the pieces. */
  lemma PiecesFromSlices(image: Grid<Color>, cuts: seq<int>, s: seq<Grid<Color>>)
    requires SliceFrame(image, cuts) && |s| == |cuts| + 1
    requires s[0] == TrimLeading(RawSlice(image, cuts, 0))
    requires forall k :: 0 < k < |cuts| ==> s[k] == RawSlice(image, cuts, k)
    requires TrimTrailing(RawSlice(image, cuts, |cuts|)) == Ok(s[|cuts|])
    ensures Pieces(image, cuts) == Ok(s)
  {
    var raw := RawSlices(image, cuts);
    var t := [TrimLeading(RawSlice(image, cuts, 0))] + raw[1..|cuts|] + [s[|cuts|]];
    assert |t| == |s|;
    forall k | 0 <= k < |s|
      ensures s[k] == t[k]
    {
      if 0 < k < |cuts| {
        assert t[k] == raw[1..|cuts|][k - 1] == raw[k] == RawSlice(image, cuts, k);
      }
    }
    assert s == t;
  }

  /** What SplitIntoCharacterImages produces from a line image, before each segment is
      tightened into a CharacterImage: the merged slices, or why the program throws. */
  function Segments(image: Grid<Color>): (r: Result<seq<Grid<Color>>>)
    requires Rect(image) && |image| >= 48
    ensures r.Ok? ==> AllRect(r.value)
  {
    var m := Mask(image);
    var cuts := Boundaries(m, CharacterLines(m));
    if |cuts| == 0 then Err(NoBoundaries)
    else match Pieces(image, cuts)
      case Err(e) => Err(e)
      case Ok(p) => Merge([], p)
  }

  /** Trimming only narrows: the pieces together are at most as wide as the raw slices, and
      each piece is at most as wide as its raw slice. */
  lemma PiecesNarrower(image: Grid<Color>, cuts: seq<int>)
    requires SliceFrame(image, cuts) && Pieces(image, cuts).Ok?
    ensures TotalWidth(Pieces(image, cuts).value) <= Width(image) - 5
  {
    var p := Pieces(image, cuts).value;
    var raw := RawSlices(image, cuts);
    assert raw[0] == RawSlice(image, cuts, 0) && raw[|cuts|] == RawSlice(image, cuts, |cuts|);
    forall i | 0 <= i < |p|
      ensures Width(p[i]) <= Width(raw[i])
    {
    }
    NarrowerTotal(p, raw);
    RawSlicesCoverLine(image, cuts);
  }

  lemma {:induction false} NarrowerTotal(a: seq<Grid<Color>>, b: seq<Grid<Color>>)
    requires |a| == |b| && forall i :: 0 <= i < |a| ==> Width(a[i]) <= Width(b[i])
    ensures TotalWidth(a) <= TotalWidth(b)
  {
    if |a| > 0 {
      NarrowerTotal(a[1..], b[1..]);
    }
  }

  /** When the split succeeds, every segment is wider than 6 columns and 46 rows high, there is
      one segment per piece wider than 6 columns, and together they are no wider than the
      scanned columns 5 .. width - 1. */
  lemma SegmentsShape(image: Grid<Color>)
    requires Rect(image) && |image| >= 48 && Segments(image).Ok?
    ensures var m := Mask(image);
            var cuts := Boundaries(m, CharacterLines(m));
            var out := Segments(image).value;
            && |cuts| > 0 && Pieces(image, cuts).Ok?
            && AllWide(out) && AllHigh(out, 46)
            && |out| == WideCount(Pieces(image, cuts).value)
            && TotalWidth(out) <= Width(image) - 5
  {
    var m := Mask(image);
    var cuts := Boundaries(m, CharacterLines(m));
    var p := Pieces(image, cuts).value;
    MergeShape([], p, 46);
    PiecesNarrower(image, cuts);
  }

  /** The split fails in exactly three ways, checked in the program's order: no boundary, an
      empty last slice, a thin first piece. */
  lemma SegmentsErrors(image: Grid<Color>)
    requires Rect(image) && |image| >= 48
    ensures var m := Mask(image);
            var cuts := Boundaries(m, CharacterLines(m));
            && (Segments(image) == Err(NoBoundaries) <==> |cuts| == 0)
            && (|cuts| > 0 ==>
                 && (Segments(image) == Err(EmptyLastSlice) <==> TrimTrailing(RawSlice(image, cuts, |cuts|)).Err?)
                 && (Segments(image) == Err(ThinFirstSlice) <==>
                       TrimTrailing(RawSlice(image, cuts, |cuts|)).Ok?
                       && Width(TrimLeading(RawSlice(image, cuts, 0))) <= 6))
  {
    var m := Mask(image);
    var cuts := Boundaries(m, CharacterLines(m));
    if |cuts| > 0 && Pieces(image, cuts).Ok? {
      MergeFails([], Pieces(image, cuts).value);
    }
  }
}
