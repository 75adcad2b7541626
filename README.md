# Pole detection: the array-level stages, modelled in Dafny

This project models the discrete core of a pole-detection pipeline written
in C#. It covers seven stages:

- **Convolution** (`Convolution.Convolve`): a square kernel applied `times`
  times. Each pass writes only the pixels whose whole window is inside the
  image, clamps and rounds each result to a byte, and crops the kernel radius
  from every side.
- **Grid helpers** (`HelperFunctions`): binary thresholding of byte and
  real maps, cropping, and clamping.
- **Otsu threshold selection** (`GlobalThreshold.OtsuThreshold`): one pass
  over a 256-bin histogram.
- **Canny back end** (`CannyEdge`):
  - non-maximum suppression in place along the gradient axis;
  - the double threshold, its byte conversion and its OR;
  - hysteresis by worklist propagation.
- **Hough post-processing** (`HoughTransform`):
  - the accumulator, with the vote step as an input function;
  - the vote threshold;
  - the in-place 21×21 non-maximum suppression;
  - line extraction and de-duplication by distance.
- **Line pairing** (`HoughExtensions`):
  - truncation-based line and pair equality;
  - the intersection of two lines;
  - the pairing of lines, its grouping, sorting and uniqueness filter;
  - the mask that keeps the pixels between the two lines of a pair.
- **Connected-component labelling** (`FloodFill`): a 4-connected fill that
  writes a label map and grows bounding boxes, the corner computation, and
  the shape filter.

## How the model is built

- Images are `array2` in the methods. Specifications use `Grid<T>`, a
  column-major `seq<seq<T>>` in which `g[x][y]` is `a[x, y]`.
- A method that fills a fresh array ensures `Cells(result) == F(Cells(input))`.
  The properties the code promises are then proved as lemmas about the
  function `F`.
- The two in-place scans are specified as a fold over the scan order:
  Canny's `Suppress` and Hough's `NonMaximumSupression`. Each reads the
  partly overwritten buffer exactly as the aliased C# code does.
- Process-wide state is a field of a class:
  - `HoughTransform.threshold` and `numPoints`;
  - `FloodFill.ObjectCount`, `_objectMap` and `Objects`.
- A C# `byte` is the subset type `byte`, and a `double` or `float` is a
  `real`.
- .NET conversions are written out:
  - `Math.Round` rounds half to even (`Grids.Round`);
  - an `(int)` cast truncates toward zero (`Grids.Truncate`);
  - C# `/` truncates toward zero (`Grids.Quot`), and `%` takes the sign of
    the dividend (`Grids.Rem`);
  - byte wrap-around of `ObjectCount` is `% 256`.
- Where the code throws an exception, the model returns an `ok` flag:
  - the 256th object in `MarkObjects`;
  - an out-of-range neighbour in Canny's propagation.
- The intersection of parallel lines is an infinity (`ExtReal`), because
  the code keeps such pairs and sorts them.

The model states these behaviours of the code as they are, including those
that a reader of the stage descriptions might not expect:

- The strong and weak edge maps keep values strictly above the threshold,
  not "at or above".
- Pairing keeps intersections with y ≤ 0, not y < 0.
- Labelling scans column by column, with x outer.
- The fill never steps left into column 0 or up into row 0. The labels are
  therefore not always maximal 4-connected components.
- The shape filter's width is always 0, so the filter is "height > 50".
- `UniqueFilter` compares a pair's index in `pairs` with an entry's index in
  `illegals`, not with the index of the other pair compared.

## Model

| member | source | states |
|---|---|---|
| Grids.Round | Convolution.cs:22 | `Math.Round`: within ½ of its argument, and even on an exact tie |
| Grids.RoundInByteRange | Convolution.cs:22 | rounding a clamped total gives a value in 0..255, so the byte cast never wraps |
| Grids.Truncate | HoughExtensions.cs:29 | the `(int)` cast: the integer toward zero within 1 of the argument |
| Grids.QuotTruncates | AutomaticThreshold/GlobalThreshold.cs:34 | C# integer division truncates toward zero: the remainder `a − q·b` it leaves lies in [0, b) for a non-negative dividend and in (−b, 0] for a negative one |
| Grids.Rem | CannyEdge.cs:96 | C# `%` keeps the dividend's sign: the Euclidean remainder for a non-negative dividend, in (−b, 0] otherwise |
| Grids.RemIsRemainder | CannyEdge.cs:96 | C# `%` is the remainder C# `/` leaves: `a − Quot(a, b)·b`, for negative dividends too |
| Helpers.ImageClamp | HelperFunctions.cs:84-91 | the result lies in [0, 255]; it is the identity on that range, 0 below it and 255 above it |
| Helpers.ImageClampMonotone | HelperFunctions.cs:84-91 | clamping preserves order |
| Helpers.Level | HelperFunctions.cs:56-59 | the thresholded value is 0 or 255, and 255 exactly when the input exceeds the threshold |
| Helpers.ThresholdGrid | HelperFunctions.cs:50-61 | same dimensions; every pixel is `Level` of the input pixel |
| Helpers.ThresholdRealGrid | HelperFunctions.cs:133-144 | the same 0/255 rule on a real-valued map |
| Helpers.ThresholdMonotone | HelperFunctions.cs:133-144 | raising the threshold never turns a 0 into 255, and lowering it never turns a 255 into 0 |
| Helpers.Crop | HelperFunctions.cs:70-75 | cropping `c` from every side leaves a (w − 2c) × (h − 2c) grid |
| Helpers.CropAt | HelperFunctions.cs:73-75 | the cropped pixel (x, y) is input pixel (x + c, y + c) |
| Helpers.CropCompose | HelperFunctions.cs:70-75 | cropping c and then d equals cropping c + d |
| Helpers.Threshold | HelperFunctions.cs:50-64 | a fresh array of the input's size holding the thresholded input; the input is not modified |
| Helpers.ThresholdDouble | HelperFunctions.cs:133-147 | a fresh real array holding the 0/255 thresholded map |
| Helpers.CropImage | HelperFunctions.cs:70-79 | a fresh (w − 2c) × (h − 2c) array holding the crop; requires 2c ≤ w, h |
| Convolution.ToByte | Convolution.cs:22 | the stored byte is 0 for a total ≤ 0, 255 for a total ≥ 255, and within ½ of the total in between |
| Convolution.Raw | Convolution.cs:12-23 | the full-size buffer: same size as the input, with the byte of the window total inside the border and 0 on it |
| Convolution.RawInside | Convolution.cs:15-22 | pixel (x, y) inside the border holds `ToByte` of the window with top-left corner (x − s, y − s) |
| Convolution.Pass | Convolution.cs:15-29 | one pass shrinks each dimension by 2s |
| Convolution.CropRawIsPass | Convolution.cs:12-29 | cropping the unwritten zero border off the buffer leaves exactly one pass, so the border never reaches the output |
| Convolution.BorderIsLinear | Convolution.cs:25-29 | m passes remove 2·s·m from each dimension |
| Convolution.Iterate | Convolution.cs:25-29 | m passes yield a (w − 2sm) × (h − 2sm) grid |
| Convolution.RowSumCrop | Convolution.cs:19-21 | a kernel row over a window shifted by c equals the same row over the image cropped by c |
| Convolution.WindowSumCrop | Convolution.cs:19-21 | a window total shifted by c equals the same total over the image cropped by c |
| Convolution.CropPassCommute | Convolution.cs:25-29 | cropping after a pass equals a pass after cropping |
| Convolution.CropIterateCommute | Convolution.cs:25-29 | cropping commutes with any number of passes; this is the link between the code's recursion-then-crop order and m successive passes |
| Convolution.WindowTotal | Convolution.cs:18-21 | the `i`/`j` loops accumulate exactly the kernel-weighted window total, and every read is in bounds |
| Convolution.FillColumn | Convolution.cs:16-23 | the inner `y` loop writes column x of the buffer between the borders and changes nothing else |
| Convolution.FillPass | Convolution.cs:12-23 | a fresh full-size buffer holding `Raw` |
| Convolution.Convolve | Convolution.cs:10-30 | a fresh array equal to `Passes(times)` successive cropped passes; each pass shrinks each dimension by 2s; the input is not modified |
| GlobalThreshold.CountMonotone | AutomaticThreshold/GlobalThreshold.cs:26 | the running count `i0` never decreases and is never negative |
| GlobalThreshold.NoCandidateAfterFull | AutomaticThreshold/GlobalThreshold.cs:30-46 | once the count reaches `pixelCount`, no later bin splits the pixels in two, so the `break` loses nothing |
| GlobalThreshold.SomeBinBelow | AutomaticThreshold/GlobalThreshold.cs:26-28 | a positive count below n has a non-empty bin below n |
| GlobalThreshold.SomeBinAbove | AutomaticThreshold/GlobalThreshold.cs:30-31 | a count below the total leaves a non-empty bin at or above n |
| GlobalThreshold.CountStable | AutomaticThreshold/GlobalThreshold.cs:26-28 | empty bins leave the running count unchanged |
| GlobalThreshold.ZeroBelow | AutomaticThreshold/GlobalThreshold.cs:26-28 | the count up to the smallest present intensity is 0 |
| GlobalThreshold.CandidateBetweenIntensities | AutomaticThreshold/GlobalThreshold.cs:26-31 | a threshold that reaches the variance test has a pixel at or below it and a pixel strictly above it |
| GlobalThreshold.OtsuBetweenIntensities | AutomaticThreshold/GlobalThreshold.cs:23-47 | a nonzero result is at least the smallest intensity present and strictly below the largest |
| GlobalThreshold.OtsuChoiceUnique | AutomaticThreshold/GlobalThreshold.cs:39-43 | the choice is unique: the first threshold of greatest positive variance, because ties keep the earlier Q |
| GlobalThreshold.ConstantImageGivesZero | AutomaticThreshold/GlobalThreshold.cs:20-43 | an image of one intensity gives q = 0 |
| GlobalThreshold.OtsuThreshold | AutomaticThreshold/GlobalThreshold.cs:10-50 | the loop returns the first bin of greatest positive between-class variance, with the class means truncated to integers, or 0 when none is positive |
| CannyEdge.AxisOffsets | CannyEdge.cs:98-116 | the four axes: 0 is vertical, 2 horizontal, 1 the anti-diagonal and 3 the diagonal; the two neighbours are opposite unit steps |
| CannyEdge.Axis | CannyEdge.cs:96-100 | `imageT[x, y] % 4` lies in (−4, 4) and is the ordinary remainder for a non-negative code; a negative code gives axis 0 exactly when it is a multiple of 4, and otherwise a negative value that matches no case |
| CannyEdge.Visit | CannyEdge.cs:91-116 | one step of the in-place scan: a border pixel becomes 0; an interior pixel becomes 0 exactly when it is ≤ an axis neighbour in the current buffer; nothing else changes |
| CannyEdge.Suppressed | CannyEdge.cs:88-118 | the buffer after the column-major scan keeps its dimensions |
| CannyEdge.VisitKeepsInv | CannyEdge.cs:88-118 | each visit preserves the scan invariant: visited border pixels are 0; every pixel is its input value or 0; with non-negative magnitudes, a visited nonzero interior pixel beats both axis neighbours |
| CannyEdge.ScanColumnsInv | CannyEdge.cs:88-118 | the invariant holds after every full column |
| CannyEdge.SuppressedBorder | CannyEdge.cs:91-95 | every pixel on the first or last row or column ends at 0 |
| CannyEdge.SuppressedKeepsOrZeroes | CannyEdge.cs:98-116 | every pixel ends unchanged or 0 |
| CannyEdge.SuppressedLocalMax | CannyEdge.cs:98-116 | with non-negative magnitudes, every surviving nonzero interior pixel is strictly greater than both axis neighbours in the final buffer |
| CannyEdge.VisitPixel | CannyEdge.cs:91-116 | the array now holds `Visit` of the previous contents |
| CannyEdge.Suppress | CannyEdge.cs:85-120 | returns its argument (the alias `suppressed`), which now holds `Suppressed` of its old contents |
| CannyEdge.RoundClamp | CannyEdge.cs:78 | `(byte)ImageClamp2(Math.Round(v))`: 0 for v ≤ 0, 255 for v ≥ 255, and within ½ of v in between |
| CannyEdge.ToBytes | CannyEdge.cs:73-80 | same dimensions; every pixel is `RoundClamp` of the input pixel |
| CannyEdge.EdgeMap | CannyEdge.cs:58-62 | the byte edge map: 255 exactly where the suppressed magnitude exceeds the threshold, else 0 |
| CannyEdge.ToBytesOfThreshold | CannyEdge.cs:58-62 | converting a 0/255 threshold map to bytes is exact and gives `EdgeMap` |
| CannyEdge.OrGrid | BinaryOperators.cs:51-64 | 255 exactly where either input is 255, else 0 |
| CannyEdge.OrOfEdgeMaps | CannyEdge.cs:58-64 | the OR of two edge maps is the edge map of the lower threshold |
| CannyEdge.StrongWithinCombined | CannyEdge.cs:58-64 | with low ≤ high, the strong map is inside the combined map, and the combined map equals the low map |
| CannyEdge.Double2DtoByte2D | CannyEdge.cs:73-80 | a fresh byte array holding `ToBytes` of the input |
| CannyEdge.ORoperator | BinaryOperators.cs:51-64 | a fresh array holding `OrGrid` of the two inputs |
| CannyEdge.ZeroCells | CannyEdge.cs:161-165 | the set of unmarked (0) pixels of the result |
| CannyEdge.MarkShrinksZeroCells | CannyEdge.cs:161-165 | marking a 0 pixel removes exactly that pixel from the unmarked set, so each pixel enters the worklist at most once and propagation terminates |
| CannyEdge.MarkableIsInterior | CannyEdge.cs:153-161 | when no border pixel can be marked, every pixel that enters the worklist is interior, so its neighbour reads stay in range |
| CannyEdge.MarkNeighbours | CannyEdge.cs:153-166 | writes only 255, only where `doubleThreshold` is 255 and the result was 0; shrinks the unmarked set by exactly the pixels added; fails only for a non-interior pixel |
| CannyEdge.Propagate | CannyEdge.cs:148-169 | the worklist loop writes only such marks, leaves the map unchanged from an empty worklist, and succeeds when every seed is interior and no border pixel can be marked |
| CannyEdge.SeqMax | CannyEdge.cs:136-141 | LINQ `Max`: bounds every element and is one of them |
| CannyEdge.Hysteresis | CannyEdge.cs:125-171 | the seed test is dead because every window contains its 255 centre; returns `highEdgesByte` itself, unchanged, without failing |
| CannyEdge.CannyBackEnd | CannyEdge.cs:56-67 | the output is the strong edge map of the suppressed magnitudes: 255 exactly where the magnitude exceeds `high` |
| Hough.Zero | HoughTransform.cs:57 | a T × R accumulator with every cell 0 |
| Hough.AddVotesAt | HoughTransform.cs:66-74 | after a pixel's angle loop, cell (t, r) has gained 1 exactly when the pixel's distance at angle t is r; out-of-range distances are dropped |
| Hough.Accumulator | HoughTransform.cs:57-74 | the accumulator has `maxTheta` × 2·height cells |
| Hough.AccumulatorCounts | HoughTransform.cs:63-74 | each cell counts exactly the 255-pixels whose distance at its angle is its column, so it is ≥ 0 |
| Hough.AccumulatorNonNegative | HoughTransform.cs:63-74 | every accumulator cell is non-negative |
| Hough.RowMaxIsMax | HoughTransform.cs:76 | the largest cell of an angle row bounds the row and is one of its cells |
| Hough.GridMaxIsMax | HoughTransform.cs:76 | `houghArray.Cast<int>().Max()` bounds every cell and is one of them |
| Hough.VoteThresholdTwoFifths | HoughTransform.cs:76 | `(int)(max * 0.4)` equals ⌊2·max / 5⌋ and lies in [0, max] |
| Hough.NmsVisitKeepsInv | HoughTransform.cs:114-117 | visiting one cell keeps the scan invariant: unvisited cells keep their values; every visited cell is kept or 0; a visited nonzero cell is ≥ every cell of its window |
| Hough.NmsRowsInv | HoughTransform.cs:112-117 | the invariant holds after every row of the scan |
| Hough.NmsBorder | HoughTransform.cs:111-113 | cells within 10 of an edge are never changed |
| Hough.NmsKeepsOrZeroes | HoughTransform.cs:114-117 | every cell ends unchanged or 0 |
| Hough.NmsLocalMax | HoughTransform.cs:112-117 | on a non-negative accumulator, every surviving nonzero interior cell is ≥ every cell of its 21×21 window in the final buffer |
| Hough.RowLinesSound | HoughTransform.cs:96-99 | every line extracted from an angle row is a cell at or above the threshold with its votes, in increasing distance order |
| Hough.LinesSound | HoughTransform.cs:95-99 | every extracted line is a cell at or above the threshold with its votes, strictly in angle-major then distance order |
| Hough.RowLinesComplete | HoughTransform.cs:96-99 | every cell of the row at or above the threshold is extracted |
| Hough.LinesComplete | HoughTransform.cs:95-99 | every cell at or above the threshold is extracted |
| Hough.HoughTransform.constructor | HoughTransform.cs:26-29 | the static initialisers: threshold 50, no points |
| Hough.HoughTransform.CastVotes | HoughTransform.cs:66-74 | the angle loop of one pixel adds its votes |
| Hough.HoughTransform.VoteColumn | HoughTransform.cs:64-74 | the `v` loop adds the votes of the 255-pixels of column u |
| Hough.HoughTransform.NewAccumulator | HoughTransform.cs:57 | a fresh all-zero T × R array |
| Hough.HoughTransform.Accumulate | HoughTransform.cs:57-74 | a fresh `maxTheta` × 2·height array holding `Accumulator` of the input |
| Hough.HoughTransform.CreateHoughSpace | HoughTransform.cs:54-78 | the accumulator, `numPoints` = 1, and the threshold set to two fifths of the largest cell before suppression |
| Hough.HoughTransform.VisitCell | HoughTransform.cs:114-117 | the `i`/`j` loops zero cell (t, r) exactly when some window cell exceeds its current value |
| Hough.HoughTransform.NonMaximumSupression | HoughTransform.cs:109-119 | the array now holds `Nms` of its old contents |
| Hough.HoughTransform.GetLines | HoughTransform.cs:86-103 | no lines while `numPoints` is 0; otherwise the cells at or above the threshold in angle-major order, with their votes |
| Hough.HoughTransform.FoundLines | HoughTransform.cs:38-46 | the first line of every distance among the thresholded lines of the suppressed accumulator; the distances returned are pairwise distinct |
| Sequences.FirstPerKeyDistinct | HoughTransform.cs:44 | `GroupBy(key).Select(First)` returns pairwise distinct keys |
| Sequences.FirstPerKeyComplete | HoughTransform.cs:44 | every key of the input is represented in the result |
| Sequences.FirstPerKeyIsSubsequence | HoughTransform.cs:44 | the result is the subsequence of first occurrences, in input order |
| Sequences.FirstPerKeySubset | HoughExtensions.cs:185 | every element of the grouping's result comes from its input |
| Sequences.Kept | HoughExtensions.cs:224 | the indices a `Where` keeps are in range, accepted, strictly increasing, and include every accepted index |
| Sequences.WhereAt | HoughExtensions.cs:224 | an indexed `Where` returns exactly the elements at the kept indices, in order |
| Pairing.AtMostTotal | HoughExtensions.cs:186 | the order of doubles extended with the infinities is total and antisymmetric |
| Pairing.AtMostTransitive | HoughExtensions.cs:186 | that order is transitive |
| Pairing.LineUnequals | HoughExtensions.cs:35-38 | `Unequals` is exactly the negation of `Equals` |
| Pairing.LineEqualsEquivalence | HoughExtensions.cs:27-30 | truncation-based equality is an equivalence, and identical lines are equal |
| Pairing.UnequalLinesDiffer | HoughExtensions.cs:35-38 | unequal lines differ in slope or intercept |
| Pairing.PairEqualsOrderSensitive | HoughExtensions.cs:59-62 | pair equality is reflexive but order-sensitive: swapping two unequal lines gives an unequal pair |
| Pairing.Intersection | HoughExtensions.cs:78-86 | finite for different slopes; for parallel lines, an infinity whose sign follows the slope and intercept signs |
| Pairing.IntersectionOnLines | HoughExtensions.cs:78-86 | for different slopes, the point lies on both lines |
| Pairing.XAtOnLine | HoughExtensions.cs:249-250 | the x computed for row y lies on the line |
| Pairing.GetXOnAxis | HoughExtensions.cs:230-234 | `GetX` is where the line crosses y = 0 |
| Pairing.Spread | HoughExtensions.cs:209 | a pair's separation at y = 0 is non-negative |
| Pairing.Pad | HoughExtensions.cs:136-137 | the rough padding is ±100: the first line moves up iff its slope is negative, the second iff its slope is not |
| Pairing.MakePair | HoughExtensions.cs:136-138 | the stored pair keeps the intersection and both slopes; intercepts are unchanged in `GetPairs` and padded in `GetRoughPairs` |
| Pairing.CandidateRowSound | HoughExtensions.cs:162-183 | every pair from a row is two unequal lines meeting at y ≤ 0 |
| Pairing.CandidatesSound | HoughExtensions.cs:162-183 | every collected pair is two unequal input lines meeting at y ≤ 0 |
| Pairing.CandidateRowComplete | HoughExtensions.cs:162-183 | every unequal (i, j) meeting at y ≤ 0 is collected in its row |
| Pairing.CandidatesComplete | HoughExtensions.cs:162-183 | every unequal ordered (i, j) meeting at y ≤ 0 is collected |
| Pairing.CandidatesSloped | HoughExtensions.cs:162-183 | every collected pair has two non-horizontal lines |
| Pairing.PairFor | HoughExtensions.cs:166-182 | iteration (i, j) appends one pair or none, as `Candidate` says |
| Pairing.CollectRow | HoughExtensions.cs:163-183 | the `j` loop appends the row's candidates |
| Pairing.CollectPairs | HoughExtensions.cs:162-183 | `potentialPairs` equals the candidates of all ordered (i, j) in loop order |
| Pairing.Key | HoughExtensions.cs:185 | the grouping key, `Math.Round` of y, is finite exactly when y is |
| Pairing.Insert | HoughExtensions.cs:186 | one step of the stable sort: a permutation of the list plus the element |
| Pairing.SortByY | HoughExtensions.cs:186 | `OrderBy(y)` returns a permutation of its input |
| Pairing.InsertAscending | HoughExtensions.cs:186 | insertion keeps a list ascending in y |
| Pairing.SortByYAscending | HoughExtensions.cs:186 | `OrderBy(y)` is ascending in y |
| Pairing.Reverse | HoughExtensions.cs:186 | `Reverse` keeps the length and mirrors positions |
| Pairing.ReverseDescending | HoughExtensions.cs:186 | reversing an ascending list gives a descending one |
| Pairing.InsertDistinct | HoughExtensions.cs:186 | insertion keeps rounded keys distinct |
| Pairing.SortByYDistinct | HoughExtensions.cs:186 | sorting keeps rounded keys distinct |
| Pairing.ReverseDistinct | HoughExtensions.cs:186 | reversing keeps rounded keys distinct |
| Pairing.LoserIsWider | HoughExtensions.cs:209-220 | the pair marked illegal is one of the two compared, at least as wide at y = 0 as either, and pairs[i] on a tie |
| Pairing.IllegalRowEntry | HoughExtensions.cs:210-221 | comparing i with a pair j that shares a line appends their loser in i's block |
| Pairing.IllegalsPrefix | HoughExtensions.cs:207-222 | `illegals` only grows by appending |
| Pairing.IllegalsEntry | HoughExtensions.cs:207-222 | the loser of (i, j) sits in i's block of the final `illegals` |
| Pairing.MarkedTwice | HoughExtensions.cs:207-222 | a pair that loses both comparisons (i, j) and (j, i) appears at two different positions of `illegals` |
| Pairing.WiderSharingPairDropped | HoughExtensions.cs:207-224 | of two pairs sharing a line, the strictly wider one is dropped |
| Pairing.NoSharingNoIllegals | HoughExtensions.cs:207-222 | with no line shared, nothing is marked illegal |
| Pairing.NoSharingKeepsAll | HoughExtensions.cs:207-224 | with no line shared, the filter returns its input |
| Pairing.Unique | HoughExtensions.cs:224 | the filter never lengthens the list |
| Pairing.UniqueOrdered | HoughExtensions.cs:224 | the filter keeps only input pairs and preserves descending order and distinct keys |
| Pairing.UniqueFilter | HoughExtensions.cs:204-225 | the loops and the final `Where` return `Unique(pairs)` |
| Pairing.ArrangedFacts | HoughExtensions.cs:185-186 | after grouping, sorting and reversing: only stored pairs, non-horizontal, descending in y, with distinct rounded y |
| Pairing.ArrangedFromLines | HoughExtensions.cs:185-186 | grouping, sorting and reversing keep only pairs built from the input lines |
| Pairing.PairsOfFacts | HoughExtensions.cs:158-197 | every returned pair is two unequal input lines meeting at y ≤ 0 (padded in the rough variant); the list is descending in y; no two returned intersections round to the same y |
| Pairing.PairLines | HoughExtensions.cs:158-197 | the shared body returns `sorted`, which is `PairsOf` |
| Pairing.GetPairs | HoughExtensions.cs:158-197 | the pairs of unequal lines meeting at y ≤ 0, one per rounded y, descending, after the uniqueness filter |
| Pairing.GetRoughPairs | HoughExtensions.cs:115-153 | the same pairs with intercepts padded by ±100 |
| Pairing.CleanedKeepsOrZeroes | HoughExtensions.cs:246-255 | a pixel keeps its value exactly when it lies between the lines of some pair, and is 0 otherwise |
| Pairing.CleanedNoPairs | HoughExtensions.cs:246-255 | with no pairs the result is all 0 |
| Pairing.CleanedMonotone | HoughExtensions.cs:246-255 | adding pairs never blanks a pixel that was kept |
| Pairing.InsideAny | HoughExtensions.cs:246-253 | the `inBetween` flag is set exactly when some pair encloses (x, y) |
| Pairing.CleanOutsidePairs | HoughExtensions.cs:239-259 | a fresh array of the input's size holding `Cleaned` |
| ObjectLabelling.Moves | FloodFill.cs:85-95 | the fill continues exactly with right and down inside the image, and with left and up only to coordinates ≥ 1 |
| ObjectLabelling.StepSymmetric | FloodFill.cs:85-95 | between 4-adjacent pixels whose coordinates are all ≥ 1, the fill can step either way |
| ObjectLabelling.Unlabelled | FloodFill.cs:69 | the foreground pixels not yet labelled |
| ObjectLabelling.LabelShrinks | FloodFill.cs:69-71 | labelling a pixel removes one pixel from that set, so the fill terminates |
| ObjectLabelling.Extend | FloodFill.cs:74-83 | growing the box keeps the object number and the corners |
| ObjectLabelling.NewObjectBounds | FloodFill.cs:50 | the sentinels 512/0 bound a label that is not yet on the map |
| ObjectLabelling.ExtendBounds | FloodFill.cs:73-83 | growing the box by a newly labelled pixel keeps the box exact for that label |
| ObjectLabelling.FillKeepsLinked | FloodFill.cs:85-95 | after a fill, 4-adjacent foreground pixels with coordinates ≥ 1 still share a label |
| ObjectLabelling.LinkedPair | FloodFill.cs:85-95 | such a pair that shared a label before the fill shares one after it |
| ObjectLabelling.Label | FloodFill.cs:71-83 | labels one pixel and grows its object's box |
| ObjectLabelling.Visit | FloodFill.cs:67-98 | one worklist step keeps the fill invariant and either labels a pixel or shortens the worklist |
| ObjectLabelling.Fill | FloodFill.cs:65-99 | labels the seed and only unlabelled foreground pixels; closes the label under fill steps; every pixel it labels is reached from the seed by fill steps through pixels it labelled; keeps the other objects and keeps the object's box exact |
| ObjectLabelling.ReachExtend | FloodFill.cs:85-95 | a fill step from a reached pixel to a pixel of the same label extends the path |
| ObjectLabelling.ReachesGrow | FloodFill.cs:69-71 | labelling more pixels never breaks a path, because labelled pixels keep their label |
| ObjectLabelling.RootedLabel | FloodFill.cs:69-95 | labelling a pending pixel keeps every labelled pixel reached from the seed, and every pending step leaving a labelled pixel |
| ObjectLabelling.FillKeepsReach | FloodFill.cs:47-52 | a fill with the next label keeps every earlier label rooted at its seed and roots the new label at the scanned pixel |
| ObjectLabelling.SeedAt | FloodFill.cs:47-52 | a new object: the count goes up (wrapping at 256), an entry is appended, the fill runs; fails on the 256th object or on a registry shorter than the count |
| ObjectLabelling.ScanColumn | FloodFill.cs:46-53 | the scan invariant holds after column x |
| ObjectLabelling.Scan | FloodFill.cs:43-53 | a fresh map of the image's size; on success it is labelled as `ScanDone` says, one entry was appended per label, and a consistent registry holds each new object's exact box; on failure the count is 0 and the registry holds 256 entries |
| ObjectLabelling.ScanDone | FloodFill.cs:45-53 | at the end, a pixel is labelled iff it is foreground; the labels run from ObjectCount + 1 up, one seed per label; every pixel of a label is reached from its seed through pixels of the label; adjacent foreground pixels are linked |
| ObjectLabelling.SameLabelConnected | FloodFill.cs:45-99 | two pixels that share a label are both reached from that label's seed by fill steps through pixels carrying the label, so one label never covers two separate regions |
| ObjectLabelling.LabelPathForeground | FloodFill.cs:45-99 | those paths run through foreground pixels only |
| ObjectLabelling.SeedsInScanOrder | FloodFill.cs:45-51 | the labels are assigned in column-major scan order |
| ObjectLabelling.UsedLabelBox | FloodFill.cs:74-83 | an object's box is exact: it contains every pixel with its label, and each side is reached by one of them |
| ObjectLabelling.WithCorners | FloodFill.cs:108-111 | the corners are TopLeft = (XMin, YMin), TopRight = (XMax, YMin), BottomLeft = (XMin, YMax) and BottomRight = (XMax, YMax); nothing else changes |
| ObjectLabelling.PoleShapedIsTall | FloodFill.cs:128-136 | the width is always 0, so the pixel test and the list test agree: height > 50 |
| ObjectLabelling.FilterPixel | FloodFill.cs:125-132 | 255 exactly for a labelled pixel whose object passes the shape test, else 0 |
| ObjectLabelling.Filtered | FloodFill.cs:122-133 | same dimensions; every pixel is `FilterPixel` of its label |
| ObjectLabelling.FilteredKeepsTallObjects | FloodFill.cs:122-133 | the output is 255 exactly on the pixels of objects taller than 50 |
| ObjectLabelling.Survivors | FloodFill.cs:136 | the survivors are never more than the objects |
| ObjectLabelling.SurvivorsAreTall | FloodFill.cs:135-141 | the survivors are the objects taller than 50, in their order |
| ObjectLabelling.FilterMap | FloodFill.cs:120-133 | a fresh array holding `Filtered` |
| ObjectLabelling.KeepTall | FloodFill.cs:135-141 | the survivors, with the count decremented once per survivor, wrapping at 256 |
| ObjectLabelling.CornersKeepRegistry | FloodFill.cs:104-113 | computing corners keeps the registry consistent with the map |
| ObjectLabelling.FloodFill.constructor | FloodFill.cs:34-36 | count 0, no objects, no map |
| ObjectLabelling.FloodFill.CalculateCorners | FloodFill.cs:104-113 | every object gets its corners from its box; the count and the map are unchanged |
| ObjectLabelling.FloodFill.MarkObjects | FloodFill.cs:41-60 | the returned map is `_objectMap`; on success it is labelled as `ScanDone` says (foreground exactly, each label one connected region rooted at its seed, adjacent pixels linked), one entry is appended per label, every object has its corners, and a consistent registry stays consistent; with a consistent registry, failure leaves count 0 and 256 entries |
| ObjectLabelling.FloodFill.FilterObjects | FloodFill.cs:118-144 | the filtered image, the survivors as the new registry, and the count decremented once per survivor; the map is unchanged |

## Left out

- Floating-point rounding is not modelled. Doubles and floats are exact reals, and the kernels are real-valued.
- Otsu overflow: the running sum `curMean += Q * histogram[Q]` (AutomaticThreshold/GlobalThreshold.cs:33) and `meanTotal` are C# `int`s. They overflow only on images of more than about 8.4 million pixels (255 × pixels > 2³¹). The model computes them exactly.
- `HistogramEqualization.CreateHistogram` and `ComputeMean` are not part of this model. The histogram, pixel count and intensity sum are inputs, required to agree with each other.
- The `GlobalMask` crop at Convolution.cs:28 is left out. It touches process-wide state that no modelled stage reads.
- Convolution.Convolve: requires a kernel side below 256. The C# loop counters are bytes and would never end otherwise.
- Convolution.Convolve: requires the image to be at least `2·s·times` pixels wide and high. On a smaller image `CropImage` (HelperFunctions.cs:72) is asked for a negative size and throws. That exception is not modelled.
- Convolution.Convolve: the `ApplyGaussianBlur` wrapper and its constant kernels are left out.
- The magnitude and direction section of CannyEdge.cs (lines 14-51) is not modelled. It uses Sobel kernels, square roots and `Atan2`, so `imageG` and `imageT` are inputs.
- CannyEdge.Hysteresis: requires that the two maps are distinct arrays of one size. The pipeline always calls it that way.
- CannyEdge.Hysteresis: the model states no connectivity of the final edges to strong seeds, because the seed test is dead and nothing is ever propagated.
- The trigonometric vote step of CreateHoughSpace (HoughTransform.cs:56-59, 61, 68-70) is the input function `vote`. Its result already includes the Hough height.
- The angle of a found line is kept as its index t, not as the double angle.
- Hough.HoughTransform.CreateHoughSpace: requires a non-empty accumulator (`maxTheta > 0`, height > 0). `Max()` of an empty sequence throws.
- Hough.HoughTransform.FoundLines: the unused `min` and `max` parameters are dropped.
- `MakeCartesianLine` and `GetAllCartesianLines` are left out, because they use trigonometry and square roots.
- Every `Console.WriteLine`, `WriteCrop` and the random pair colours are left out. `Line` has no colour field.
- Pairing: requires all slopes to be nonzero. Slopes are −cot θ for angles that stay clear of the horizontal; a zero slope makes `GetX` divide by zero.
- Pairing.LineEquals and Pairing.LineUnequals: the `(int)` casts of slopes, intercepts and intersections (HoughExtensions.cs:29, 37, 123, 166) are modelled as plain truncation, so the coefficients are taken to lie in `int` range. C#'s unchecked cast of a double outside that range, such as the huge slope of a near-vertical line at θ = π, gives an unspecified value, and that case is not modelled.
- Pairing: NaN intersections do not arise, because two equal lines are skipped before the division.
- Pairing.SortByY: the stable sort is modelled as an insertion sort, with no claim about .NET's particular algorithm beyond stability.
- Pairing.PairLines: the loop over the empty `result` list never runs and is left out.
- `CutPairs`, `CutImage`, `Greyscalize`, `Complement`, `BilateralFilter`, `DetectEdges`, the morphological filters, `DrawFinal` and `Form1` are not part of this model.
- The null `_objectMap` before the first call is modelled as a 0 × 0 array.
- ObjectLabelling.FloodFill.MarkObjects: the exception on the 256th object is modelled as `ok == false`. That path leaves the seed pixel written, does not compute corners, and states nothing else about the map.
- ObjectLabelling.FloodFill.FilterObjects: requires every label to index an existing object and every object to have corners. The C# code throws otherwise.
- ObjectLabelling.FloodFill.CalculateCorners: the unused `image` parameter is dropped.
- ObjectLabelling.Fill: the recursion is an explicit worklist, so stack overflow on large regions is not modelled. The worklist visits pixels in a different order from the recursion. The pixels labelled and the box grown are the same.
