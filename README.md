# Licence-plate candidate grouping

This project is a Dafny model of the plate-candidate step of
`MainActivity.detectLicensePlate` in the Android app "Vehicle number plate
extraction". The step gets the contours that OpenCV's edge detector found,
and produces a list of four-corner polygons, one per plate candidate. It
works in three stages, each modelled in the same imperative form as the
Java code:

1. **Area filter** (`AreaFilter`). The loop appends a contour to
   `characterContours` when `300 < area < 1000`. Both comparisons are strict,
   and the int bounds are promoted to `double`.
2. **Sort by x** (`XSort`). `Collections.sort` reorders `characterContours`
   in place, by the x of each contour's bounding rectangle. The model sorts
   an array in place by stable insertion. It is proved sorted, a
   permutation and stable. It is also proved that any stable sort by x
   gives the same list, so the model's result is the one `Collections.sort`
   (a stable sort) returns.
3. **Greedy merge** (`PlateGrouping`). The loop walks the sorted list. It
   measures `rect.x - (prevRect.x + prevRect.width)` against the previous
   *sorted contour's* rectangle. When that gap is at most 50, it removes the
   last emitted candidate and sets `rect.x = prevRect.x`. Every step then
   emits `rect` as the polygon `(x,y), (x+w,y), (x+w,y+h), (x,y+h)`.

`PlateDetector` chains the three stages. It also holds worked scenarios and
the candidate-count bound.

Java `int` arithmetic is modelled exactly. Rectangle fields are `Int32`,
and every `+` and `-` the code performs goes through two's-complement
wrap-around (`Geometry.Wrap32`). `Geometry.NoOverflow` says that a
rectangle's fields are non-negative and that none of the sums on it
overflows. For such rectangles the lemmas give the arithmetic its ordinary
meaning.

**The code comment and the code disagree on the merge.** The comments at
MainActivity.java:113 and :115 say that close contours belong to the same
number plate and that moving the x-coordinate makes the current contour
include the previous one, so the merged rectangle would cover both blobs.
The code assigns
only `rect.x` (MainActivity.java:115) and leaves `rect.width` alone. So a
merged candidate is the current rectangle *shifted* left to the previous
rectangle's x, with its own width, and it does not reach the right blob's
right edge. The model follows the code:

- `PlateGrouping.MergedCandidateIsShifted` and `PlateDetector.TwoCloseBlobs`
  state the shift;
- `PlateDetector.ChainOfThree` shows that in a chain of three close blobs
  the final candidate starts at the second blob's x;
- `PlateDetector.MergeLooksAtPreviousRectangle` shows that the merge test
  uses the previous sorted rectangle, not the candidate that replaced it.

## Model

| member | source | states |
|---|---|---|
| Geometry.Wrap32 | app/src/main/java/com/example/jmad_mini_proj/MainActivity.java:110 | The value of a Java `int` expression is its exact value, reduced into the signed 32-bit range; it is that exact value whenever it already lies in range |
| Geometry.WrapInner | app/src/main/java/com/example/jmad_mini_proj/MainActivity.java:110 | Wrapping the inner sum `prevRect.x + prevRect.width` before subtracting gives the same `int` as wrapping the exact difference once |
| Geometry.WrapBack | app/src/main/java/com/example/jmad_mini_proj/MainActivity.java:119-120 | `(x + w) - x` in Java `int` arithmetic is `w`, even when `x + w` overflows |
| Geometry.Right | app/src/main/java/com/example/jmad_mini_proj/MainActivity.java:119-120 | The `int` sum `rect.x + rect.width` equals the exact sum when that fits in an `int`, and Java's `right - x` gives the width back in every case |
| Geometry.Bottom | app/src/main/java/com/example/jmad_mini_proj/MainActivity.java:119-120 | The `int` sum `rect.y + rect.height` equals the exact sum when that fits in an `int`, and Java's `bottom - y` gives the height back in every case |
| Geometry.Quad | app/src/main/java/com/example/jmad_mini_proj/MainActivity.java:119-120 | An emitted polygon has four vertices, starts at `(x, y)` and has axis-parallel edges in the order top, right, bottom, left; without overflow its third vertex is `(x + w, y + h)` |
| Geometry.QuadRoundTrip | app/src/main/java/com/example/jmad_mini_proj/MainActivity.java:119-120 | The emitted polygon determines the rectangle it was built from: reading x, y from vertex 0 and width, height from vertex 2 minus vertex 0 gives the rectangle back |
| AreaFilter.IsCharacterSized | app/src/main/java/com/example/jmad_mini_proj/MainActivity.java:87 | The area test: `area > 300` and `area < 1000`, both strict, against the int bounds promoted to `double` |
| AreaFilter.CharacterContours | app/src/main/java/com/example/jmad_mini_proj/MainActivity.java:81-90 | Every kept contour is an input contour with `300 < area < 1000`, and no more contours are kept than were given |
| AreaFilter.CharacterContoursComplete | app/src/main/java/com/example/jmad_mini_proj/MainActivity.java:85-89 | Every input contour with `300 < area < 1000` is kept |
| AreaFilter.CharacterContoursMultiplicity | app/src/main/java/com/example/jmad_mini_proj/MainActivity.java:85-89 | A contour is kept exactly as often as it occurs in the input when its area passes the strict test, and never otherwise |
| AreaFilter.CharacterContoursAppend | app/src/main/java/com/example/jmad_mini_proj/MainActivity.java:85-89 | Filtering a concatenation gives the concatenation of the filtered parts, so kept contours keep their input order |
| AreaFilter.CharacterContoursEmpty | app/src/main/java/com/example/jmad_mini_proj/MainActivity.java:84-90 | Nothing is kept exactly when no input contour passes the area test |
| AreaFilter.FilterCharacterContours | app/src/main/java/com/example/jmad_mini_proj/MainActivity.java:84-90 | The filter loop, which appends each passing contour, leaves `characterContours` equal to the filtered input |
| XSort.InsertionSort | app/src/main/java/com/example/jmad_mini_proj/MainActivity.java:93-97 | The sorted list is a permutation of its input (same multiset, same length) |
| XSort.InsertionSortSorted | app/src/main/java/com/example/jmad_mini_proj/MainActivity.java:93-97 | After sorting, the bounding-rectangle x values are non-decreasing |
| XSort.InsertionSortStable | app/src/main/java/com/example/jmad_mini_proj/MainActivity.java:93-97 | For every x, the contours with that x keep their order from before the sort |
| XSort.SortedStableUnique | app/src/main/java/com/example/jmad_mini_proj/MainActivity.java:93-97 | Two lists that are sorted by x and agree on the order of the contours for every x are equal, so all stable sorts by x have the same result |
| XSort.InsertAt | app/src/main/java/com/example/jmad_mini_proj/MainActivity.java:93-97 | One pass of the in-place sort: the first `i + 1` array elements become element `i` inserted stably into the first `i`, and the rest of the array is unchanged |
| XSort.SortContoursByX | app/src/main/java/com/example/jmad_mini_proj/MainActivity.java:93-97 | The in-place sort of the list leaves the array sorted by x, a permutation of its old contents, and equal to the stable insertion sort of them |
| PlateGrouping.Gap | app/src/main/java/com/example/jmad_mini_proj/MainActivity.java:110 | `distance` is the wrapped value of `rect.x - (prevRect.x + prevRect.width)`, and the exact difference for rectangles without overflow |
| PlateGrouping.Close | app/src/main/java/com/example/jmad_mini_proj/MainActivity.java:112 | The merge test `distance <= distanceThreshold` with the threshold 50, on the Java `int` distance |
| PlateGrouping.MergesAt | app/src/main/java/com/example/jmad_mini_proj/MainActivity.java:108-112 | Step `i` removes the last candidate exactly when `i > 0` and the rectangle is close to the previous sorted rectangle |
| PlateGrouping.Candidate | app/src/main/java/com/example/jmad_mini_proj/MainActivity.java:112-116 | The rectangle step `i` emits keeps the y, width and height of the sorted rectangle; merged, its x is the previous rectangle's x, and unmerged it is the rectangle itself |
| PlateGrouping.CandidateShape | app/src/main/java/com/example/jmad_mini_proj/MainActivity.java:112-120 | The same facts about one step's candidate, stated as a lemma: x moved to `prevRect.x` when merged, every other field unchanged |
| PlateGrouping.CloseWithoutOverflow | app/src/main/java/com/example/jmad_mini_proj/MainActivity.java:109-112 | For rectangles without overflow, two rectangles merge exactly when the current left edge is at most 50 pixels right of the previous right edge; overlapping rectangles (negative gap) always merge |
| PlateGrouping.GroupRects | app/src/main/java/com/example/jmad_mini_proj/MainActivity.java:103-121 | The candidate list is empty exactly when there are no rectangles, is no longer than the input, and ends with the candidate of the last step |
| PlateGrouping.GroupCount | app/src/main/java/com/example/jmad_mini_proj/MainActivity.java:103-121 | `n` sorted rectangles leave `n` minus the number of merging steps as candidates; for `n > 0` at least one, and fewer merges than rectangles |
| PlateGrouping.RemoveFindsCandidate | app/src/main/java/com/example/jmad_mini_proj/MainActivity.java:108-114 | Whenever `i > 0` at least one candidate has been emitted, so `remove(size - 1)` never meets an empty list |
| PlateGrouping.GroupRectsAreSurvivors | app/src/main/java/com/example/jmad_mini_proj/MainActivity.java:103-121 | The loop's candidate list equals the reference list: the candidate of step `i` in step order, for every `i` that is last or whose successor does not merge |
| PlateGrouping.CandidatesKeepTheirSize | app/src/main/java/com/example/jmad_mini_proj/MainActivity.java:112-120 | Every candidate comes from one surviving step and keeps that rectangle's y, width and height; merged, its x is the previous rectangle's x, and unmerged it is the rectangle itself |
| PlateGrouping.SurvivingCandidateEmitted | app/src/main/java/com/example/jmad_mini_proj/MainActivity.java:103-121 | The candidate of every step that is not absorbed by its successor appears in the result |
| PlateGrouping.MergedCandidateIsShifted | app/src/main/java/com/example/jmad_mini_proj/MainActivity.java:112-116 | A merged candidate keeps the current width, so when the previous rectangle starts further left its right edge falls short of the current rectangle's right edge |
| PlateGrouping.GroupRectsStep | app/src/main/java/com/example/jmad_mini_proj/MainActivity.java:108-120 | One iteration on a prefix: when `i > 0` a candidate exists, and the step removes the last one only when it merges, then appends exactly one candidate |
| PlateGrouping.GroupPlateContours | app/src/main/java/com/example/jmad_mini_proj/MainActivity.java:100-121 | The merge loop, popping and appending on `numberPlateContours`, leaves the polygons of the grouped candidates |
| PlateDetector.PlateCandidates | app/src/main/java/com/example/jmad_mini_proj/MainActivity.java:81-121 | There are no more candidates than character-sized contours, and there are none exactly when no contour passes the area test |
| PlateDetector.DetectLicensePlate | app/src/main/java/com/example/jmad_mini_proj/MainActivity.java:81-121 | The filter loop, the in-place sort and the merge loop in sequence compute the candidate polygons |
| PlateDetector.AnyStableSortGivesTheSameCandidates | app/src/main/java/com/example/jmad_mini_proj/MainActivity.java:93-121 | Grouping any x-sorted, stable reordering of the kept contours gives the model's candidates |
| PlateDetector.CandidateCount | app/src/main/java/com/example/jmad_mini_proj/MainActivity.java:100-121 | With `n` character-sized contours there are `n` minus the merges candidates: none when `n = 0`, between 1 and `n` otherwise |
| PlateDetector.LastCandidateIsLastContour | app/src/main/java/com/example/jmad_mini_proj/MainActivity.java:103-121 | The last candidate carries the y, width and height of the last sorted contour |
| PlateDetector.SingleBlob | app/src/main/java/com/example/jmad_mini_proj/MainActivity.java:81-121 | A single character-sized contour yields exactly its own rectangle's polygon |
| PlateDetector.GroupTwo | app/src/main/java/com/example/jmad_mini_proj/MainActivity.java:108-120 | Two sorted rectangles give one candidate (the second at the first's x) when close, and both unchanged otherwise |
| PlateDetector.KeptAndSortedTwo | app/src/main/java/com/example/jmad_mini_proj/MainActivity.java:81-97 | Two character-sized contours reach the grouping loop ordered by x, whichever order they came in |
| PlateDetector.KeptAndSortedThree | app/src/main/java/com/example/jmad_mini_proj/MainActivity.java:81-97 | Three character-sized contours already in x order reach the grouping loop unchanged |
| PlateDetector.TwoCloseBlobs | app/src/main/java/com/example/jmad_mini_proj/MainActivity.java:108-120 | Blobs at x 60 and 0 (width 20, gap 40) give one candidate at x 0 with width 20: shifted, not spanning both |
| PlateDetector.TwoDistantBlobs | app/src/main/java/com/example/jmad_mini_proj/MainActivity.java:108-120 | Blobs with a 60-pixel gap stay two separate candidates |
| PlateDetector.ChainGroups | app/src/main/java/com/example/jmad_mini_proj/MainActivity.java:108-120 | Three rectangles, each within 50 pixels of the one before, leave one candidate: the third rectangle at the second's x |
| PlateDetector.ChainOfThree | app/src/main/java/com/example/jmad_mini_proj/MainActivity.java:108-120 | Three blobs 40 pixels apart give one candidate starting at the second blob's x (60), not the first's |
| PlateDetector.PreviousRectangleGroups | app/src/main/java/com/example/jmad_mini_proj/MainActivity.java:109-115 | A third rectangle close to the second input rectangle merges even when it is far from the candidate that replaced the second |
| PlateDetector.MergeLooksAtPreviousRectangle | app/src/main/java/com/example/jmad_mini_proj/MainActivity.java:109-115 | A concrete case: the third blob is 30 pixels from the second blob, 90 from the second's candidate, and still merges |
| PlateDetector.AreaBoundaries | app/src/main/java/com/example/jmad_mini_proj/MainActivity.java:81-90 | Contours of area 300 and 1000 are dropped and those of area 301 and 999 kept |

## Left out

- The Android activity lifecycle, the button listener, bitmap decoding and display (MainActivity.java:40-62, 148-152): user interface and I/O.
- The OpenCV library load in the static initializer (MainActivity.java:34-38): a foreign call with an empty error handler.
- `cvtColor`, `GaussianBlur`, `Canny` and `findContours` (MainActivity.java:64-78): foreign image processing. Their output is the model's input, a list of contours.
- `Imgproc.contourArea` and `Imgproc.boundingRect` as computations: each contour carries its area (a `real` standing for the `double`) and its bounding rectangle as given fields.
- The drawing of the candidates (MainActivity.java:123-145): `drawContours`, the float conversions, `approxPolyDP`, `boundingRect` of the approximation and `rectangle`. These are floating-point geometry and raster output.
- The algorithm of `Collections.sort` (a merge sort in the Java library): only its contract is modelled. The model proves that any stable sort by x yields its result.
- `rect` as a mutable `org.opencv.core.Rect` object: `boundingRect` returns a fresh object on every call, so the field assignment at line 115 is a local update. `rect` is therefore a value (`Geometry.Rect`), and `rect.(x := prevRect.x)` models the assignment.
- OpenCV `Point` stores `double` coordinates: each vertex is built from `int` sums and kept in a `MatOfPoint` of 32-bit integers, so `Geometry.Point` holds `Int32` coordinates.
