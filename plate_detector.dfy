/** The plate-candidate part of `detectLicensePlate`: from the contours the
    edge detector found to the list of four-corner candidate polygons, by
    area filter, x-sort and greedy merge. */
module PlateDetector {
  import opened Geometry
  import opened AreaFilter
  import opened XSort
  import opened PlateGrouping

  /** The candidate polygons computed from the extracted contours. */
  function PlateCandidates(contours: seq<Contour>): (plates: seq<Polygon>)
    ensures |plates| <= |CharacterContours(contours)|
    ensures plates == [] <==> forall c :: c in contours ==> !IsCharacterSized(c)
  {
    CharacterContoursEmpty(contours);
    Quads(GroupRects(BoundsOf(InsertionSort(CharacterContours(contours)))))
  }

  /** The filter, sort and grouping loops in sequence. The filtered list is
      copied into an array for the in-place sort. */
  method DetectLicensePlate(contours: seq<Contour>) returns (numberPlateContours: seq<Polygon>)
    ensures numberPlateContours == PlateCandidates(contours)
  {
    var characterContours := FilterCharacterContours(contours);
    var list := new Contour[|characterContours|](i requires 0 <= i < |characterContours| => characterContours[i]);
    assert list[..] == characterContours;
    SortContoursByX(list);
    numberPlateContours := GroupPlateContours(list[..]);
  }

  /** The library sort is stable, and every stable sort by x of the kept
      contours yields the same list; the candidates computed from any such
      list are the model's. */
  lemma AnyStableSortGivesTheSameCandidates(contours: seq<Contour>, sorted: seq<Contour>)
    requires SortedByX(sorted)
    requires forall k :: WithX(sorted, k) == WithX(CharacterContours(contours), k)
    ensures Quads(GroupRects(BoundsOf(sorted))) == PlateCandidates(contours)
  {
    var kept := CharacterContours(contours);
    InsertionSortSorted(kept);
    forall k
      ensures WithX(sorted, k) == WithX(InsertionSort(kept), k)
    {
      InsertionSortStable(kept, k);
    }
    SortedStableUnique(sorted, InsertionSort(kept));
  }

  /** With `n` character-sized contours there are `n` minus the number of
      merges candidates: none when `n = 0`, between 1 and `n` otherwise. */
  lemma CandidateCount(contours: seq<Contour>)
    ensures var n := |CharacterContours(contours)|;
      var rs := BoundsOf(InsertionSort(CharacterContours(contours)));
      |PlateCandidates(contours)| == n - MergeCount(rs) &&
      (n == 0 ==> PlateCandidates(contours) == []) &&
      (n > 0 ==> 1 <= |PlateCandidates(contours)| <= n)
  {
    GroupCount(BoundsOf(InsertionSort(CharacterContours(contours))));
  }

  /** The last candidate carries the y, width and height of the rightmost
      (last sorted) character contour. */
  lemma LastCandidateIsLastContour(contours: seq<Contour>)
    requires PlateCandidates(contours) != []
    ensures var sorted := InsertionSort(CharacterContours(contours));
      var last := sorted[|sorted| - 1].bounds;
      var plates := PlateCandidates(contours);
      RectOfQuad(plates[|plates| - 1]).y == last.y &&
      RectOfQuad(plates[|plates| - 1]).width == last.width &&
      RectOfQuad(plates[|plates| - 1]).height == last.height
  {
    var sorted := InsertionSort(CharacterContours(contours));
    var rs := BoundsOf(sorted);
    var g := GroupRects(rs);
    assert rs[|rs| - 1] == sorted[|sorted| - 1].bounds;
    QuadRoundTrip(g[|g| - 1]);
  }

  /** One isolated character-sized blob gives exactly its own rectangle. */
  lemma SingleBlob(c: Contour)
    requires IsCharacterSized(c)
    ensures PlateCandidates([c]) == [Quad(c.bounds)]
  {
    assert CharacterContours([c]) == [c];
  }

  /** Two sorted rectangles leave one candidate, the second rectangle at
      the first one's x, when they are close, and both unchanged otherwise. */
  lemma GroupTwo(r0: Rect, r1: Rect)
    ensures GroupRects([r0, r1]) == if Close(r0, r1) then [r1.(x := r0.x)] else [r0, r1]
  {
    GroupSnoc([], r0);
    assert [] + [r0] == [r0];
    GroupSnoc([r0], r1);
    assert [r0] + [r1] == [r0, r1];
  }

  /** A third sorted rectangle is compared with the second one. */
  lemma GroupThree(r0: Rect, r1: Rect, r2: Rect)
    ensures var g := GroupRects([r0, r1]);
      GroupRects([r0, r1, r2]) == if Close(r1, r2) then g[..|g| - 1] + [r2.(x := r1.x)] else g + [r2]
  {
    GroupSnoc([r0, r1], r2);
    assert [r0, r1] + [r2] == [r0, r1, r2];
  }

  /** Two character-sized contours, in either input order, reach the
      grouping step ordered by x. */
  lemma KeptAndSortedTwo(a: Contour, b: Contour)
    requires IsCharacterSized(a) && IsCharacterSized(b) && a.bounds.x < b.bounds.x
    ensures PlateCandidates([a, b]) == Quads(GroupRects([a.bounds, b.bounds]))
    ensures PlateCandidates([b, a]) == Quads(GroupRects([a.bounds, b.bounds]))
  {
    FilterTwo(a, b);
    FilterTwo(b, a);
    SortTwo(a, b);
    BoundsOfTwo(a, b);
  }

  lemma SortTwo(a: Contour, b: Contour)
    requires a.bounds.x < b.bounds.x
    ensures InsertionSort([a, b]) == [a, b] && InsertionSort([b, a]) == [a, b]
  {
    assert [a, b][..1] == [a] && [b, a][..1] == [b];
    assert InsertionSort([a]) == [a] && InsertionSort([b]) == [b];
  }

  lemma FilterTwo(a: Contour, b: Contour)
    requires IsCharacterSized(a) && IsCharacterSized(b)
    ensures CharacterContours([a, b]) == [a, b]
  {
    assert [a, b][1..] == [b] && [b][1..] == [];
    assert CharacterContours([b]) == [b];
  }

  lemma BoundsOfTwo(a: Contour, b: Contour)
    ensures BoundsOf([a, b]) == [a.bounds, b.bounds]
  {
    var rs := BoundsOf([a, b]);
    assert |rs| == 2 && rs[0] == a.bounds && rs[1] == b.bounds;
  }

  lemma QuadsOne(r: Rect)
    ensures Quads([r]) == [Quad(r)]
  {
  }

  lemma QuadsTwo(r0: Rect, r1: Rect)
    ensures Quads([r0, r1]) == [Quad(r0), Quad(r1)]
  {
  }

  /** Two blobs 40 pixels apart, given right one first: one candidate, at the
      left blob's x but with the right blob's width, so it spans x = 0..20
      and not the 0..80 that covers both. */
  lemma TwoCloseBlobs()
    ensures PlateCandidates([Contour(Rect(60, 0, 20, 30), 500.0), Contour(Rect(0, 0, 20, 30), 500.0)])
         == [Quad(Rect(0, 0, 20, 30))]
  {
    var left, right := Contour(Rect(0, 0, 20, 30), 500.0), Contour(Rect(60, 0, 20, 30), 500.0);
    KeptAndSortedTwo(left, right);
    assert Gap(left.bounds, right.bounds) == 40;
    GroupTwo(left.bounds, right.bounds);
    QuadsOne(Rect(0, 0, 20, 30));
  }

  /** Two blobs 60 pixels apart stay two candidates. */
  lemma TwoDistantBlobs()
    ensures PlateCandidates([Contour(Rect(0, 0, 20, 30), 500.0), Contour(Rect(80, 0, 20, 30), 500.0)])
         == [Quad(Rect(0, 0, 20, 30)), Quad(Rect(80, 0, 20, 30))]
  {
    var left, right := Contour(Rect(0, 0, 20, 30), 500.0), Contour(Rect(80, 0, 20, 30), 500.0);
    KeptAndSortedTwo(left, right);
    assert Gap(left.bounds, right.bounds) == 60;
    GroupTwo(left.bounds, right.bounds);
    QuadsTwo(left.bounds, right.bounds);
  }

  /** Three character-sized contours already in x order pass the filter and
      the sort unchanged. */
  lemma KeptAndSortedThree(a: Contour, b: Contour, c: Contour)
    requires IsCharacterSized(a) && IsCharacterSized(b) && IsCharacterSized(c)
    requires a.bounds.x <= b.bounds.x <= c.bounds.x
    ensures PlateCandidates([a, b, c]) == Quads(GroupRects([a.bounds, b.bounds, c.bounds]))
  {
    FilterThree(a, b, c);
    SortThree(a, b, c);
    BoundsOfThree(a, b, c);
  }

  lemma SortThree(a: Contour, b: Contour, c: Contour)
    requires a.bounds.x <= b.bounds.x <= c.bounds.x
    ensures InsertionSort([a, b, c]) == [a, b, c]
  {
    assert [a, b, c][..2] == [a, b] && [a, b][..1] == [a];
    assert InsertionSort([a]) == [a];
    assert InsertionSort([a, b]) == [a, b];
  }

  lemma FilterThree(a: Contour, b: Contour, c: Contour)
    requires IsCharacterSized(a) && IsCharacterSized(b) && IsCharacterSized(c)
    ensures CharacterContours([a, b, c]) == [a, b, c]
  {
    assert [a, b, c][1..] == [b, c];
    FilterTwo(b, c);
  }

  lemma BoundsOfThree(a: Contour, b: Contour, c: Contour)
    ensures BoundsOf([a, b, c]) == [a.bounds, b.bounds, c.bounds]
  {
    var rs := BoundsOf([a, b, c]);
    assert |rs| == 3 && rs[0] == a.bounds && rs[1] == b.bounds && rs[2] == c.bounds;
  }

  /** Three blobs 40 pixels apart: each step merges, and the single
      candidate left starts at the second blob's x, not the first's. */
  lemma ChainOfThree()
    ensures PlateCandidates([Contour(Rect(0, 0, 20, 30), 500.0), Contour(Rect(60, 0, 20, 30), 500.0),
                             Contour(Rect(120, 0, 20, 30), 500.0)])
         == [Quad(Rect(60, 0, 20, 30))]
  {
    var a, b, c := Rect(0, 0, 20, 30), Rect(60, 0, 20, 30), Rect(120, 0, 20, 30);
    KeptAndSortedThree(Contour(a, 500.0), Contour(b, 500.0), Contour(c, 500.0));
    ChainGroups(a, b, c);
    QuadsOne(Rect(60, 0, 20, 30));
  }

  /** Three rectangles without overflow, each within 50 pixels of the one
      before: a single candidate, the third rectangle at the second's x. */
  lemma ChainGroups(a: Rect, b: Rect, c: Rect)
    requires NoOverflow(a) && NoOverflow(b) && NoOverflow(c)
    requires b.x - (a.x + a.width) <= DistanceThreshold && c.x - (b.x + b.width) <= DistanceThreshold
    ensures GroupRects([a, b, c]) == [c.(x := b.x)]
  {
    CloseWithoutOverflow(a, b);
    CloseWithoutOverflow(b, c);
    GroupTwo(a, b);
    GroupThree(a, b, c);
  }

  /** The merge test looks at the previous sorted rectangle, not at the
      candidate that replaced it: here the third blob is 30 pixels right of
      the second blob but 90 pixels right of the candidate emitted for it,
      and it merges. */
  lemma MergeLooksAtPreviousRectangle()
    ensures PlateCandidates([Contour(Rect(0, 0, 100, 30), 500.0), Contour(Rect(60, 0, 10, 30), 500.0),
                             Contour(Rect(100, 0, 10, 30), 500.0)])
         == [Quad(Rect(60, 0, 10, 30))]
  {
    var a, b, c := Rect(0, 0, 100, 30), Rect(60, 0, 10, 30), Rect(100, 0, 10, 30);
    KeptAndSortedThree(Contour(a, 500.0), Contour(b, 500.0), Contour(c, 500.0));
    PreviousRectangleGroups(a, b, c);
    QuadsOne(Rect(60, 0, 10, 30));
  }

  /** Three rectangles without overflow where the second is close to the
      first and the third close to the second but not to the candidate that
      replaced the second: still a single candidate. */
  lemma PreviousRectangleGroups(a: Rect, b: Rect, c: Rect)
    requires NoOverflow(a) && NoOverflow(b) && NoOverflow(c)
    requires b.x - (a.x + a.width) <= DistanceThreshold && c.x - (b.x + b.width) <= DistanceThreshold
    requires c.x - (a.x + b.width) > DistanceThreshold
    ensures !Close(b.(x := a.x), c)
    ensures GroupRects([a, b, c]) == [c.(x := b.x)]
  {
    CloseWithoutOverflow(b.(x := a.x), c);
    ChainGroups(a, b, c);
  }

  /** Areas 300 and 1000 are dropped, 301 and 999 kept. */
  lemma AreaBoundaries()
    ensures PlateCandidates([Contour(Rect(0, 0, 20, 30), 300.0), Contour(Rect(100, 0, 20, 30), 301.0),
                             Contour(Rect(200, 0, 20, 30), 999.0), Contour(Rect(300, 0, 20, 30), 1000.0)])
         == [Quad(Rect(100, 0, 20, 30)), Quad(Rect(200, 0, 20, 30))]
  {
    var lo, a, b, hi := Contour(Rect(0, 0, 20, 30), 300.0), Contour(Rect(100, 0, 20, 30), 301.0),
                        Contour(Rect(200, 0, 20, 30), 999.0), Contour(Rect(300, 0, 20, 30), 1000.0);
    var cs := [lo, a, b, hi];
    assert CharacterContours(cs) == CharacterContours([a, b]) by {
      assert cs == [lo] + [a, b] + [hi];
      CharacterContoursAppend([lo] + [a, b], [hi]);
      CharacterContoursAppend([lo], [a, b]);
      assert CharacterContours([lo]) == [] && CharacterContours([hi]) == [];
    }
    assert PlateCandidates(cs) == PlateCandidates([a, b]);
    KeptAndSortedTwo(a, b);
    assert Gap(a.bounds, b.bounds) == 80;
    GroupTwo(a.bounds, b.bounds);
    QuadsTwo(a.bounds, b.bounds);
  }
}
