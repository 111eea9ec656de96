/** Stage three of the plate detector: one left-to-right pass over the
    x-sorted character rectangles. When a rectangle's left edge is within 50
    pixels of the right edge of the rectangle before it in the sorted list,
    the last emitted candidate is removed and the rectangle's x is moved to
    that previous rectangle's x; then the rectangle is emitted as a
    four-corner polygon. Only x moves: the width stays the current
    rectangle's, so a "merged" candidate is shifted left, not widened. */
module PlateGrouping {
  import opened Geometry

  const DistanceThreshold: int := 50

  /** `rect.x - (prevRect.x + prevRect.width)` in Java `int` arithmetic. */
  function Gap(prev: Rect, cur: Rect): (d: Int32)
    ensures d == Wrap32(cur.x - (prev.x + prev.width))
    ensures NoOverflow(prev) && NoOverflow(cur) ==> d == cur.x - (prev.x + prev.width)
  {
    var right := Wrap32(prev.x + prev.width);
    WrapInner(cur.x, prev.x + prev.width);
    Wrap32(cur.x - right)
  }

  /** The merge test: `distance <= distanceThreshold`. */
  predicate Close(prev: Rect, cur: Rect) {
    Gap(prev, cur) <= DistanceThreshold
  }

  /** Whether the step for index `i` removes the last emitted candidate. */
  predicate MergesAt(rs: seq<Rect>, i: nat)
    requires i < |rs|
  {
    i > 0 && Close(rs[i - 1], rs[i])
  }

  /** The rectangle emitted at step `i`: the sorted rectangle itself, with
      its x replaced by the previous sorted rectangle's x when it merges. */
  function Candidate(rs: seq<Rect>, i: nat): (c: Rect)
    requires i < |rs|
    ensures c.y == rs[i].y && c.width == rs[i].width && c.height == rs[i].height
    ensures MergesAt(rs, i) ==> c.x == rs[i - 1].x
    ensures !MergesAt(rs, i) ==> c == rs[i]
  {
    if MergesAt(rs, i) then rs[i].(x := rs[i - 1].x) else rs[i]
  }

  /** The candidate list after the steps for all of `rs`, built exactly as
      the loop builds it: an optional remove-last, then an append. */
  function GroupRects(rs: seq<Rect>): (g: seq<Rect>)
    ensures rs == [] <==> g == []
    ensures |g| <= |rs|
    ensures rs != [] ==> g[|g| - 1] == Candidate(rs, |rs| - 1)
  {
    if rs == [] then []
    else
      var prefix := rs[..|rs| - 1];
      var g := GroupRects(prefix);
      var c := Candidate(rs, |rs| - 1);
      if MergesAt(rs, |rs| - 1) then g[..|g| - 1] + [c] else g + [c]
  }

  /** The number of steps that removed a candidate. */
  function MergeCount(rs: seq<Rect>): nat {
    if rs == [] then 0
    else MergeCount(rs[..|rs| - 1]) + (if MergesAt(rs, |rs| - 1) then 1 else 0)
  }

  /** Each step removes at most one candidate and appends exactly one, so
      `n` rectangles leave `n` minus the number of merges; at least one when
      `n > 0`, since the first step never merges. */
  lemma {:induction false} GroupCount(rs: seq<Rect>)
    ensures |GroupRects(rs)| == |rs| - MergeCount(rs)
    ensures rs != [] ==> 1 <= |GroupRects(rs)| && MergeCount(rs) < |rs|
  {
    if rs != [] {
      GroupCount(rs[..|rs| - 1]);
    }
  }

  /** The step for index `i > 0` always finds a candidate to remove: the
      steps before it have emitted at least one. */
  lemma RemoveFindsCandidate(rs: seq<Rect>, i: nat)
    requires 0 < i <= |rs|
    ensures |GroupRects(rs[..i])| >= 1
  {
  }

  /** The candidate emitted at step `i` survives to the end exactly when it
      is the last step or the next step does not merge (a merge removes
      precisely the candidate of the step before). */
  predicate Survives(rs: seq<Rect>, i: nat)
    requires i < |rs|
  {
    i == |rs| - 1 || !MergesAt(rs, i + 1)
  }

  /** Reference definition: the surviving candidates among the first `k`
      steps, in step order. */
  function SurvivorsUpTo(rs: seq<Rect>, k: nat): seq<Rect>
    requires k <= |rs|
  {
    if k == 0 then []
    else SurvivorsUpTo(rs, k - 1) + (if Survives(rs, k - 1) then [Candidate(rs, k - 1)] else [])
  }

  function Survivors(rs: seq<Rect>): seq<Rect> {
    SurvivorsUpTo(rs, |rs|)
  }

  /** Dropping the last rectangle changes neither the candidates nor the
      survival of the steps that come two or more before it. */
  lemma {:induction false} SurvivorsOfPrefix(rs: seq<Rect>, k: nat)
    requires 2 <= |rs| && k <= |rs| - 2
    ensures SurvivorsUpTo(rs, k) == SurvivorsUpTo(rs[..|rs| - 1], k)
  {
    if k > 0 {
      SurvivorsOfPrefix(rs, k - 1);
      var p := rs[..|rs| - 1];
      assert p[k - 1] == rs[k - 1] && p[k] == rs[k];
      assert k >= 2 ==> p[k - 2] == rs[k - 2];
      assert Candidate(p, k - 1) == Candidate(rs, k - 1);
      assert Survives(p, k - 1) == Survives(rs, k - 1);
    }
  }

  /** The loop's candidate list is exactly the list of surviving candidates. */
  lemma {:induction false} GroupRectsAreSurvivors(rs: seq<Rect>)
    ensures GroupRects(rs) == Survivors(rs)
  {
    var n := |rs|;
    if n == 1 {
      assert GroupRects(rs) == [Candidate(rs, 0)];
      assert Survivors(rs) == SurvivorsUpTo(rs, 0) + [Candidate(rs, 0)];
    } else if n >= 2 {
      var p := rs[..n - 1];
      var c := Candidate(rs, n - 1);
      GroupRectsAreSurvivors(p);
      SurvivorsOfPrefix(rs, n - 2);
      assert p[n - 2] == rs[n - 2];
      assert n >= 3 ==> p[n - 3] == rs[n - 3];
      assert Candidate(p, n - 2) == Candidate(rs, n - 2);
      var head := SurvivorsUpTo(rs, n - 2);
      assert GroupRects(p) == head + [Candidate(rs, n - 2)];
      assert Survivors(rs) == SurvivorsUpTo(rs, n - 1) + [c];
      if MergesAt(rs, n - 1) {
        assert !Survives(rs, n - 2);
        assert SurvivorsUpTo(rs, n - 1) == head;
        assert GroupRects(rs) == GroupRects(p)[..|GroupRects(p)| - 1] + [c];
        assert GroupRects(p)[..|GroupRects(p)| - 1] == head;
      } else {
        assert Survives(rs, n - 2);
        assert SurvivorsUpTo(rs, n - 1) == head + [Candidate(rs, n - 2)];
        assert GroupRects(rs) == GroupRects(p) + [c];
      }
    }
  }

  lemma {:induction false} SurvivorOrigin(rs: seq<Rect>, k: nat, c: Rect) returns (i: nat)
    requires k <= |rs| && c in SurvivorsUpTo(rs, k)
    ensures i < k && Survives(rs, i) && c == Candidate(rs, i)
  {
    if c !in SurvivorsUpTo(rs, k - 1) {
      i := k - 1;
    } else {
      i := SurvivorOrigin(rs, k - 1, c);
    }
  }

  lemma CandidateShape(rs: seq<Rect>, i: nat)
    requires i < |rs|
    ensures var c := Candidate(rs, i);
      c.y == rs[i].y && c.width == rs[i].width && c.height == rs[i].height &&
      (if MergesAt(rs, i) then c.x == rs[i - 1].x else c == rs[i])
  {
  }

  lemma {:induction false} SurvivorPresent(rs: seq<Rect>, k: nat, i: nat)
    requires i < k <= |rs| && Survives(rs, i)
    ensures Candidate(rs, i) in SurvivorsUpTo(rs, k)
  {
    if i < k - 1 {
      SurvivorPresent(rs, k - 1, i);
    }
  }

  /** Every candidate comes from one sorted rectangle and keeps its y, width
      and height: unmerged it is that rectangle exactly, merged only its x
      changes, to the previous rectangle's x. */
  lemma CandidatesKeepTheirSize(rs: seq<Rect>, c: Rect)
    requires c in GroupRects(rs)
    ensures exists i {:trigger Candidate(rs, i)} :: (0 <= i < |rs| && Survives(rs, i) && c == Candidate(rs, i) &&
                                                     c.y == rs[i].y && c.width == rs[i].width && c.height == rs[i].height &&
                                                     (if MergesAt(rs, i) then c.x == rs[i - 1].x else c == rs[i]))
  {
    assert c in SurvivorsUpTo(rs, |rs|) by {
      GroupRectsAreSurvivors(rs);
    }
    var i := SurvivorOrigin(rs, |rs|, c);
    CandidateShape(rs, i);
  }

  /** The candidate of every surviving step appears in the result. */
  lemma SurvivingCandidateEmitted(rs: seq<Rect>, i: nat)
    requires i < |rs| && Survives(rs, i)
    ensures Candidate(rs, i) in GroupRects(rs)
  {
    GroupRectsAreSurvivors(rs);
    SurvivorPresent(rs, |rs|, i);
  }

  /** The merge compares raw Java `int` values; for rectangles whose sums
      do not overflow it is exactly "the gap is at most 50", overlapping
      rectangles (a negative gap) included. */
  lemma CloseWithoutOverflow(prev: Rect, cur: Rect)
    requires NoOverflow(prev) && NoOverflow(cur)
    ensures Close(prev, cur) <==> cur.x - (prev.x + prev.width) <= DistanceThreshold
    ensures cur.x <= prev.x + prev.width ==> Close(prev, cur)
  {
  }

  /** A merged candidate keeps the current width, so when the previous
      rectangle starts further left its right edge falls short of the current
      rectangle's right edge: the candidate does not cover both blobs. */
  lemma MergedCandidateIsShifted(rs: seq<Rect>, i: nat)
    requires i < |rs| && MergesAt(rs, i) && NoOverflow(rs[i]) && NoOverflow(rs[i - 1])
    requires rs[i - 1].x < rs[i].x
    ensures Candidate(rs, i).width == rs[i].width
    ensures Candidate(rs, i).x + Candidate(rs, i).width < rs[i].x + rs[i].width
  {
  }

  /** The four-corner polygons of a list of rectangles. */
  function Quads(rs: seq<Rect>): seq<Polygon> {
    seq(|rs|, i requires 0 <= i < |rs| => Quad(rs[i]))
  }

  /** The bounding rectangles of a list of contours. */
  function BoundsOf(cs: seq<Contour>): seq<Rect> {
    seq(|cs|, i requires 0 <= i < |cs| => cs[i].bounds)
  }

  /** One more step of the loop, stated on a prefix of `rs`. */
  lemma GroupRectsStep(rs: seq<Rect>, i: nat)
    requires i < |rs|
    ensures i > 0 ==> |GroupRects(rs[..i])| >= 1
    ensures GroupRects(rs[..i + 1]) ==
      (if MergesAt(rs, i) then GroupRects(rs[..i])[..|GroupRects(rs[..i])| - 1] else GroupRects(rs[..i])) +
      [Candidate(rs, i)]
  {
    var q := rs[..i + 1];
    assert q[..i] == rs[..i];
    assert q[i] == rs[i] && (i > 0 ==> q[i - 1] == rs[i - 1]);
    assert Candidate(q, i) == Candidate(rs, i);
    assert MergesAt(q, i) == MergesAt(rs, i);
  }

  /** The candidates after one more rectangle `r`: when `r` is close to the
      last rectangle the last candidate is replaced by `r` at that
      rectangle's x, otherwise `r` is appended as it is. */
  lemma GroupSnoc(rs: seq<Rect>, r: Rect)
    ensures var g := GroupRects(rs);
      GroupRects(rs + [r]) ==
        if rs != [] && Close(rs[|rs| - 1], r) then g[..|g| - 1] + [r.(x := rs[|rs| - 1].x)] else g + [r]
  {
    var q := rs + [r];
    assert q[..|q| - 1] == rs;
  }

  lemma QuadsSnoc(rs: seq<Rect>, r: Rect)
    ensures Quads(rs + [r]) == Quads(rs) + [Quad(r)]
  {
  }

  lemma QuadsDropLast(rs: seq<Rect>)
    requires rs != []
    ensures Quads(rs)[..|rs| - 1] == Quads(rs[..|rs| - 1])
  {
  }

  /** The effect of loop iteration `i` on the emitted polygons, in the
      terms the loop computes them. */
  lemma {:induction false} LoopStep(cs: seq<Contour>, i: nat)
    requires i < |cs|
    ensures i > 0 ==> |Quads(GroupRects(BoundsOf(cs)[..i]))| >= 1
    ensures var done := Quads(GroupRects(BoundsOf(cs)[..i]));
      var rect := cs[i].bounds;
      Quads(GroupRects(BoundsOf(cs)[..i + 1])) ==
        if i > 0 && Gap(cs[i - 1].bounds, rect) <= DistanceThreshold
        then done[..|done| - 1] + [Quad(rect.(x := cs[i - 1].bounds.x))]
        else done + [Quad(rect)]
  {
    var rs := BoundsOf(cs);
    var g := GroupRects(rs[..i]);
    GroupRectsStep(rs, i);
    assert rs[i] == cs[i].bounds;
    assert i > 0 ==> rs[i - 1] == cs[i - 1].bounds;
    if MergesAt(rs, i) {
      QuadsDropLast(g);
      QuadsSnoc(g[..|g| - 1], Candidate(rs, i));
    } else {
      QuadsSnoc(g, Candidate(rs, i));
    }
  }

  /** The grouping loop: `numberPlateContours` is popped and appended as
      the loop walks the sorted contours. The remove-last never meets an
      empty list (the first clause of `LoopStep`). */
  method GroupPlateContours(characterContours: seq<Contour>) returns (numberPlateContours: seq<Polygon>)
    ensures numberPlateContours == Quads(GroupRects(BoundsOf(characterContours)))
  {
    numberPlateContours := [];
    var i := 0;
    while i < |characterContours|
      invariant 0 <= i <= |characterContours|
      invariant numberPlateContours == Quads(GroupRects(BoundsOf(characterContours)[..i]))
    {
      LoopStep(characterContours, i);
      var rect := characterContours[i].bounds;
      if i > 0 {
        var prevRect := characterContours[i - 1].bounds;
        var distance := Gap(prevRect, rect);
        if distance <= DistanceThreshold {
          numberPlateContours := numberPlateContours[..|numberPlateContours| - 1];
          rect := rect.(x := prevRect.x);
        }
      }
      numberPlateContours := numberPlateContours + [Quad(rect)];
      i := i + 1;
    }
    assert BoundsOf(characterContours)[..i] == BoundsOf(characterContours);
  }
}
