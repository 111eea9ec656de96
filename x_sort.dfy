/** Stage two of the plate detector: order the character contours from left
    to right by the x of their bounding rectangles. The library sort the
    source calls is stable; the model sorts by stable insertion, and
    `SortedStableUnique` shows that any stable sort by x has the same result. */
module XSort {
  import opened Geometry

  /** Non-decreasing x of the bounding rectangles. */
  predicate SortedByX(s: seq<Contour>) {
    forall i, j :: 0 <= i < j < |s| ==> s[i].bounds.x <= s[j].bounds.x
  }

  /** The contours of `s` whose bounding rectangle has x equal to `k`, in the
      order of `s`. A sort is stable when it leaves every such subsequence
      unchanged. */
  function WithX(s: seq<Contour>, k: int): seq<Contour>
  {
    if s == [] then []
    else WithX(s[..|s| - 1], k) + (if s[|s| - 1].bounds.x == k then [s[|s| - 1]] else [])
  }

  lemma {:induction false} WithXMember(s: seq<Contour>, k: int, c: Contour)
    requires c in WithX(s, k)
    ensures c in s && c.bounds.x == k
  {
    if c !in WithX(s[..|s| - 1], k) {
      assert c == s[|s| - 1];
    } else {
      WithXMember(s[..|s| - 1], k, c);
      assert s == s[..|s| - 1] + [s[|s| - 1]];
    }
  }

  /** Places `c` right after the last element of `s` whose x does not exceed
      c's, before the suffix whose x values all exceed it: one step of stable
      insertion. */
  function Insert(c: Contour, s: seq<Contour>): seq<Contour>
  {
    if s == [] || s[|s| - 1].bounds.x <= c.bounds.x then s + [c]
    else Insert(c, s[..|s| - 1]) + [s[|s| - 1]]
  }

  lemma {:induction false} InsertPermutes(c: Contour, s: seq<Contour>)
    ensures multiset(Insert(c, s)) == multiset(s) + multiset{c}
  {
    if s != [] && s[|s| - 1].bounds.x > c.bounds.x {
      InsertPermutes(c, s[..|s| - 1]);
      assert s == s[..|s| - 1] + [s[|s| - 1]];
    }
  }

  /** Stable insertion sort by x. Its result is a permutation of its input. */
  function InsertionSort(s: seq<Contour>): (r: seq<Contour>)
    ensures multiset(r) == multiset(s)
    ensures |r| == |s|
  {
    if s == [] then []
    else
      var init := s[..|s| - 1];
      var r := Insert(s[|s| - 1], InsertionSort(init));
      InsertPermutes(s[|s| - 1], InsertionSort(init));
      assert s == init + [s[|s| - 1]];
      assert |multiset(r)| == |multiset(s)|;
      r
  }

  lemma SortedLast(s: seq<Contour>, c: Contour)
    requires SortedByX(s) && c in s
    ensures c.bounds.x <= s[|s| - 1].bounds.x
  {
    var i :| 0 <= i < |s| && s[i] == c;
    assert i == |s| - 1 || s[i].bounds.x <= s[|s| - 1].bounds.x;
  }

  lemma {:induction false} InsertSorted(c: Contour, s: seq<Contour>)
    requires SortedByX(s)
    ensures SortedByX(Insert(c, s))
  {
    if s == [] || s[|s| - 1].bounds.x <= c.bounds.x {
      forall i | 0 <= i < |s|
        ensures s[i].bounds.x <= c.bounds.x
      {
        SortedLast(s, s[i]);
      }
    } else {
      var l := s[|s| - 1];
      var init := s[..|s| - 1];
      assert SortedByX(init);
      InsertSorted(c, init);
      var r := Insert(c, init);
      forall i | 0 <= i < |r|
        ensures r[i].bounds.x <= l.bounds.x
      {
        InsertPermutes(c, init);
        assert r[i] in multiset(init) + multiset{c};
        if r[i] != c {
          assert r[i] in init;
          assert r[i] in s;
          SortedLast(s, r[i]);
        }
      }
      assert Insert(c, s) == r + [l];
    }
  }

  /** The sort's result is ordered by x. */
  lemma {:induction false} InsertionSortSorted(s: seq<Contour>)
    ensures SortedByX(InsertionSort(s))
  {
    if s != [] {
      InsertionSortSorted(s[..|s| - 1]);
      InsertSorted(s[|s| - 1], InsertionSort(s[..|s| - 1]));
    }
  }

  lemma WithXSnoc(s: seq<Contour>, c: Contour, k: int)
    ensures WithX(s + [c], k) == WithX(s, k) + (if c.bounds.x == k then [c] else [])
    ensures c.bounds.x != k ==> WithX(s + [c], k) == WithX(s, k)
  {
    assert (s + [c])[..|s|] == s;
  }

  lemma {:induction false} InsertWithX(c: Contour, s: seq<Contour>, k: int)
    ensures WithX(Insert(c, s), k) == WithX(s, k) + (if c.bounds.x == k then [c] else [])
  {
    if s == [] || s[|s| - 1].bounds.x <= c.bounds.x {
      WithXSnoc(s, c, k);
    } else {
      var l := s[|s| - 1];
      var init := s[..|s| - 1];
      InsertWithX(c, init, k);
      WithXSnoc(Insert(c, init), l, k);
      assert Insert(c, s) == Insert(c, init) + [l];
    }
  }

  /** The sort is stable: for every x, the contours with that x keep their
      input order. */
  lemma {:induction false} InsertionSortStable(s: seq<Contour>, k: int)
    ensures WithX(InsertionSort(s), k) == WithX(s, k)
  {
    if s != [] {
      InsertionSortStable(s[..|s| - 1], k);
      InsertWithX(s[|s| - 1], InsertionSort(s[..|s| - 1]), k);
    }
  }

  lemma LastHasItsX(s: seq<Contour>)
    requires s != []
    ensures WithX(s, s[|s| - 1].bounds.x) != []
  {
  }

  lemma SplitLast(z: seq<Contour>, x: seq<Contour>, a: Contour, y: seq<Contour>, b: Contour)
    requires z == x + [a] && z == y + [b]
    ensures x == y && a == b
  {
    assert a == z[|z| - 1] == b;
    assert x == z[..|z| - 1] == y;
  }

  /** The last x of a sorted sequence is at least the last x of any
      sequence holding, in that x, the same contours. */
  lemma LastXBound(a: seq<Contour>, b: seq<Contour>)
    requires SortedByX(a) && b != []
    requires WithX(a, b[|b| - 1].bounds.x) == WithX(b, b[|b| - 1].bounds.x)
    ensures a != [] && b[|b| - 1].bounds.x <= a[|a| - 1].bounds.x
  {
    var m := b[|b| - 1].bounds.x;
    LastHasItsX(b);
    var e := WithX(a, m)[0];
    WithXMember(a, m, e);
    SortedLast(a, e);
  }

  /** Two sequences ending in the same x and agreeing on every per-x
      subsequence end in the same contour, and their prefixes agree on every
      per-x subsequence too. */
  lemma DropSameLast(ia: seq<Contour>, la: Contour, ib: seq<Contour>, lb: Contour)
    requires la.bounds.x == lb.bounds.x
    requires forall k :: WithX(ia + [la], k) == WithX(ib + [lb], k)
    ensures la == lb
    ensures forall k :: WithX(ia, k) == WithX(ib, k)
  {
    var m := la.bounds.x;
    WithXSnoc(ia, la, m);
    WithXSnoc(ib, lb, m);
    SplitLast(WithX(ia + [la], m), WithX(ia, m), la, WithX(ib, m), lb);
    assert WithX(ia, m) == WithX(ib, m);
    forall k
      ensures WithX(ia, k) == WithX(ib, k)
    {
      if k != m {
        WithXSnoc(ia, la, k);
        WithXSnoc(ib, lb, k);
        assert WithX(ia + [la], k) == WithX(ib + [lb], k);
      }
    }
  }

  /** A sequence sorted by x is determined by its per-x subsequences: two
      sorted sequences agreeing on all of them are equal. So every stable
      sort by x, whatever its algorithm, yields `InsertionSort`'s result. */
  lemma {:induction false} SortedStableUnique(a: seq<Contour>, b: seq<Contour>)
    requires SortedByX(a) && SortedByX(b)
    requires forall k :: WithX(a, k) == WithX(b, k)
    ensures a == b
    decreases |a|
  {
    if a == [] || b == [] {
      if a != [] {
        LastHasItsX(a);
      } else if b != [] {
        LastHasItsX(b);
      }
    } else {
      var la, lb := a[|a| - 1], b[|b| - 1];
      var ia, ib := a[..|a| - 1], b[..|b| - 1];
      LastXBound(a, b);
      LastXBound(b, a);
      assert a == ia + [la] && b == ib + [lb];
      DropSameLast(ia, la, ib, lb);
      assert SortedByX(ia) && SortedByX(ib);
      SortedStableUnique(ia, ib);
    }
  }

  /** `Insert` places `c` at position `j` when `j` is just after the last
      element whose x does not exceed c's. */
  lemma {:induction false} InsertAtPosition(c: Contour, s: seq<Contour>, j: nat)
    requires j <= |s| && (j == 0 || s[j - 1].bounds.x <= c.bounds.x)
    requires forall k :: j <= k < |s| ==> s[k].bounds.x > c.bounds.x
    ensures Insert(c, s) == s[..j] + [c] + s[j..]
    decreases |s|
  {
    if j < |s| {
      var init := s[..|s| - 1];
      InsertAtPosition(c, init, j);
      assert init[..j] == s[..j];
      assert s[j..] == init[j..] + [s[|s| - 1]];
    }
  }

  /** One pass of the insertion sort: shifts every element of `a[..i]`
      whose x exceeds that of `a[i]` one place right and stores `a[i]` in the
      gap. */
  method InsertAt(a: array<Contour>, i: nat)
    requires i < a.Length
    modifies a
    ensures a[..i + 1] == Insert(old(a[i]), old(a[..i]))
    ensures a[i + 1..] == old(a[i + 1..])
  {
    ghost var sorted := a[..i];
    var key := a[i];
    var j := i;
    while j > 0 && a[j - 1].bounds.x > key.bounds.x
      invariant 0 <= j <= i
      invariant forall k :: 0 <= k < j ==> a[k] == sorted[k]
      invariant forall k :: j < k <= i ==> a[k] == sorted[k - 1]
      invariant forall k :: i < k < a.Length ==> a[k] == old(a[k])
      invariant forall k :: j <= k < i ==> sorted[k].bounds.x > key.bounds.x
    {
      a[j] := a[j - 1];
      j := j - 1;
    }
    a[j] := key;
    InsertAtPosition(key, sorted, j);
    ShiftedIsInsert(a[..i + 1], sorted, key, j);
  }

  /** The array contents after the shifting loop: `sorted` with `key`
      placed at position `j`. */
  lemma ShiftedIsInsert(r: seq<Contour>, sorted: seq<Contour>, key: Contour, j: nat)
    requires j <= |sorted| && |r| == |sorted| + 1 && r[j] == key
    requires forall k :: 0 <= k < j ==> r[k] == sorted[k]
    requires forall k :: j < k < |r| ==> r[k] == sorted[k - 1]
    ensures r == sorted[..j] + [key] + sorted[j..]
  {
    var q := sorted[..j] + [key] + sorted[j..];
    forall k | 0 <= k < |r|
      ensures r[k] == q[k]
    {
      if k < j {
        assert q[k] == sorted[k];
      } else if k > j {
        assert q[k] == sorted[k - 1];
      }
    }
  }

  /** One outer pass of the sort, on values: with the first `i` elements
      sorted, inserting element `i` sorts the first `i + 1`. */
  lemma SortStep(s: seq<Contour>, i: nat, b: seq<Contour>)
    requires i < |s| && b == InsertionSort(s[..i]) + s[i..]
    ensures Insert(b[i], b[..i]) + b[i + 1..] == InsertionSort(s[..i + 1]) + s[i + 1..]
  {
    assert b[..i] == InsertionSort(s[..i]);
    assert b[i] == s[i];
    assert b[i + 1..] == s[i + 1..];
    assert s[..i + 1][..i] == s[..i];
  }

  lemma SplitAt(s: seq<Contour>, i: nat)
    requires i <= |s|
    ensures s == s[..i] + s[i..]
  {
  }

  /** `Collections.sort(characterContours, byX)`: sorts the list in place;
      modelled by stable insertion, one `InsertAt` pass per element. */
  method SortContoursByX(a: array<Contour>)
    modifies a
    ensures a[..] == InsertionSort(old(a[..]))
    ensures SortedByX(a[..]) && multiset(a[..]) == multiset(old(a[..]))
  {
    ghost var s := a[..];
    var i := 0;
    while i < a.Length
      invariant 0 <= i <= a.Length && |s| == a.Length
      invariant a[..] == InsertionSort(s[..i]) + s[i..]
    {
      ghost var before := a[..];
      SortStep(s, i, before);
      InsertAt(a, i);
      SplitAt(a[..], i + 1);
      i := i + 1;
    }
    assert s[..i] == s && s[i..] == [];
    InsertionSortSorted(s);
  }
}
