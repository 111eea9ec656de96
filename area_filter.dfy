/** Stage one of the plate detector: keep the "character-like" contours,
    those whose enclosed area lies strictly between 300 and 1000 pixels. */
module AreaFilter {
  import opened Geometry

  const MinArea: int := 300
  const MaxArea: int := 1000

  /** `area > minArea && area < maxArea`, the int bounds promoted to double;
      both comparisons are strict. */
  predicate IsCharacterSized(c: Contour) {
    c.area > MinArea as real && c.area < MaxArea as real
  }

  /** The contours that pass the area test, in their original order. */
  function CharacterContours(cs: seq<Contour>): (kept: seq<Contour>)
    ensures |kept| <= |cs|
    ensures forall c :: c in kept ==> c in cs && IsCharacterSized(c)
  {
    if cs == [] then []
    else (if IsCharacterSized(cs[0]) then [cs[0]] else []) + CharacterContours(cs[1..])
  }

  /** Every character-sized contour of the input is kept. */
  lemma {:induction false} CharacterContoursComplete(cs: seq<Contour>, c: Contour)
    requires c in cs && IsCharacterSized(c)
    ensures c in CharacterContours(cs)
  {
    if cs[0] != c {
      CharacterContoursComplete(cs[1..], c);
    }
  }

  /** A contour is kept exactly as many times as it occurs in the input when
      it is character-sized, and never otherwise. */
  lemma {:induction false} CharacterContoursMultiplicity(cs: seq<Contour>, c: Contour)
    ensures multiset(CharacterContours(cs))[c] == if IsCharacterSized(c) then multiset(cs)[c] else 0
  {
    if cs != [] {
      CharacterContoursMultiplicity(cs[1..], c);
      assert cs == [cs[0]] + cs[1..];
    }
  }

  /** Filtering distributes over concatenation: the relative order of the
      kept contours is the input order. */
  lemma {:induction false} CharacterContoursAppend(a: seq<Contour>, b: seq<Contour>)
    ensures CharacterContours(a + b) == CharacterContours(a) + CharacterContours(b)
  {
    if a == [] {
      assert a + b == b;
    } else {
      assert (a + b)[0] == a[0];
      assert (a + b)[1..] == a[1..] + b;
      CharacterContoursAppend(a[1..], b);
    }
  }

  /** Nothing is kept exactly when no contour is character-sized. */
  lemma CharacterContoursEmpty(cs: seq<Contour>)
    ensures CharacterContours(cs) == [] <==> forall c :: c in cs ==> !IsCharacterSized(c)
  {
    if CharacterContours(cs) == [] {
      forall c | c in cs
        ensures !IsCharacterSized(c)
      {
        if IsCharacterSized(c) {
          CharacterContoursComplete(cs, c);
        }
      }
    }
  }

  /** The filter loop of the detector: append every contour that passes the
      area test to `characterContours`. */
  method FilterCharacterContours(contours: seq<Contour>) returns (characterContours: seq<Contour>)
    ensures characterContours == CharacterContours(contours)
  {
    characterContours := [];
    var i := 0;
    while i < |contours|
      invariant 0 <= i <= |contours|
      invariant characterContours == CharacterContours(contours[..i])
    {
      var contour := contours[i];
      CharacterContoursAppend(contours[..i], [contour]);
      assert contours[..i + 1] == contours[..i] + [contour];
      if contour.area > MinArea as real && contour.area < MaxArea as real {
        characterContours := characterContours + [contour];
      }
      i := i + 1;
    }
    assert contours[..i] == contours;
  }
}
