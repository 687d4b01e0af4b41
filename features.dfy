/** The scale features of src/scales.ts that the user interface reports: two consecutive half
    steps anywhere around the circle (`hasDoubleHalfSteps`) and an augmented second, that is a
    step of three semitones (`hasAug2nd`). */
module Features {
  import opened Util
  import opened FpArray

  /** `hasDoubleHalfSteps`: some position of `zip(scale, rotate(scale, 1))` pairs two half
      steps. */
  predicate HasDoubleHalfSteps(scale: Steps)
  {
    var z := Zip(scale, Rotate(scale, 1));
    exists i :: 0 <= i < |z| && z[i].0 == 1 && z[i].1 == 1
  }

  /** The half step at position `i` is followed, cyclically, by another half step. */
  ghost predicate DoubleHalfAt(scale: Steps, i: nat)
  {
    i < |scale| && scale[i] == 1 && scale[Wrap(i + 1, |scale|)] == 1
  }

  /** Two half steps in a row, counting the step after the last one as the first one. */
  lemma DoubleHalfStepsIff(scale: Steps)
    ensures HasDoubleHalfSteps(scale) <==> exists i: nat :: DoubleHalfAt(scale, i)
  {
    var r := Rotate(scale, 1);
    var z := Zip(scale, r);
    if HasDoubleHalfSteps(scale) {
      var i :| 0 <= i < |z| && z[i].0 == 1 && z[i].1 == 1;
      assert z[i] == (scale[i], r[i]) && r[i] == scale[Wrap(i + 1, |scale|)];
      assert DoubleHalfAt(scale, i);
    }
    if exists i: nat :: DoubleHalfAt(scale, i) {
      var i: nat :| DoubleHalfAt(scale, i);
      assert z[i] == (scale[i], r[i]) && r[i] == scale[Wrap(i + 1, |scale|)];
    }
  }

  /** `hasAug2nd`: some step is 3. */
  predicate HasAug2nd(scale: Steps)
  {
    exists i :: 0 <= i < |scale| && scale[i] == 3
  }

  lemma Aug2ndIff(scale: Steps)
    ensures HasAug2nd(scale) <==> 3 in scale
  {
    if 3 in scale {
      var i :| 0 <= i < |scale| && scale[i] == 3;
    }
  }

  /** Both features depend only on the scale up to rotation: every mode of a scale has them
      exactly when the scale does. */
  lemma FeaturesUnderRotation(scale: Steps, k: int)
    ensures HasDoubleHalfSteps(Rotate(scale, k)) <==> HasDoubleHalfSteps(scale)
    ensures HasAug2nd(Rotate(scale, k)) <==> HasAug2nd(scale)
  {
    var r := Rotate(scale, k);
    var n := |scale|;
    DoubleHalfStepsIff(scale);
    DoubleHalfStepsIff(r);
    if exists i: nat :: DoubleHalfAt(scale, i) {
      var i: nat :| DoubleHalfAt(scale, i);
      var j: nat := Wrap(i - k, n);
      DoubleHalfShift(scale, k, i, j);
      assert DoubleHalfAt(r, j);
    }
    if exists j: nat :: DoubleHalfAt(r, j) {
      var j: nat :| DoubleHalfAt(r, j);
      var i: nat := Wrap(j + k, n);
      DoubleHalfBack(scale, k, j, i);
      assert DoubleHalfAt(scale, i);
    }
    Aug2ndIff(scale);
    Aug2ndIff(r);
    RotateMultiset(scale, k);
    assert 3 in scale <==> 3 in multiset(scale);
    assert 3 in r <==> 3 in multiset(r);
  }

  /** Position `j` of `rotate(scale, k)` and its cyclic successor read the cyclic index of
      `j + k` and its cyclic successor in `scale`. */
  lemma RotatedPair(scale: Steps, k: int, j: nat)
    requires j < |scale|
    ensures Rotate(scale, k)[j] == scale[Wrap(j + k, |scale|)]
    ensures Rotate(scale, k)[Wrap(j + 1, |scale|)] == scale[Wrap(Wrap(j + k, |scale|) + 1, |scale|)]
  {
    var n := |scale|;
    WrapAdd(j + k, 1, n);
    WrapAdd(j + 1, k, n);
    assert j + k + 1 == j + 1 + k;
  }

  lemma DoubleHalfBack(scale: Steps, k: int, j: nat, i: nat)
    requires DoubleHalfAt(Rotate(scale, k), j) && i == Wrap(j + k, |scale|)
    ensures DoubleHalfAt(scale, i)
  {
    RotatedPair(scale, k, j);
  }

  lemma DoubleHalfShift(scale: Steps, k: int, i: nat, j: nat)
    requires DoubleHalfAt(scale, i) && j == Wrap(i - k, |scale|)
    ensures DoubleHalfAt(Rotate(scale, k), j)
  {
    var n := |scale|;
    RotatedPair(scale, k, j);
    WrapAdd(i - k, k, n);
    assert i - k + k == i;
    assert Wrap(i, n) == i;
  }

  /** A scale with its half steps apart, also across the end: no double half step. */
  lemma NoDoubleHalfExample()
    ensures !HasDoubleHalfSteps([2, 2, 1, 2, 2, 1, 2])
  {
    var s := [2, 2, 1, 2, 2, 1, 2];
    var r := Rotate(s, 1);
    assert r == [2, 1, 2, 2, 1, 2, 2] by {
      RotateSlices(s, 1);
      ModIsEuclidean(1, 7);
    }
    var z := Zip(s, r);
    forall i | 0 <= i < |z| ensures !(z[i].0 == 1 && z[i].1 == 1) {
      assert z[i] == (s[i], r[i]);
      assert i == 0 || i == 1 || i == 2 || i == 3 || i == 4 || i == 5 || i == 6;
    }
  }

  /** Two half steps at the start: a double half step. */
  lemma DoubleHalfExample()
    ensures HasDoubleHalfSteps([1, 1, 2, 2, 2, 2])
  {
    var t := [1, 1, 2, 2, 2, 2];
    var r := Rotate(t, 1);
    assert r == [1, 2, 2, 2, 2, 1] by {
      RotateSlices(t, 1);
      ModIsEuclidean(1, 6);
    }
    assert Zip(t, r)[0] == (1, 1);
  }

  /** A step of 3 makes an augmented second; a scale of 1s and 2s has none. */
  lemma Aug2ndExamples()
    ensures HasAug2nd([1, 3, 1, 1, 2, 3, 1])
    ensures !HasAug2nd([2, 2, 1, 2, 2, 1, 2])
  {
    var s := [2, 2, 1, 2, 2, 1, 2];
    assert [1, 3, 1, 1, 2, 3, 1][1] == 3;
    forall i | 0 <= i < |s| ensures s[i] != 3 {
      assert i == 0 || i == 1 || i == 2 || i == 3 || i == 4 || i == 5 || i == 6;
    }
  }
}
