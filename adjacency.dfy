/** The adjacency search of src/scales.ts (`arrayEqual`, `isAdjacentHelper`, `isAdjacent`):
    it walks every cyclic alignment of two step sequences and, where the aligned steps agree,
    tests three local edits of the two-step window that follows. */
module Adjacency {
  import opened Util
  import opened FpArray

  /** A JavaScript value read out of a step array: a number, `undefined` for a read past the
      end, or `NaN` for arithmetic on `undefined`. */
  datatype JsValue = Num(n: int) | Undefined | NaN

  /** `s[i]` in JavaScript. */
  function At(s: Steps, i: nat): JsValue
  {
    if i < |s| then Num(s[i]) else Undefined
  }

  /** `x + y` in JavaScript: `NaN` unless both are numbers. */
  function Plus(x: JsValue, y: JsValue): JsValue
  {
    if x.Num? && y.Num? then Num(x.n + y.n) else NaN
  }

  /** `x === y` in JavaScript: `NaN` equals nothing, `undefined` equals only itself. */
  predicate StrictEq(x: JsValue, y: JsValue)
  {
    match (x, y)
    case (Num(a), Num(b)) => a == b
    case (Undefined, Undefined) => true
    case _ => false
  }

  /** What the window reads rely on: a read past the end gives `undefined`, a sum is a number
      only when both operands are, and `===` is equality except that `NaN` equals nothing. */
  lemma JsValueLaws(s: Steps, i: nat, x: JsValue, y: JsValue)
    ensures At(s, i) == Undefined <==> i >= |s|
    ensures i < |s| ==> At(s, i) == Num(s[i])
    ensures Plus(x, y).Num? <==> x.Num? && y.Num?
    ensures Plus(x, y).Num? ==> Plus(x, y).n == x.n + y.n
    ensures StrictEq(x, y) <==> x == y && x != NaN
  {
  }

  function Lift(s: Steps): seq<JsValue>
  {
    Map((k: int) => Num(k), s)
  }

  /** The rest `r` of `const [r1, r2, ...r] = s`. */
  function Rest(s: Steps): Steps
  {
    if |s| <= 2 then [] else s[2..]
  }

  /** `arrayEqual` (src/scales.ts:89-91): every pair of `zip(a, b)` is strictly equal. */
  predicate ArrayEqual(a: seq<JsValue>, b: seq<JsValue>)
  {
    var z := Zip(a, b);
    forall i :: 0 <= i < |z| ==> StrictEq(z[i].0, z[i].1)
  }

  /** Since `zip` stops at the shorter list, `arrayEqual` on numbers holds exactly when one
      list is a prefix of the other. */
  lemma ArrayEqualIffPrefix(a: Steps, b: Steps)
    ensures ArrayEqual(Lift(a), Lift(b)) <==> a <= b || b <= a
  {
    var z := Zip(Lift(a), Lift(b));
    if ArrayEqual(Lift(a), Lift(b)) {
      if |a| <= |b| {
        forall i | 0 <= i < |a| ensures a[i] == b[i] {
          assert StrictEq(z[i].0, z[i].1);
        }
      } else {
        forall i | 0 <= i < |b| ensures a[i] == b[i] {
          assert StrictEq(z[i].0, z[i].1);
        }
      }
    }
  }

  /** Whether the window after one alignment makes the two views adjacent (src/scales.ts:105-114),
      given the three-views `rotated1` and `rotated2`. The three `if`s overwrite one another,
      so the last guard that holds decides; if none holds, `isAdjacent` stays `undefined`,
      which is falsy. */
  predicate AdjacentAt(rotated1: Steps, rotated2: Steps)
  {
    var r11, r12, r21, r22 := At(rotated1, 0), At(rotated1, 1), At(rotated2, 0), At(rotated2, 1);
    var r1, r2 := Lift(Rest(rotated1)), Lift(Rest(rotated2));
    if StrictEq(Plus(r21, r22), r11) then ArrayEqual(r2, [r12] + r1)                // merge
    else if StrictEq(Plus(r11, r12), r21) then ArrayEqual(r1, [r22] + r2)           // split
    else if !StrictEq(r11, r12) && StrictEq(Plus(r11, r12), Plus(r21, r22)) then
      ArrayEqual(r1, r2)                                                          // sharpened/flattened
    else false
  }

  /** The decision rule on views of length at least 2, in integer terms: the result is that of
      the last of resplit, split and merge whose guard holds, each a prefix test. */
  lemma DecisionRule(r1: Steps, r2: Steps)
    requires |r1| >= 2 && |r2| >= 2
    ensures AdjacentAt(r1, r2) <==>
      if r2[0] + r2[1] == r1[0] then
        var x, y := r2[2..], [r1[1]] + r1[2..]; x <= y || y <= x
      else if r1[0] + r1[1] == r2[0] then
        var x, y := r1[2..], [r2[1]] + r2[2..]; x <= y || y <= x
      else if r1[0] != r1[1] && r1[0] + r1[1] == r2[0] + r2[1] then
        r1[2..] <= r2[2..] || r2[2..] <= r1[2..]
      else false
  {
    if r2[0] + r2[1] == r1[0] {
      MergeRule(r1, r2);
    } else if r1[0] + r1[1] == r2[0] {
      SplitRule(r1, r2);
    } else {
      ResplitRule(r1, r2);
    }
  }

  /** The merge guard `r21 + r22 === r11` holds: the rest of the second view must line up with
      the first view after its head. */
  lemma MergeRule(r1: Steps, r2: Steps)
    requires |r1| >= 2 && |r2| >= 2 && r2[0] + r2[1] == r1[0]
    ensures AdjacentAt(r1, r2) <==> var x, y := r2[2..], [r1[1]] + r1[2..]; x <= y || y <= x
  {
    assert Rest(r1) == r1[2..] && Rest(r2) == r2[2..];
    assert [At(r1, 1)] + Lift(r1[2..]) == Lift([r1[1]] + r1[2..]);
    ArrayEqualIffPrefix(r2[2..], [r1[1]] + r1[2..]);
  }

  /** The split guard `r11 + r12 === r21` holds and the merge guard does not. */
  lemma SplitRule(r1: Steps, r2: Steps)
    requires |r1| >= 2 && |r2| >= 2 && r2[0] + r2[1] != r1[0] && r1[0] + r1[1] == r2[0]
    ensures AdjacentAt(r1, r2) <==> var x, y := r1[2..], [r2[1]] + r2[2..]; x <= y || y <= x
  {
    assert Rest(r1) == r1[2..] && Rest(r2) == r2[2..];
    assert [At(r2, 1)] + Lift(r2[2..]) == Lift([r2[1]] + r2[2..]);
    ArrayEqualIffPrefix(r1[2..], [r2[1]] + r2[2..]);
  }

  /** Neither the merge nor the split guard holds: only the sharpened/flattened test is left. */
  lemma ResplitRule(r1: Steps, r2: Steps)
    requires |r1| >= 2 && |r2| >= 2 && r2[0] + r2[1] != r1[0] && r1[0] + r1[1] != r2[0]
    ensures AdjacentAt(r1, r2) <==>
      r1[0] != r1[1] && r1[0] + r1[1] == r2[0] + r2[1] && (r1[2..] <= r2[2..] || r2[2..] <= r1[2..])
  {
    assert Rest(r1) == r1[2..] && Rest(r2) == r2[2..];
    ArrayEqualIffPrefix(r1[2..], r2[2..]);
  }

  /** The alignment invariant of the search: `check` is the start of `rotated` turned back by
      one, that is its last element followed by its first |check| - 1 elements. It is what
      makes the assertions of src/scales.ts:102-103 hold on every call. */
  ghost predicate Aligned(check: Steps, rotated: Steps)
  {
    |check| <= |rotated| && (check != [] ==> check == [rotated[|rotated| - 1]] + rotated[..|check| - 1])
  }

  lemma AlignedStep(check: Steps, rotated: Steps)
    requires Aligned(check, rotated) && check != []
    ensures check[0] == rotated[|rotated| - 1]
    ensures Aligned(check[1..], Rotate(rotated, 1))
  {
    var r := Rotate(rotated, 1);
    var n := |rotated|;
    if |check| > 1 {
      forall i | 0 <= i < |check| - 1 ensures check[1..][i] == ([r[n - 1]] + r[..|check| - 2])[i] {
        if i == 0 {
          assert Wrap(0, n) == 0;
          assert Wrap(n - 1 + 1, n) == 0;
        } else {
          assert Wrap(i - 1 + 1, n) == i;
          assert r[i - 1] == rotated[i];
        }
      }
    }
  }

  /** `isAdjacentHelper` (src/scales.ts:93-117). The measure shows it makes at most
      min(|check1|, |check2|) recursive calls. */
  predicate IsAdjacentHelper(check1: Steps, check2: Steps, rotated1: Steps, rotated2: Steps)
    requires Aligned(check1, rotated1) && Aligned(check2, rotated2)
    decreases if |check1| < |check2| then |check1| else |check2|
  {
    if |check1| == 0 || |check2| == 0 then false
    else
      AlignedStep(check1, rotated1);
      AlignedStep(check2, rotated2);
      assert check1[0] == rotated1[|rotated1| - 1];
      assert check2[0] == rotated2[|rotated2| - 1];
      (check1[0] == check2[0] && AdjacentAt(rotated1, rotated2))
      || IsAdjacentHelper(check1[1..], check2[1..], Rotate(rotated1, 1), Rotate(rotated2, 1))
  }

  /** Entering from `isAdjacent` establishes the alignment invariant. */
  lemma EntryAligned(s: Steps)
    ensures Aligned(s, Rotate(s, 1))
  {
    if s != [] {
      var n := |s|;
      var r := Rotate(s, 1);
      forall i | 0 <= i < n ensures s[i] == ([r[n - 1]] + r[..n - 1])[i] {
        if i == 0 {
          assert Wrap(0, n) == 0;
          assert Wrap(n - 1 + 1, n) == 0;
        } else {
          assert Wrap(i - 1 + 1, n) == i;
        }
      }
    }
  }

  /** `isAdjacent` (src/scales.ts:119-121). */
  predicate IsAdjacent(scale1: Steps, scale2: Steps)
  {
    EntryAligned(scale1);
    EntryAligned(scale2);
    IsAdjacentHelper(scale1, scale2, Rotate(scale1, 1), Rotate(scale2, 1))
  }

  /** After k steps from `isAdjacent`, the helper is at `check = s[k..]` and
      `rotated = rotate(s, k + 1)`, where the invariant (and so the assertions) still hold. */
  lemma {:induction false} TraceAligned(s: Steps, k: nat)
    requires k <= |s|
    ensures Aligned(s[k..], Rotate(s, k + 1))
  {
    if k == 0 {
      EntryAligned(s);
    } else {
      TraceAligned(s, k - 1);
      AlignedStep(s[k - 1..], Rotate(s, k));
      RotateCompose(s, k, 1);
      assert s[k - 1..][1..] == s[k..];
    }
  }

  /** The view `rotated` after j recursive calls of the helper: turned by one, j times. */
  ghost function Turned(rotated: Steps, j: nat): Steps
    decreases j
  {
    if j == 0 then rotated else Turned(Rotate(rotated, 1), j - 1)
  }

  /** Turning by one j times is turning by j. */
  lemma {:induction false} TurnedIsRotate(rotated: Steps, j: nat)
    ensures Turned(rotated, j) == Rotate(rotated, j)
    decreases j
  {
    if j == 0 {
      RotateZero(rotated);
    } else {
      TurnedIsRotate(Rotate(rotated, 1), j - 1);
      RotateComposeTo(rotated, 1, j - 1, j);
    }
  }

  /** Alignment j of the search is a hit: the heads agree and the window of the views after j
      recursive calls passes the local test. */
  ghost predicate HitAt(check1: Steps, check2: Steps, rotated1: Steps, rotated2: Steps, j: nat)
  {
    j < |check1| && j < |check2| && check1[j] == check2[j]
    && AdjacentAt(Turned(rotated1, j), Turned(rotated2, j))
  }

  lemma HitShift(check1: Steps, check2: Steps, rotated1: Steps, rotated2: Steps, j: nat, next: nat)
    requires check1 != [] && check2 != [] && next == j + 1
    ensures HitAt(check1[1..], check2[1..], Rotate(rotated1, 1), Rotate(rotated2, 1), j)
        == HitAt(check1, check2, rotated1, rotated2, next)
  {
    assert Turned(rotated1, next) == Turned(Rotate(rotated1, 1), j);
    assert Turned(rotated2, next) == Turned(Rotate(rotated2, 1), j);
  }

  /** The helper's answer: some alignment j, within both check lists, that is a hit. In
      particular it is false once either check list is empty. */
  lemma {:induction false} HelperIff(check1: Steps, check2: Steps, rotated1: Steps, rotated2: Steps)
    requires Aligned(check1, rotated1) && Aligned(check2, rotated2)
    ensures IsAdjacentHelper(check1, check2, rotated1, rotated2) <==>
      exists j: nat :: HitAt(check1, check2, rotated1, rotated2, j)
    decreases |check1|
  {
    if |check1| > 0 && |check2| > 0 {
      AlignedStep(check1, rotated1);
      AlignedStep(check2, rotated2);
      var t1, t2, v1, v2 := check1[1..], check2[1..], Rotate(rotated1, 1), Rotate(rotated2, 1);
      HelperIff(t1, t2, v1, v2);
      var here := check1[0] == check2[0] && AdjacentAt(rotated1, rotated2);
      assert HitAt(check1, check2, rotated1, rotated2, 0) <==> here;
      assert IsAdjacentHelper(check1, check2, rotated1, rotated2) <==>
        here || IsAdjacentHelper(t1, t2, v1, v2);
      if IsAdjacentHelper(t1, t2, v1, v2) {
        var j: nat :| HitAt(t1, t2, v1, v2, j);
        HitShift(check1, check2, rotated1, rotated2, j, j + 1);
      }
      if exists j: nat :: HitAt(check1, check2, rotated1, rotated2, j) {
        var j: nat :| HitAt(check1, check2, rotated1, rotated2, j);
        if j > 0 {
          HitShift(check1, check2, rotated1, rotated2, j - 1, j);
        }
      }
    }
  }

  /** Position k is a match for `isAdjacent(s1, s2)`: the steps at k agree and the windows of
      `rotate(s1, k + 1)` and `rotate(s2, k + 1)` pass the local test. */
  ghost predicate MatchAt(s1: Steps, s2: Steps, k: nat)
  {
    k < |s1| && k < |s2| && s1[k] == s2[k] && AdjacentAt(Rotate(s1, k + 1), Rotate(s2, k + 1))
  }

  lemma HitIsMatch(s1: Steps, s2: Steps, k: nat)
    ensures HitAt(s1, s2, Rotate(s1, 1), Rotate(s2, 1), k) == MatchAt(s1, s2, k)
  {
    TurnedIsRotate(Rotate(s1, 1), k);
    TurnedIsRotate(Rotate(s2, 1), k);
    RotateComposeTo(s1, 1, k, k + 1);
    RotateComposeTo(s2, 1, k, k + 1);
  }

  /** `isAdjacent(s1, s2)` holds exactly when some position below both lengths is a match. */
  lemma IsAdjacentIff(s1: Steps, s2: Steps)
    ensures IsAdjacent(s1, s2) <==> exists k: nat :: MatchAt(s1, s2, k)
  {
    EntryAligned(s1);
    EntryAligned(s2);
    HelperIff(s1, s2, Rotate(s1, 1), Rotate(s2, 1));
    if IsAdjacent(s1, s2) {
      var k: nat :| HitAt(s1, s2, Rotate(s1, 1), Rotate(s2, 1), k);
      HitIsMatch(s1, s2, k);
    }
    if exists k: nat :: MatchAt(s1, s2, k) {
      var k: nat :| MatchAt(s1, s2, k);
      HitIsMatch(s1, s2, k);
    }
  }

  /** Every step is positive. */
  predicate Positive(s: Steps)
  {
    forall i :: 0 <= i < |s| ==> s[i] > 0
  }

  /** Turning `u + v` by |u| brings `v` to the front. */
  lemma RotateAppend(u: Steps, v: Steps)
    requires |u| >= 1 && |v| >= 1
    ensures Rotate(u + v, |u|) == v + u
  {
    var n := |u + v|;
    RotateSlices(u + v, |u|);
    ModIsEuclidean(|u|, n);
    DivModUnique(|u|, n, 0, |u|);
    assert (u + v)[|u|..] == v && (u + v)[..|u|] == u;
  }

  /** The match found at the step just before an edited window. */
  lemma MatchIntro(s1: Steps, s2: Steps, k: nat, start: int, r1: Steps, r2: Steps)
    requires k < |s1| && k < |s2| && s1[k] == s2[k] && start == k + 1
    requires r1 == Rotate(s1, start) && r2 == Rotate(s2, start) && AdjacentAt(r1, r2)
    ensures IsAdjacent(s1, s2)
  {
    assert MatchAt(s1, s2, k);
    IsAdjacentIff(s1, s2);
  }

  /** Turning `p + w + t` by |p| puts the window `w` first. */
  lemma RotateToWindow(p: Steps, w: Steps, t: Steps)
    requires |p| >= 1 && |w| >= 1
    ensures Rotate(p + w + t, |p|) == w + (t + p)
    ensures (p + w + t)[|p| - 1] == p[|p| - 1]
  {
    assert p + w + t == p + (w + t);
    RotateAppend(p, w + t);
    assert (w + t) + p == w + (t + p);
  }

  /** The local test on the three edits, with the rest `w` of the view shared. The edits are
      named as the source's comments name them, by how the second scale becomes the first:
      "split" when the first holds x, y where the second holds x + y, "merge" the reverse. */
  lemma MergeWindow(x: int, y: int, w: Steps)
    requires |w| >= 1
    ensures AdjacentAt([x + y] + w, [x, y] + w)
  {
    var r1, r2 := [x + y] + w, [x, y] + w;
    assert At(r1, 0) == Num(x + y) && At(r1, 1) == Num(w[0]) && At(r2, 0) == Num(x) && At(r2, 1) == Num(y);
    assert Rest(r1) == w[1..] && Rest(r2) == w;
    assert [Num(w[0])] + Lift(w[1..]) == Lift(w);
    ArrayEqualIffPrefix(w, w);
  }

  lemma SplitWindow(x: int, y: int, w: Steps)
    requires |w| >= 1 && y > 0 && w[0] > 0
    ensures AdjacentAt([x, y] + w, [x + y] + w)
  {
    var r1, r2 := [x, y] + w, [x + y] + w;
    assert At(r1, 0) == Num(x) && At(r1, 1) == Num(y) && At(r2, 0) == Num(x + y) && At(r2, 1) == Num(w[0]);
    assert Rest(r1) == w && Rest(r2) == w[1..];
    assert [Num(w[0])] + Lift(w[1..]) == Lift(w);
    ArrayEqualIffPrefix(w, w);
  }

  lemma ResplitWindow(x: int, y: int, u: int, v: int, w: Steps)
    requires y > 0 && v > 0 && x != y && x + y == u + v
    ensures AdjacentAt([x, y] + w, [u, v] + w)
  {
    var r1, r2 := [x, y] + w, [u, v] + w;
    assert At(r1, 0) == Num(x) && At(r1, 1) == Num(y) && At(r2, 0) == Num(u) && At(r2, 1) == Num(v);
    assert Rest(r1) == w && Rest(r2) == w;
    ArrayEqualIffPrefix(w, w);
  }

  /** A merge (the first scale holds x + y where the second holds x, y) right after a shared
      step is detected, by the guard `r21 + r22 === r11`. */
  lemma MergeDetected(p: Steps, x: int, y: int, t: Steps)
    requires |p| >= 1
    ensures IsAdjacent(p + [x + y] + t, p + [x, y] + t)
  {
    var w := t + p;
    var r1, r2 := [x + y] + w, [x, y] + w;
    MergeWindow(x, y, w);
    RotateToWindow(p, [x + y], t);
    RotateToWindow(p, [x, y], t);
    MatchIntro(p + [x + y] + t, p + [x, y] + t, |p| - 1, |p|, r1, r2);
  }

  /** A split (the first scale holds x, y where the second holds x + y) right after a shared
      step is detected in a scale of positive steps, by the guard `r11 + r12 === r21`; positive
      steps keep the later merge guard from overriding it. */
  lemma SplitDetected(p: Steps, x: int, y: int, t: Steps)
    requires |p| >= 1 && x > 0 && y > 0 && Positive(p) && Positive(t)
    ensures IsAdjacent(p + [x, y] + t, p + [x + y] + t)
  {
    var w := t + p;
    var r1, r2 := [x, y] + w, [x + y] + w;
    assert w[0] > 0;
    SplitWindow(x, y, w);
    RotateToWindow(p, [x, y], t);
    RotateToWindow(p, [x + y], t);
    MatchIntro(p + [x, y] + t, p + [x + y] + t, |p| - 1, |p|, r1, r2);
  }

  /** Replacing two unequal positive steps by another positive pair of the same total (a
      sharpened or flattened note) right after a shared step is detected. */
  lemma ResplitDetected(p: Steps, x: int, y: int, u: int, v: int, t: Steps)
    requires |p| >= 1 && x > 0 && y > 0 && u > 0 && v > 0 && x != y && x + y == u + v
    ensures IsAdjacent(p + [x, y] + t, p + [u, v] + t)
  {
    var w := t + p;
    var r1, r2 := [x, y] + w, [u, v] + w;
    ResplitWindow(x, y, u, v, w);
    RotateToWindow(p, [x, y], t);
    RotateToWindow(p, [u, v], t);
    MatchIntro(p + [x, y] + t, p + [u, v] + t, |p| - 1, |p|, r1, r2);
  }

  /** On a view against itself only the resplit guard can hold, and it holds when the first two
      steps differ. */
  lemma SelfWindow(r: Steps)
    requires |r| >= 2 && Positive(r)
    ensures AdjacentAt(r, r) <==> r[0] != r[1]
  {
    assert At(r, 0) == Num(r[0]) && At(r, 1) == Num(r[1]);
    ArrayEqualIffPrefix(Rest(r), Rest(r));
  }

  /** The step at i differs from its cyclic successor. */
  ghost predicate ChangesAt(s: Steps, i: nat)
  {
    i < |s| && s[i] != s[Wrap(i + 1, |s|)]
  }

  /** The first two steps of `rotate(s, k + 1)`. */
  lemma RotateHeads(s: Steps, k: nat)
    requires |s| >= 2 && k < |s|
    ensures Rotate(s, k + 1)[0] == s[Wrap(k + 1, |s|)]
    ensures Rotate(s, k + 1)[1] == s[Wrap(Wrap(k + 1, |s|) + 1, |s|)]
  {
    var n := |s|;
    assert 0 + (k + 1) == k + 1 && 1 + (k + 1) == k + 1 + 1;
    WrapAdd(k + 1, 1, n);
  }

  lemma SelfMatch(s: Steps, k: nat)
    requires |s| >= 2 && Positive(s) && k < |s|
    ensures MatchAt(s, s, k) <==> ChangesAt(s, Wrap(k + 1, |s|))
  {
    var r := Rotate(s, k + 1);
    RotateHeads(s, k);
    assert ChangesAt(s, Wrap(k + 1, |s|)) <==> r[0] != r[1];
    assert Positive(r);
    SelfWindow(r);
  }

  /** Every position i is the cyclic successor of the position k before it. */
  lemma Predecessor(i: nat, n: nat) returns (k: nat)
    requires i < n
    ensures k < n && Wrap(k + 1, n) == i
  {
    if i == 0 {
      k := n - 1;
      assert Wrap(0, n) == 0;
    } else {
      k := i - 1;
    }
  }

  /** A scale of at least two positive steps is adjacent to itself exactly when two cyclically
      neighbouring steps differ, so `adjacentTo(s)` may list `s`. */
  lemma SelfAdjacentIff(s: Steps)
    requires |s| >= 2 && Positive(s)
    ensures IsAdjacent(s, s) <==> exists i: nat :: ChangesAt(s, i)
  {
    IsAdjacentIff(s, s);
    if IsAdjacent(s, s) {
      var k: nat :| MatchAt(s, s, k);
      SelfMatch(s, k);
    }
    if exists i: nat :: ChangesAt(s, i) {
      var i: nat :| ChangesAt(s, i);
      var k := Predecessor(i, |s|);
      SelfMatch(s, k);
    }
  }

  /** The search pairs position k of one scale only with position k of the other, so an edit
      of the first step can go unnoticed: replacing the leading 3 of [3, 2, 2, 1, 2, 2] by 1, 2
      gives a scale the search does not find adjacent to it. */
  lemma LeadingSplitMissed(s1: Steps, s2: Steps)
    requires s1 == [3, 2, 2, 1, 2, 2] && s2 == [1, 2, 2, 2, 1, 2, 2]
    ensures !IsAdjacent(s1, s2)
  {
    forall k: nat ensures !MatchAt(s1, s2, k) {
      NoMatchAt(s1, s2, k);
    }
    IsAdjacentIff(s1, s2);
  }

  /** Only positions 1, 2 and 5 carry equal steps, and their windows fail. */
  lemma NoMatchAt(s1: Steps, s2: Steps, k: nat)
    requires s1 == [3, 2, 2, 1, 2, 2] && s2 == [1, 2, 2, 2, 1, 2, 2]
    ensures !MatchAt(s1, s2, k)
  {
    if k == 1 || k == 2 || k == 5 {
      MissedAt(s1, s2, k, k + 1);
    }
  }

  /** The three positions where the steps of the two scales agree have failing windows: the
      decision rule reads the first two entries of each turned scale and, where a guard holds,
      one later entry that breaks the prefix test. */
  lemma MissedAt(s1: Steps, s2: Steps, k: nat, start: int)
    requires s1 == [3, 2, 2, 1, 2, 2] && s2 == [1, 2, 2, 2, 1, 2, 2]
    requires (k == 1 || k == 2 || k == 5) && start == k + 1
    ensures !AdjacentAt(Rotate(s1, start), Rotate(s2, start))
  {
    var r1, r2 := Rotate(s1, start), Rotate(s2, start);
    DecisionRule(r1, r2);
    if k == 1 {
      assert Wrap(2, 6) == 2 && Wrap(3, 6) == 3 && Wrap(2, 7) == 2 && Wrap(3, 7) == 3;
      assert r1[0] == 2 && r1[1] == 1 && r2[0] == 2 && r2[1] == 2;
    } else if k == 2 {
      assert Wrap(3, 6) == 3 && Wrap(4, 6) == 4 && Wrap(6, 6) == 0;
      assert Wrap(3, 7) == 3 && Wrap(4, 7) == 4 && Wrap(6, 7) == 6;
      assert r1[0] == 1 && r1[1] == 2 && r2[0] == 2 && r2[1] == 1;
      assert r1[2..][1] == r1[3] == 3 && r2[2..][1] == r2[3] == 2;
    } else {
      assert Wrap(6, 6) == 0 && Wrap(7, 6) == 1 && Wrap(9, 6) == 3;
      assert Wrap(6, 7) == 6 && Wrap(7, 7) == 0 && Wrap(10, 7) == 3;
      assert r1[0] == 3 && r1[1] == 2 && r2[0] == 2 && r2[1] == 1;
      assert ([r1[1]] + r1[2..])[2] == r1[3] == 1 && r2[2..][2] == r2[4] == 2;
    }
  }

  /** The major scale is adjacent to itself. */
  lemma MajorSelfAdjacent()
    ensures IsAdjacent([1, 2, 2, 1, 2, 2, 2], [1, 2, 2, 1, 2, 2, 2])
  {
    var s := [1, 2, 2, 1, 2, 2, 2];
    SelfAdjacentIff(s);
    assert Wrap(1, 7) == 1;
    assert ChangesAt(s, 0);
  }
}
