/** The pattern pool and the neighbour query of src/scales.ts (`patterns`, `adjacentTo`): every
    mode of every scale the grammar enumerates for the note count, and the entries of that pool
    one edit away from a given scale. */
module Pool {
  import opened Util
  import opened FpArray
  import opened Grammar
  import opened Recognizer
  import opened Adjacency

  /** `p.map((_, i) => rotate(p, i))`: the modes of one pattern, from its first degree on. */
  function Modes(p: Steps): seq<Steps>
  {
    seq(|p|, i requires 0 <= i < |p| => Rotate(p, i))
  }

  /** `patterns`, with the note count `n` (`NUM_NOTES`) as a parameter: the modes of every
      enumerated scale, block after block in the enumerator's order. */
  function Patterns(n: int): seq<Steps>
  {
    Flatten(Map(Modes, Map(StepsC, CScales(n))))
  }

  /** `x` is one of the rotations `rotate(p, i)` that `Modes(p)` lists. */
  ghost predicate ModeOf(x: Steps, p: Steps)
  {
    exists i :: 0 <= i < |p| && x == Rotate(p, i)
  }

  lemma ModesMember(x: Steps, p: Steps)
    ensures x in Modes(p) <==> ModeOf(x, p)
  {
    if x in Modes(p) {
      ListedIsMode(x, p);
    }
    if ModeOf(x, p) {
      ModeIsListed(x, p);
    }
  }

  lemma ListedIsMode(x: Steps, p: Steps)
    requires x in Modes(p)
    ensures ModeOf(x, p)
  {
    var ms := Modes(p);
    var i :| 0 <= i < |ms| && ms[i] == x;
    assert ms[i] == Rotate(p, i);
  }

  lemma ModeIsListed(x: Steps, p: Steps)
    requires ModeOf(x, p)
    ensures x in Modes(p)
  {
    var ms := Modes(p);
    var i :| 0 <= i < |p| && x == Rotate(p, i);
    assert ms[i] == x;
  }

  /** An entry of the pool is a mode of an enumerated scale, and every such mode is listed. */
  lemma PatternsMember(n: int, x: Steps)
    ensures x in Patterns(n) <==> exists c :: c in CScales(n) && ModeOf(x, StepsC(c))
  {
    var cs := CScales(n);
    if x in Patterns(n) {
      assert exists c :: c in cs && ModeOf(x, StepsC(c)) by {
        FlattenMapMember(Modes, StepsC, cs, x);
        var i :| 0 <= i < |cs| && x in Modes(StepsC(cs[i]));
        ModesMember(x, StepsC(cs[i]));
        assert cs[i] in cs;
      }
    }
    if exists c :: c in cs && ModeOf(x, StepsC(c)) {
      assert x in Patterns(n) by {
        var c :| c in cs && ModeOf(x, StepsC(c));
        var i :| 0 <= i < |cs| && cs[i] == c;
        ModesMember(x, StepsC(c));
        FlattenMapMember(Modes, StepsC, cs, x);
      }
    }
  }

  /** A mode of an accepted pattern has the pattern's total, and rotating it back gives the
      pattern. */
  lemma ModeUndo(x: Steps, p: Steps)
    requires ModeOf(x, p)
    ensures x != [] && Sum(x) == Sum(p) && exists k :: Rotate(x, k) == p
  {
    var i :| 0 <= i < |p| && x == Rotate(p, i);
    RotateSum(p, i);
    RotateUndo(p, i);
    assert Rotate(x, Mod(-i, |p|)) == p;
  }

  /** A non-empty sequence is a mode of each of its rotations. */
  lemma RotationHasMode(x: Steps, k: int)
    requires x != []
    ensures ModeOf(x, Rotate(x, k))
  {
    RotateUndo(x, k);
    assert 0 <= Mod(-k, |x|) < |x|;
  }

  /** The pool is exactly the non-empty step sequences of total `n` that some rotation turns
      into a sequence the recognizer accepts. */
  lemma PatternsIff(n: int, x: Steps)
    ensures x in Patterns(n) <==> x != [] && Sum(x) == n && exists k :: IsValid(Rotate(x, k))
  {
    PatternsMember(n, x);
    if x in Patterns(n) {
      var c :| c in CScales(n) && ModeOf(x, StepsC(c));
      ModeUndo(x, StepsC(c));
      var k :| Rotate(x, k) == StepsC(c);
      CScalesExact(c, n);
      SoundC(c);
      assert IsValid(Rotate(x, k));
    }
    if x != [] && Sum(x) == n && exists k :: IsValid(Rotate(x, k)) {
      var k :| IsValid(Rotate(x, k));
      RotateSum(x, k);
      ValidIffEnumerated(Rotate(x, k), n);
      var c :| c in CScales(n) && StepsC(c) == Rotate(x, k);
      RotationHasMode(x, k);
    }
  }

  /** Every entry of the pool has `n` as its total and only the steps 1, 2 and 3. */
  lemma PatternsShape(n: int, x: Steps)
    requires x in Patterns(n)
    ensures Sum(x) == n && IsStepSeq(x) && x != []
  {
    PatternsMember(n, x);
    var c :| c in CScales(n) && ModeOf(x, StepsC(c));
    var p := StepsC(c);
    var i :| 0 <= i < |p| && x == Rotate(p, i);
    CScalesExact(c, n);
    SoundC(c);
    ValidIsStepSeq(p);
    RotateSteps(p, i);
    RotateSum(p, i);
  }

  /** Turning a mode of `p` gives another mode of `p`. */
  lemma ModeRotate(x: Steps, p: Steps, j: int)
    requires ModeOf(x, p)
    ensures ModeOf(Rotate(x, j), p)
  {
    var i :| 0 <= i < |p| && x == Rotate(p, i);
    RotateTwice(p, i, j, x);
    assert 0 <= Mod(i + j, |p|) < |p|;
  }

  /** Unlike the recognizer, the pool is closed under rotation. */
  lemma PatternsRotationClosed(n: int, x: Steps, j: int)
    requires x in Patterns(n)
    ensures Rotate(x, j) in Patterns(n)
  {
    PatternsMember(n, x);
    var c :| c in CScales(n) && ModeOf(x, StepsC(c));
    ModeRotate(x, StepsC(c), j);
    PatternsMember(n, Rotate(x, j));
  }

  /** `flatten` keeps the enumerator's order: the modes of the `i`-th enumerated scale come
      after those of every earlier one and before those of every later one. */
  lemma PatternsBlocks(n: int, i: int)
    requires 0 <= i < |CScales(n)|
    ensures var ms := Map(Modes, Map(StepsC, CScales(n)));
      Patterns(n) == Flatten(ms[..i]) + Modes(StepsC(CScales(n)[i])) + Flatten(ms[i + 1..])
  {
    var ms := Map(Modes, Map(StepsC, CScales(n)));
    FlattenSplit(ms, i);
  }

  /** Position by position: the `i`-th scale `p` occupies the |p| entries after the earlier
      blocks, and its `j`-th entry is `rotate(p, j)`. */
  lemma PatternsBlockAt(n: int, i: int, j: int)
    requires 0 <= i < |CScales(n)| && 0 <= j < |StepsC(CScales(n)[i])|
    ensures var ps := Map(StepsC, CScales(n)); var off := |Flatten(Map(Modes, ps)[..i])|;
      off + j < |Patterns(n)| && Patterns(n)[off + j] == Rotate(ps[i], j)
  {
    ModesBlockAt(Map(StepsC, CScales(n)), i, j);
  }

  /** The same for any list of patterns. */
  lemma ModesBlockAt(ps: seq<Steps>, i: int, j: int)
    requires 0 <= i < |ps| && 0 <= j < |ps[i]|
    ensures var ms := Map(Modes, ps); var off := |Flatten(ms[..i])|;
      off + j < |Flatten(ms)| && Flatten(ms)[off + j] == Rotate(ps[i], j)
  {
    var ms := Map(Modes, ps);
    assert ms[i] == Modes(ps[i]);
    FlattenAt(ms, i, j);
  }

  /** For twelve notes the pool holds the major scale. */
  lemma MajorInPool(n: int)
    requires n == 12
    ensures [1, 2, 2, 1, 2, 2, 2] in Patterns(n)
  {
    var major := [1, 2, 2, 1, 2, 2, 2];
    assert IsValid(Rotate(major, 0)) by {
      Examples();
      RotateZero(major);
    }
    assert Sum(major) == n;
    PatternsIff(n, major);
  }

  /** For twelve notes the pool holds every mode of the major scale, among them
      [2, 2, 1, 2, 2, 2, 1], which the recognizer rejects. */
  lemma MajorModesInPool(n: int, j: int)
    requires n == 12
    ensures Rotate([1, 2, 2, 1, 2, 2, 2], j) in Patterns(n)
    ensures [2, 2, 1, 2, 2, 2, 1] in Patterns(n) && !IsValid([2, 2, 1, 2, 2, 2, 1])
  {
    var major := [1, 2, 2, 1, 2, 2, 2];
    MajorInPool(n);
    PatternsRotationClosed(n, major, j);
    PatternsRotationClosed(n, major, 1);
    Examples();
  }

  /** `adjacentTo`: the entries of the pool adjacent to `scale`, in pool order. */
  function AdjacentTo(scale: Steps, n: int): (r: seq<Steps>)
    ensures IsSubsequence(r, Patterns(n))
    ensures forall i :: 0 <= i < |r| ==> IsAdjacent(scale, r[i])
    ensures forall x :: multiset(r)[x] == if IsAdjacent(scale, x) then multiset(Patterns(n))[x] else 0
  {
    Filter((x: Steps) => IsAdjacent(scale, x), Patterns(n))
  }

  /** The neighbours of `scale`: the pool entries in which some shared step is followed by a
      window that one sharpening/flattening, split or merge turns into the other's. */
  lemma AdjacentToIff(scale: Steps, n: int, x: Steps)
    ensures x in AdjacentTo(scale, n) <==>
      x != [] && Sum(x) == n && (exists k :: IsValid(Rotate(x, k))) && exists k: nat :: MatchAt(scale, x, k)
  {
    FilterMember((y: Steps) => IsAdjacent(scale, y), Patterns(n), x);
    PatternsIff(n, x);
    IsAdjacentIff(scale, x);
  }

  /** The major scale is listed among its own neighbours: the neighbour query has self-loops. */
  lemma MajorIsOwnNeighbour(n: int)
    requires n == 12
    ensures [1, 2, 2, 1, 2, 2, 2] in AdjacentTo([1, 2, 2, 1, 2, 2, 2], n)
  {
    var major := [1, 2, 2, 1, 2, 2, 2];
    MajorModesInPool(n, 0);
    RotateZero(major);
    MajorSelfAdjacent();
    FilterMember((y: Steps) => IsAdjacent(major, y), Patterns(n), major);
  }
}
