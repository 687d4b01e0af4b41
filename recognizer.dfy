/** The grammar recognizer of src/scales.ts (`isValidA`, `isValidB`, `isValid`): a greedy,
    deterministic acceptor for the language the grammar engine enumerates, with no length
    budget. */
module Recognizer {
  import opened Util
  import opened Grammar

  // In the source, `[head2, ...tail]` on a one-element input is `[undefined]`; every entry
  // point treats `[undefined]` as it treats `[]`, so the model passes `s[1..]` there.
  // Ranks as in the grammar: `IsValid` calls the other two on the same input.

  /** `isValidA`: 1, 1 then B, preferred over 1 then B; anything else is rejected. */
  predicate IsValidA(s: Steps)
    decreases |s|, 0
  {
    if |s| == 0 then false
    else if s[0] == 1 && |s| >= 2 && s[1] == 1 then IsValidB(s[2..])
    else if s[0] == 1 then IsValidB(s[1..])
    else false
  }

  /** `isValidB`: 2, 3 then C, preferred over 2 then C; 3 then A; anything else is rejected. */
  predicate IsValidB(s: Steps)
    decreases |s|, 0
  {
    if |s| >= 2 && s[0] == 2 && s[1] == 3 then IsValid(s[2..])
    else if |s| >= 1 && s[0] == 2 then IsValid(s[1..])
    else if |s| >= 1 && s[0] == 3 then IsValidA(s[1..])
    else false
  }

  /** `isValid`: the empty sequence, or an A or a B fragment. */
  predicate IsValid(s: Steps)
    decreases |s|, 1
  {
    if |s| == 0 then true else IsValidA(s) || IsValidB(s)
  }

  /** Soundness: the recognizer accepts the flattening of every derivation (not only the
      enumerated ones), in spite of its greedy choices. */
  lemma {:induction false} SoundA(a: A)
    ensures IsValidA(StepsA(a))
    decreases a
  {
    match a
    case A1(b) =>
      assert StepsA(a)[1..] == StepsB(b);
      SoundB(b);
    case A11(b) =>
      assert StepsA(a)[2..] == StepsB(b);
      SoundB(b);
  }

  lemma {:induction false} SoundB(b: B)
    ensures IsValidB(StepsB(b))
    decreases b
  {
    var s := StepsB(b);
    match b
    case B3(a) =>
      assert s[1..] == StepsA(a);
      SoundA(a);
    case B23(c) =>
      assert s[2..] == StepsC(c);
      SoundC(c);
    case B2(c) =>
      assert s[1..] == StepsC(c);
      if |s| >= 2 && s[1] == 3 {
        // the recognizer reads 2, 3 as one head: the tail must be [3] then an A fragment
        match c
        case CB(b') =>
          match b'
          case B3(a) =>
            assert s[2..] == StepsA(a);
            SoundA(a);
      } else {
        SoundC(c);
      }
  }

  lemma {:induction false} SoundC(c: C)
    ensures IsValid(StepsC(c))
    decreases c
  {
    match c
    case CA(a) => SoundA(a);
    case CB(b) => SoundB(b);
    case CNil =>
  }

  /** Completeness: whatever the recognizer accepts is the flattening of some derivation. */
  lemma {:induction false} CompleteA(s: Steps)
    requires IsValidA(s)
    ensures exists a :: StepsA(a) == s
    decreases |s|, 0
  {
    if s[0] == 1 && |s| >= 2 && s[1] == 1 {
      CompleteB(s[2..]);
      var b :| StepsB(b) == s[2..];
      assert StepsA(A11(b)) == s;
    } else {
      CompleteB(s[1..]);
      var b :| StepsB(b) == s[1..];
      assert StepsA(A1(b)) == s;
    }
  }

  lemma {:induction false} CompleteB(s: Steps)
    requires IsValidB(s)
    ensures exists b :: StepsB(b) == s
    decreases |s|, 0
  {
    if |s| >= 2 && s[0] == 2 && s[1] == 3 {
      CompleteC(s[2..]);
      var c :| StepsC(c) == s[2..];
      assert StepsB(B23(c)) == s;
    } else if s[0] == 2 {
      CompleteC(s[1..]);
      var c :| StepsC(c) == s[1..];
      assert StepsB(B2(c)) == s;
    } else {
      CompleteA(s[1..]);
      var a :| StepsA(a) == s[1..];
      assert StepsB(B3(a)) == s;
    }
  }

  lemma {:induction false} CompleteC(s: Steps)
    requires IsValid(s)
    ensures exists c :: StepsC(c) == s
    decreases |s|, 1
  {
    if |s| == 0 {
      assert StepsC(CNil) == s;
    } else if IsValidA(s) {
      CompleteA(s);
      var a :| StepsA(a) == s;
      assert StepsC(CA(a)) == s;
    } else {
      CompleteB(s);
      var b :| StepsB(b) == s;
      assert StepsC(CB(b)) == s;
    }
  }

  /** The recognizer decides exactly the language of the grammar. */
  lemma ValidIffDerivable(s: Steps)
    ensures IsValid(s) <==> exists c :: StepsC(c) == s
  {
    if IsValid(s) {
      CompleteC(s);
    }
    if exists c :: StepsC(c) == s {
      var c :| StepsC(c) == s;
      SoundC(c);
    }
  }

  /** Recognizer and enumerator agree: a step sequence is accepted and sums to `n` if and only
      if it is the flattening of a derivation that `CScales(n)` lists. */
  lemma ValidIffEnumerated(s: Steps, n: int)
    ensures IsValid(s) && Sum(s) == n <==> exists c :: c in CScales(n) && StepsC(c) == s
  {
    ValidIffDerivable(s);
    if IsValid(s) && Sum(s) == n {
      var c :| StepsC(c) == s;
      CScalesExact(c, n);
    }
    if exists c :: c in CScales(n) && StepsC(c) == s {
      var c :| c in CScales(n) && StepsC(c) == s;
      CScalesExact(c, n);
    }
  }

  /** An accepted sequence uses only the steps 1, 2 and 3. */
  lemma ValidIsStepSeq(s: Steps)
    requires IsValid(s)
    ensures IsStepSeq(s)
  {
    CompleteC(s);
  }

  /** The empty input, and any input whose first entry is not a step 1, 2 or 3. */
  lemma EdgeCases(s: Steps)
    ensures IsValid([]) && !IsValidA([]) && !IsValidB([])
    ensures |s| > 0 && !(1 <= s[0] <= 3) ==> !IsValid(s) && !IsValidA(s) && !IsValidB(s)
  {
  }

  /** Concrete inputs: the major scale from its first degree is accepted, [1, 2, 1] is not,
      and neither is the major scale from its second degree, so acceptance is not closed
      under rotation. */
  lemma Examples()
    ensures IsValid([1, 2, 2, 1, 2, 2, 2])
    ensures !IsValid([1, 2, 1])
    ensures !IsValid([2, 2, 1, 2, 2, 2, 1])
    ensures Rotate([1, 2, 2, 1, 2, 2, 2], 1) == [2, 2, 1, 2, 2, 2, 1]
  {
    var major := [1, 2, 2, 1, 2, 2, 2];
    assert major[1..] == [2, 2, 1, 2, 2, 2];
    assert major[1..][1..] == [2, 1, 2, 2, 2];
    assert major[1..][1..][1..] == [1, 2, 2, 2];
    assert major[1..][1..][1..][1..] == [2, 2, 2];
    assert [2, 2, 2][1..] == [2, 2];
    assert [2, 2][1..] == [2];
    assert [2][1..] == [];
    assert IsValid([2]);
    assert IsValid([2, 2]);
    assert IsValid([2, 2, 2]);
    assert IsValidA([1, 2, 2, 2]);
    assert IsValid([2, 1, 2, 2, 2]);
    assert IsValid(major[1..]);
    var bad := [1, 2, 1];
    assert bad[1..] == [2, 1] && [2, 1][1..] == [1] && [1][1..] == [];
    assert !IsValid([1]);
    assert !IsValid([2, 1]);
    var mode := [2, 2, 1, 2, 2, 2, 1];
    assert mode[1..] == [2, 1, 2, 2, 2, 1];
    assert mode[1..][1..] == [1, 2, 2, 2, 1];
    assert [1, 2, 2, 2, 1][1..] == [2, 2, 2, 1];
    assert [2, 2, 2, 1][1..] == [2, 2, 1];
    assert [2, 2, 1][1..] == [2, 1];
    assert !IsValid([2, 2, 1]);
    assert !IsValid([2, 2, 2, 1]);
    assert !IsValid([1, 2, 2, 2, 1]);
    assert !IsValid([2, 1, 2, 2, 2, 1]);
    RotateSlices(major, 1);
    ModIsEuclidean(1, 7);
  }
}
