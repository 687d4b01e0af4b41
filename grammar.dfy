/** The grammar engine and flattener of src/scales.ts: three mutually recursive nonterminals
    that enumerate every derivation consuming an exact length budget, and the functions that
    turn a derivation into its list of steps. */
module Grammar {
  import opened Util
  import opened FpArray

  /** An A fragment (`AScale`): head [1] or [1, 1], then a B fragment. */
  datatype A = A1(b: B) | A11(b: B)

  /** A B fragment (`BScale`): head [3] then an A fragment, or head [2] or [2, 3] then a C
      fragment. */
  datatype B = B3(a: A) | B2(c: C) | B23(c: C)

  /** A C fragment (`CScale`): an A fragment, a B fragment, or the empty tail (`null`). */
  datatype C = CA(a: A) | CB(b: B) | CNil

  // The enumerators rank C above A and B, since `CScales(len)` calls `AScales(len)` and
  // `BScales(len)` at the same budget; every other call lowers the budget.

  /** `AScales`: every A derivation of total length `len`, in the source's order. */
  function AScales(len: int): seq<A>
    decreases len, 0
  {
    if len <= 1 then []
    else Map((b: B) => A1(b), BScales(len - 1)) + Map((b: B) => A11(b), BScales(len - 2))
  }

  /** `BScales`: every B derivation of total length `len`, in the source's order. */
  function BScales(len: int): seq<B>
    decreases len, 0
  {
    if len <= 0 then []
    else
      Map((a: A) => B3(a), AScales(len - 3))
      + Map((c: C) => B2(c), CScales(len - 2))
      + Map((c: C) => B23(c), CScales(len - 5))
  }

  /** `CScales`: every C derivation of total length `len`, in the source's order. */
  function CScales(len: int): seq<C>
    decreases len, 1
  {
    if len < 0 then []
    else if len == 0 then [CNil]
    else Map((a: A) => CA(a), AScales(len)) + Map((b: B) => CB(b), BScales(len))
  }

  /** `getStepsA`: the head, then the steps of the tail. */
  function StepsA(a: A): (s: Steps)
    ensures |s| >= 2 && s[0] == 1 && IsStepSeq(s) && Sum(s) >= 3
  {
    match a
    case A1(b) =>
      SumConcat([1], StepsB(b));
      [1] + StepsB(b)
    case A11(b) =>
      SumConcat([1, 1], StepsB(b));
      [1, 1] + StepsB(b)
  }

  /** `getStepsB`. */
  function StepsB(b: B): (s: Steps)
    ensures |s| >= 1 && (s[0] == 2 || s[0] == 3) && IsStepSeq(s) && Sum(s) >= 2
  {
    match b
    case B3(a) =>
      SumConcat([3], StepsA(a));
      [3] + StepsA(a)
    case B2(c) =>
      SumConcat([2], StepsC(c));
      [2] + StepsC(c)
    case B23(c) =>
      SumConcat([2, 3], StepsC(c));
      [2, 3] + StepsC(c)
  }

  /** `getStepsC`: the empty tail flattens to no steps. */
  function StepsC(c: C): (s: Steps)
    ensures IsStepSeq(s) && Sum(s) >= 0
    ensures c.CNil? <==> s == []
  {
    match c
    case CA(a) => StepsA(a)
    case CB(b) => StepsB(b)
    case CNil => []
  }

  /** Which derivations `AScales(n)` lists, by the head of the derivation. */
  lemma AMember(a: A, n: int)
    ensures a in AScales(n) <==> n > 1 && (if a.A1? then a.b in BScales(n - 1) else a.b in BScales(n - 2))
  {
    if n > 1 {
      var m1, m2 := Map((b: B) => A1(b), BScales(n - 1)), Map((b: B) => A11(b), BScales(n - 2));
      assert AScales(n) == m1 + m2;
      if a in m1 { var i :| 0 <= i < |m1| && m1[i] == a; }
      if a in m2 { var i :| 0 <= i < |m2| && m2[i] == a; }
      if a.A1? && a.b in BScales(n - 1) {
        var i :| 0 <= i < |BScales(n - 1)| && BScales(n - 1)[i] == a.b;
        assert m1[i] == a;
      }
      if a.A11? && a.b in BScales(n - 2) {
        var i :| 0 <= i < |BScales(n - 2)| && BScales(n - 2)[i] == a.b;
        assert m2[i] == a;
      }
    }
  }

  /** Which derivations `BScales(n)` lists, by the head of the derivation. */
  lemma BMember(b: B, n: int)
    ensures b in BScales(n) <==> n > 0 && match b
      case B3(a) => a in AScales(n - 3)
      case B2(c) => c in CScales(n - 2)
      case B23(c) => c in CScales(n - 5)
  {
    if n > 0 {
      var m1 := Map((a: A) => B3(a), AScales(n - 3));
      var m2 := Map((c: C) => B2(c), CScales(n - 2));
      var m3 := Map((c: C) => B23(c), CScales(n - 5));
      assert BScales(n) == m1 + m2 + m3;
      if b in m1 { var i :| 0 <= i < |m1| && m1[i] == b; }
      if b in m2 { var i :| 0 <= i < |m2| && m2[i] == b; }
      if b in m3 { var i :| 0 <= i < |m3| && m3[i] == b; }
      match b
      case B3(a) =>
        if a in AScales(n - 3) {
          var i :| 0 <= i < |AScales(n - 3)| && AScales(n - 3)[i] == a;
          assert m1[i] == b;
        }
      case B2(c) =>
        if c in CScales(n - 2) {
          var i :| 0 <= i < |CScales(n - 2)| && CScales(n - 2)[i] == c;
          assert m2[i] == b;
        }
      case B23(c) =>
        if c in CScales(n - 5) {
          var i :| 0 <= i < |CScales(n - 5)| && CScales(n - 5)[i] == c;
          assert m3[i] == b;
        }
    }
  }

  /** Which derivations `CScales(n)` lists, by the kind of the derivation. */
  lemma CMember(c: C, n: int)
    ensures c in CScales(n) <==> match c
      case CA(a) => n > 0 && a in AScales(n)
      case CB(b) => n > 0 && b in BScales(n)
      case CNil => n == 0
  {
    if n > 0 {
      var m1, m2 := Map((a: A) => CA(a), AScales(n)), Map((b: B) => CB(b), BScales(n));
      assert CScales(n) == m1 + m2;
      if c in m1 { var i :| 0 <= i < |m1| && m1[i] == c; }
      if c in m2 { var i :| 0 <= i < |m2| && m2[i] == c; }
      match c
      case CA(a) =>
        if a in AScales(n) {
          var i :| 0 <= i < |AScales(n)| && AScales(n)[i] == a;
          assert m1[i] == c;
        }
      case CB(b) =>
        if b in BScales(n) {
          var i :| 0 <= i < |BScales(n)| && BScales(n)[i] == b;
          assert m2[i] == c;
        }
      case CNil =>
    }
  }

  /** The enumerators are exact: a derivation is listed by `AScales(n)` if and only if its
      steps sum to `n`. */
  lemma {:induction false} AScalesExact(a: A, n: int)
    ensures a in AScales(n) <==> Sum(StepsA(a)) == n
    decreases a
  {
    AMember(a, n);
    match a
    case A1(b) =>
      SumConcat([1], StepsB(b));
      BScalesExact(b, n - 1);
    case A11(b) =>
      SumConcat([1, 1], StepsB(b));
      BScalesExact(b, n - 2);
  }

  lemma {:induction false} BScalesExact(b: B, n: int)
    ensures b in BScales(n) <==> Sum(StepsB(b)) == n
    decreases b, 1
  {
    if b.B3? {
      B3ScalesExact(b, n);
    } else if b.B2? {
      B2ScalesExact(b, n);
    } else {
      B23ScalesExact(b, n);
    }
  }

  lemma {:induction false} B3ScalesExact(b: B, n: int)
    requires b.B3?
    ensures b in BScales(n) <==> Sum(StepsB(b)) == n
    decreases b, 0
  {
    AScalesExact(b.a, n - 3);
    B3Exact(b.a, n);
  }

  lemma {:induction false} B2ScalesExact(b: B, n: int)
    requires b.B2?
    ensures b in BScales(n) <==> Sum(StepsB(b)) == n
    decreases b, 0
  {
    CScalesExact(b.c, n - 2);
    B2Exact(b.c, n);
  }

  lemma {:induction false} B23ScalesExact(b: B, n: int)
    requires b.B23?
    ensures b in BScales(n) <==> Sum(StepsB(b)) == n
    decreases b, 0
  {
    CScalesExact(b.c, n - 5);
    B23Exact(b.c, n);
  }

  /** The step of `BScalesExact` for `B3`, given the claim for its A fragment. */
  lemma B3Exact(a: A, n: int)
    requires a in AScales(n - 3) <==> Sum(StepsA(a)) == n - 3
    ensures B3(a) in BScales(n) <==> Sum(StepsB(B3(a))) == n
  {
    BMember(B3(a), n);
    SumConcat([3], StepsA(a));
    assert Sum(StepsB(B3(a))) == 3 + Sum(StepsA(a));
  }

  /** The step of `BScalesExact` for `B2`, given the claim for its C fragment. */
  lemma B2Exact(c: C, n: int)
    requires c in CScales(n - 2) <==> Sum(StepsC(c)) == n - 2
    ensures B2(c) in BScales(n) <==> Sum(StepsB(B2(c))) == n
  {
    BMember(B2(c), n);
    SumConcat([2], StepsC(c));
    assert Sum(StepsB(B2(c))) == 2 + Sum(StepsC(c));
  }

  /** The step of `BScalesExact` for `B23`, given the claim for its C fragment. */
  lemma B23Exact(c: C, n: int)
    requires c in CScales(n - 5) <==> Sum(StepsC(c)) == n - 5
    ensures B23(c) in BScales(n) <==> Sum(StepsB(B23(c))) == n
  {
    BMember(B23(c), n);
    SumConcat([2, 3], StepsC(c));
    assert Sum(StepsB(B23(c))) == 5 + Sum(StepsC(c));
  }

  lemma {:induction false} CScalesExact(c: C, n: int)
    ensures c in CScales(n) <==> Sum(StepsC(c)) == n
    decreases c
  {
    CMember(c, n);
    match c
    case CA(a) => AScalesExact(a, n);
    case CB(b) => BScalesExact(b, n);
    case CNil =>
  }

  /** Base cases of the enumerators. */
  lemma BaseCases(n: int)
    ensures n <= 1 ==> AScales(n) == []
    ensures n <= 0 ==> BScales(n) == []
    ensures n < 0 ==> CScales(n) == []
    ensures CScales(0) == [CNil] && StepsC(CNil) == []
  {
  }

  /** What every enumerated derivation flattens to: the budget exactly, in steps 1, 2 and 3,
      A derivations starting with 1 and B derivations with 2 or 3. */
  lemma EnumeratedShape(n: int)
    ensures forall a :: a in AScales(n) ==> var s := StepsA(a); Sum(s) == n && IsStepSeq(s) && s[0] == 1
    ensures forall b :: b in BScales(n) ==> var s := StepsB(b); Sum(s) == n && IsStepSeq(s) && (s[0] == 2 || s[0] == 3)
    ensures forall c :: c in CScales(n) ==> Sum(StepsC(c)) == n && IsStepSeq(StepsC(c))
  {
    forall a | a in AScales(n) ensures Sum(StepsA(a)) == n { AScalesExact(a, n); }
    forall b | b in BScales(n) ensures Sum(StepsB(b)) == n { BScalesExact(b, n); }
    forall c | c in CScales(n) ensures Sum(StepsC(c)) == n { CScalesExact(c, n); }
  }

  /** The grammar is ambiguous: [2] then [3]·A, and [2, 3] then A, give the same steps, so one
      step sequence can be enumerated twice. */
  lemma Ambiguous(a: A)
    ensures B2(CB(B3(a))) != B23(CA(a))
    ensures StepsB(B2(CB(B3(a)))) == StepsB(B23(CA(a)))
  {
    assert StepsB(B2(CB(B3(a)))) == [2] + StepsB(B3(a)) == [2] + ([3] + StepsA(a));
    assert [2] + ([3] + StepsA(a)) == [2, 3] + StepsA(a);
  }
}
