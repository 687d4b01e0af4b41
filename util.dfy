/** The sequence helpers of src/util.tsx: the `Steps` type, `mod`, `modNotes` and `rotate`,
    plus the sum of a step sequence that the grammar's length budget is measured in. */
module Util {

  /** A scale as the interval sizes between consecutive notes (`Steps` in the source). */
  type Steps = seq<int>

  datatype Option<T> = None | Some(value: T)

  function Abs(x: int): nat
  {
    if x < 0 then -x else x
  }

  /** Every entry is a step size 1, 2 or 3. */
  predicate IsStepSeq(s: Steps)
  {
    forall i :: 0 <= i < |s| ==> 1 <= s[i] <= 3
  }

  function Sum(s: Steps): int
  {
    if s == [] then 0 else s[0] + Sum(s[1..])
  }

  lemma {:induction false} SumConcat(a: Steps, b: Steps)
    ensures Sum(a + b) == Sum(a) + Sum(b)
    decreases |a|
  {
    if a == [] {
      assert a + b == b;
    } else {
      assert (a + b)[1..] == a[1..] + b;
      SumConcat(a[1..], b);
    }
  }

  /** JavaScript's `%` on integers: it truncates toward zero, so a non-zero remainder takes the
      sign of the dividend `a` (unlike Dafny's `%`, whose remainder is never negative). It is
      written as repeated subtraction of |b|; `JsRemTruncates` gives it in closed form. */
  function JsRem(a: int, b: int): (r: int)
    requires b != 0
    ensures Abs(r) < Abs(b)
    ensures a >= 0 ==> r >= 0
    ensures a <= 0 ==> r <= 0
    decreases Abs(a)
  {
    if Abs(a) < Abs(b) then a
    else if a > 0 then JsRem(a - Abs(b), b)
    else JsRem(a + Abs(b), b)
  }

  /** The remainder of truncated division: that of |a| by |b|, with the sign of `a`. */
  lemma {:induction false} JsRemTruncates(a: int, b: int)
    requires b != 0
    ensures JsRem(a, b) == if a >= 0 then a % Abs(b) else -((-a) % Abs(b))
    decreases Abs(a)
  {
    var m := Abs(b);
    if Abs(a) < m {
      if a >= 0 {
        DivModUnique(a, m, 0, a);
      } else {
        DivModUnique(-a, m, 0, -a);
      }
    } else if a > 0 {
      JsRemTruncates(a - m, b);
      ModShift(a - m, 1, m);
      assert a - m + 1 * m == a;
    } else {
      JsRemTruncates(a + m, b);
      ModShift(-a - m, 1, m);
      assert -a - m + 1 * m == -a && -(a + m) == -a - m;
    }
  }

  /** `a` and `a % b` differ by a multiple of `b`. */
  lemma JsRemCongruent(a: int, b: int)
    requires b != 0
    ensures (a - JsRem(a, b)) % Abs(b) == 0
  {
    var m := Abs(b);
    JsRemTruncates(a, b);
    if a >= 0 {
      DivModSplit(a, m);
      assert a - a % m == (a / m) * m;
      MultipleMod(a / m, m);
    } else {
      DivModSplit(-a, m);
      assert a - -((-a) % m) == -((-a) / m) * m;
      MultipleMod(-((-a) / m), m);
    }
  }

  /** `mod` (src/util.tsx:36-38): `((a % b) + b) % b` with JavaScript's `%`. For b == 0 the
      source computes NaN, which is not an integer, so b != 0 is required. */
  function Mod(a: int, b: int): (r: int)
    requires b != 0
    ensures b > 0 ==> 0 <= r < b
    ensures b < 0 ==> b < r <= 0
  {
    JsRem(JsRem(a, b) + b, b)
  }

  /** `mod(a, b)` differs from `a` by a multiple of `b`. */
  lemma ModCongruent(a: int, b: int)
    requires b != 0
    ensures (Mod(a, b) - a) % Abs(b) == 0
  {
    var t := JsRem(a, b);
    JsRemCongruent(a, b);
    JsRemCongruent(t + b, b);
    ModCongruence(a, b, t, Mod(a, b));
  }

  lemma ModCongruence(a: int, b: int, t: int, r: int)
    requires b != 0 && (a - t) % Abs(b) == 0 && (t + b - r) % Abs(b) == 0
    ensures (r - a) % Abs(b) == 0
  {
    var m := Abs(b);
    var p, q := (a - t) / m, (t + b - r) / m;
    DivModSplit(a - t, m);
    DivModSplit(t + b - r, m);
    var s := if b > 0 then 1 else -1;
    assert b == s * m;
    assert r - a == (s - p - q) * m;
    MultipleMod(s - p - q, m);
  }

  lemma MulAtLeast(d: int, b: int)
    requires d >= 1 && b > 0
    ensures d * b >= b
  {
  }

  /** Quotient and remainder are unique. */
  lemma DivModUnique(a: int, b: int, q: int, r: int)
    requires b > 0 && 0 <= r < b && a == q * b + r
    ensures a % b == r && a / b == q
  {
    var q0, r0 := a / b, a % b;
    assert a == q0 * b + r0;
    assert (q0 - q) * b == r - r0;
    if q0 > q {
      MulAtLeast(q0 - q, b);
    } else if q0 < q {
      MulAtLeast(q - q0, b);
    }
  }

  lemma MultipleMod(q: int, m: int)
    requires m > 0
    ensures (q * m) % m == 0 && (q * m) / m == q
  {
    DivModUnique(q * m, m, q, 0);
  }

  /** Dafny's `%` agrees with the source's `mod` for a positive modulus. */
  lemma ModIsEuclidean(a: int, b: int)
    requires b > 0
    ensures Mod(a, b) == a % b
  {
    var r := Mod(a, b);
    ModCongruent(a, b);
    DivModSplit(r - a, b);
    var k := (r - a) / b;
    assert r - a == k * b;
    assert a == (-k) * b + r;
    DivModUnique(a, b, -k, r);
  }

  /** Adding a multiple of the modulus does not change the remainder. */
  lemma ModShift(x: int, k: int, m: int)
    requires m > 0
    ensures (x + k * m) % m == x % m
  {
    assert x + k * m == (x / m + k) * m + x % m;
    DivModUnique(x + k * m, m, x / m + k, x % m);
  }

  lemma DivModSplit(x: int, n: int)
    requires n > 0
    ensures x == (x / n) * n + x % n
  {
  }

  lemma ModAddMod(x: int, j: int, n: int)
    requires n > 0
    ensures (x % n + j) % n == (x + j) % n
  {
    DivModSplit(x, n);
    ModShift(x % n + j, x / n, n);
  }

  /** The cyclic index: `x` brought into 0 .. n - 1 by adding or subtracting `n`. */
  function Wrap(x: int, n: int): (r: int)
    requires n > 0
    ensures 0 <= r < n
    decreases if x < 0 then n - x else x
  {
    if x < 0 then Wrap(x + n, n) else if x < n then x else Wrap(x - n, n)
  }

  /** The cyclic index is the source's `mod`. */
  lemma {:induction false} WrapIsMod(x: int, n: int)
    requires n > 0
    ensures Wrap(x, n) == Mod(x, n)
    decreases if x < 0 then n - x else x
  {
    ModIsEuclidean(x, n);
    if x < 0 {
      WrapIsMod(x + n, n);
      ModIsEuclidean(x + n, n);
      ModShift(x, 1, n);
    } else if x < n {
      DivModUnique(x, n, 0, x);
    } else {
      WrapIsMod(x - n, n);
      ModIsEuclidean(x - n, n);
      ModShift(x - n, 1, n);
    }
  }

  /** Adding a multiple of the modulus does not change the cyclic index. */
  lemma WrapPlus(x: int, k: int, n: int)
    requires n > 0
    ensures Wrap(x + k * n, n) == Wrap(x, n)
  {
    WrapIsMod(x + k * n, n);
    WrapIsMod(x, n);
    ModIsEuclidean(x + k * n, n);
    ModIsEuclidean(x, n);
    ModShift(x, k, n);
  }

  /** Reducing before adding does not change the cyclic index. */
  lemma WrapAdd(x: int, j: int, n: int)
    requires n > 0
    ensures Wrap(Wrap(x, n) + j, n) == Wrap(x + j, n)
  {
    var w := Wrap(x, n);
    WrapIsMod(x, n);
    WrapIsMod(w + j, n);
    WrapIsMod(x + j, n);
    ModIsEuclidean(x, n);
    ModIsEuclidean(w + j, n);
    ModIsEuclidean(x + j, n);
    ModAddMod(x, j, n);
  }

  /** `modNotes` (src/util.tsx:40-42), with the note count `n` as a parameter. */
  function ModNotes(a: int, n: int): (r: int)
    requires n > 0
    ensures 0 <= r < n && (r - a) % n == 0
  {
    ModCongruent(a, n);
    Mod(a, n)
  }

  /** `rotate` (src/util.tsx:31-34), entry by entry: entry `i` is the entry of `a` at the cyclic
      index of `i + start`. `RotateSlices` shows this is the source's suffix from
      `mod(start, |a|)` followed by the prefix before it. For the empty array the source's
      `mod` is NaN and both slices give []. */
  function Rotate<X>(a: seq<X>, start: int): (r: seq<X>)
    ensures |r| == |a|
    ensures forall i :: 0 <= i < |a| ==> r[i] == a[Wrap(i + start, |a|)]
  {
    if |a| == 0 then [] else seq(|a|, i requires 0 <= i < |a| => a[Wrap(i + start, |a|)])
  }

  /** One element of the two slices of `rotate`. */
  lemma SlicesAt<X>(a: seq<X>, start: int, i: int)
    requires 0 <= i < |a|
    ensures (a[Mod(start, |a|)..] + a[..Mod(start, |a|)])[i] == a[Wrap(i + start, |a|)]
  {
    var n := |a|;
    var m := Mod(start, n);
    WrapIsMod(start, n);
    WrapAdd(start, i, n);
    assert start + i == i + start;
    if i < n - m {
      assert Wrap(m + i, n) == m + i;
      assert (a[m..] + a[..m])[i] == a[m + i];
    } else {
      WrapPlus(m + i - n, 1, n);
      assert m + i - n + 1 * n == m + i;
      assert Wrap(m + i - n, n) == m + i - n;
      assert (a[m..] + a[..m])[i] == a[m + i - n];
    }
  }

  lemma {:induction false} RotateZero<X>(a: seq<X>)
    ensures Rotate(a, 0) == a
  {
    forall i | 0 <= i < |a| ensures Rotate(a, 0)[i] == a[i] {
      assert Wrap(i + 0, |a|) == i;
    }
  }

  lemma RotatePeriod<X>(a: seq<X>, k: int)
    ensures Rotate(a, k + |a|) == Rotate(a, k)
  {
    var n := |a|;
    forall i | 0 <= i < n ensures Rotate(a, k + n)[i] == Rotate(a, k)[i] {
      WrapPlus(i + k, 1, n);
      assert i + (k + n) == i + k + 1 * n;
    }
  }

  /** One element of a rotation turned again. */
  lemma RotateRotateAt<X>(a: seq<X>, j: int, k: int, i: int)
    requires 0 <= i < |a|
    ensures Rotate(Rotate(a, j), k)[i] == a[Wrap(i + k + j, |a|)]
  {
    WrapAdd(i + k, j, |a|);
  }

  lemma RotateCompose<X>(a: seq<X>, j: int, k: int)
    ensures Rotate(Rotate(a, j), k) == Rotate(a, j + k)
  {
    RotateComposeTo(a, j, k, j + k);
  }

  /** `RotateCompose` with the combined start given by name. */
  lemma RotateComposeTo<X>(a: seq<X>, j: int, k: int, l: int)
    requires j + k == l
    ensures Rotate(Rotate(a, j), k) == Rotate(a, l)
  {
    forall i | 0 <= i < |a| ensures Rotate(Rotate(a, j), k)[i] == Rotate(a, l)[i] {
      RotateRotateAt(a, j, k, i);
      assert i + k + j == i + l;
    }
  }

  /** Turning a rotation again gives the rotation by the reduced sum of the starts. */
  lemma RotateTwice<X>(a: seq<X>, i: int, j: int, x: seq<X>)
    requires |a| > 0 && x == Rotate(a, i)
    ensures Rotate(x, j) == Rotate(a, Mod(i + j, |a|))
  {
    var n := |a|;
    var m := Mod(i + j, n);
    WrapIsMod(i + j, n);
    forall t | 0 <= t < n ensures Rotate(x, j)[t] == Rotate(a, m)[t] {
      WrapAdd(t + j, i, n);
      WrapAdd(i + j, t, n);
      assert t + j + i == i + j + t && m + t == t + m;
    }
  }

  /** Turning by `mod(-k, |a|)` undoes turning by `k`. */
  lemma RotateUndo<X>(a: seq<X>, k: int)
    requires |a| > 0
    ensures Rotate(Rotate(a, k), Mod(-k, |a|)) == a
  {
    var n := |a|;
    var m := Mod(-k, n);
    ModCongruent(-k, n);
    DivModSplit(m + k, n);
    var q := (m + k) / n;
    assert m + k == q * n;
    forall t | 0 <= t < n ensures Rotate(Rotate(a, k), m)[t] == a[t] {
      RotateRotateAt(a, k, m, t);
      assert t + m + k == t + q * n;
      WrapPlus(t, q, n);
      assert Wrap(t, n) == t;
    }
  }

  /** The last element of `rotate(a, k + 1)` is `a[mod(k, |a|)]`: the fact the assertions of
      src/scales.ts:102-103 rely on. */
  lemma {:induction false} RotateLast<X>(a: seq<X>, k: int)
    requires |a| > 0
    ensures Rotate(a, k + 1)[|a| - 1] == a[Mod(k, |a|)]
  {
    var n := |a|;
    WrapPlus(k, 1, n);
    WrapIsMod(k, n);
    assert n - 1 + (k + 1) == k + 1 * n;
  }

  /** `rotate` as the source writes it: two slices around `mod(k, |a|)`. */
  lemma {:induction false} RotateSlices<X>(a: seq<X>, k: int)
    requires |a| > 0
    ensures Rotate(a, k) == a[Mod(k, |a|)..] + a[..Mod(k, |a|)]
  {
    var m := Mod(k, |a|);
    forall i | 0 <= i < |a| ensures Rotate(a, k)[i] == (a[m..] + a[..m])[i] {
      SlicesAt(a, k, i);
    }
  }

  /** Rotation is a permutation. */
  lemma {:induction false} RotateMultiset<X>(a: seq<X>, k: int)
    ensures multiset(Rotate(a, k)) == multiset(a)
  {
    if |a| > 0 {
      var m := Mod(k, |a|);
      RotateSlices(a, k);
      assert a == a[..m] + a[m..];
    }
  }

  lemma {:induction false} RotateSum(a: Steps, k: int)
    ensures Sum(Rotate(a, k)) == Sum(a)
  {
    if |a| > 0 {
      var m := Mod(k, |a|);
      RotateSlices(a, k);
      SumConcat(a[m..], a[..m]);
      SumConcat(a[..m], a[m..]);
      assert a == a[..m] + a[m..];
    }
  }

  lemma RotateSteps(a: Steps, k: int)
    requires IsStepSeq(a)
    ensures IsStepSeq(Rotate(a, k))
  {
  }
}
