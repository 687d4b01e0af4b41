/** `useNearestModulo` of src/util.tsx: a stateful hook that, called with a residue `pp` and a
    modulus `m`, answers the number congruent to `pp` modulo `m` nearest to its previous answer,
    so that a position on a circle of `m` notes moves the short way round. */
module Nearest {
  import opened Util

  /** `x` is congruent to `pp` modulo `m`. */
  ghost predicate Congruent(x: int, pp: int, m: int)
    requires m > 0
  {
    (x - pp) % m == 0
  }

  /** `x` is congruent to `pp` and lies in the half-open window of width `m` centred on `q`:
      more than half a circle below `q` is excluded, exactly half a circle above is allowed. */
  ghost predicate IsNearest(x: int, q: int, pp: int, m: int)
    requires m > 0
  {
    Congruent(x, pp, m) && -m < 2 * (x - q) <= m
  }

  /** `Math.round(num / den)` for a positive denominator: the nearest integer, halves rounded
      up (toward +infinity), computed exactly on the rational `num / den`. */
  function Round(num: int, den: int): (k: int)
    requires den > 0
    ensures 2 * k * den <= 2 * num + den < 2 * k * den + 2 * den
  {
    var k := (2 * num + den) / (2 * den);
    DivModSplit(2 * num + den, 2 * den);
    assert 2 * k * den == k * (2 * den);
    k
  }

  /** src/util.tsx:71: the answer after the first, `round((q - pp) / m) * m + pp`. */
  function NextNearest(q: int, pp: int, m: int): (qq: int)
    requires m > 0
    ensures IsNearest(qq, q, pp, m)
  {
    var k := Round(q - pp, m);
    MultipleMod(k, m);
    assert 2 * (k * m) == 2 * k * m;
    k * m + pp
  }

  /** Two numbers congruent modulo `m` that differ by less than `m` are equal. */
  lemma CongruentClose(x: int, y: int, pp: int, m: int)
    requires m > 0 && Congruent(x, pp, m) && Congruent(y, pp, m) && -m < x - y < m
    ensures x == y
  {
    var a, b := (x - pp) / m, (y - pp) / m;
    DivModSplit(x - pp, m);
    DivModSplit(y - pp, m);
    assert x - y == (a - b) * m;
    if a - b >= 1 {
      MulAtLeast(a - b, m);
    } else if a - b <= -1 {
      MulAtLeast(b - a, m);
    }
  }

  /** The window holds exactly one congruent number, so `IsNearest` determines the answer. */
  lemma NearestUnique(q: int, pp: int, m: int, x: int)
    requires m > 0 && IsNearest(x, q, pp, m)
    ensures x == NextNearest(q, pp, m)
  {
    CongruentClose(x, NextNearest(q, pp, m), pp, m);
  }

  /** No number congruent to `pp` is closer to `q` than `NextNearest(q, pp, m)`. */
  lemma NextNearestIsNearest(q: int, pp: int, m: int, x: int)
    requires m > 0 && Congruent(x, pp, m)
    ensures Abs(NextNearest(q, pp, m) - q) <= Abs(x - q)
  {
    var qq := NextNearest(q, pp, m);
    var e := qq - q;
    var t := (x - qq) / m;
    assert (x - qq) % m == 0 by {
      var a, b := (x - pp) / m, (qq - pp) / m;
      DivModSplit(x - pp, m);
      DivModSplit(qq - pp, m);
      assert x - qq == (a - b) * m;
      MultipleMod(a - b, m);
    }
    DivModSplit(x - qq, m);
    assert x - q == t * m + e;
    if t >= 1 {
      MulAtLeast(t, m);
    } else if t <= -1 {
      MulAtLeast(-t, m);
      assert t * m == -((-t) * m);
    }
  }

  /** With `mod`, the source's own remainder, every answer reduces to `pp` whenever `pp` is
      already reduced: the documented promise that the answer reduces to `pp` modulo `m` holds
      for `mod`. */
  lemma NearestReduces(x: int, q: int, pp: int, m: int)
    requires 0 <= pp < m && IsNearest(x, q, pp, m)
    ensures Mod(x, m) == pp
  {
    var k := (x - pp) / m;
    DivModSplit(x - pp, m);
    DivModUnique(x, m, k, pp);
    ModIsEuclidean(x, m);
  }

  /** The same promise read with JavaScript's `%` fails on the documented second call: the
      nearest answer to 0 congruent to 10 modulo 12 is -2, and -2 % 12 is -2, not 10. */
  lemma PromiseFailsForJsRem()
    ensures IsNearest(-2, 0, 10, 12) && NextNearest(0, 10, 12) == -2
    ensures JsRem(NextNearest(0, 10, 12), 12) == -2 != 10
  {
    NearestUnique(0, 10, 12, -2);
  }

  /** The hook's reference `q`: `None` before the first call, then the previous answer. */
  class NearestModulo {
    var q: Option<int>

    constructor ()
      ensures q == None
    {
      q := None;
    }

    /** One call `useNearestModulo(pp, m)`: the first answers `pp` itself, every later one the
        number congruent to `pp` nearest to the previous answer; the answer is recorded. */
    method Use(pp: int, m: int) returns (qq: int)
      requires m > 0
      modifies this
      ensures old(q).None? ==> qq == pp
      ensures old(q).Some? ==> IsNearest(qq, old(q).value, pp, m)
      ensures q == Some(qq)
    {
      if q.None? {
        q := Some(pp);
        return pp;
      }
      qq := NextNearest(q.value, pp, m);
      q := Some(qq);
    }
  }

  /** The sequence of calls documented in the source, on a fresh hook with twelve notes. */
  method DocumentedCalls() returns (answers: seq<int>)
    ensures answers == [0, -2, 3, 7, 10]
  {
    var h := new NearestModulo();
    var a := h.Use(0, 12);
    var b := h.Use(10, 12);
    DocumentedStep(b, a, 10, -2);
    var c := h.Use(3, 12);
    DocumentedStep(c, b, 3, 3);
    var d := h.Use(7, 12);
    DocumentedStep(d, c, 7, 7);
    var e := h.Use(10, 12);
    DocumentedStep(e, d, 10, 10);
    answers := [a, b, c, d, e];
  }

  /** One documented call: the expected answer is the nearest one, so it is the answer. */
  lemma DocumentedStep(x: int, q: int, pp: int, expected: int)
    requires IsNearest(x, q, pp, 12) && IsNearest(expected, q, pp, 12)
    ensures x == expected
  {
    CongruentClose(x, expected, pp, 12);
  }
}
