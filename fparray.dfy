/** The array combinators scales.ts takes from fp-ts/lib/Array (`zip`, `flatten`) and from
    JavaScript's `Array.prototype.map`, as functions on sequences. */
module FpArray {

  /** `zip`: pairs up equal positions and stops at the end of the shorter list. */
  function Zip<X, Y>(a: seq<X>, b: seq<Y>): (z: seq<(X, Y)>)
    ensures |z| == if |a| < |b| then |a| else |b|
    ensures forall i :: 0 <= i < |z| ==> z[i] == (a[i], b[i])
  {
    if |a| == 0 || |b| == 0 then [] else [(a[0], b[0])] + Zip(a[1..], b[1..])
  }

  /** `xs.map(f)`: keeps length and order. */
  function Map<X, Y>(f: X -> Y, xs: seq<X>): (ys: seq<Y>)
    ensures |ys| == |xs|
    ensures forall i :: 0 <= i < |xs| ==> ys[i] == f(xs[i])
  {
    if xs == [] then [] else [f(xs[0])] + Map(f, xs[1..])
  }

  /** `flatten`: concatenates the lists in order. */
  function Flatten<X>(xss: seq<seq<X>>): seq<X>
  {
    if xss == [] then [] else xss[0] + Flatten(xss[1..])
  }

  /** An element of the flattened list is an element of one of the lists, and conversely. */
  lemma {:induction false} FlattenMember<X>(xss: seq<seq<X>>, x: X)
    ensures x in Flatten(xss) <==> exists i :: 0 <= i < |xss| && x in xss[i]
    decreases |xss|
  {
    if xss != [] {
      FlattenMember(xss[1..], x);
      if x in Flatten(xss[1..]) {
        var i :| 0 <= i < |xss[1..]| && x in xss[1..][i];
        assert x in xss[i + 1];
      }
      if exists i :: 0 <= i < |xss| && x in xss[i] {
        var i :| 0 <= i < |xss| && x in xss[i];
        if i > 0 {
          assert x in xss[1..][i - 1];
        }
      }
    }
  }

  /** Flattening a mapped list: an element comes from the image of one of the entries. */
  lemma FlattenMapMember<X, Y, Z>(f: Y -> seq<Z>, g: X -> Y, xs: seq<X>, z: Z)
    ensures z in Flatten(Map(f, Map(g, xs))) <==> exists i :: 0 <= i < |xs| && z in f(g(xs[i]))
  {
    var ms := Map(f, Map(g, xs));
    FlattenMember(ms, z);
    if exists i :: 0 <= i < |xs| && z in f(g(xs[i])) {
      var i :| 0 <= i < |xs| && z in f(g(xs[i]));
      assert z in ms[i];
    }
  }

  /** The block of the `i`-th list sits between the blocks before it and those after it. */
  lemma {:induction false} FlattenSplit<X>(xss: seq<seq<X>>, i: int)
    requires 0 <= i < |xss|
    ensures Flatten(xss) == Flatten(xss[..i]) + xss[i] + Flatten(xss[i + 1..])
    decreases i
  {
    if i == 0 {
      assert xss[..0] == [];
      assert xss[1..] == xss[i + 1..];
    } else {
      var tl := xss[1..];
      FlattenSplit(tl, i - 1);
      assert tl[..i - 1] == xss[..i][1..];
      assert tl[i - 1] == xss[i];
      assert tl[i..] == xss[i + 1..];
      assert xss[..i] != [] && xss[..i][0] == xss[0];
      assert Flatten(xss[..i]) == xss[0] + Flatten(tl[..i - 1]);
    }
  }

  /** The `j`-th entry of the `i`-th list sits `j` places after the entries of the earlier
      lists. */
  lemma FlattenAt<X>(xss: seq<seq<X>>, i: int, j: int)
    requires 0 <= i < |xss| && 0 <= j < |xss[i]|
    ensures |Flatten(xss[..i])| + j < |Flatten(xss)|
    ensures Flatten(xss)[|Flatten(xss[..i])| + j] == xss[i][j]
  {
    var front, back := Flatten(xss[..i]), Flatten(xss[i + 1..]);
    FlattenSplit(xss, i);
    assert (front + xss[i] + back)[|front| + j] == xss[i][j];
  }

  /** `r` keeps some of the entries of `xs`, in their order. */
  ghost predicate IsSubsequence<X>(r: seq<X>, xs: seq<X>)
    decreases |xs|
  {
    r == [] || (xs != [] && ((r[0] == xs[0] && IsSubsequence(r[1..], xs[1..])) || IsSubsequence(r, xs[1..])))
  }

  /** `xs.filter(f)`: the entries that pass, in their order, each occurrence of a passing
      value kept and every other value dropped. */
  function Filter<X(!new)>(f: X -> bool, xs: seq<X>): (r: seq<X>)
    ensures IsSubsequence(r, xs)
    ensures forall i :: 0 <= i < |r| ==> f(r[i])
    ensures forall x :: multiset(r)[x] == if f(x) then multiset(xs)[x] else 0
  {
    if xs == [] then []
    else
      assert xs == [xs[0]] + xs[1..];
      if f(xs[0]) then [xs[0]] + Filter(f, xs[1..]) else Filter(f, xs[1..])
  }

  /** Exactly the entries that pass are kept. */
  lemma {:induction false} FilterMember<X(!new)>(f: X -> bool, xs: seq<X>, x: X)
    ensures x in Filter(f, xs) <==> x in xs && f(x)
    decreases |xs|
  {
    if xs != [] {
      FilterMember(f, xs[1..], x);
      assert xs == [xs[0]] + xs[1..];
    }
  }
}
