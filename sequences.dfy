/** Sequence helpers shared by the model: filtering in order, and the two
    ways the source glues a list of strings into one string
    (Python's `sep.join(xs)` and `"".join(xs)`). */
module Sequences {

  /** The elements of `xs` that satisfy `p`, in their original order. */
  function Select<T>(xs: seq<T>, p: T -> bool): (r: seq<T>)
    ensures |r| <= |xs|
  {
    if xs == [] then [] else (if p(xs[0]) then [xs[0]] else []) + Select(xs[1..], p)
  }

  /** An element is selected exactly when it occurs in the input and satisfies `p`. */
  lemma {:induction false} SelectMembers<T>(xs: seq<T>, p: T -> bool, x: T)
    ensures x in Select(xs, p) <==> x in xs && p(x)
  {
    if xs != [] {
      SelectMembers(xs[1..], p, x);
      assert xs == [xs[0]] + xs[1..];
    }
  }

  /** Selecting from a non-empty sequence decides on its first element, then selects from the rest. */
  lemma SelectCons<T>(x: T, xs: seq<T>, p: T -> bool)
    ensures Select([x] + xs, p) == (if p(x) then [x] else []) + Select(xs, p)
  {
    assert ([x] + xs)[1..] == xs;
  }

  /** Selecting from a concatenation selects from each part. */
  lemma {:induction false} SelectAppend<T>(xs: seq<T>, ys: seq<T>, p: T -> bool)
    ensures Select(xs + ys, p) == Select(xs, p) + Select(ys, p)
  {
    if xs != [] {
      SelectAppend(xs[1..], ys, p);
      assert (xs + ys)[1..] == xs[1..] + ys;
    } else {
      assert xs + ys == ys;
    }
  }

  /** Selecting from a sequence extended by one element decides on that element last. */
  lemma SelectSnoc<T>(xs: seq<T>, x: T, p: T -> bool)
    ensures Select(xs + [x], p) == Select(xs, p) + (if p(x) then [x] else [])
  {
    SelectAppend(xs, [x], p);
    SelectCons(x, [], p);
    assert [x] + [] == [x];
  }

  /** Selecting keeps the order of the input: if the input is strictly
      increasing in some rank, so is the selection. */
  lemma {:induction false} SelectKeepsOrder<T>(xs: seq<T>, p: T -> bool, rank: T -> int)
    requires forall i, j :: 0 <= i < j < |xs| ==> rank(xs[i]) < rank(xs[j])
    ensures forall i, j :: 0 <= i < j < |Select(xs, p)| ==>
      rank(Select(xs, p)[i]) < rank(Select(xs, p)[j])
  {
    if xs != [] {
      var rest := Select(xs[1..], p);
      SelectKeepsOrder(xs[1..], p, rank);
      forall y | y in rest ensures rank(xs[0]) < rank(y) {
        SelectMembers(xs[1..], p, y);
        var k :| 0 <= k < |xs[1..]| && xs[1..][k] == y;
        assert xs[k + 1] == y;
      }
    }
  }

  /** Python's `sep.join(xs)`: the strings of `xs` with `sep` between neighbours. */
  function Join(sep: string, xs: seq<string>): (r: string)
    ensures xs == [] ==> r == ""
    ensures |xs| == 1 ==> r == xs[0]
  {
    if xs == [] then "" else if |xs| == 1 then xs[0] else xs[0] + sep + Join(sep, xs[1..])
  }

  /** Python's `"".join(xs)`. */
  function Concat(xs: seq<string>): (r: string)
    ensures xs == [] ==> r == ""
  {
    if xs == [] then "" else xs[0] + Concat(xs[1..])
  }

  /** `a` occurs in `b` starting at position `i`. */
  predicate OccursAt(a: string, b: string, i: int)
  {
    0 <= i <= |b| - |a| && b[i..i + |a|] == a
  }

  /** `a` occurs in `b` as a contiguous piece. */
  ghost predicate Occurs(a: string, b: string)
  {
    exists i :: OccursAt(a, b, i)
  }

  lemma OccursInLeft(a: string, b: string, c: string)
    requires Occurs(a, b)
    ensures Occurs(a, b + c)
  {
    var i :| OccursAt(a, b, i);
    assert (b + c)[i..i + |a|] == a;
    assert OccursAt(a, b + c, i);
  }

  lemma OccursInRight(a: string, b: string, c: string)
    requires Occurs(a, c)
    ensures Occurs(a, b + c)
  {
    var i :| OccursAt(a, c, i);
    assert (b + c)[|b| + i..|b| + i + |a|] == a;
    assert OccursAt(a, b + c, |b| + i);
  }

  /** Every joined element is still readable in the joined string. */
  lemma {:induction false} JoinContains(sep: string, xs: seq<string>, x: string)
    requires x in xs
    ensures Occurs(x, Join(sep, xs))
  {
    if |xs| == 1 {
      assert OccursAt(x, Join(sep, xs), 0);
    } else if x == xs[0] {
      assert Join(sep, xs)[0..|x|] == x;
      assert OccursAt(x, Join(sep, xs), 0);
    } else {
      JoinContains(sep, xs[1..], x);
      OccursInRight(x, xs[0] + sep, Join(sep, xs[1..]));
      assert Join(sep, xs) == (xs[0] + sep) + Join(sep, xs[1..]);
    }
  }

  /** Every concatenated element is still readable in the concatenation. */
  lemma {:induction false} ConcatContains(xs: seq<string>, x: string)
    requires x in xs
    ensures Occurs(x, Concat(xs))
  {
    if x == xs[0] {
      assert Concat(xs)[0..|x|] == x;
      assert OccursAt(x, Concat(xs), 0);
    } else {
      ConcatContains(xs[1..], x);
      OccursInRight(x, xs[0], Concat(xs[1..]));
    }
  }
}
