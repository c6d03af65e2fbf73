/** Sequence operations behind the source's `filter`, `flatMap` and `[...new Set(xs)]`. */
module Seqs {

  ghost predicate Distinct<T>(xs: seq<T>)
  {
    forall i, j :: 0 <= i < j < |xs| ==> xs[i] != xs[j]
  }

  /** The position of the first occurrence of `x` in `xs`. */
  ghost function IndexOf<T>(xs: seq<T>, x: T): (k: nat)
    requires x in xs
    ensures k < |xs| && xs[k] == x && x !in xs[..k]
  {
    if xs[0] == x then 0 else 1 + IndexOf(xs[1..], x)
  }

  /** `a` is an order-preserving subsequence of `b` (greedy matching is complete). */
  ghost predicate IsSubsequence<T>(a: seq<T>, b: seq<T>)
    decreases |b|
  {
    if a == [] then true
    else if b == [] then false
    else if a[0] == b[0] then IsSubsequence(a[1..], b[1..])
    else IsSubsequence(a, b[1..])
  }

  /** `xs.filter(keep)`: the kept elements, in their order. */
  function Filter<T(!new)>(xs: seq<T>, keep: T -> bool): (r: seq<T>)
    ensures |r| <= |xs|
    ensures forall x :: x in r <==> x in xs && keep(x)
    decreases |xs|
  {
    if xs == [] then []
    else if keep(xs[0]) then [xs[0]] + Filter(xs[1..], keep)
    else Filter(xs[1..], keep)
  }

  /** What `filter` keeps stays in order. */
  lemma {:induction false} FilterIsSubsequence<T(!new)>(xs: seq<T>, keep: T -> bool)
    ensures IsSubsequence(Filter(xs, keep), xs)
    decreases |xs|
  {
    if xs != [] {
      FilterIsSubsequence(xs[1..], keep);
      var r := Filter(xs, keep);
      if !keep(xs[0]) && r != [] {
        assert r[0] in r;
      }
    }
  }

  /** `filter` keeps a kept value as often as it occurs, and drops every other value. */
  lemma {:induction false} FilterCount<T(!new)>(xs: seq<T>, keep: T -> bool, x: T)
    ensures multiset(Filter(xs, keep))[x] == if keep(x) then multiset(xs)[x] else 0
    decreases |xs|
  {
    if xs != [] {
      FilterCount(xs[1..], keep, x);
      assert xs == [xs[0]] + xs[1..];
    }
  }

  /** `filter` keeps the relative order of first occurrences. */
  lemma {:induction false} FilterKeepsIndexOrder<T(!new)>(xs: seq<T>, keep: T -> bool, x: T, y: T)
    requires x in Filter(xs, keep) && y in Filter(xs, keep)
    requires IndexOf(Filter(xs, keep), x) < IndexOf(Filter(xs, keep), y)
    ensures x in xs && y in xs && IndexOf(xs, x) < IndexOf(xs, y)
    decreases |xs|
  {
    var f := Filter(xs, keep);
    if keep(xs[0]) {
      assert f == [xs[0]] + Filter(xs[1..], keep);
      if x != xs[0] {
        FilterKeepsIndexOrder(xs[1..], keep, x, y);
      }
    } else {
      FilterKeepsIndexOrder(xs[1..], keep, x, y);
    }
  }

  /** An element that is not in the middle part, and that occurs at most once in the last
      part and not at all there when it is the head, occurs at most once in the whole. */
  lemma AtMostOnceInParts<T>(head: T, middle: seq<T>, last: seq<T>, x: T)
    requires x !in middle && head !in last && multiset(last)[x] <= 1
    ensures multiset([head] + middle + last)[x] <= 1
  {
  }

  /** An element in at most one of two parts, at most once there, occurs at most once in
      their concatenation. */
  lemma AtMostOnceInEither<T>(a: seq<T>, b: seq<T>, x: T)
    requires multiset(a)[x] <= 1 && multiset(b)[x] <= 1 && !(x in a && x in b)
    ensures multiset(a + b)[x] <= 1
  {
  }

  lemma {:induction false} FilterAppend<T(!new)>(xs: seq<T>, ys: seq<T>, keep: T -> bool)
    ensures Filter(xs + ys, keep) == Filter(xs, keep) + Filter(ys, keep)
    decreases |xs|
  {
    if xs != [] {
      assert (xs + ys)[0] == xs[0] && (xs + ys)[1..] == xs[1..] + ys;
      FilterAppend(xs[1..], ys, keep);
      if keep(xs[0]) {
        AppendAssoc([xs[0]], Filter(xs[1..], keep), Filter(ys, keep));
      }
    } else {
      assert xs + ys == ys;
    }
  }

  /** A filter that keeps every element returns its input. */
  lemma {:induction false} FilterKeepsAll<T(!new)>(xs: seq<T>, keep: T -> bool)
    requires forall x :: x in xs ==> keep(x)
    ensures Filter(xs, keep) == xs
    decreases |xs|
  {
    if xs != [] {
      assert forall x :: x in xs[1..] ==> x in xs;
      FilterKeepsAll(xs[1..], keep);
      assert xs == [xs[0]] + xs[1..];
    }
  }

  /** A subsequence of a duplicate-free sequence is duplicate-free. */
  lemma {:induction false} SubsequenceDistinct<T>(a: seq<T>, b: seq<T>)
    requires IsSubsequence(a, b) && Distinct(b)
    ensures Distinct(a) && forall x :: x in a ==> x in b
    decreases |b|
  {
    if a != [] {
      assert Distinct(b[1..]);
      if a[0] == b[0] {
        SubsequenceDistinct(a[1..], b[1..]);
        assert b[0] !in b[1..];
        assert a == [a[0]] + a[1..];
      } else {
        SubsequenceDistinct(a, b[1..]);
      }
    }
  }

  /** `[...new Set(xs)]`: each element once, at the place of its first occurrence. */
  function Dedup<T(==,!new)>(xs: seq<T>): (r: seq<T>)
    ensures Distinct(r)
    ensures forall x :: x in r <==> x in xs
    decreases |xs|
  {
    if xs == [] then []
    else
      var d := Dedup(xs[..|xs| - 1]);
      var x := xs[|xs| - 1];
      assert forall y :: y in xs <==> y in xs[..|xs| - 1] || y == x by {
        assert xs == xs[..|xs| - 1] + [x];
      }
      if x in d then d else d + [x]
  }

  /** The de-duplicated elements keep the order of their first occurrences. */
  lemma {:induction false} DedupKeepsFirstOccurrences<T(!new)>(xs: seq<T>)
    ensures forall i, j :: 0 <= i < j < |Dedup(xs)| ==> IndexOf(xs, Dedup(xs)[i]) < IndexOf(xs, Dedup(xs)[j])
    decreases |xs|
  {
    if xs != [] {
      var init := xs[..|xs| - 1];
      var x := xs[|xs| - 1];
      var d := Dedup(init);
      DedupKeepsFirstOccurrences(init);
      forall y | y in init ensures IndexOf(xs, y) == IndexOf(init, y) {
        IndexOfPrefix(init, xs, y);
      }
      if x !in d {
        assert x !in init;
        assert IndexOf(xs, x) == |xs| - 1;
        var r := d + [x];
        assert Dedup(xs) == r;
        assert forall y :: y in r ==> y in xs;
        forall i, j | 0 <= i < j < |r| ensures IndexOf(xs, r[i]) < IndexOf(xs, r[j]) {
          assert r[i] in d && r[i] in init;
          if j < |d| {
            assert r[j] in init;
          }
        }
      }
    }
  }

  /** The first occurrence of an element of a prefix is the same in the whole sequence. */
  lemma {:induction false} IndexOfPrefix<T>(p: seq<T>, xs: seq<T>, y: T)
    requires |p| <= |xs| && p == xs[..|p|] && y in p
    ensures y in xs && IndexOf(xs, y) == IndexOf(p, y)
    decreases |p|
  {
    assert y == p[IndexOf(p, y)];
    if p[0] != y {
      IndexOfPrefix(p[1..], xs[1..], y);
    }
  }

  /** A duplicate-free sequence is its own de-duplication. */
  lemma {:induction false} DedupDistinct<T(!new)>(xs: seq<T>)
    requires Distinct(xs)
    ensures Dedup(xs) == xs
    decreases |xs|
  {
    if xs != [] {
      var init := xs[..|xs| - 1];
      assert Distinct(init);
      DedupDistinct(init);
      assert xs[|xs| - 1] !in init;
      assert init + [xs[|xs| - 1]] == xs;
    }
  }

  /** `xs.flatMap(f)`. */
  function FlatMap<T, U(!new)>(xs: seq<T>, f: T -> seq<U>): (r: seq<U>)
    ensures forall u :: u in r <==> exists i :: 0 <= i < |xs| && u in f(xs[i])
    decreases |xs|
  {
    if xs == [] then []
    else
      var rest := FlatMap(xs[1..], f);
      assert forall i :: 1 <= i < |xs| ==> xs[i] == xs[1..][i - 1];
      f(xs[0]) + rest
  }

  /** `xs.map(f)`. */
  function Map<T, U>(xs: seq<T>, f: T -> U): (r: seq<U>)
    ensures |r| == |xs| && forall i :: 0 <= i < |xs| ==> r[i] == f(xs[i])
  {
    seq(|xs|, i requires 0 <= i < |xs| => f(xs[i]))
  }

  /** Two sequences that differ only in a head with the same image map alike. */
  lemma MapSameHead<T, U>(p: seq<T>, q: seq<T>, f: T -> U)
    requires |p| == |q| >= 1 && p[1..] == q[1..] && f(p[0]) == f(q[0])
    ensures Map(p, f) == Map(q, f)
  {
    assert forall i :: 1 <= i < |p| ==> p[i] == p[1..][i - 1] == q[i];
  }

  /** Mapping distributes over concatenation. */
  lemma MapAppend<T, U>(p: seq<T>, q: seq<T>, f: T -> U)
    ensures Map(p + q, f) == Map(p, f) + Map(q, f)
  {
  }

  lemma AppendAssoc<T>(a: seq<T>, b: seq<T>, c: seq<T>)
    ensures a + (b + c) == (a + b) + c
  {
  }
}
