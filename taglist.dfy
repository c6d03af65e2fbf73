/** `allTags`: the tags in use, each once, in the order of the default string sort. */
module TagList {
  import opened Strings
  import opened Seqs
  import opened Bookmarks

  ghost predicate StrictlySorted(xs: seq<string>)
  {
    forall i, j :: 0 <= i < j < |xs| ==> LexLess(xs[i], xs[j])
  }

  /** Some bookmark of the list carries tag `t`. */
  predicate InUse(flat: seq<Bookmark>, t: string)
  {
    exists i :: 0 <= i < |flat| && t in flat[i].tagNames
  }

  /** Inserts a new string into a strictly sorted list at its place. */
  function InsertSorted(x: string, xs: seq<string>): (r: seq<string>)
    requires StrictlySorted(xs) && x !in xs
    ensures StrictlySorted(r)
    ensures |r| == |xs| + 1
    ensures forall y :: y in r <==> y in xs || y == x
    decreases |xs|
  {
    if xs == [] then [x]
    else if LexLess(x, xs[0]) then
      assert forall j :: 0 <= j < |xs| ==> LexLess(x, xs[j]) by {
        forall j | 0 < j < |xs| ensures LexLess(x, xs[j]) {
          LexLessTransitive(x, xs[0], xs[j]);
        }
      }
      [x] + xs
    else
      LexLessTotal(x, xs[0]);
      var rest := InsertSorted(x, xs[1..]);
      assert forall y :: y in rest ==> LexLess(xs[0], y);
      [xs[0]] + rest
  }

  /** The default `sort()` of a duplicate-free list of strings. */
  function SortStrings(xs: seq<string>): (r: seq<string>)
    requires Distinct(xs)
    ensures StrictlySorted(r)
    ensures |r| == |xs|
    ensures forall y :: y in r <==> y in xs
    decreases |xs|
  {
    if xs == [] then []
    else
      var init := xs[..|xs| - 1];
      assert Distinct(init);
      assert xs == init + [xs[|xs| - 1]];
      InsertSorted(xs[|xs| - 1], SortStrings(init))
  }

  /** `[...new Set(flat.flatMap(b => b.tag_names))].sort()`: strictly sorted, so free of
      duplicates, and holding exactly the tags some bookmark carries. */
  function SortedTags(flat: seq<Bookmark>): (r: seq<string>)
    ensures StrictlySorted(r)
    ensures forall t :: t in r <==> InUse(flat, t)
  {
    SortStrings(Dedup(FlatMap(flat, (b: Bookmark) => b.tagNames)))
  }

  /** A strictly sorted list is determined by its elements: the tag list is the one
      sorted arrangement of the tags in use. */
  lemma {:induction false} StrictlySortedUnique(a: seq<string>, b: seq<string>)
    requires StrictlySorted(a) && StrictlySorted(b)
    requires forall y :: y in a <==> y in b
    ensures a == b
    decreases |a|
  {
    SameElementsEmpty(a, b);
    if a != [] {
      HeadsAgree(a, b);
      forall y ensures y in a[1..] <==> y in b[1..] {
        if y in a[1..] {
          var i :| 1 <= i < |a| && a[i] == y;
          LexLessIrreflexive(a[0]);
          assert y in b && y != b[0];
        }
        if y in b[1..] {
          var i :| 1 <= i < |b| && b[i] == y;
          LexLessIrreflexive(b[0]);
          assert y in a && y != a[0];
        }
      }
      StrictlySortedUnique(a[1..], b[1..]);
      assert a == [a[0]] + a[1..] && b == [b[0]] + b[1..];
    }
  }

  /** Strictly sorted lists with the same elements start alike. */
  lemma HeadsAgree(a: seq<string>, b: seq<string>)
    requires a != [] && b != [] && StrictlySorted(a) && StrictlySorted(b)
    requires forall y :: y in a <==> y in b
    ensures a[0] == b[0]
  {
    HeadNotBelow(a, b);
    HeadNotBelow(b, a);
    if a[0] != b[0] {
      LexLessTotal(a[0], b[0]);
    }
  }

  /** The first element of one list is not below the first of a list with the same
      elements: that one would also be in the first list, after its first element. */
  lemma HeadNotBelow(a: seq<string>, b: seq<string>)
    requires a != [] && b != [] && StrictlySorted(a) && StrictlySorted(b)
    requires forall y :: y in a <==> y in b
    ensures !LexLess(a[0], b[0])
  {
    assert a[0] in a;
    var j :| 0 <= j < |b| && b[j] == a[0];
    LexLessIrreflexive(a[0]);
    if j > 0 && LexLess(a[0], b[0]) {
      LexLessTransitive(a[0], b[0], a[0]);
    }
  }

  /** Lists with the same elements are empty together. */
  lemma SameElementsEmpty(a: seq<string>, b: seq<string>)
    requires forall y :: y in a <==> y in b
    ensures a == [] <==> b == []
  {
    if a != [] { assert a[0] in b; }
    if b != [] { assert b[0] in a; }
  }

  /** The tag list does not depend on the order of the bookmarks or on repeated tags. */
  lemma SortedTagsCanonical(flat: seq<Bookmark>, other: seq<Bookmark>)
    requires forall t :: InUse(flat, t) <==> InUse(other, t)
    ensures SortedTags(flat) == SortedTags(other)
  {
    StrictlySortedUnique(SortedTags(flat), SortedTags(other));
  }
}
