/** `groupBookmarksByTag`: the map from tag to the bookmarks filed under it. The same
    function appears in manager.js, view.js and options.js; this one model serves all three. */
module Grouping {
  import opened Seqs
  import opened Bookmarks

  type ByTag = map<string, seq<Bookmark>>

  /** `m[t] || []`. */
  function Get(m: ByTag, t: string): seq<Bookmark>
  {
    if t in m then m[t] else []
  }

  /** One `push` of the loop: create the bucket if missing, then append. */
  function Push(m: ByTag, t: string, b: Bookmark): ByTag
  {
    m[t := Get(m, t) + [b]]
  }

  /** Files `b` under each of `tags`, front to back. */
  function FileUnder(m: ByTag, b: Bookmark, tags: seq<string>): ByTag
    decreases |tags|
  {
    if tags == [] then m else FileUnder(Push(m, tags[0], b), b, tags[1..])
  }

  /** The grouping of a list: the grouping of all but the last, then the last filed. */
  function Grouped(bookmarks: seq<Bookmark>): ByTag
    decreases |bookmarks|
  {
    if bookmarks == [] then map[]
    else
      var last := bookmarks[|bookmarks| - 1];
      FileUnder(Grouped(bookmarks[..|bookmarks| - 1]), last, BucketTags(last))
  }

  /** How often `t` occurs in `xs`. */
  function Count(xs: seq<string>, t: string): nat
    decreases |xs|
  {
    if xs == [] then 0 else (if xs[0] == t then 1 else 0) + Count(xs[1..], t)
  }

  function Repeat(b: Bookmark, n: nat): seq<Bookmark>
  {
    seq(n, _ => b)
  }

  /** The reference bucket of `t`: the bookmarks in input order, each as many times as it
      lists `t` among its bucket tags. */
  function Bucket(bookmarks: seq<Bookmark>, t: string): seq<Bookmark>
    decreases |bookmarks|
  {
    if bookmarks == [] then []
    else
      var last := bookmarks[|bookmarks| - 1];
      Bucket(bookmarks[..|bookmarks| - 1], t) + Repeat(last, Count(BucketTags(last), t))
  }

  /** The loop of `groupBookmarksByTag`. */
  method GroupBookmarksByTag(bookmarks: seq<Bookmark>) returns (byTag: ByTag)
    ensures byTag == Grouped(bookmarks)
  {
    byTag := map[];
    var i := 0;
    while i < |bookmarks|
      invariant 0 <= i <= |bookmarks|
      invariant byTag == Grouped(bookmarks[..i])
    {
      var bookmark := bookmarks[i];
      var tags := BucketTags(bookmark);
      ghost var before := byTag;
      var j := 0;
      while j < |tags|
        invariant 0 <= j <= |tags|
        invariant FileUnder(byTag, bookmark, tags[j..]) == FileUnder(before, bookmark, tags)
      {
        var tag := tags[j];
        ghost var prev := byTag;
        if tag !in byTag {
          byTag := byTag[tag := []];
        }
        PushByUpdate(prev, byTag, tag, bookmark);
        byTag := byTag[tag := byTag[tag] + [bookmark]];
        j := j + 1;
        FileUnderStep(before, prev, byTag, bookmark, tags, j);
      }
      FileUnderDone(before, byTag, bookmark, tags, j);
      GroupedStep(bookmarks, i);
      i := i + 1;
    }
    assert bookmarks[..|bookmarks|] == bookmarks;
  }

  /** Filing from position `j - 1` on is one push, then filing from `j` on; so one more
      push keeps what is left to file leading to the same grouping. */
  lemma FileUnderStep(goal: ByTag, m: ByTag, pushed: ByTag, b: Bookmark, tags: seq<string>, j: nat)
    requires 0 < j <= |tags| && pushed == Push(m, tags[j - 1], b)
    requires FileUnder(m, b, tags[j - 1..]) == FileUnder(goal, b, tags)
    ensures FileUnder(pushed, b, tags[j..]) == FileUnder(goal, b, tags)
  {
    assert tags[j - 1..][1..] == tags[j..];
  }

  /** Once every tag is filed, the grouping is the filed one. */
  lemma FileUnderDone(goal: ByTag, m: ByTag, b: Bookmark, tags: seq<string>, j: nat)
    requires j == |tags| && FileUnder(m, b, tags[j..]) == FileUnder(goal, b, tags)
    ensures m == FileUnder(goal, b, tags)
  {
    assert tags[j..] == [];
  }

  /** Creating the bucket when it is missing and then appending is one push. */
  lemma PushByUpdate(m: ByTag, m1: ByTag, t: string, b: Bookmark)
    requires m1 == (if t in m then m else m[t := []])
    ensures t in m1 && m1[t := m1[t] + [b]] == Push(m, t, b)
  {
  }

  /** The grouping of one more bookmark files that bookmark into the grouping so far. */
  lemma GroupedStep(bookmarks: seq<Bookmark>, i: nat)
    requires i < |bookmarks|
    ensures Grouped(bookmarks[..i + 1]) == FileUnder(Grouped(bookmarks[..i]), bookmarks[i], BucketTags(bookmarks[i]))
  {
    assert bookmarks[..i + 1][..i] == bookmarks[..i];
  }

  lemma {:induction false} CountPositive(xs: seq<string>, t: string)
    ensures Count(xs, t) > 0 <==> t in xs
    decreases |xs|
  {
    if xs != [] {
      CountPositive(xs[1..], t);
      assert xs == [xs[0]] + xs[1..];
    }
  }

  /** Filing under `tags` adds exactly those keys and appends `b` once per occurrence. */
  lemma FileUnderEffect(m: ByTag, b: Bookmark, tags: seq<string>, t: string)
    ensures t in FileUnder(m, b, tags) <==> t in m || t in tags
    ensures Get(FileUnder(m, b, tags), t) == Get(m, t) + Repeat(b, Count(tags, t))
  {
    FileUnderKeys(m, b, tags, t);
    FileUnderBucket(m, b, tags, t);
  }

  /** Filing under `tags` adds exactly those keys. */
  lemma {:induction false} FileUnderKeys(m: ByTag, b: Bookmark, tags: seq<string>, t: string)
    ensures t in FileUnder(m, b, tags) <==> t in m || t in tags
    decreases |tags|
  {
    if tags != [] {
      FileUnderKeys(Push(m, tags[0], b), b, tags[1..], t);
      assert tags == [tags[0]] + tags[1..];
    }
  }

  /** Filing under `tags` appends `b` to the bucket of `t` once per occurrence of `t`. */
  lemma {:induction false} FileUnderBucket(m: ByTag, b: Bookmark, tags: seq<string>, t: string)
    ensures Get(FileUnder(m, b, tags), t) == Get(m, t) + Repeat(b, Count(tags, t))
    decreases |tags|
  {
    if tags == [] {
      assert Get(m, t) + Repeat(b, 0) == Get(m, t);
    } else {
      var m' := Push(m, tags[0], b);
      FileUnderBucket(m', b, tags[1..], t);
      var n := Count(tags[1..], t);
      if tags[0] == t {
        assert Repeat(b, n + 1) == [b] + Repeat(b, n);
      } else {
        assert Get(m', t) == Get(m, t);
      }
    }
  }

  /** The grouping is the reference bucketing, and its keys are the bucket tags used. */
  lemma GroupedIsBucket(bookmarks: seq<Bookmark>, t: string)
    ensures t in Grouped(bookmarks) <==> exists i :: 0 <= i < |bookmarks| && t in BucketTags(bookmarks[i])
    ensures Get(Grouped(bookmarks), t) == Bucket(bookmarks, t)
  {
    GroupedKeysUsed(bookmarks, t);
    GroupedBucket(bookmarks, t);
  }

  /** The keys of the grouping are the bucket tags of its bookmarks. */
  lemma {:induction false} GroupedKeysUsed(bookmarks: seq<Bookmark>, t: string)
    ensures t in Grouped(bookmarks) <==> exists i :: 0 <= i < |bookmarks| && t in BucketTags(bookmarks[i])
    decreases |bookmarks|
  {
    if bookmarks != [] {
      var init := bookmarks[..|bookmarks| - 1];
      var last := bookmarks[|bookmarks| - 1];
      GroupedKeysUsed(init, t);
      FileUnderKeys(Grouped(init), last, BucketTags(last), t);
      assert forall i :: 0 <= i < |init| ==> init[i] == bookmarks[i];
      if t in Grouped(bookmarks) && !(t in BucketTags(last)) {
        var i :| 0 <= i < |init| && t in BucketTags(init[i]);
        assert t in BucketTags(bookmarks[i]);
      }
    }
  }

  /** Each bucket of the grouping is the reference bucket. */
  lemma {:induction false} GroupedBucket(bookmarks: seq<Bookmark>, t: string)
    ensures Get(Grouped(bookmarks), t) == Bucket(bookmarks, t)
    decreases |bookmarks|
  {
    if bookmarks != [] {
      var init := bookmarks[..|bookmarks| - 1];
      var last := bookmarks[|bookmarks| - 1];
      GroupedBucket(init, t);
      FileUnderBucket(Grouped(init), last, BucketTags(last), t);
    }
  }

  /** A bookmark is in the reference bucket of `t` exactly when it is in the list and files under `t`. */
  lemma {:induction false} BucketMembership(bookmarks: seq<Bookmark>, t: string, b: Bookmark)
    ensures b in Bucket(bookmarks, t) <==> b in bookmarks && t in BucketTags(b)
    decreases |bookmarks|
  {
    if bookmarks != [] {
      var init := bookmarks[..|bookmarks| - 1];
      var last := bookmarks[|bookmarks| - 1];
      BucketMembership(init, t, b);
      CountPositive(BucketTags(last), t);
      assert bookmarks == init + [last];
      var n := Count(BucketTags(last), t);
      if n > 0 {
        assert Repeat(last, n)[0] == last;
      }
    }
  }

  /** Bucket keys are exactly the tags in use, plus the untagged bucket if and only if
      some bookmark has no tag (or literally carries that name). */
  lemma GroupedKeys(bookmarks: seq<Bookmark>, t: string)
    ensures t in Grouped(bookmarks) <==>
              (exists i :: 0 <= i < |bookmarks| && t in bookmarks[i].tagNames)
              || (t == UNTAGGED && exists i :: 0 <= i < |bookmarks| && bookmarks[i].tagNames == [])
  {
    GroupedIsBucket(bookmarks, t);
  }

  /** A bookmark of the list is filed under `t` exactly when `t` is one of its bucket tags. */
  lemma GroupedMembership(bookmarks: seq<Bookmark>, t: string, b: Bookmark)
    ensures b in Get(Grouped(bookmarks), t) <==> b in bookmarks && t in BucketTags(b)
  {
    GroupedIsBucket(bookmarks, t);
    BucketMembership(bookmarks, t, b);
  }

  /** An untagged bookmark is filed under the untagged bucket and nowhere else. */
  lemma UntaggedFiledOnlyUntagged(bookmarks: seq<Bookmark>, b: Bookmark, t: string)
    requires b in bookmarks && b.tagNames == []
    ensures b in Get(Grouped(bookmarks), t) <==> t == UNTAGGED
  {
    GroupedMembership(bookmarks, t, b);
  }

  /** A tagged bookmark is filed under each of its tags, and under the untagged bucket
      only when it literally carries that name as a tag. */
  lemma TaggedFiledUnderEachTag(bookmarks: seq<Bookmark>, b: Bookmark, t: string)
    requires b in bookmarks && b.tagNames != []
    ensures b in Get(Grouped(bookmarks), t) <==> t in b.tagNames
    ensures UNTAGGED !in b.tagNames ==> b !in Get(Grouped(bookmarks), UNTAGGED)
  {
    GroupedMembership(bookmarks, t, b);
    GroupedMembership(bookmarks, UNTAGGED, b);
  }

  /** The test "is filed under `t`", as a value to filter with. */
  function FilesUnder(t: string): Bookmark -> bool
  {
    b => t in BucketTags(b)
  }

  /** With duplicate-free tag lists the bucket is the input filtered by "files under `t`". */
  lemma {:induction false} BucketIsFilter(bookmarks: seq<Bookmark>, t: string)
    requires forall b :: b in bookmarks ==> Distinct(b.tagNames)
    ensures Bucket(bookmarks, t) == Filter(bookmarks, FilesUnder(t))
    decreases |bookmarks|
  {
    if bookmarks != [] {
      var init := bookmarks[..|bookmarks| - 1];
      var last := bookmarks[|bookmarks| - 1];
      assert bookmarks == init + [last];
      assert forall b :: b in init ==> b in bookmarks;
      BucketIsFilter(init, t);
      LastFiledOnce(last, t);
      FilterAppend(init, [last], FilesUnder(t));
    }
  }

  /** A bookmark with duplicate-free tags is filed under `t` once or not at all. */
  lemma LastFiledOnce(b: Bookmark, t: string)
    requires Distinct(b.tagNames)
    ensures Filter([b], FilesUnder(t)) == Repeat(b, Count(BucketTags(b), t))
  {
    CountAtMostOne(BucketTags(b), t);
    CountPositive(BucketTags(b), t);
    if t in BucketTags(b) {
      assert Repeat(b, 1) == [b];
    }
  }

  lemma {:induction false} CountAtMostOne(xs: seq<string>, t: string)
    requires Distinct(xs)
    ensures Count(xs, t) <= 1
    decreases |xs|
  {
    if xs != [] {
      assert Distinct(xs[1..]);
      CountAtMostOne(xs[1..], t);
      if xs[0] == t {
        assert t !in xs[1..];
        CountPositive(xs[1..], t);
      }
    }
  }

  /** Each bucket lists its bookmarks in input order (for duplicate-free tag lists). */
  lemma BucketKeepsInputOrder(bookmarks: seq<Bookmark>, t: string)
    requires forall b :: b in bookmarks ==> Distinct(b.tagNames)
    ensures IsSubsequence(Get(Grouped(bookmarks), t), bookmarks)
  {
    GroupedIsBucket(bookmarks, t);
    BucketIsFilter(bookmarks, t);
    FilterIsSubsequence(bookmarks, FilesUnder(t));
  }

  /** A bookmark with duplicate-free tags sits in exactly max(1, |tags|) buckets. */
  lemma BucketCount(bookmarks: seq<Bookmark>, b: Bookmark)
    requires b in bookmarks && Distinct(b.tagNames)
    ensures |set t | t in Grouped(bookmarks) && b in Grouped(bookmarks)[t]|
            == if |b.tagNames| == 0 then 1 else |b.tagNames|
  {
    var g := Grouped(bookmarks);
    var s := set t | t in g && b in g[t];
    forall t ensures t in s <==> t in BucketTags(b) {
      GroupedMembership(bookmarks, t, b);
      GroupedIsBucket(bookmarks, t);
    }
    assert s == set t | t in BucketTags(b);
    DistinctCardinality(BucketTags(b));
  }

  lemma {:induction false} DistinctCardinality(xs: seq<string>)
    requires Distinct(xs)
    ensures |set x | x in xs| == |xs|
    decreases |xs|
  {
    if xs != [] {
      assert Distinct(xs[1..]);
      DistinctCardinality(xs[1..]);
      assert (set x | x in xs) == {xs[0]} + (set x | x in xs[1..]);
      assert xs[0] !in xs[1..];
    }
  }
}
