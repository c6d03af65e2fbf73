/** The search box. The manager filters the flat list by the text fields; the popup
    filters every bucket of the grouping and also matches tag names. */
module Search {
  import opened Wrappers
  import opened Strings
  import opened Seqs
  import opened Bookmarks
  import opened Grouping

  /** `searchTerm.toLowerCase().trim()`. */
  function SearchKey(term: string): string
  {
    Trim(ToLower(term))
  }

  /** The lowered title, website title, description or URL contains `key`. */
  predicate FieldsMatch(b: Bookmark, key: string)
  {
    Contains(ToLower(b.title), key) || Contains(ToLower(b.websiteTitle), key)
    || Contains(ToLower(b.description), key) || Contains(ToLower(b.url), key)
  }

  /** The popup's test: a text field or some lowered tag name contains `key`. */
  predicate Matches(b: Bookmark, key: string)
  {
    FieldsMatch(b, key) || exists t :: t in b.tagNames && Contains(ToLower(t), key)
  }

  /** The popup's test, as a value to filter with. */
  function MatchesKey(key: string): Bookmark -> bool
  {
    b => Matches(b, key)
  }

  /** The manager's search: a blank term shows the current folder again (`None`);
      otherwise the result is the bookmarks of the flat list, in order, whose text fields
      match. Tags are not searched here. */
  function ManagerSearch(flat: seq<Bookmark>, term: string): (r: Option<seq<Bookmark>>)
    ensures r.None? <==> SearchKey(term) == ""
    ensures r.Some? ==> forall b :: b in r.value <==> b in flat && FieldsMatch(b, SearchKey(term))
    ensures r.Some? ==> IsSubsequence(r.value, flat)
  {
    var key := SearchKey(term);
    if key == "" then None
    else
      FilterIsSubsequence(flat, b => FieldsMatch(b, key));
      Some(Filter(flat, b => FieldsMatch(b, key)))
  }

  /** The popup's search result for a non-blank key: each bucket with at least one
      match, holding just its matching bookmarks. */
  function Filtered(byTag: ByTag, key: string): ByTag
  {
    map t | t in byTag && Filter(byTag[t], MatchesKey(key)) != [] :: Filter(byTag[t], MatchesKey(key))
  }

  /** The `for (const tag in allBookmarksByTag)` loop of the popup's search. */
  method FilterByTag(byTag: ByTag, term: string) returns (filtered: ByTag)
    ensures SearchKey(term) == "" ==> filtered == byTag
    ensures SearchKey(term) != "" ==> filtered == Filtered(byTag, SearchKey(term))
  {
    var key := SearchKey(term);
    if key == "" {
      return byTag;
    }
    filtered := map[];
    var remaining := byTag.Keys;
    while remaining != {}
      invariant remaining <= byTag.Keys
      invariant forall t :: t in filtered <==>
                  t in byTag && t !in remaining && Filter(byTag[t], MatchesKey(key)) != []
      invariant forall t :: t in filtered ==> filtered[t] == Filter(byTag[t], MatchesKey(key))
      decreases |remaining|
    {
      var tag :| tag in remaining;
      var matching := Filter(byTag[tag], MatchesKey(key));
      if |matching| > 0 {
        filtered := filtered[tag := matching];
      }
      remaining := remaining - {tag};
    }
    FilteredByKeys(byTag, key, filtered);
  }

  /** A grouping with exactly the folders that have a match, each holding its matches, is
      the filtered grouping. */
  lemma FilteredByKeys(byTag: ByTag, key: string, filtered: ByTag)
    requires forall t :: t in filtered <==> t in byTag && Filter(byTag[t], MatchesKey(key)) != []
    requires forall t :: t in filtered ==> filtered[t] == Filter(byTag[t], MatchesKey(key))
    ensures filtered == Filtered(byTag, key)
  {
    assert filtered.Keys == Filtered(byTag, key).Keys;
  }

  /** What the popup's search keeps: only buckets of the grouping, never empty ones, each
      an order-preserving selection of matching bookmarks; and every bucket with a match
      is kept. */
  lemma FilteredBuckets(byTag: ByTag, key: string, t: string)
    ensures t in Filtered(byTag, key) ==>
              t in byTag && Filtered(byTag, key)[t] != []
              && IsSubsequence(Filtered(byTag, key)[t], byTag[t])
              && forall b :: b in Filtered(byTag, key)[t] ==> b in byTag[t] && Matches(b, key)
    ensures t in byTag && (exists b :: b in byTag[t] && Matches(b, key)) ==> t in Filtered(byTag, key)
  {
    if t in byTag {
      FilterIsSubsequence(byTag[t], MatchesKey(key));
      if exists b :: b in byTag[t] && Matches(b, key) {
        var b :| b in byTag[t] && Matches(b, key);
        assert b in Filter(byTag[t], MatchesKey(key));
      }
    }
  }

  /** Searching the popup's grouping: a bookmark shows up under tag `t` exactly when it
      is filed under `t` and matches the key. */
  lemma SearchOfGrouping(bookmarks: seq<Bookmark>, key: string, t: string, b: Bookmark)
    ensures (t in Filtered(Grouped(bookmarks), key) && b in Filtered(Grouped(bookmarks), key)[t])
            <==> b in bookmarks && t in BucketTags(b) && Matches(b, key)
  {
    GroupedMembership(bookmarks, t, b);
    GroupedIsBucket(bookmarks, t);
    FilteredBuckets(Grouped(bookmarks), key, t);
  }
}
