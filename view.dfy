/** The popup and side panel: the flat list (from the server or from the local cache),
    the grouping and tag list derived from it, and the handlers that change the list. Every
    change rebuilds both derived views and drops the cache. */
module ViewPage {
  import opened Wrappers
  import opened Strings
  import opened Seqs
  import opened Bookmarks
  import opened Grouping
  import opened TagRewrites
  import opened TagInput
  import opened TagList

  /** How long the cached list stays usable, in milliseconds (15 minutes). */
  const CACHE_DURATION: int := 15 * 60 * 1000

  /** `cachedBookmarks && cacheTimestamp && now - cacheTimestamp < 15 min`: a stored list
      (an empty one counts) with a non-zero timestamp less than 15 minutes old. */
  predicate CacheValid(cached: Option<seq<Bookmark>>, timestamp: Option<int>, now: int)
  {
    cached.Some? && timestamp.Some? && timestamp.value != 0 && now - timestamp.value < CACHE_DURATION
  }

  /** A cache written at time `ts` serves every load before `ts` plus 15 minutes and none
      from then on. */
  lemma CacheWindow(cached: seq<Bookmark>, ts: int, now: int)
    requires ts != 0
    ensures CacheValid(Some(cached), Some(ts), now) <==> now < ts + 900000
  {
  }

  /** Freshness only runs out: a cache valid at `now` was valid at every earlier time. */
  lemma CacheValidEarlier(cached: Option<seq<Bookmark>>, timestamp: Option<int>, now: int, earlier: int)
    requires CacheValid(cached, timestamp, now) && earlier <= now
    ensures CacheValid(cached, timestamp, earlier)
  {
  }

  /** The outcome of adding the current tab. */
  datatype AddResult = NotConfigured | SpecialPage | Failed | Added(bookmark: Bookmark)

  /** Tabs the popup refuses to bookmark: no URL, or a browser page. */
  predicate SpecialTab(url: Option<string>)
  {
    url.None? || url.value == "" || StartsWith(url.value, "chrome://")
  }

  /** The update the popup sends when a bookmark is dropped on `target`. */
  function ViewDropPayload(b: Bookmark, source: string, target: string): Bookmark
  {
    b.(tagNames := ViewDropTags(b.tagNames, source, target))
  }

  class View {
    var flat: seq<Bookmark>
    var byTag: ByTag
    var allTags: seq<string>
    var cached: Option<seq<Bookmark>>
    var cacheTimestamp: Option<int>

    /** The grouping and the tag list are those of the flat list. */
    ghost predicate Valid()
      reads this
    {
      byTag == Grouped(flat) && allTags == SortedTags(flat)
    }

    constructor (cached: Option<seq<Bookmark>>, cacheTimestamp: Option<int>)
      ensures flat == [] && byTag == map[] && allTags == []
      ensures this.cached == cached && this.cacheTimestamp == cacheTimestamp
      ensures Valid()
    {
      flat := [];
      byTag := map[];
      allTags := [];
      this.cached := cached;
      this.cacheTimestamp := cacheTimestamp;
    }

    /** `reRenderUI`'s derivations: regroup the flat list and rebuild the tag list. */
    method ReRender()
      modifies this
      ensures flat == old(flat) && cached == old(cached) && cacheTimestamp == old(cacheTimestamp)
      ensures Valid()
    {
      var g := GroupBookmarksByTag(flat);
      byTag := g;
      allTags := SortedTags(flat);
    }

    /** `invalidatePopupCache`. */
    method Invalidate()
      modifies this
      ensures flat == old(flat) && byTag == old(byTag) && allTags == old(allTags)
      ensures cached == None && cacheTimestamp == None
    {
      cached := None;
      cacheTimestamp := None;
    }

    /** `loadData`: without a saved address and token nothing changes. Otherwise use the
        cache when the load is not forced and the cache is fresh at `now`; else take the
        fetched list and store it with the time `fetchedAt` it was fetched. A failed fetch
        changes nothing. */
    method Load(configured: bool, forced: bool, now: int, fetched: Option<seq<Bookmark>>, fetchedAt: int)
      modifies this
      ensures configured && !forced && CacheValid(old(cached), old(cacheTimestamp), now) ==>
                flat == old(cached).value && cached == old(cached) && cacheTimestamp == old(cacheTimestamp)
                && Valid()
      ensures configured && (forced || !CacheValid(old(cached), old(cacheTimestamp), now)) && fetched.Some? ==>
                flat == fetched.value && cached == Some(fetched.value) && cacheTimestamp == Some(fetchedAt)
                && Valid()
      ensures !configured || ((forced || !CacheValid(old(cached), old(cacheTimestamp), now)) && fetched.None?) ==>
                flat == old(flat) && byTag == old(byTag) && allTags == old(allTags)
                && cached == old(cached) && cacheTimestamp == old(cacheTimestamp)
    {
      if configured {
        var valid := CacheValid(cached, cacheTimestamp, now);
        if forced || !valid {
          if fetched.Some? {
            flat := fetched.value;
            cached := fetched;
            cacheTimestamp := Some(fetchedAt);
            ReRender();
          }
        } else {
          flat := cached.value;
          ReRender();
        }
      }
    }

    /** The drop handler of a folder: nothing for a drop without a target or on its own
        folder, or for an unknown id. The answer replaces the bookmark's slot; a failed
        update is not caught and changes nothing. */
    method Drop(id: int, source: string, target: string, update: Bookmark -> Option<Bookmark>)
      returns (sent: Option<Bookmark>)
      modifies this
      ensures sent == (if target == "" || source == target || Find(old(flat), id).None? then None
                       else Some(ViewDropPayload(Find(old(flat), id).value, source, target)))
      ensures sent.None? || update(sent.value).None? ==>
                flat == old(flat) && byTag == old(byTag) && allTags == old(allTags)
                && cached == old(cached) && cacheTimestamp == old(cacheTimestamp)
      ensures sent.Some? && update(sent.value).Some? ==>
                flat == ReplaceById(old(flat), id, update(sent.value).value)
                && Valid() && cached == None && cacheTimestamp == None
    {
      if target == "" || source == target {
        return None;
      }
      var found := Find(flat, id);
      if found.None? {
        return None;
      }
      var payload := ViewDropPayload(found.value, source, target);
      sent := Some(payload);
      var reply := update(payload);
      if reply.Some? {
        flat := ReplaceById(flat, id, reply.value);
        ReRender();
        Invalidate();
      }
    }

    /** Saving an answered update of the bookmark with id `id`: its slot takes the answer,
        the views are rebuilt and the cache dropped. */
    method Store(id: int, updated: Bookmark)
      modifies this
      ensures flat == ReplaceById(old(flat), id, updated)
      ensures Valid() && cached == None && cacheTimestamp == None
    {
      flat := ReplaceById(flat, id, updated);
      ReRender();
      Invalidate();
    }

    /** The remove button on one tag of bookmark `b`. */
    method RemoveTagFrom(b: Bookmark, tagName: string, update: Bookmark -> Option<Bookmark>)
      returns (sent: Bookmark)
      modifies this
      ensures sent == b.(tagNames := RemoveTag(b.tagNames, tagName))
      ensures update(sent).None? ==>
                flat == old(flat) && byTag == old(byTag) && allTags == old(allTags)
                && cached == old(cached) && cacheTimestamp == old(cacheTimestamp)
      ensures update(sent).Some? ==>
                flat == ReplaceById(old(flat), b.id, update(sent).value)
                && Valid() && cached == None && cacheTimestamp == None
    {
      sent := b.(tagNames := RemoveTag(b.tagNames, tagName));
      var reply := update(sent);
      if reply.Some? {
        Store(b.id, reply.value);
      }
    }

    /** The edit form's submit. */
    method SaveEdit(b: Bookmark, url: string, title: string, description: string, tagsField: string,
                    update: Bookmark -> Option<Bookmark>)
      returns (sent: Bookmark)
      modifies this
      ensures sent == EditPayload(b, url, title, description, tagsField)
      ensures update(sent).None? ==>
                flat == old(flat) && byTag == old(byTag) && allTags == old(allTags)
                && cached == old(cached) && cacheTimestamp == old(cacheTimestamp)
      ensures update(sent).Some? ==>
                flat == ReplaceById(old(flat), b.id, update(sent).value)
                && Valid() && cached == None && cacheTimestamp == None
    {
      sent := EditPayload(b, url, title, description, tagsField);
      var reply := update(sent);
      if reply.Some? {
        Store(b.id, reply.value);
      }
    }

    /** The delete button: after confirmation and a successful delete the bookmark leaves
        the list. */
    method Delete(b: Bookmark, confirmed: bool, deleted: bool)
      modifies this
      ensures !(confirmed && deleted) ==>
                flat == old(flat) && byTag == old(byTag) && allTags == old(allTags)
                && cached == old(cached) && cacheTimestamp == old(cacheTimestamp)
      ensures confirmed && deleted ==>
                flat == Without(old(flat), b.id) && Valid() && cached == None && cacheTimestamp == None
    {
      if confirmed && deleted {
        flat := Without(flat, b.id);
        ReRender();
        Invalidate();
      }
    }

    /** `addCurrentTab`: refused without settings or for a special page; otherwise the
        bookmark the server creates for the tab's URL and title is appended to the list. */
    method AddCurrentTab(configured: bool, tabUrl: Option<string>, tabTitle: string,
                         create: (string, string) -> Option<Bookmark>)
      returns (result: AddResult)
      modifies this
      ensures !configured ==> result == NotConfigured
      ensures configured && SpecialTab(tabUrl) ==> result == SpecialPage
      ensures configured && !SpecialTab(tabUrl) ==>
                result == (if create(tabUrl.value, tabTitle).None? then Failed
                           else Added(create(tabUrl.value, tabTitle).value))
      ensures !result.Added? ==>
                flat == old(flat) && byTag == old(byTag) && allTags == old(allTags)
                && cached == old(cached) && cacheTimestamp == old(cacheTimestamp)
      ensures result.Added? ==>
                flat == old(flat) + [result.bookmark] && Valid() && cached == None && cacheTimestamp == None
    {
      if !configured {
        return NotConfigured;
      }
      if SpecialTab(tabUrl) {
        return SpecialPage;
      }
      var reply := create(tabUrl.value, tabTitle);
      if reply.None? {
        return Failed;
      }
      flat := flat + [reply.value];
      ReRender();
      Invalidate();
      result := Added(reply.value);
    }
  }

  /** After a drop the server echoes, the bookmark is filed under the target folder, even
      the untagged one, whose name then becomes a real tag, and no longer under the
      source. */
  lemma ViewDropRefiles(flat: seq<Bookmark>, id: int, source: string, target: string)
    requires Find(flat, id).Some? && source != target
    ensures var p := ViewDropPayload(Find(flat, id).value, source, target);
            var g := Grouped(ReplaceById(flat, id, p));
            && p in Get(g, target)
            && p !in Get(g, source)
            && target in p.tagNames
  {
    var b := Find(flat, id).value;
    var p := ViewDropPayload(b, source, target);
    var f := ReplaceById(flat, id, p);
    assert f[FindIndex(flat, id)] == p;
    assert target in p.tagNames;
    GroupedMembership(f, target, p);
    GroupedMembership(f, source, p);
  }

  /** An added bookmark goes to the end of each of its folders; every other folder is as
      before. */
  lemma AddedGoesLast(flat: seq<Bookmark>, nb: Bookmark, t: string)
    ensures Get(Grouped(flat + [nb]), t) == Get(Grouped(flat), t) + Repeat(nb, Count(BucketTags(nb), t))
  {
    assert (flat + [nb])[..|flat + [nb]| - 1] == flat;
    FileUnderEffect(Grouped(flat), nb, BucketTags(nb), t);
  }

  /** A tab is refused exactly for a missing URL or a browser page; an ordinary web page is
      accepted. */
  lemma SpecialTabExamples()
    ensures SpecialTab(None) && SpecialTab(Some(""))
    ensures SpecialTab(Some("chrome://extensions"))
    ensures !SpecialTab(Some("https://example.com/"))
  {
    assert "chrome://extensions"[..9] == "chrome://";
    assert "https://example.com/"[0] != "chrome://"[0];
  }
}
