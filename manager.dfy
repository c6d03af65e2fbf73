/** The bookmark manager page: the flat list fetched from the server, the grouping by tag
    the folder pane shows, and the sorted tag list the edit form's autocomplete offers,
    with the handlers that change them. */
module ManagerPage {
  import opened Wrappers
  import opened Strings
  import opened Seqs
  import opened Bookmarks
  import opened Grouping
  import opened TagRewrites
  import opened TagInput
  import opened TagList

  /** A value of `allBookmarksByTag`. A rename of a folder that is not a key stores
      `undefined` under the new name, so a slot may hold no bucket at all. */
  datatype Slot = Undefined | Items(bookmarks: seq<Bookmark>)

  /** The grouping as the page stores it: every bucket present. */
  function Slots(g: ByTag): (m: map<string, Slot>)
    ensures m.Keys == g.Keys
    ensures forall t :: t in g ==> m[t] == Items(g[t])
  {
    map t | t in g :: Items(g[t])
  }

  /** `allBookmarksByTag[t]`, where a missing key reads as `undefined`. */
  function SlotOf(byTag: map<string, Slot>, t: string): Slot
  {
    if t in byTag then byTag[t] else Undefined
  }

  /** `if (allBookmarksByTag[t])`: a bucket is truthy even when empty; a missing key or
      `undefined` is not. */
  predicate Occupied(byTag: map<string, Slot>, t: string)
  {
    SlotOf(byTag, t).Items?
  }

  /** `byTag[to] = byTag[from]; delete byTag[from]`: the slot moves to the new name; when
      the two names are the same the key is simply gone. */
  function MoveSlot(byTag: map<string, Slot>, from: string, to: string): (r: map<string, Slot>)
    ensures from !in r
    ensures from != to ==> to in r && r[to] == SlotOf(byTag, from)
    ensures forall t :: t != from && t != to ==> (t in r <==> t in byTag) && (t in r ==> r[t] == byTag[t])
  {
    byTag[to := SlotOf(byTag, from)] - {from}
  }

  /** What the page's grouping may hold besides the grouping of its flat list: every tag in
      use has a key, and each slot holds its tag's bucket, an empty bucket for a folder
      added locally, or `undefined`. */
  predicate Consistent(flat: seq<Bookmark>, byTag: map<string, Slot>)
  {
    && (forall t :: t in Grouped(flat) ==> t in byTag)
    && (forall t :: t in byTag ==>
          byTag[t] == Undefined || byTag[t] == Items([]) || byTag[t] == Items(Get(Grouped(flat), t)))
  }

  /** The grouping of a list is consistent with it. */
  lemma GroupingConsistent(flat: seq<Bookmark>)
    ensures Consistent(flat, Slots(Grouped(flat)))
  {
  }

  /** The new-folder prompt creates a folder: the name is accepted and its full tag holds
      no bucket yet. */
  predicate Creates(byTag: map<string, Slot>, parent: string, name: string)
  {
    NewFolderTag(parent, name).Name? && !Occupied(byTag, NewFolderTag(parent, name).tag)
  }

  /** An empty folder added under a new name keeps the grouping consistent. */
  lemma ConsistentNewSlot(flat: seq<Bookmark>, byTag: map<string, Slot>, tag: string)
    requires Consistent(flat, byTag)
    ensures Consistent(flat, byTag[tag := Items([])])
  {
  }

  /** The outcome of a folder handler. */
  datatype Change =
    | Unchanged                        // cancelled, blank, or the same name
    | Refused                          // a name with a `.`, or a folder that exists
    | Local                            // only the page's grouping changed
    | Sent(payloads: seq<Bookmark>)    // updates sent to the server; the page then reloads

  /** The update the manager sends when a bookmark is dropped on `target`. */
  function DropPayload(b: Bookmark, source: string, target: string): Bookmark
  {
    b.(tagNames := ManagerDropTags(b.tagNames, source, target))
  }

  /** The updates a rename of `fullTag` to `newFullTag` sends, one per affected bookmark. */
  function RenamePayloads(flat: seq<Bookmark>, fullTag: string, newFullTag: string): seq<Bookmark>
  {
    Map(AffectedBookmarks(flat, fullTag), (b: Bookmark) => b.(tagNames := RenamedTags(b.tagNames, fullTag, newFullTag)))
  }

  /** The updates a removal of `fullTag` sends, one per affected bookmark. */
  function RemovePayloads(flat: seq<Bookmark>, fullTag: string): seq<Bookmark>
  {
    Map(AffectedBookmarks(flat, fullTag), (b: Bookmark) => b.(tagNames := RemovedTags(b.tagNames, fullTag)))
  }

  class Manager {
    var flat: seq<Bookmark>
    var byTag: map<string, Slot>
    var allTags: seq<string>

    ghost predicate Valid()
      reads this
    {
      Consistent(flat, byTag)
    }

    constructor ()
      ensures flat == [] && byTag == map[] && allTags == []
      ensures Valid()
    {
      flat := [];
      byTag := map[];
      allTags := [];
    }

    /** `loadData`: without a saved address and token, or when the fetch fails, nothing
        changes; otherwise the state becomes the fetched list, its grouping and its tags. */
    method Load(configured: bool, fetched: Option<seq<Bookmark>>)
      modifies this
      ensures configured && fetched.Some? ==>
                flat == fetched.value && byTag == Slots(Grouped(fetched.value))
                && allTags == SortedTags(fetched.value) && Valid()
      ensures !configured || fetched.None? ==>
                flat == old(flat) && byTag == old(byTag) && allTags == old(allTags)
    {
      if configured && fetched.Some? {
        flat := fetched.value;
        var g := GroupBookmarksByTag(flat);
        byTag := Slots(g);
        allTags := SortedTags(flat);
      }
    }

    /** What every successful update does with the server's answer: the slot of bookmark
        `id` in the flat list takes the answer, the grouping is rebuilt from the list, and
        the tag list is rebuilt only where the handler does so. */
    method Store(id: int, updated: Bookmark, retag: bool)
      modifies this
      ensures flat == ReplaceById(old(flat), id, updated)
      ensures byTag == Slots(Grouped(flat))
      ensures allTags == if retag then SortedTags(flat) else old(allTags)
      ensures Valid()
    {
      var index := FindIndex(flat, id);
      if index != -1 {
        flat := flat[index := updated];
      }
      var g := GroupBookmarksByTag(flat);
      byTag := Slots(g);
      GroupingConsistent(flat);
      if retag {
        allTags := SortedTags(flat);
      }
    }

    /** `handleDrop`: moves bookmark `id` from folder `source` to folder `target`. Nothing
        is sent for a drop on its own folder or for an unknown id. When the server answers,
        its record replaces the bookmark's slot and the grouping is rebuilt; the tag list is
        left as it was. When the update fails nothing changes. */
    method Drop(id: int, source: string, target: string, update: Bookmark -> Option<Bookmark>)
      returns (sent: Option<Bookmark>)
      requires Valid()
      modifies this
      ensures Valid()
      ensures sent == (if source == target || Find(old(flat), id).None? then None
                       else Some(DropPayload(Find(old(flat), id).value, source, target)))
      ensures sent.None? || update(sent.value).None? ==>
                flat == old(flat) && byTag == old(byTag) && allTags == old(allTags)
      ensures sent.Some? && update(sent.value).Some? ==>
                flat == ReplaceById(old(flat), id, update(sent.value).value)
                && byTag == Slots(Grouped(flat)) && allTags == old(allTags)
    {
      if source == target {
        return None;
      }
      var found := Find(flat, id);
      if found.None? {
        return None;
      }
      var payload := DropPayload(found.value, source, target);
      sent := Some(payload);
      var reply := update(payload);
      if reply.Some? {
        Store(found.value.id, reply.value, false);
      }
    }

    /** The remove button on one tag of bookmark `b`: sends `b` without that tag; on an
        answer the bookmark's slot is replaced and the grouping rebuilt, the tag list is
        left as it was. */
    method RemoveTagFrom(b: Bookmark, tagName: string, update: Bookmark -> Option<Bookmark>)
      returns (sent: Bookmark)
      requires Valid()
      modifies this
      ensures Valid()
      ensures sent == b.(tagNames := RemoveTag(b.tagNames, tagName))
      ensures update(sent).None? ==> flat == old(flat) && byTag == old(byTag) && allTags == old(allTags)
      ensures update(sent).Some? ==>
                flat == ReplaceById(old(flat), b.id, update(sent).value)
                && byTag == Slots(Grouped(flat)) && allTags == old(allTags)
    {
      sent := b.(tagNames := RemoveTag(b.tagNames, tagName));
      var reply := update(sent);
      if reply.Some? {
        Store(b.id, reply.value, false);
      }
    }

    /** The edit form's submit: sends the edited fields and the parsed tags; on an answer
        the bookmark's slot is replaced and both the grouping and the tag list rebuilt. */
    method SaveEdit(b: Bookmark, url: string, title: string, description: string, tagsField: string,
                    update: Bookmark -> Option<Bookmark>)
      returns (sent: Bookmark)
      requires Valid()
      modifies this
      ensures Valid()
      ensures sent == EditPayload(b, url, title, description, tagsField)
      ensures update(sent).None? ==> flat == old(flat) && byTag == old(byTag) && allTags == old(allTags)
      ensures update(sent).Some? ==>
                flat == ReplaceById(old(flat), b.id, update(sent).value)
                && byTag == Slots(Grouped(flat)) && allTags == SortedTags(flat)
    {
      sent := EditPayload(b, url, title, description, tagsField);
      var reply := update(sent);
      if reply.Some? {
        Store(b.id, reply.value, true);
      }
    }

    /** The delete button: after confirmation and a successful delete on the server, the
        bookmark leaves the flat list and both derived views are rebuilt. */
    method Delete(b: Bookmark, confirmed: bool, deleted: bool)
      requires Valid()
      modifies this
      ensures Valid()
      ensures !(confirmed && deleted) ==> flat == old(flat) && byTag == old(byTag) && allTags == old(allTags)
      ensures confirmed && deleted ==>
                flat == Without(old(flat), b.id) && byTag == Slots(Grouped(flat)) && allTags == SortedTags(flat)
    {
      if confirmed && deleted {
        flat := Without(flat, b.id);
        var g := GroupBookmarksByTag(flat);
        byTag := Slots(g);
        allTags := SortedTags(flat);
      }
    }

    /** `handleAddFolder`: a valid new name not yet holding a bucket gets an empty bucket,
        which shows as a folder until the page is reloaded. */
    method AddFolder(parent: string, name: string) returns (change: Change)
      requires Valid()
      modifies this
      ensures Valid()
      ensures flat == old(flat) && allTags == old(allTags)
      ensures Creates(old(byTag), parent, name) ==>
                change == Local && byTag == old(byTag)[NewFolderTag(parent, name).tag := Items([])]
      ensures !Creates(old(byTag), parent, name) ==> byTag == old(byTag)
      ensures change == Unchanged <==> NewFolderTag(parent, name).Ignored?
      ensures change == Refused <==> !NewFolderTag(parent, name).Ignored? && !Creates(old(byTag), parent, name)
    {
      var decision := NewFolderTag(parent, name);
      if decision.Name? && !Occupied(byTag, decision.tag) {
        ConsistentNewSlot(flat, byTag, decision.tag);
        byTag := byTag[decision.tag := Items([])];
        change := Local;
      } else {
        change := if decision.Ignored? then Unchanged else Refused;
      }
    }

    /** `handleRenameFolder` for a folder other than the untagged one. With no affected
        bookmark only the page's grouping changes: the slot moves to the new full name.
        Otherwise each affected bookmark is sent with its tags renamed. */
    method RenameFolder(fullTag: string, oldName: string, newName: string) returns (change: Change)
      requires fullTag != UNTAGGED
      requires Valid()
      modifies this
      ensures Valid()
      ensures flat == old(flat) && allTags == old(allTags)
      ensures change == Unchanged <==> newName == "" || Trim(newName) == "" || newName == oldName
      ensures change == Refused <==>
                !(newName == "" || Trim(newName) == "" || newName == oldName) && '.' in newName
      ensures change == Local <==> change != Unchanged && change != Refused && AffectedBookmarks(flat, fullTag) == []
      ensures change == Local ==> byTag == MoveSlot(old(byTag), fullTag, NewFullTag(fullTag, newName))
      ensures change != Local ==> byTag == old(byTag)
      ensures change.Sent? ==> change.payloads == RenamePayloads(flat, fullTag, NewFullTag(fullTag, newName))
    {
      if newName == "" || Trim(newName) == "" || newName == oldName {
        return Unchanged;
      }
      if '.' in newName {
        return Refused;
      }
      var newFullTag := NewFullTag(fullTag, newName);
      var affected := AffectedBookmarks(flat, fullTag);
      if affected == [] {
        NoAffectedNoBucket(flat, fullTag);
        byTag := MoveSlot(byTag, fullTag, newFullTag);
        return Local;
      }
      change := Sent(RenamePayloads(flat, fullTag, newFullTag));
    }

    /** `handleRemoveFolder` for a folder other than the untagged one: after confirmation,
        with no affected bookmark the key is deleted; otherwise each affected bookmark is
        sent without the folder's tags. */
    method RemoveFolder(fullTag: string, confirmed: bool) returns (change: Change)
      requires fullTag != UNTAGGED
      requires Valid()
      modifies this
      ensures Valid()
      ensures flat == old(flat) && allTags == old(allTags)
      ensures change == Unchanged <==> !confirmed
      ensures change == Local <==> confirmed && AffectedBookmarks(flat, fullTag) == []
      ensures change == Local ==> byTag == old(byTag) - {fullTag}
      ensures change != Local ==> byTag == old(byTag)
      ensures change.Sent? ==> change.payloads == RemovePayloads(flat, fullTag)
    {
      if !confirmed {
        return Unchanged;
      }
      var affected := AffectedBookmarks(flat, fullTag);
      if affected == [] {
        NoAffectedNoBucket(flat, fullTag);
        byTag := byTag - {fullTag};
        return Local;
      }
      change := Sent(RemovePayloads(flat, fullTag));
    }
  }

  /** A folder no bookmark's tag starts with holds no bookmark in the grouping, unless it is
      the untagged folder. */
  lemma NoAffectedNoBucket(flat: seq<Bookmark>, fullTag: string)
    requires fullTag != UNTAGGED && AffectedBookmarks(flat, fullTag) == []
    ensures fullTag !in Grouped(flat)
  {
    forall i | 0 <= i < |flat| ensures fullTag !in flat[i].tagNames {
      assert flat[i] in flat;
      assert !Affected(flat[i], fullTag);
      assert StartsWith(fullTag, fullTag);
    }
    GroupedKeys(flat, fullTag);
  }

  /** After a drop whose update the server echoes, the bookmark is filed under the target
      folder (unless that is the untagged folder) and no longer under the source; dropped on
      the untagged folder it lands there only if it had no other tag. */
  lemma DropRefiles(flat: seq<Bookmark>, id: int, source: string, target: string)
    requires Find(flat, id).Some? && source != target
    ensures var p := DropPayload(Find(flat, id).value, source, target);
            var g := Grouped(ReplaceById(flat, id, p));
            && (target != UNTAGGED ==> p in Get(g, target))
            && p !in Get(g, source)
            && (target == UNTAGGED ==>
                  (p in Get(g, UNTAGGED) <==>
                     forall t :: t in Find(flat, id).value.tagNames ==> t == source || t == UNTAGGED))
  {
    var b := Find(flat, id).value;
    var p := DropPayload(b, source, target);
    var f := ReplaceById(flat, id, p);
    assert p in f by {
      assert f[FindIndex(flat, id)] == p;
    }
    GroupedMembership(f, target, p);
    GroupedMembership(f, source, p);
    GroupedMembership(f, UNTAGGED, p);
    if target == UNTAGGED {
      if p.tagNames != [] {
        assert p.tagNames[0] in p.tagNames;
      }
    }
  }

  /** After an edit the server echoes, the bookmark is filed under exactly the tags parsed
      from the field, or under the untagged folder when there are none. */
  lemma EditRefiles(flat: seq<Bookmark>, b: Bookmark, url: string, title: string, description: string,
                    tagsField: string, t: string)
    requires FindIndex(flat, b.id) >= 0
    ensures var p := EditPayload(b, url, title, description, tagsField);
            var g := Grouped(ReplaceById(flat, b.id, p));
            p in Get(g, t) <==> t in ParseTags(tagsField) || (ParseTags(tagsField) == [] && t == UNTAGGED)
  {
    var p := EditPayload(b, url, title, description, tagsField);
    var f := ReplaceById(flat, b.id, p);
    assert f[FindIndex(flat, b.id)] == p;
    GroupedMembership(f, t, p);
  }

  /** After a delete no bucket holds a bookmark with the deleted id, and every other
      bookmark stays filed where it was. */
  lemma DeleteUnfiles(flat: seq<Bookmark>, id: int, t: string, x: Bookmark)
    ensures x in Get(Grouped(Without(flat, id)), t) <==> x in Get(Grouped(flat), t) && x.id != id
  {
    GroupedMembership(Without(flat, id), t, x);
    GroupedMembership(flat, t, x);
  }

  /** Renaming a top-level folder to its own name with a leading blank passes the guard
      (the raw input differs from the old name) but trims back to the same full name, so
      when no bookmark is affected, moving the slot onto itself deletes the folder. */
  lemma RenameToPaddedNameDropsFolder(byTag: map<string, Slot>, name: string)
    requires name != "" && IsTrimmed(name) && '.' !in name
    ensures " " + name != name
    ensures NewFullTag(name, " " + name) == name
    ensures name !in MoveSlot(byTag, name, NewFullTag(name, " " + name))
  {
    assert |" " + name| != |name|;
    TrimPadded(name);
  }

  /** A blank before a trimmed name does not survive the trim. */
  lemma TrimPadded(name: string)
    requires IsTrimmed(name)
    ensures Trim(" " + name) == name
  {
    assert " " + name == [' '] + name;
    TrimLeadingWhitespace(' ', name);
    TrimTrimmed(name);
  }
}
