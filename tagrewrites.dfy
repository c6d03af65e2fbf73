/** The tag-list rewrites behind the folder operations: rename and remove (manager.js),
    the two drag-and-drop moves (manager.js and view.js), single-tag removal and the name
    of a new sub-folder. Each is a pure function of a bookmark's tag list. */
module TagRewrites {
  import opened Strings
  import opened Seqs
  import opened Bookmarks

  // ---------------------------------------------------------------- rename

  /** The full tag a folder gets when renamed: the old tag's parent path (everything
      before its last `.`) followed by the trimmed new name, or the trimmed name alone
      when that parent path is empty. */
  function NewFullTag(fullTag: string, newName: string): string
  {
    var k := LastIndexOf(fullTag, '.');
    var parentPath := if k <= 0 then "" else fullTag[..k];
    if parentPath != "" then parentPath + "." + Trim(newName) else Trim(newName)
  }

  /** Renaming replaces the last segment of the folder path by the trimmed new name and
      keeps every segment before it. */
  lemma NewFullTagReplacesLastSegment(fullTag: string, newName: string)
    requires '.' !in newName && LastIndexOf(fullTag, '.') != 0
    ensures Split(NewFullTag(fullTag, newName), '.')
            == Split(fullTag, '.')[..|Split(fullTag, '.')| - 1] + [Trim(newName)]
  {
    if LastIndexOf(fullTag, '.') == -1 {
      RenameTopLevel(fullTag, newName);
    } else {
      RenameNested(fullTag, newName);
    }
  }

  /** A top-level folder renamed is just the trimmed new name. */
  lemma RenameTopLevel(fullTag: string, newName: string)
    requires '.' !in newName && LastIndexOf(fullTag, '.') == -1
    ensures Split(fullTag, '.') == [fullTag]
    ensures Split(NewFullTag(fullTag, newName), '.') == [Trim(newName)]
  {
    TrimKeepsCharacters(newName);
    SplitNoSeparator(Trim(newName), '.');
    SplitNoSeparator(fullTag, '.');
  }

  /** A nested folder renamed keeps its parent path. */
  lemma RenameNested(fullTag: string, newName: string)
    requires '.' !in newName && LastIndexOf(fullTag, '.') > 0
    ensures Split(NewFullTag(fullTag, newName), '.')
            == Split(fullTag, '.')[..|Split(fullTag, '.')| - 1] + [Trim(newName)]
  {
    TrimKeepsCharacters(newName);
    assert fullTag[..LastIndexOf(fullTag, '.')] != "";
    SplitUnderParent(fullTag, Trim(newName));
  }

  /** A folder whose only dot leads its tag, such as `.a`, has an empty parent path, so the
      rename drops that empty first segment: `.a` renamed to `x` becomes `x`, not `.x`. */
  lemma RenameAfterLeadingDot(fullTag: string, newName: string)
    requires '.' !in newName && LastIndexOf(fullTag, '.') == 0
    ensures Split(fullTag, '.') == ["", fullTag[1..]]
    ensures Split(NewFullTag(fullTag, newName), '.') == [Trim(newName)]
  {
    SplitAtLast(fullTag, '.');
    assert fullTag[..0] == "";
    TrimKeepsCharacters(newName);
    SplitNoSeparator(Trim(newName), '.');
  }

  /** Putting a dot-free name after the parent path of a dotted tag splits into the
      tag's segments with the last one replaced. */
  lemma SplitUnderParent(fullTag: string, name: string)
    requires LastIndexOf(fullTag, '.') >= 0 && '.' !in name
    ensures var pieces := Split(fullTag, '.');
            Split(fullTag[..LastIndexOf(fullTag, '.')] + "." + name, '.') == pieces[..|pieces| - 1] + [name]
  {
    var k := LastIndexOf(fullTag, '.');
    var parent := fullTag[..k];
    SplitNoSeparator(name, '.');
    SplitAtLast(fullTag, '.');
    SplitAppendLast(parent, name, '.');
    assert parent + "." + name == parent + ['.'] + name;
  }

  /** One tag under a rename: a tag starting with the old full tag has that prefix
      replaced by the new one; any other tag is unchanged. */
  function RenameTag(tag: string, fullTag: string, newFullTag: string): (r: string)
    ensures StartsWith(tag, fullTag) ==> StartsWith(r, newFullTag) && r[|newFullTag|..] == tag[|fullTag|..]
    ensures !StartsWith(tag, fullTag) ==> r == tag
  {
    if StartsWith(tag, fullTag) then newFullTag + tag[|fullTag|..] else tag
  }

  /** Renaming back restores every tag that was renamed, and every untouched tag that
      did not already start with the new name. */
  lemma RenameTagInverse(tag: string, fullTag: string, newFullTag: string)
    requires StartsWith(tag, fullTag) || !StartsWith(tag, newFullTag)
    ensures RenameTag(RenameTag(tag, fullTag, newFullTag), newFullTag, fullTag) == tag
  {
    if StartsWith(tag, fullTag) {
      var r := RenameTag(tag, fullTag, newFullTag);
      assert fullTag + r[|newFullTag|..] == fullTag + tag[|fullTag|..];
      assert tag == tag[..|fullTag|] + tag[|fullTag|..];
    }
  }

  /** The renamed tag list of one bookmark: every tag renamed, then de-duplicated.
      Every renamed tag is present, untouched tags are kept, nothing else appears, and
      no tag appears twice. */
  function RenamedTags(tags: seq<string>, fullTag: string, newFullTag: string): (r: seq<string>)
    ensures Distinct(r)
    ensures forall x :: x in r <==> exists i :: 0 <= i < |tags| && RenameTag(tags[i], fullTag, newFullTag) == x
    ensures forall i :: 0 <= i < |tags| && StartsWith(tags[i], fullTag) ==>
              newFullTag + tags[i][|fullTag|..] in r
    ensures forall i :: 0 <= i < |tags| && !StartsWith(tags[i], fullTag) ==> tags[i] in r
  {
    var renamed := Map(tags, t => RenameTag(t, fullTag, newFullTag));
    assert forall x :: x in renamed <==> exists i :: 0 <= i < |tags| && RenameTag(tags[i], fullTag, newFullTag) == x by {
      forall x | x in renamed ensures exists i :: 0 <= i < |tags| && RenameTag(tags[i], fullTag, newFullTag) == x {
        var i :| 0 <= i < |renamed| && renamed[i] == x;
      }
    }
    Dedup(renamed)
  }

  /** The renamed list keeps the order in which each tag first appears after renaming. */
  lemma RenamedTagsKeepFirstOccurrences(tags: seq<string>, fullTag: string, newFullTag: string)
    ensures var renamed := Map(tags, t => RenameTag(t, fullTag, newFullTag));
            var r := RenamedTags(tags, fullTag, newFullTag);
            forall i, j :: 0 <= i < j < |r| ==> IndexOf(renamed, r[i]) < IndexOf(renamed, r[j])
  {
    DedupKeepsFirstOccurrences(Map(tags, t => RenameTag(t, fullTag, newFullTag)));
  }

  // ---------------------------------------------------------------- remove

  /** A bookmark is touched by a folder operation on `fullTag` when one of its tags
      starts with it. */
  predicate Affected(b: Bookmark, fullTag: string)
  {
    exists t :: t in b.tagNames && StartsWith(t, fullTag)
  }

  /** The bookmarks a rename or remove of `fullTag` sends updates for, in list order. */
  function AffectedBookmarks(flat: seq<Bookmark>, fullTag: string): (r: seq<Bookmark>)
    ensures forall b :: b in r <==> b in flat && Affected(b, fullTag)
    ensures forall b :: Affected(b, fullTag) ==> multiset(r)[b] == multiset(flat)[b]
  {
    forall b | Affected(b, fullTag) ensures multiset(Filter(flat, b => Affected(b, fullTag)))[b] == multiset(flat)[b] {
      FilterCount(flat, b => Affected(b, fullTag), b);
    }
    Filter(flat, b => Affected(b, fullTag))
  }

  /** The tag list after removing folder `fullTag`: every tag starting with it is gone,
      every other tag stays, in its order. */
  function RemovedTags(tags: seq<string>, fullTag: string): (r: seq<string>)
    ensures forall t :: t in r <==> t in tags && !StartsWith(t, fullTag)
    ensures IsSubsequence(r, tags)
  {
    FilterIsSubsequence(tags, t => !StartsWith(t, fullTag));
    Filter(tags, t => !StartsWith(t, fullTag))
  }

  /** A tag the removal keeps stays as often as it was there. */
  lemma RemovedTagsKeepCounts(tags: seq<string>, fullTag: string, t: string)
    requires !StartsWith(t, fullTag)
    ensures multiset(RemovedTags(tags, fullTag))[t] == multiset(tags)[t]
  {
    FilterCount(tags, t => !StartsWith(t, fullTag), t);
  }

  /** Exactly the affected bookmarks have a tag list that the removal changes. */
  lemma {:induction false} RemoveChangesExactlyAffected(tags: seq<string>, fullTag: string)
    ensures RemovedTags(tags, fullTag) != tags <==> exists t :: t in tags && StartsWith(t, fullTag)
    decreases |tags|
  {
    if tags != [] {
      RemoveChangesExactlyAffected(tags[1..], fullTag);
      var r := RemovedTags(tags, fullTag);
      var rest := RemovedTags(tags[1..], fullTag);
      if StartsWith(tags[0], fullTag) {
        assert |r| <= |tags[1..]| < |tags|;
      } else {
        assert r == [tags[0]] + rest;
        assert tags == [tags[0]] + tags[1..];
        assert forall t :: t in tags && t != tags[0] ==> t in tags[1..];
      }
    }
  }

  /** Folder matching is a plain string prefix test with no `.` boundary: the folder
      `work` also renames `workshop` to `jobshop` and removes it. */
  lemma PrefixMatchHasNoDotBoundary()
    ensures RenameTag("workshop", "work", "job") == "jobshop"
    ensures RemovedTags(["work", "work.a", "workshop", "home"], "work") == ["home"]
  {
    assert StartsWith("workshop", "work") by { assert "workshop"[..4] == "work"; }
    assert "workshop"[4..] == "shop";
    assert StartsWith("work.a", "work") by { assert "work.a"[..4] == "work"; }
    assert !StartsWith("home", "work") by { assert "home"[0] != "work"[0]; }
    var tags: seq<string> := ["work", "work.a", "workshop", "home"];
    assert tags[1..] == ["work.a", "workshop", "home"];
    assert tags[1..][1..] == ["workshop", "home"];
    assert tags[1..][1..][1..] == ["home"];
  }

  // ---------------------------------------------------------------- drop

  /** The manager's move of a bookmark from `source` to `target`: drop the source tag and
      the untagged marker, add the target unless it is the untagged bucket, de-duplicate. */
  function ManagerDropTags(tags: seq<string>, source: string, target: string): (r: seq<string>)
    ensures Distinct(r)
    ensures forall x :: x in r <==>
              (x in tags && x != source && x != UNTAGGED) || (x == target && target != UNTAGGED)
    ensures UNTAGGED !in r
  {
    var kept := Filter(tags, t => t != source && t != UNTAGGED);
    Dedup(if target != UNTAGGED then kept + [target] else kept)
  }

  /** The tags the manager's move keeps stay in the order of their first occurrences. */
  lemma ManagerDropKeepsOrder(tags: seq<string>, source: string, target: string)
    ensures var r := ManagerDropTags(tags, source, target);
            forall i, j :: 0 <= i < j < |r| && r[i] != target && r[j] != target ==>
              r[i] in tags && r[j] in tags && IndexOf(tags, r[i]) < IndexOf(tags, r[j])
  {
    var keep := (t: string) => t != source && t != UNTAGGED;
    var kept := Filter(tags, keep);
    var xs := if target != UNTAGGED then kept + [target] else kept;
    var r := ManagerDropTags(tags, source, target);
    assert r == Dedup(xs);
    DedupKeepsFirstOccurrences(xs);
    forall i, j | 0 <= i < j < |r| && r[i] != target && r[j] != target
      ensures r[i] in tags && r[j] in tags && IndexOf(tags, r[i]) < IndexOf(tags, r[j])
    {
      assert r[i] in kept && r[j] in kept;
      IndexOfPrefix(kept, xs, r[i]);
      IndexOfPrefix(kept, xs, r[j]);
      FilterKeepsIndexOrder(tags, keep, r[i], r[j]);
    }
  }

  /** A target the bookmark already keeps stays where it was: then every tag of the result,
      the target included, is in the order of first occurrences in the old list. */
  lemma ManagerDropKeptTargetInPlace(tags: seq<string>, source: string, target: string)
    requires target in tags && target != source
    ensures var r := ManagerDropTags(tags, source, target);
            forall i, j :: 0 <= i < j < |r| ==>
              r[i] in tags && r[j] in tags && IndexOf(tags, r[i]) < IndexOf(tags, r[j])
  {
    var keep := (t: string) => t != source && t != UNTAGGED;
    var kept := Filter(tags, keep);
    var r := ManagerDropTags(tags, source, target);
    if target == UNTAGGED {
      ManagerDropKeepsOrder(tags, source, target);
    } else {
      assert target in kept;
      DedupAppendPresent(kept, target);
      assert r == Dedup(kept);
      DedupKeepsFirstOccurrences(kept);
      forall i, j | 0 <= i < j < |r|
        ensures r[i] in tags && r[j] in tags && IndexOf(tags, r[i]) < IndexOf(tags, r[j])
      {
        FilterKeepsIndexOrder(tags, keep, r[i], r[j]);
      }
    }
  }

  /** A target the bookmark did not keep goes last. */
  lemma ManagerDropTargetLast(tags: seq<string>, source: string, target: string)
    requires target != UNTAGGED && (target !in tags || target == source)
    ensures var r := ManagerDropTags(tags, source, target);
            |r| > 0 && r[|r| - 1] == target
  {
    var kept := Filter(tags, t => t != source && t != UNTAGGED);
    assert target !in kept;
    assert (kept + [target])[..|kept + [target]| - 1] == kept;
  }

  /** Moving the same bookmark the same way twice changes nothing the second time. */
  lemma ManagerDropIdempotent(tags: seq<string>, source: string, target: string)
    requires source != target
    ensures ManagerDropTags(ManagerDropTags(tags, source, target), source, target)
            == ManagerDropTags(tags, source, target)
  {
    var r := ManagerDropTags(tags, source, target);
    var kept := Filter(r, t => t != source && t != UNTAGGED);
    FilterKeepsAll(r, t => t != source && t != UNTAGGED);
    assert kept == r;
    DedupDistinct(r);
    if target != UNTAGGED {
      DedupAppendPresent(r, target);
    }
  }

  /** Appending an element already present does not change a de-duplication. */
  lemma DedupAppendPresent<T(!new)>(xs: seq<T>, x: T)
    requires x in xs
    ensures Dedup(xs + [x]) == Dedup(xs)
  {
    assert (xs + [x])[..|xs + [x]| - 1] == xs;
  }

  /** The popup's move of a bookmark from `source` to `target`: drop the source tag, then
      append the target if it is not already there. There is no untagged special case and
      no de-duplication of the remaining tags. */
  function ViewDropTags(tags: seq<string>, source: string, target: string): (r: seq<string>)
    ensures forall x :: x in r <==> (x in tags && x != source) || x == target
    ensures |r| <= |tags| + 1
    ensures forall t :: t != target ==> multiset(r)[t] == (if t == source then 0 else multiset(tags)[t])
    ensures multiset(r)[target] == (if target in tags && target != source then multiset(tags)[target] else 1)
    ensures (target !in tags || target == source) ==> r[|r| - 1] == target && IsSubsequence(r[..|r| - 1], tags)
    ensures (target in tags && target != source) ==> IsSubsequence(r, tags)
  {
    var newTags := Filter(tags, t => t != source);
    FilterIsSubsequence(tags, t => t != source);
    forall t ensures multiset(newTags)[t] == (if t == source then 0 else multiset(tags)[t]) {
      FilterCount(tags, t => t != source, t);
    }
    if target !in newTags then
      assert (newTags + [target])[..|newTags|] == newTags;
      newTags + [target]
    else newTags
  }

  /** Duplicate-free tags stay duplicate-free under the popup's move. */
  lemma ViewDropKeepsDistinct(tags: seq<string>, source: string, target: string)
    requires Distinct(tags)
    ensures Distinct(ViewDropTags(tags, source, target))
  {
    var keep := (t: string) => t != source;
    FilterIsSubsequence(tags, keep);
    SubsequenceDistinct(Filter(tags, keep), tags);
  }

  /** The two drop handlers disagree on the untagged folder: the popup gives the bookmark a
      literal `[Untagged]` tag while the manager clears its tags. */
  lemma DropOntoUntaggedDiffers()
    ensures ViewDropTags(["a"], "a", UNTAGGED) == [UNTAGGED]
    ensures ManagerDropTags(["a"], "a", UNTAGGED) == []
  {
    var a: seq<string> := ["a"];
    assert a[1..] == [];
    assert Filter(a, t => t != "a") == [];
    assert Filter(a, t => t != "a" && t != UNTAGGED) == [];
  }

  /** The two drop handlers disagree on repeated tags: only the manager removes them. */
  lemma DropDuplicatesDiffer()
    ensures ViewDropTags(["x", "x"], "y", "z") == ["x", "x", "z"]
    ensures ManagerDropTags(["x", "x"], "y", "z") == ["x", "z"]
  {
    ViewDropKeepsRepeats();
    ManagerDropRemovesRepeats();
  }

  /** The popup's move keeps a repeated tag twice. */
  lemma ViewDropKeepsRepeats()
    ensures ViewDropTags(["x", "x"], "y", "z") == ["x", "x", "z"]
  {
    var xx: seq<string> := ["x", "x"];
    FilterKeepsAll(xx, t => t != "y");
  }

  /** The manager's move keeps a repeated tag once. */
  lemma ManagerDropRemovesRepeats()
    ensures ManagerDropTags(["x", "x"], "y", "z") == ["x", "z"]
  {
    ManagerDropOfKeptTags(["x", "x"], "y", "z");
    DedupRepeatThenNew("x", "z");
  }

  /** De-duplicating a repeated element followed by a new one keeps each once. */
  lemma DedupRepeatThenNew<T(!new)>(a: T, b: T)
    requires a != b
    ensures Dedup([a, a] + [b]) == [a, b]
  {
    var aa := [a, a];
    assert ([a, a] + [b])[..2] == aa && aa[..1] == [a];
    assert Dedup([a]) == [a];
    assert Dedup(aa) == [a];
  }

  /** When the manager's move drops none of the tags, it de-duplicates them with the
      target appended. */
  lemma ManagerDropOfKeptTags(tags: seq<string>, source: string, target: string)
    requires forall t :: t in tags ==> t != source && t != UNTAGGED
    requires target != UNTAGGED
    ensures ManagerDropTags(tags, source, target) == Dedup(tags + [target])
  {
    FilterKeepsAll(tags, t => t != source && t != UNTAGGED);
  }

  // ---------------------------------------------------------------- single tag, new folder

  /** The tag list after removing one tag by its remove button: every copy of it goes. */
  function RemoveTag(tags: seq<string>, name: string): (r: seq<string>)
    ensures forall t :: t in r <==> t in tags && t != name
    ensures IsSubsequence(r, tags)
    ensures forall t :: t != name ==> multiset(r)[t] == multiset(tags)[t]
  {
    FilterIsSubsequence(tags, t => t != name);
    forall t | t != name ensures multiset(Filter(tags, t => t != name))[t] == multiset(tags)[t] {
      FilterCount(tags, t => t != name, t);
    }
    Filter(tags, t => t != name)
  }

  /** Removing the same tag twice is the same as removing it once. */
  lemma RemoveTagIdempotent(tags: seq<string>, name: string)
    ensures RemoveTag(RemoveTag(tags, name), name) == RemoveTag(tags, name)
  {
    FilterKeepsAll(RemoveTag(tags, name), t => t != name);
  }

  /** What the new-folder prompt decides before the existence check. */
  datatype FolderName = Ignored | HasDot | Name(tag: string)

  /** A cancelled or blank name is ignored; a name with a `.` is refused; otherwise the
      new tag is the trimmed name under `parent`, or at the top level for the untagged
      folder. */
  function NewFolderTag(parent: string, name: string): FolderName
  {
    if name == "" || Trim(name) == "" then Ignored
    else if '.' in name then HasDot
    else Name(if parent == UNTAGGED then Trim(name) else parent + "." + Trim(name))
  }

  /** An accepted new folder sits directly under its parent in the folder tree, as a
      non-empty segment named by the trimmed input. */
  lemma NewFolderIsChild(parent: string, name: string)
    requires NewFolderTag(parent, name).Name?
    ensures Trim(name) != "" && '.' !in Trim(name)
    ensures parent == UNTAGGED ==> Split(NewFolderTag(parent, name).tag, '.') == [Trim(name)]
    ensures parent != UNTAGGED ==>
              Split(NewFolderTag(parent, name).tag, '.') == Split(parent, '.') + [Trim(name)]
  {
    var t := Trim(name);
    TrimKeepsCharacters(name);
    SplitNoSeparator(t, '.');
    if parent != UNTAGGED {
      SplitAppendLast(parent, t, '.');
      assert parent + "." + t == parent + ['.'] + t;
    }
  }
}
