# Linkding extension: tag folders, in Dafny

This project models the tag-index core of the Linkding browser extension. The extension
shows a Linkding server's bookmarks as a tree of folders built from their tag names. A
tag `work.projects.alpha` is the folder `alpha` inside `projects` inside `work`. An
untagged bookmark goes into the virtual folder `[Untagged]`.

The core is spread over three pages:

- **The bookmark manager** (`manager.js`). It keeps the flat list of bookmarks, the
  grouping of that list by tag and the sorted list of tags in use. Its handlers move a
  bookmark to another folder by drag and drop, remove one tag, save the edit form,
  delete a bookmark, and add, rename or remove a folder.
- **The popup and side panel** (`view.js`). They hold the same three pieces of state plus
  a 15-minute cache of the list. They rebuild the grouping and the tag list after every
  change, drop the cache, and can add the current tab.
- **The options page** (`options.js`). It cleans the saved server address and token. It
  also mirrors the tag tree into a "Linkding Bookmarks" folder of the browser: old copies
  of that folder are removed, then one folder is created per tree node and one entry per
  bookmark of a tag, with siblings in case-insensitive order.

Modules, one per concern:

- `Wrappers`: the `Option` type.
- `Strings`: the JavaScript string operations the code uses.
  - `split` and `join`.
  - `trim`: ASCII whitespace, the byte-order mark, the line and paragraph separators and
    the Unicode space separators.
  - ASCII `toLowerCase`, `startsWith`, `includes` and `lastIndexOf`.
  - The default order of `sort()`, character by character.
- `Seqs`: filtering, mapping and flat-mapping sequences. `[...new Set(xs)]` is a
  duplicate removal that keeps first occurrences.
- `Bookmarks`: the bookmark record, the tags a bookmark is filed under, and finding,
  replacing and removing by id.
- `Grouping`: `groupBookmarksByTag`, the same function in all three files. It is a loop
  (a method) proved against a fold over the list. That fold is then proved equal to a
  per-tag reference filter.
- `TagTree`: `buildTagTree` (a method proved against a function) and the loop that lists
  the ancestor folders of a tag. It proves exactly which nodes and named tags the tree
  contains.
- `TagRewrites`:
  - how a folder rename rewrites tags;
  - how a folder removal drops tags;
  - the two different drop handlers;
  - removing one tag;
  - naming a new sub-folder.
- `TagInput`: parsing the comma-separated tags field, and the autocomplete of its last
  term.
- `TagList`: the list `allTags`. It is proved strictly sorted and to hold exactly the tags
  in use.
- `Search`: the manager's flat search and the popup's per-folder search.
- `Options`:
  - URL and token cleaning;
  - choosing the old sync folders;
  - the sibling order;
  - the replay of the tag tree as a sequence of browser `create` calls.
- `ManagerPage`: the manager's state as the class `Manager`, whose handlers are methods.
- `ViewPage`: the popup's state as the class `View`, whose handlers are methods.

Server requests, dialogs and the current time are parameters. A request is a function
that answers `None` on failure. A dialog is a boolean. The time is an integer number of
milliseconds. A missing text field (`null`) is the empty string. In the manager, a
folder that exists only because it was renamed locally holds `undefined` rather than a
list; the slot type `Slot` models this.

Two behaviours of the code are modelled as written:

- Renaming or removing folder `work` also rewrites `workshop`, because the match is a
  plain `startsWith` with no dot boundary (`TagRewrites.PrefixMatchHasNoDotBoundary`).
- The manager's drop and tag-removal handlers regroup the list but keep the old
  `allTags`.

## Model

| member | source | states |
|---|---|---|
| Bookmarks.FindIndex | manager.js:131 | The index is -1 exactly when no bookmark has the id. Otherwise it is the first slot with that id. |
| Bookmarks.Find | manager.js:256 | Finds the first bookmark with the id, or nothing when none has it. |
| Bookmarks.ReplaceById | manager.js:131-132 | Only the first slot with the id takes the new bookmark. The length and every other slot are kept. An unknown id leaves the list as it was. |
| Bookmarks.Without | manager.js:362 | Exactly the bookmarks with another id remain, in their original order, each as often as before. |
| Grouping.GroupBookmarksByTag | manager.js:599-609 | The `forEach` loop builds the same grouping as the fold `Grouped`. |
| Grouping.FileUnderEffect | manager.js:602-606 | Filing one bookmark appends it once to each of its tags' buckets, once per repetition of the tag. Every other bucket is unchanged. |
| Grouping.GroupedIsBucket | options.js:37-47 | A tag is a key of the grouping exactly when some bookmark is filed under it. Its bucket equals the reference bucket: the bookmarks filed under the tag, each repeated once per occurrence of the tag. |
| Grouping.GroupedKeys | manager.js:602-606 | The keys are the tags some bookmark carries, plus `[Untagged]` exactly when some bookmark has no tags. |
| Grouping.GroupedMembership | view.js:413-423 | A bookmark is in a tag's bucket exactly when it is in the list and is filed under that tag. |
| Grouping.UntaggedFiledOnlyUntagged | manager.js:602 | A bookmark without tags is filed under `[Untagged]` and under nothing else. |
| Grouping.TaggedFiledUnderEachTag | manager.js:602-606 | A tagged bookmark is filed under each of its tags. It is under `[Untagged]` only if it carries that name as a tag. |
| Grouping.BucketIsFilter | view.js:413-423 | When no bookmark repeats a tag, each bucket is the flat list filtered by "filed under this tag". |
| Grouping.BucketKeepsInputOrder | manager.js:601-607 | When no bookmark repeats a tag, each bucket is an order-preserving selection of the flat list. |
| Grouping.BucketCount | view.js:416-420 | A bookmark with distinct tags appears in exactly as many buckets as it has tags, or in one bucket when it has none. |
| TagTree.BuildTagTree | manager.js:469-487 | The loop over tags, inserting each through the recursive segment walk `Insert`, builds the same tree as the fold `BuildTree`. |
| TagTree.InsertEffect | manager.js:472-485 | Inserting one tag creates a node for every prefix of its segment path. It marks the last node as that tag. Every other path keeps its node and its mark. |
| TagTree.BuildTreeNodes | view.js:284-301 | The tree has a node at a path exactly when the path is a non-empty prefix of some tag's segment path. |
| TagTree.BuildTreeTags | options.js:49-66 | A node is a named tag exactly when its path is some tag's full segment path. The name is that tag, because splitting on dots is undone by joining. |
| TagTree.TagReachable | manager.js:479-482 | Each listed tag can be found in the tree under its own full name. |
| TagTree.NoExtraTags | manager.js:475-483 | Every named node of the tree carries a listed tag. |
| TagTree.AncestorPaths | view.js:470-476 | The loop yields one path per segment, path k being the running path `PathAfter` after k+1 segments. For a tag that does not start with a dot, path k joins the first k+1 segments and the last path is the tag itself. For a leading dot, such as `.a.b`, the first path is empty and path k joins segments 1 to k: the empty path, `a`, `a.b`. |
| TagTree.PathAfterJoin | view.js:471-473 | With a non-empty first segment, the running path after k+1 segments is the dotted prefix of those segments. |
| TagTree.PathAfterLeadingDot | view.js:471-473 | With a leading dot, the running path is empty after the first segment, and after k+1 segments it joins segments 1 to k. |
| TagTree.AncestorsAreFolders | manager.js:412-420 | Each dotted prefix of a tag in use (its first k+1 segments joined by dots) splits back into those segments and names a folder node of the tree. |
| TagTree.AncestorPathsAreFolders | manager.js:412-420 | For a tag in use whose first segment is non-empty, each path the reopen loop visits is such a prefix and names a folder node of the tree. Tags with a leading dot are not covered. |
| TagRewrites.NewFullTagReplacesLastSegment | manager.js:192-193 | A renamed folder keeps its parent path. Only its last dot segment changes, to the trimmed new name. |
| TagRewrites.RenameAfterLeadingDot | manager.js:192-193 | A folder whose only dot leads its tag has an empty parent path, so the renamed tag is the trimmed new name alone and the empty first segment is gone. |
| TagRewrites.RenameTag | manager.js:205 | The folder tag and every tag that starts with it take the new prefix, with the rest of the tag kept. Any other tag is unchanged. |
| TagRewrites.RenameTagInverse | manager.js:205 | Renaming back restores the tag, provided it started with the old name or did not already start with the new one. |
| TagRewrites.RenamedTags | manager.js:205-206 | The rewritten list is duplicate-free. Each entry is the rename of some old tag, and every old tag's rename is kept. |
| TagRewrites.RenamedTagsKeepFirstOccurrences | manager.js:206 | Collapsing duplicates keeps the first occurrence of each renamed tag. |
| TagRewrites.AffectedBookmarks | manager.js:195 | Exactly the bookmarks with some tag that starts with the folder's tag are affected, each as often as it occurs in the list. |
| TagRewrites.RemovedTags | manager.js:231 | Removal keeps exactly the tags that do not start with the folder's tag, in order. |
| TagRewrites.RemovedTagsKeepCounts | manager.js:231 | A tag the removal keeps occurs as often as it did before. |
| TagRewrites.RemoveChangesExactlyAffected | manager.js:219-231 | Removal changes a bookmark's tags exactly when the bookmark is affected. |
| TagRewrites.PrefixMatchHasNoDotBoundary | manager.js:195-205 | Affecting `work` also affects `workshop`. Renaming `work` to `job` turns `workshop` into `jobshop`. |
| TagRewrites.ManagerDropTags | manager.js:259-263 | The manager's drop leaves the tags duplicate-free. It keeps the other tags, removes the source and `[Untagged]`, and adds the target unless it is `[Untagged]`. |
| TagRewrites.ManagerDropKeepsOrder | manager.js:259-263 | The tags the manager's drop keeps, other than the target, are in the order of their first occurrences in the old list. |
| TagRewrites.ManagerDropKeptTargetInPlace | manager.js:259-263 | A target the bookmark already keeps stays in place: every tag of the result, the target included, is in first-occurrence order of the old list. |
| TagRewrites.ManagerDropTargetLast | manager.js:259-263 | A target that the old list did not keep (absent, or the source itself) comes last. |
| TagRewrites.ManagerDropOfKeptTags | manager.js:259-263 | When no tag is the source or `[Untagged]` and the target is a real tag, the manager's drop is the duplicate-free list of the tags with the target appended. |
| TagRewrites.ManagerDropIdempotent | manager.js:259-263 | Dropping twice on the same folder gives the same tags as dropping once. |
| TagRewrites.ViewDropTags | view.js:344-347 | The popup's drop keeps the old tags other than the source, in order and with repeats: each other tag occurs as often as before. The target is appended last, once, unless the bookmark already keeps it, in which case the result is an order-preserving selection of the old tags. |
| TagRewrites.ViewDropKeepsDistinct | view.js:344-347 | Given duplicate-free tags, the popup's drop keeps them duplicate-free and contains the target. |
| TagRewrites.DropOntoUntaggedDiffers | manager.js:259-263 | Dropping onto the untagged folder, the popup gives the bookmark a real `[Untagged]` tag while the manager leaves it with no tags. |
| TagRewrites.DropDuplicatesDiffer | manager.js:259-263 | On a bookmark listing a tag twice, only the manager collapses the repeat; the popup keeps both copies. |
| TagRewrites.RemoveTag | manager.js:322 | The remove button keeps every other tag, in order and as often as before, and no occurrence of the removed one. |
| TagRewrites.RemoveTagIdempotent | view.js:204 | Removing the same tag twice is the same as removing it once. |
| TagRewrites.NewFolderIsChild | manager.js:163-171 | An accepted name is non-blank and dot-free. The new tag's segment path is the parent's path plus the trimmed name, or just the trimmed name under `[Untagged]`. |
| TagInput.Terms | view.js:87 | The input splits into at least one trimmed term. No term holds a comma. |
| TagInput.ParseTags | view.js:140 | The parsed tags are non-empty, trimmed and comma-free. They are an order-preserving selection of the field's terms: exactly its non-empty terms, each as often as it was typed. |
| TagInput.TermsOfJoined | manager.js:110 | The form's initial value, the tags joined with `, ` plus a trailing `, `, splits back into the trimmed tags followed by one empty term. |
| TagInput.ParseTagsRoundTrip | manager.js:110-125 | Submitting the edit form unchanged gives back the bookmark's tags, for tags that are trimmed, non-empty and comma-free. |
| TagInput.Suggestions | view.js:87-95 | The suggestions are exactly the known tags, in order, whose lowered form starts with the lowered current term and that are not already entered. A blank term gives none. |
| TagInput.PickReplacesLastTerm | view.js:105-106 | Picking a suggestion replaces only the term being typed. The earlier terms are kept and `, ` is appended. |
| TagInput.NoSuggestionsAfterPick | manager.js:66-84 | Right after a pick the current term is blank, so a recomputed suggestion list would be empty. |
| TagList.SortStrings | manager.js:134 | The sort of a duplicate-free tag list holds the same tags in strictly ascending `LexLess` order. |
| TagList.SortedTags | view.js:461 | `allTags` is strictly sorted and holds exactly the tags some bookmark carries. |
| TagList.StrictlySortedUnique | manager.js:661 | Two strictly sorted lists with the same elements are equal. |
| TagList.SortedTagsCanonical | manager.js:364 | The tag list depends only on which tags are in use, not on bookmark order or repetition. |
| Search.ManagerSearch | manager.js:611-628 | A blank term yields no search. Otherwise the result is an order-preserving selection of exactly the bookmarks whose title, website title, description or URL contains the lowered trimmed term. |
| Search.FilterByTag | view.js:425-448 | A blank term leaves the grouping. Otherwise the loop over the folders keeps each folder with a match, holding just its matching bookmarks. |
| Search.FilteredBuckets | view.js:431-442 | The filtered grouping has no empty folders and no new folders. Each kept bucket is an order-preserving selection of matches, and each folder with a match is kept. |
| Search.SearchOfGrouping | view.js:425-445 | A bookmark appears under a folder of the search result exactly when it is filed there and matches. Matching includes tag names. |
| Options.CleanUrl | options.js:110 | The saved address is the trimmed input, minus one final slash when there is one. |
| Options.CleanToken | options.js:111 | The saved token is trimmed and is the middle of the input. |
| Options.CleanUrlDropsOneSlash | options.js:110 | A trimmed address typed with a trailing slash is saved without it. One without a slash is saved as typed. |
| Options.CleanUrlNotIdempotent | options.js:110 | Only one slash is dropped: `h//` becomes `h/`, and cleaning that again gives `h`. |
| Options.StaleFolderIds | options.js:68-76 | The cleanup removes exactly the search hits that are folders (no URL) directly on the bookmarks bar or in Other Bookmarks. |
| Options.CleanupSparesOthers | options.js:72 | A bookmark with a URL, or a folder elsewhere, is never removed. |
| Options.SortedKeys | options.js:79 | Sibling folders are listed each once, in case-insensitive order. |
| Options.DisplayTitle | options.js:88 | An entry is titled by the title when it is non-empty, else by the website title when that is non-empty, else by the URL. |
| Options.Entries | options.js:86-90 | A tag folder gets one entry per bookmark of its bucket, in bucket order, with its display title and URL. |
| Options.ReplayMembers | options.js:78-95 | The recursive replay creates a folder for each tree node, and an entry for each bookmark of each named tag's bucket, at that node's path. It makes no other call. |
| Options.SortedKeysDistinct | options.js:79 | The sorted sibling keys hold no key twice. |
| Options.ReplayNodeFolderOnce | options.js:78-95 | The replay of one child creates no folder twice: its own folder comes first, and every folder below it lies deeper. |
| Options.ReplayLevelFolderOnce | options.js:79-93 | The loop over distinct sibling keys creates no folder twice, because different siblings' subtrees create folders under different paths. |
| Options.ReplayFolders | options.js:81-82 | A folder is created at a path exactly when the tree has a node there, and then exactly once. |
| Options.ReplayEntries | options.js:84-90 | An entry is created in a folder exactly when the folder's node is a named tag and the entry is one of its bucket's bookmarks. |
| Options.SyncFolders | options.js:188-196 | The sync creates one folder per prefix of each grouped tag's dotted path, exactly once, and no other folder. |
| Options.SyncEntries | options.js:188-196 | The sync puts a bookmark into a folder exactly when the bookmark is filed under a tag whose dotted path is that folder. The entry has the bookmark's display title and URL. |
| ManagerPage.Slots | manager.js:660 | Each grouped tag's slot holds its bucket, and there are no other slots. |
| ManagerPage.MoveSlot | manager.js:197-199 | After the move the old key is gone and the new key holds the old slot. Other keys are untouched. |
| ManagerPage.Manager.constructor | manager.js:9-12 | The page starts with no bookmarks, no folders and no tags. |
| ManagerPage.Manager.Load | manager.js:646-661 | Without saved settings, or when the fetch fails, nothing changes. After a successful load, the list is the fetched one, the grouping is its grouping and the tag list is its tag list. |
| ManagerPage.Manager.Store | manager.js:131-134 | The answered bookmark takes its slot and the list is regrouped. The tag list is rebuilt only for an edit. |
| ManagerPage.Manager.Drop | manager.js:244-277 | A drop onto its own folder, or of an unknown id, sends nothing. Otherwise it sends the manager's drop payload. A reply replaces the bookmark and regroups, without rebuilding the tag list. A failure changes nothing. |
| ManagerPage.Manager.RemoveTagFrom | manager.js:321-333 | Sends the bookmark without that tag. A reply replaces it and regroups, without rebuilding the tag list. A failure changes nothing. |
| ManagerPage.Manager.SaveEdit | manager.js:117-140 | Sends the form's fields with the parsed tags. A reply replaces the bookmark, regroups and rebuilds the tag list. A failure changes nothing. |
| ManagerPage.Manager.Delete | manager.js:357-369 | After confirmation and a successful delete, the bookmark leaves the list, the grouping and the tag list. Otherwise nothing changes. |
| ManagerPage.Manager.AddFolder | manager.js:163-181 | A cancelled or blank name changes nothing. A dotted name, or one whose folder already holds a list, is refused. Otherwise the new tag gets an empty folder and nothing else changes. |
| ManagerPage.Manager.RenameFolder | manager.js:184-216 | A blank or unchanged name changes nothing, and a dotted one is refused. With no affected bookmark, the folder's slot moves to the new tag locally. Otherwise every affected bookmark is sent with renamed tags. |
| ManagerPage.Manager.RemoveFolder | manager.js:218-242 | Without confirmation nothing happens. With no affected bookmark, the folder is deleted locally. Otherwise every affected bookmark is sent with the folder's tags removed. |
| ManagerPage.NoAffectedNoBucket | manager.js:195-201 | When no bookmark is affected, the folder has no grouped bucket, so the local move loses no bookmark. |
| ManagerPage.DropRefiles | manager.js:259-271 | After an echoed drop the bookmark is filed under a real target folder, and no longer under the source. A drop on `[Untagged]` files it there exactly when all its old tags were the source or `[Untagged]`. |
| ManagerPage.EditRefiles | manager.js:125-133 | After an echoed edit the bookmark is filed exactly under the parsed tags, or under `[Untagged]` when there are none. |
| ManagerPage.DeleteUnfiles | manager.js:362-363 | After a delete no bucket holds a bookmark with the deleted id. Every other bookmark keeps its folders. |
| ManagerPage.RenameToPaddedNameDropsFolder | manager.js:186-200 | Renaming a folder to its own name with a leading space passes the guard, because the untrimmed names differ. The trimmed target is the same tag, so the local move deletes the folder's slot. |
| ViewPage.CacheWindow | view.js:552-555 | A cache written at a non-zero time serves every load less than 15 minutes later, and none after. |
| ViewPage.CacheValidEarlier | view.js:555 | A cache valid now was valid at every earlier time. |
| ViewPage.View.constructor | view.js:11-13 | The popup starts empty, with whatever cache the browser holds. |
| ViewPage.View.ReRender | view.js:459-461 | After a re-render, the grouping and the tag list are those of the unchanged list. |
| ViewPage.View.Invalidate | view.js:69-71 | Dropping the cache clears both cache entries and nothing else. |
| ViewPage.View.Load | view.js:539-567 | Without saved settings nothing changes. A forced load or a stale cache takes the fetched list and stores it with its time, and a failed fetch changes nothing. Otherwise the cached list is used. The views are rebuilt whenever the list is set. |
| ViewPage.View.Drop | view.js:328-356 | A drop without a target, onto its own folder, or of an unknown id sends nothing. Otherwise it sends the popup's drop payload. A reply replaces the bookmark, rebuilds the views and drops the cache. A failure changes nothing. |
| ViewPage.View.Store | view.js:144-147 | The answered bookmark takes its slot, the views are rebuilt and the cache is dropped. |
| ViewPage.View.RemoveTagFrom | view.js:203-213 | Sends the bookmark without that tag. A reply replaces it, rebuilds the views and drops the cache. A failure changes nothing. |
| ViewPage.View.SaveEdit | view.js:132-151 | Sends the form's fields with the parsed tags. A reply replaces the bookmark, rebuilds the views and drops the cache. A failure changes nothing. |
| ViewPage.View.Delete | view.js:242-253 | After confirmation and a successful delete, the bookmark leaves the list, the views are rebuilt and the cache is dropped. |
| ViewPage.View.AddCurrentTab | view.js:490-518 | Refused without settings, or for a missing URL or a `chrome://` page. Otherwise the created bookmark is appended, the views are rebuilt and the cache is dropped. A failed create changes nothing. |
| ViewPage.ViewDropRefiles | view.js:344-351 | After an echoed popup drop, the bookmark carries the target tag and is filed under it, even `[Untagged]`. It is no longer under the source. |
| ViewPage.AddedGoesLast | view.js:507-508 | An added bookmark goes to the end of each of its folders. Every other folder is as before. |
| ViewPage.SpecialTabExamples | view.js:499-502 | A missing or empty URL and `chrome://extensions` are refused. An ordinary web page is accepted. |

## Left out

- The network: fetching all pages of bookmarks, the create, update and delete requests, and the connection test. A request is a function parameter that answers or fails.
- Rendering and the DOM: the folder tree and bookmark list markup, the open/closed state of folders, the active folder and the current-tag selection, the edit forms' HTML, and status messages. Only the data the renderers read is modelled.
- The in-place case-insensitive title sort that the manager's bookmark list applies to a folder's bucket before rendering. It is display order only.
- `chrome.storage`: the manager's and the popup's settings reads, `saveOptions`' write, and the UI settings (`saveUiSettings`, `restoreOptions`). Settings are a boolean parameter. The popup's cache is two fields of `View`. The manager's `invalidatePopupCache`, which removes that cache from the shared `chrome.storage.local` after a change in the manager, is not modelled: the cache lives only in `View`, so the model does not capture this effect of one page on the other.
- `chrome.bookmarks` and `chrome.tabs`: the search result and the active tab are parameters. The replay's `create` calls are values in a sequence, with a folder named by its path of titles instead of the id the browser returns.
- The sync's sequencing and its settings guard (`syncToBookmarksBar`): the model proves what the grouping, the tree, the cleanup choice and the replay produce, not the order of the awaited calls.
- The folder rename and removal's `Promise.all` of updates followed by a full reload: the model returns the payloads it would send.
- Strings.LexLess: compares whole characters. JavaScript compares UTF-16 code units, so a character above U+FFFF (a surrogate pair, U+D800 to U+DFFF) sorts before U+E000 to U+FFFF there, but after them here. The two orders agree on the Basic Multilingual Plane.
- `localeCompare`: sibling folders are ordered by ASCII-lowercased characters, with ties between names that differ only in case broken by `LexLess`. Unicode collation and case folding beyond ASCII are not modelled.
- `Object.keys` order of the grouping: `Options.SyncEntries` holds for any key order with the same elements.
- Tag names that collide with `Object.prototype` members, and the segment name `__children`, which the source's plain objects treat specially.
- `background.js` and the content of the HTML pages are not part of this model.
- `ManagerPage.Manager.RenameFolder`, `ManagerPage.Manager.RemoveFolder`: both require the folder not to be `[Untagged]`, because the manager's context menu disables these actions there.
- `ManagerPage.Manager.Drop`, `ManagerPage.Manager.RemoveTagFrom`: they do not rebuild `allTags`, because the source does not either. The tag list can go stale until the next edit, delete or load.
